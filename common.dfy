/** Shared vocabulary of the guild queue manager: identifiers, roles, item
    statuses, the signed-in user and the queue rows the screens receive. */
module Common {

  datatype Option<T> = None | Some(value: T)

  type ItemId = string
  type QueueId = string
  type UserId = string
  /** Drop events and participant rows get their identifiers from the store;
      the model numbers them. */
  type EventId = nat

  /** A sequence of store writes whose write number `write` (counting
      from 0) fails: that write and everything after it does not happen. */
  datatype Fault = NoFault | FailAt(write: nat)

  predicate Runs(f: Fault, k: nat)
  {
    f.NoFault? || k < f.write
  }

  /** The two account roles: "master" and "user". */
  datatype Role = Master | Member

  /** The CHECK constraint on queue_items.status. */
  datatype Status = Waiting | Approved | Completed

  /** The CHECK constraint on drop_participants.action. */
  datatype Action = Accept | Skip | Decline

  datatype AuthUser = AuthUser(id: UserId, name: string, username: string, role: Role)

  /** One queue item as the screens see it after a refresh. */
  datatype QueueEntry = QueueEntry(id: ItemId, name: string, position: int, status: Status, requestedBy: UserId)

  /** A queue with its items as the drop screens receive it. The shared
      queue list they read is refreshed with only each queue's id, title
      and items, so `item_name` and `image_url` arrive absent (`None`) there;
      the options let the screens' fallbacks for a missing name or image
      take effect. */
  datatype QueueInfo = QueueInfo(id: QueueId, itemName: Option<string>, imageUrl: Option<string>, items: seq<QueueEntry>)

  /** No two entries share an id, as the primary key guarantees. */
  predicate UniqueIds(s: seq<QueueEntry>)
  {
    forall i, j :: 0 <= i < j < |s| ==> s[i].id != s[j].id
  }

  /** `user?.role === "master"`: false when nobody is signed in. */
  predicate IsMaster(user: Option<AuthUser>)
  {
    user.Some? && user.value.role == Master
  }

  /** `queues.find(q => q.id === id)`: the first queue with that id. */
  function FindQueue(queues: seq<QueueInfo>, id: QueueId): (r: Option<QueueInfo>)
    ensures r.None? <==> forall q :: q in queues ==> q.id != id
    ensures r.Some? ==> r.value in queues && r.value.id == id
    ensures r.Some? ==> exists k :: 0 <= k < |queues| && queues[k] == r.value &&
                                    forall j :: 0 <= j < k ==> queues[j].id != id
  {
    if |queues| == 0 then None
    else if queues[0].id == id then Some(queues[0])
    else
      var r := FindQueue(queues[1..], id);
      if r.Some? then
        ghost var k :| 0 <= k < |queues[1..]| && queues[1..][k] == r.value &&
                       forall j :: 0 <= j < k ==> queues[1..][j].id != id;
        assert queues[k + 1] == r.value;
        r
      else r
  }
}
