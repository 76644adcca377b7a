/** The user management dialog's create and edit forms: the checks run
    before `createUser` or `updateUser` is called, the trimmed values those
    calls receive, and what each outcome does to the form. */
module UserForm {

  import opened Common
  import opened Text

  /** The outcome of the two checks. */
  datatype Check = Valid | Missing | SpaceInUsername

  /** `!name.trim() || !username.trim()`, then `username.includes(" ")` on
      the untrimmed username. */
  function Validate(name: string, username: string): (r: Check)
    ensures r == Missing <==> AllSpace(name) || AllSpace(username)
    ensures r == SpaceInUsername <==> !AllSpace(name) && !AllSpace(username) && ' ' in username
    ensures r == Valid ==> Trim(name) != "" && Trim(username) != "" && ' ' !in Trim(username)
  {
    TrimEmptyIff(name);
    TrimEmptyIff(username);
    TrimMembers(username);
    if Trim(name) == "" || Trim(username) == "" then Missing
    else if ' ' in username then SpaceInUsername
    else Valid
  }

  const MissingText: string := "Nome e username s\U{00E3}o obrigat\U{00F3}rios"
  const SpaceText: string := "Username n\U{00E3}o pode conter espa\U{00E7}os"
  const CreateFailedText: string := "Erro ao criar usu\U{00E1}rio. Username pode j\U{00E1} estar em uso."
  const UpdateFailedText: string := "Erro ao atualizar usu\U{00E1}rio"

  /** The message a failed check shows. */
  function CheckText(c: Check): string
    requires c != Valid
  {
    if c == Missing then MissingText else SpaceText
  }

  /** The user being edited. */
  datatype Editing = Editing(id: UserId, name: string, username: string)

  class Dialog {
    /** `newUser`. */
    var name: string
    var username: string
    /** `editingUser`. */
    var editing: Option<Editing>
    /** `error`. */
    var error: string

    constructor ()
      ensures name == "" && username == "" && editing == None && error == ""
    {
      name := "";
      username := "";
      editing := None;
      error := "";
    }

    /** handleCreateUser; `success` is what `createUser` answers. A failed
        check makes no call; a call gets the trimmed values; the form is
        cleared only when the call succeeds. */
    method Create(success: bool) returns (call: Option<(string, string)>)
      modifies this
      ensures editing == old(editing)
      ensures Validate(old(name), old(username)) != Valid ==>
                && call.None? && name == old(name) && username == old(username)
                && error == CheckText(Validate(old(name), old(username)))
      ensures Validate(old(name), old(username)) == Valid ==>
                && call == Some((Trim(old(name)), Trim(old(username))))
                && (success ==> name == "" && username == "" && error == "")
                && (!success ==> name == old(name) && username == old(username) && error == CreateFailedText)
    {
      error := "";
      var check := Validate(name, username);
      if check != Valid {
        error := CheckText(check);
        return None;
      }
      call := Some((Trim(name), Trim(username)));
      if success {
        name := "";
        username := "";
      } else {
        error := CreateFailedText;
      }
    }

    /** handleUpdateUser; `success` is what `updateUser` answers. Without a
        user being edited nothing happens; otherwise the same checks, a call
        with the trimmed values, and the edit closes only on success. */
    method Update(success: bool) returns (call: Option<(UserId, string, string)>)
      modifies this
      ensures name == old(name) && username == old(username)
      ensures old(editing).None? ==> call.None? && editing == None && error == old(error)
      ensures old(editing).Some? ==>
                var e := old(editing).value;
                && (Validate(e.name, e.username) != Valid ==>
                      call.None? && editing == old(editing) && error == CheckText(Validate(e.name, e.username)))
                && (Validate(e.name, e.username) == Valid ==>
                      && call == Some((e.id, Trim(e.name), Trim(e.username)))
                      && (success ==> editing == None && error == "")
                      && (!success ==> editing == old(editing) && error == UpdateFailedText))
    {
      if editing.None? {
        return None;
      }
      var e := editing.value;
      error := "";
      var check := Validate(e.name, e.username);
      if check != Valid {
        error := CheckText(check);
        return None;
      }
      call := Some((e.id, Trim(e.name), Trim(e.username)));
      if success {
        editing := None;
      } else {
        error := UpdateFailedText;
      }
    }
  }

  /** A call is only ever made with a non-blank name and a non-blank
      username free of spaces. */
  lemma CallsAreClean(name: string, username: string)
    requires Validate(name, username) == Valid
    ensures !AllSpace(Trim(name)) && !AllSpace(Trim(username))
    ensures forall i :: 0 <= i < |Trim(username)| ==> Trim(username)[i] != ' '
  {
    TrimEmptyIff(Trim(name));
    TrimEmptyIff(Trim(username));
    TrimIdempotent(name);
    TrimIdempotent(username);
  }
}
