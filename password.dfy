/** The password hash of lib/password-utils.ts: a 32-bit shift-and-add hash
    over the UTF-16 code units of the password, salted with seven times the
    length and written in lowercase base 16 without a sign. */
module Password {

  /** One UTF-16 code unit, as `charCodeAt` returns it. */
  type CodeUnit = c: int | 0 <= c < 0x1_0000

  const Two31: int := 0x8000_0000
  const Two32: int := 0x1_0000_0000

  predicate IsInt32(x: int)
  {
    -Two31 <= x < Two31
  }

  /** JavaScript's ToInt32, applied by `<<` and by `hash & hash`: the value
      congruent to `x` modulo 2^32 in the signed 32-bit range. */
  function ToInt32(x: int): (r: int)
    ensures IsInt32(r)
    ensures IsInt32(x) ==> r == x
  {
    (x + Two31) % Two32 - Two31
  }

  /** Wrapping changes a value by a multiple of 2^32 only. */
  lemma ToInt32Congruent(x: int)
    ensures exists k :: ToInt32(x) == x + k * Two32
  {
    var q := (x + Two31) / Two32;
    assert x + Two31 == q * Two32 + (x + Two31) % Two32;
    assert ToInt32(x) == x + (-q) * Two32;
  }

  /** One turn of the loop: `hash = (hash << 5) - hash + char`, then
      `hash = hash & hash`. */
  function Step(hash: int, c: CodeUnit): (r: int)
    ensures IsInt32(r)
    ensures exists k :: r == hash * 31 + c + k * Two32
  {
    var inner := ToInt32(hash * 32) - hash + c;
    assert exists k :: ToInt32(inner) == hash * 31 + c + k * Two32 by {
      ToInt32Congruent(hash * 32);
      ToInt32Congruent(inner);
      var k1 :| ToInt32(hash * 32) == hash * 32 + k1 * Two32;
      var k2 :| ToInt32(inner) == inner + k2 * Two32;
      assert ToInt32(inner) == hash * 31 + c + (k1 + k2) * Two32;
    }
    ToInt32(inner)
  }

  /** The hash after the loop has seen every code unit of `s`. */
  function HashCode(s: seq<CodeUnit>): (r: int)
    ensures IsInt32(r)
    decreases |s|
  {
    if |s| == 0 then 0 else Step(HashCode(s[..|s| - 1]), s[|s| - 1])
  }

  function Abs(x: int): nat
  {
    if x < 0 then -x else x
  }

  function HexDigit(d: nat): char
    requires d < 16
  {
    "0123456789abcdef"[d]
  }

  /** `n.toString(16)`: lowercase digits, most significant first, no
      leading zero. */
  function Hex(n: nat): (r: string)
    ensures |r| > 0
  {
    if n < 16 then [HexDigit(n)] else Hex(n / 16) + [HexDigit(n % 16)]
  }

  predicate IsHexDigit(c: char)
  {
    '0' <= c <= '9' || 'a' <= c <= 'f'
  }

  function DigitValue(c: char): nat
    requires IsHexDigit(c)
  {
    if c <= '9' then c as int - '0' as int else c as int - 'a' as int + 10
  }

  /** Reading a lowercase hexadecimal numeral back. */
  function HexValue(s: string): nat
    requires forall i :: 0 <= i < |s| ==> IsHexDigit(s[i])
    decreases |s|
  {
    if |s| == 0 then 0 else HexValue(s[..|s| - 1]) * 16 + DigitValue(s[|s| - 1])
  }

  /** `Hex` writes only lowercase hex digits, never starts with a zero
      except for zero itself, and reads back as the number it wrote. */
  lemma {:induction false} HexRoundTrip(n: nat)
    ensures forall i :: 0 <= i < |Hex(n)| ==> IsHexDigit(Hex(n)[i])
    ensures Hex(n)[0] == '0' <==> n == 0
    ensures HexValue(Hex(n)) == n
  {
    if n >= 16 {
      HexRoundTrip(n / 16);
      DigitRoundTrip(n % 16);
      var h := Hex(n);
      assert h[..|h| - 1] == Hex(n / 16);
      assert HexValue(h) == HexValue(Hex(n / 16)) * 16 + n % 16;
    } else {
      DigitRoundTrip(n);
    }
  }

  lemma DigitRoundTrip(d: nat)
    requires d < 16
    ensures IsHexDigit(HexDigit(d)) && DigitValue(HexDigit(d)) == d
    ensures HexDigit(d) == '0' <==> d == 0
  {
  }

  /** Different numbers are written differently. */
  lemma HexInjective(a: nat, b: nat)
    requires Hex(a) == Hex(b)
    ensures a == b
  {
    HexRoundTrip(a);
    HexRoundTrip(b);
  }

  /** The string `hashPassword` returns: "0" for the empty password,
      otherwise the absolute value of the salted hash in base 16. */
  function HashText(password: seq<CodeUnit>): (r: string)
    ensures r != ""
    ensures |password| == 0 ==> r == "0"
  {
    if |password| == 0 then "0" else Hex(Abs(HashCode(password) + 7 * |password|))
  }

  /** hashPassword, with its loop. */
  method HashPassword(password: seq<CodeUnit>) returns (r: string)
    ensures r == HashText(password)
  {
    var hash := 0;
    if |password| == 0 {
      return "0";
    }
    for i := 0 to |password|
      invariant hash == HashCode(password[..i])
    {
      assert password[..i + 1][..i] == password[..i];
      hash := ToInt32(hash * 32) - hash + password[i];
      hash := ToInt32(hash);
    }
    assert password[..|password|] == password;
    var salt := |password| * 7;
    hash := hash + salt;
    r := Hex(Abs(hash));
  }

  /** verifyPassword: equality with a freshly computed hash. */
  method VerifyPassword(password: seq<CodeUnit>, hashed: string) returns (ok: bool)
    ensures ok <==> HashText(password) == hashed
  {
    var h := HashPassword(password);
    ok := h == hashed;
  }

  /** The hash text is a lowercase hexadecimal numeral without leading
      zeros whose value is the absolute salted hash; the empty password
      hashes to "0". */
  lemma HashTextShape(password: seq<CodeUnit>)
    ensures var t := HashText(password);
            && (forall i :: 0 <= i < |t| ==> IsHexDigit(t[i]))
            && (t[0] == '0' ==> t == "0")
            && HexValue(t) == Abs(HashCode(password) + 7 * |password|)
            && (|password| == 0 ==> t == "0")
  {
    HexRoundTrip(Abs(HashCode(password) + 7 * |password|));
    if |password| > 0 {
      var n := Abs(HashCode(password) + 7 * |password|);
      if HashText(password)[0] == '0' {
        assert n == 0;
      }
    }
  }

  /** Two passwords share a hash text exactly when their salted hashes have
      the same absolute value. */
  lemma SameTextIffSameMagnitude(p: seq<CodeUnit>, q: seq<CodeUnit>)
    ensures HashText(p) == HashText(q) <==>
            Abs(HashCode(p) + 7 * |p|) == Abs(HashCode(q) + 7 * |q|)
  {
    if HashText(p) == HashText(q) {
      HexInjective(Abs(HashCode(p) + 7 * |p|), Abs(HashCode(q) + 7 * |q|));
    }
  }
}
