// Strings shared by the other modules: decimal numerals as printed by "%d",
// substring search and replacement.
module Text {
  datatype Option<+T> = None | Some(value: T) {
    predicate IsFailure() { None? }

    function PropagateFailure<U>(): Option<U>
      requires None?
    {
      None
    }

    function Extract(): T
      requires Some?
    {
      value
    }
  }

  predicate IsDigit(c: char) { '0' <= c <= '9' }

  predicate AllDigits(s: string) { forall i :: 0 <= i < |s| ==> IsDigit(s[i]) }

  function Digit(d: nat): (c: char)
    requires d < 10
    ensures IsDigit(c)
  {
    ('0' as int + d) as char
  }

  function ShowNat(n: nat): (s: string)
    ensures |s| >= 1 && AllDigits(s)
  {
    if n < 10 then [Digit(n)] else ShowNat(n / 10) + [Digit(n % 10)]
  }

  function Show(n: int): string {
    if n < 0 then "-" + ShowNat(-n) else ShowNat(n)
  }

  // The value of a digit string, most significant digit first.
  function NatValue(s: string): nat
    requires AllDigits(s)
  {
    if s == [] then 0
    else NatValue(s[..|s| - 1]) * 10 + (s[|s| - 1] as int - '0' as int)
  }

  lemma {:induction false} ShowNatValue(n: nat)
    ensures NatValue(ShowNat(n)) == n
  {
    if n < 10 {
      assert ShowNat(n)[..0] == "";
    } else {
      ShowNatValue(n / 10);
      assert ShowNat(n)[..|ShowNat(n)| - 1] == ShowNat(n / 10);
    }
  }

  lemma ShowNatInjective(m: nat, n: nat)
    requires ShowNat(m) == ShowNat(n)
    ensures m == n
  {
    ShowNatValue(m);
    ShowNatValue(n);
  }

  // ----- searching -----

  predicate At(s: string, i: nat, p: string) {
    i + |p| <= |s| && s[i..i + |p|] == p
  }

  predicate Contains(s: string, p: string) {
    exists i: nat :: i <= |s| && At(s, i, p)
  }

  // strings.IndexByte: the least index of c, or None.
  function IndexOf(s: string, c: char): (r: Option<nat>)
    ensures r.None? ==> c !in s
    ensures r.Some? ==> r.value < |s| && s[r.value] == c && c !in s[..r.value]
  {
    if s == "" then None
    else if s[0] == c then Some(0)
    else
      match IndexOf(s[1..], c)
      case None => None
      case Some(i) => assert s[..i + 1] == [s[0]] + s[1..][..i]; Some(i + 1)
  }

  lemma DropOne(s: string, i: nat, n: nat)
    requires 0 < i && i + n <= |s|
    ensures s[1..][i - 1..i - 1 + n] == s[i..i + n]
  {
    var a, b := s[1..][i - 1..i - 1 + n], s[i..i + n];
    assert forall k :: 0 <= k < n ==> a[k] == s[1..][i - 1 + k] == s[i + k] == b[k];
  }

  // strings.Index: the least position at which the non-empty p occurs, or None.
  function Find(s: string, p: string): (r: Option<nat>)
    requires p != ""
    ensures r.None? ==> forall i: nat :: i <= |s| ==> !At(s, i, p)
    ensures r.Some? ==> At(s, r.value, p) && forall i: nat :: i < r.value ==> !At(s, i, p)
  {
    if |s| < |p| then None
    else if s[..|p|] == p then Some(0)
    else
      var r := Find(s[1..], p);
      assert forall i: nat :: 0 < i <= |s| ==> At(s, i, p) == At(s[1..], i - 1, p) by {
        forall i: nat | 0 < i <= |s|
          ensures At(s, i, p) == At(s[1..], i - 1, p)
        {
          if i + |p| <= |s| { DropOne(s, i, |p|); }
        }
      }
      match r
      case None => None
      case Some(i) => Some(i + 1)
  }

  // strings.ReplaceAll for a non-empty pattern: leftmost, non-overlapping.
  function ReplaceAll(s: string, p: string, q: string): (r: string)
    requires p != ""
    decreases |s|
  {
    match Find(s, p)
    case None => s
    case Some(i) => s[..i] + q + ReplaceAll(s[i + |p|..], p, q)
  }

  // A shorter replacement shortens the text exactly when there is something to replace.
  lemma {:induction false} ReplaceAllLength(s: string, p: string, q: string)
    requires |q| < |p|
    ensures Contains(s, p) ==> |ReplaceAll(s, p, q)| < |s|
    ensures !Contains(s, p) ==> ReplaceAll(s, p, q) == s
    decreases |s|
  {
    match Find(s, p)
    case None =>
    case Some(i) =>
      assert At(s, i, p);
      ReplaceAllLength(s[i + |p|..], p, q);
  }
}
