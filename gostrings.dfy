// The pieces of Go's standard library that the client relies on, over
// `string` = `seq<char>` (one char per rune): the ASCII character classes of
// RE2 (`\d`, `\w`, `\s`), `strings.Contains`, `strings.HasPrefix` and the
// decimal rendering of `fmt.Sprintf("%d", n)`.
module GoStrings {

  datatype Option<T> = None | Some(value: T)

  /** RE2 `\d`: ASCII digits only. */
  predicate IsDigit(c: char) { '0' <= c <= '9' }

  /** RE2 `\w`: `[0-9A-Za-z_]`. */
  predicate IsWord(c: char) { IsDigit(c) || 'A' <= c <= 'Z' || 'a' <= c <= 'z' || c == '_' }

  /** RE2 `\s`: `[\t\n\f\r ]` (no vertical tab). */
  predicate IsSpace(c: char) { c == '\t' || c == '\n' || c == '\U{000C}' || c == '\r' || c == ' ' }

  /** The class `[\w\s]`. */
  predicate IsWordOrSpace(c: char) { IsWord(c) || IsSpace(c) }

  /** The class `[^,]`; with Go's default flags it also matches a newline. */
  predicate IsNotComma(c: char) { c != ',' }

  /** What RE2's `.` matches without the `s` flag: anything but a newline. */
  predicate IsNotNewline(c: char) { c != '\n' }

  predicate All(s: string, cls: char -> bool) {
    forall k :: 0 <= k < |s| ==> cls(s[k])
  }

  /** The end of the longest run of `cls` characters starting at `i`:
      what a greedy `cls*` consumes from position `i`. */
  function Span(s: string, i: nat, cls: char -> bool): (j: nat)
    requires i <= |s|
    ensures i <= j <= |s|
    ensures forall k :: i <= k < j ==> cls(s[k])
    ensures j == |s| || !cls(s[j])
    decreases |s| - i
  {
    if i < |s| && cls(s[i]) then Span(s, i + 1, cls) else i
  }

  /** A run is determined by where it stops: used to compute spans of
      concatenated text. */
  lemma SpanIs(s: string, i: nat, j: nat, cls: char -> bool)
    requires i <= j <= |s|
    requires forall k :: i <= k < j ==> cls(s[k])
    requires j == |s| || !cls(s[j])
    ensures Span(s, i, cls) == j
  {
  }

  /** A run of `cls` characters between two positions is a string of them. */
  lemma AllSlice(s: string, i: nat, j: nat, cls: char -> bool)
    requires i <= j <= |s|
    requires forall k :: i <= k < j ==> cls(s[k])
    ensures All(s[i..j], cls)
  {
    assert forall k :: 0 <= k < j - i ==> s[i..j][k] == s[i + k];
  }

  /** The converse: every character of a slice of `cls` characters is one. */
  lemma SliceAll(s: string, i: nat, j: nat, cls: char -> bool)
    requires i <= j <= |s| && All(s[i..j], cls)
    ensures forall k :: i <= k < j ==> cls(s[k])
  {
    forall k | i <= k < j ensures cls(s[k]) {
      assert s[i..j][k - i] == s[k];
    }
  }

  /** Go's `strings.HasPrefix`: `s` starts with `prefix`, character by
      character. */
  predicate HasPrefix(s: string, prefix: string)
    ensures HasPrefix(s, prefix) <==>
      |prefix| <= |s| && forall i {:trigger prefix[i]} :: 0 <= i < |prefix| ==> s[i] == prefix[i]
  {
    |prefix| <= |s| && s[..|prefix|] == prefix
  }

  /** Go's `strings.Contains`: some suffix of `s` starts with `sub`. */
  function Contains(s: string, sub: string): (b: bool)
    ensures |s| < |sub| ==> !b
    ensures sub == [] ==> b
    decreases |s|
  {
    HasPrefix(s, sub) || (s != [] && Contains(s[1..], sub))
  }

  /** `sub` occurs in `s` at offset `k`. */
  predicate OccursAt(s: string, sub: string, k: int) {
    0 <= k <= |s| - |sub| && s[k..k + |sub|] == sub
  }

  /** `Contains` agrees with the textbook definition: an occurrence of `sub`
      at some offset of `s`. */
  lemma {:induction false} ContainsIff(s: string, sub: string)
    ensures Contains(s, sub) <==> exists k :: OccursAt(s, sub, k)
    decreases |s|
  {
    if s == [] {
      if exists k :: OccursAt(s, sub, k) {
        var k :| OccursAt(s, sub, k);
        assert sub == [] && HasPrefix(s, sub);
      }
      if Contains(s, sub) {
        assert OccursAt(s, sub, 0);
      }
    } else {
      ContainsIff(s[1..], sub);
      if Contains(s[1..], sub) {
        var k :| OccursAt(s[1..], sub, k);
        assert s[k + 1..k + 1 + |sub|] == s[1..][k..k + |sub|];
        assert OccursAt(s, sub, k + 1);
      }
      if HasPrefix(s, sub) {
        assert OccursAt(s, sub, 0);
      }
      if exists k :: OccursAt(s, sub, k) {
        var k :| OccursAt(s, sub, k);
        if k > 0 {
          assert s[1..][k - 1..k - 1 + |sub|] == s[k..k + |sub|];
          assert OccursAt(s[1..], sub, k - 1);
        }
      }
    }
  }

  /** Text placed anywhere in a reply is found in it. */
  lemma ContainsInfix(a: string, sub: string, b: string)
    ensures Contains(a + sub + b, sub)
  {
    var s := a + sub + b;
    assert s[|a|..|a| + |sub|] == sub;
    assert OccursAt(s, sub, |a|);
    ContainsIff(s, sub);
  }

  /** The digit character for 0..9. */
  function DigitChar(d: nat): (c: char)
    requires d < 10
    ensures IsDigit(c)
  {
    ['0', '1', '2', '3', '4', '5', '6', '7', '8', '9'][d]
  }

  /** The value of one digit character. */
  function DigitValue(c: char): (d: nat)
    requires IsDigit(c)
    ensures d < 10 && DigitChar(d) == c
  {
    (c as int - '0' as int) as nat
  }

  /** `fmt.Sprintf("%d", n)` for a non-negative `n`: base 10, no leading zero. */
  function NatDigits(n: nat): (r: string)
    ensures r != [] && All(r, IsDigit)
    ensures |r| > 1 ==> r[0] != '0'
    ensures r == "0" <==> n == 0
    decreases n
  {
    if n < 10 then [DigitChar(n)] else NatDigits(n / 10) + [DigitChar(n % 10)]
  }

  /** `fmt.Sprintf("%d", n)` for any `n`: a minus sign precedes a negative value. */
  function DecimalString(n: int): (r: string)
    ensures r != []
    ensures n >= 0 ==> All(r, IsDigit)
    ensures n < 0 ==> r[0] == '-' && All(r[1..], IsDigit)
  {
    if n < 0 then "-" + NatDigits(-n) else NatDigits(n)
  }

  /** The value a string of decimal digits denotes. */
  function DigitsValue(s: string): nat
    requires All(s, IsDigit)
    decreases |s|
  {
    if s == [] then 0 else DigitsValue(s[..|s| - 1]) * 10 + DigitValue(s[|s| - 1])
  }

  /** Reading back what `%d` wrote yields the number. */
  lemma {:induction false} NatDigitsRoundTrip(n: nat)
    ensures DigitsValue(NatDigits(n)) == n
    decreases n
  {
    var r := NatDigits(n);
    if n >= 10 {
      NatDigitsRoundTrip(n / 10);
      assert r[..|r| - 1] == NatDigits(n / 10);
      assert DigitValue(r[|r| - 1]) == n % 10;
    } else {
      assert r[..|r| - 1] == [];
    }
  }

  lemma NatDigitsInjective(a: nat, b: nat)
    requires NatDigits(a) == NatDigits(b)
    ensures a == b
  {
    NatDigitsRoundTrip(a);
    NatDigitsRoundTrip(b);
  }

  /** `%d` is injective: distinct multipliers give distinct commands. */
  lemma DecimalStringInjective(m: int, n: int)
    requires DecimalString(m) == DecimalString(n)
    ensures m == n
  {
    DecimalSign(m);
    DecimalSign(n);
    if m < 0 {
      SignInjective(NatDigits(-m), NatDigits(-n));
      NatDigitsInjective(-m, -n);
    } else {
      NatDigitsInjective(m, n);
    }
  }

  lemma SignInjective(a: string, b: string)
    requires "-" + a == "-" + b
    ensures a == b
  {
    assert a == ("-" + a)[1..];
    assert b == ("-" + b)[1..];
  }

  /** The rendering starts with a minus sign exactly for a negative number. */
  lemma DecimalSign(n: int)
    ensures DecimalString(n)[0] == '-' <==> n < 0
  {
    if n >= 0 {
      assert IsDigit(DecimalString(n)[0]);
    }
  }

  /** The full texts of `all` (element 0 of each submatch, as Go's
      `FindAllStringSubmatch` returns them) occur in `s` one after another,
      left to right and without overlapping. */
  ghost predicate InOrder(s: string, all: seq<seq<string>>)
    decreases |all|
  {
    all == [] ||
    (|all[0]| > 0 &&
     exists k :: OccursAt(s, all[0][0], k) && InOrder(s[k + |all[0][0]|..], all[1..]))
  }

  /** Matches found in a suffix of `s` are found, in the same order, in `s`. */
  lemma InOrderExtend(s: string, all: seq<seq<string>>)
    requires s != []
    requires InOrder(s[1..], all)
    ensures InOrder(s, all)
  {
    if all != [] {
      var f := all[0][0];
      var k :| OccursAt(s[1..], f, k) && InOrder(s[1..][k + |f|..], all[1..]);
      assert s[1..][k + |f|..] == s[k + 1 + |f|..];
      var a, b := s[k + 1..k + 1 + |f|], s[1..][k..k + |f|];
      assert a == b by {
        forall i | 0 <= i < |f| ensures a[i] == b[i] {
          assert s[1..][k + i] == s[k + 1 + i];
        }
      }
      assert OccursAt(s, f, k + 1);
    }
  }
}
