/**
 The `std::string` operations the lifecycle code relies on: `find` of a
 character or a substring from a start position, the first line that
 `std::getline` returns, and `std::to_string` on integers.
 */
module Text {
  import opened Common

  /** `p` occurs in `s` starting at index `i`. */
  predicate OccursAt(s: string, p: string, i: nat) {
    i + |p| <= |s| && s[i..i + |p|] == p
  }

  /** `i` is the first index at which `p` occurs in `s`. */
  predicate FirstOccurrence(s: string, p: string, i: nat) {
    OccursAt(s, p, i) && forall q: nat | q < i :: !OccursAt(s, p, q)
  }

  /** `s.find(c, from)`: the first index at or after `from` holding `c`, or npos (`None`). */
  function FindChar(s: string, c: char, from: nat): (r: Option<nat>)
    ensures r.Some? ==> from <= r.value < |s| && s[r.value] == c
    ensures r.Some? ==> forall j | from <= j < r.value :: s[j] != c
    ensures r.None? ==> forall j | from <= j < |s| :: s[j] != c
    decreases |s| - from
  {
    if from >= |s| then None
    else if s[from] == c then Some(from)
    else FindChar(s, c, from + 1)
  }

  /** `s.find(p, from)`: the first index at or after `from` where `p` occurs, or npos (`None`). */
  function FindSub(s: string, p: string, from: nat): (r: Option<nat>)
    ensures r.Some? ==> from <= r.value && OccursAt(s, p, r.value)
    ensures r.Some? ==> forall q: nat | from <= q < r.value :: !OccursAt(s, p, q)
    ensures r.None? ==> forall q: nat | from <= q :: !OccursAt(s, p, q)
    decreases |s| - from
  {
    if from + |p| > |s| then None
    else if s[from..from + |p|] == p then Some(from)
    else FindSub(s, p, from + 1)
  }

  /** `s.find(p) != npos`. */
  predicate Contains(s: string, p: string) {
    FindSub(s, p, 0).Some?
  }

  /** Any occurrence of `p` makes `s.find(p)` succeed, and at the first occurrence. */
  lemma FindSubFromStart(s: string, p: string, i: nat)
    requires FirstOccurrence(s, p, i)
    ensures FindSub(s, p, 0) == Some(i)
  {
  }

  /** An occurrence anywhere is enough for `Contains`. */
  lemma ContainsAt(s: string, p: string, i: nat)
    requires OccursAt(s, p, i)
    ensures Contains(s, p)
  {
  }

  /** `s` ends with `suffix`. */
  predicate EndsWith(s: string, suffix: string) {
    |suffix| <= |s| && s[|s| - |suffix|..] == suffix
  }

  /** What `std::getline` stores for the first line of a file with contents `c`:
      everything before the first newline, or all of `c` when it has none. */
  function FirstLine(c: string): (line: string)
    ensures '\n' !in line
    ensures |line| <= |c| && line == c[..|line|]
    ensures |line| < |c| ==> c[|line|] == '\n'
    ensures '\n' !in c ==> line == c
  {
    match FindChar(c, '\n', 0)
    case None => c
    case Some(i) => c[..i]
  }

  /** The first line of a text is the text itself when it holds no newline,
      and the part before the newline otherwise. */
  lemma FirstLineOfLine(line: string, rest: string)
    requires '\n' !in line
    ensures FirstLine(line) == line
    ensures FirstLine(line + "\n" + rest) == line
  {
    var c := line + "\n" + rest;
    assert c[|line|] == '\n';
    assert forall j | 0 <= j < |line| :: c[j] == line[j];
  }

  // ---- decimal formatting, as std::to_string does it for int ----

  predicate IsDigit(ch: char) {
    '0' <= ch <= '9'
  }

  predicate AllDigits(s: string) {
    forall i | 0 <= i < |s| :: IsDigit(s[i])
  }

  function DigitChar(d: nat): (ch: char)
    requires d < 10
    ensures IsDigit(ch) && (ch as int) - ('0' as int) == d
  {
    ('0' as int + d) as char
  }

  function DigitValue(ch: char): (d: nat)
    requires IsDigit(ch)
    ensures d < 10 && DigitChar(d) == ch
  {
    (ch as int) - ('0' as int)
  }

  /** Decimal representation of `n`, most significant digit first, without leading zeros. */
  function NatToDecimal(n: nat): (s: string)
    ensures 1 <= |s|
    ensures AllDigits(s)
    ensures |s| > 1 ==> s[0] != '0'
    decreases n
  {
    if n < 10 then [DigitChar(n)] else NatToDecimal(n / 10) + [DigitChar(n % 10)]
  }

  /** `std::to_string(i)`: a leading `-` for negative values, then the magnitude. */
  function IntToDecimal(i: int): (s: string)
    ensures 1 <= |s|
    ensures i < 0 <==> s[0] == '-'
  {
    if i < 0 then "-" + NatToDecimal(-i) else NatToDecimal(i)
  }

  /** The value of a string of decimal digits. */
  function DecimalValue(s: string): nat
    requires AllDigits(s)
  {
    if |s| == 0 then 0 else DecimalValue(s[..|s| - 1]) * 10 + DigitValue(s[|s| - 1])
  }

  /** The value of a signed decimal string. */
  function SignedDecimalValue(s: string): int
    requires 1 <= |s|
    requires s[0] == '-' ==> AllDigits(s[1..])
    requires s[0] != '-' ==> AllDigits(s)
  {
    if s[0] == '-' then -(DecimalValue(s[1..]) as int) else DecimalValue(s)
  }

  /** Formatting then reading back gives the original number. */
  lemma {:induction false} NatToDecimalRoundTrip(n: nat)
    ensures DecimalValue(NatToDecimal(n)) == n
    decreases n
  {
    var s := NatToDecimal(n);
    if n >= 10 {
      NatToDecimalRoundTrip(n / 10);
      assert s[..|s| - 1] == NatToDecimal(n / 10);
    }
  }

  /** `std::to_string` is injective: reading back the text gives the original integer. */
  lemma IntToDecimalRoundTrip(i: int)
    ensures i < 0 ==> AllDigits(IntToDecimal(i)[1..])
    ensures i >= 0 ==> AllDigits(IntToDecimal(i))
    ensures SignedDecimalValue(IntToDecimal(i)) == i
  {
    var s := IntToDecimal(i);
    if i < 0 {
      assert s[1..] == NatToDecimal(-i);
      NatToDecimalRoundTrip(-i);
    } else {
      NatToDecimalRoundTrip(i);
    }
  }
}
