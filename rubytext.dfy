/**
 * The pieces of Ruby's String behaviour the core relies on: the `\w` and `\s`
 * character classes, `to_s` of integers, `to_i`, `strip`, `split` on a
 * character, `end_with?`, `upcase` and the `gsub(/\W/, '-')` used for file names.
 */
module RubyText {

  /** Ruby's `\w`: ASCII letters, ASCII digits and the underscore. */
  predicate IsWordChar(c: char) {
    ('a' <= c <= 'z') || ('A' <= c <= 'Z') || ('0' <= c <= '9') || c == '_'
  }

  predicate IsDigit(c: char) {
    '0' <= c <= '9'
  }

  /** Ruby's `\s`: space, tab, line feed, vertical tab, form feed and carriage return. */
  predicate IsSpace(c: char) {
    c == ' ' || c == '\t' || c == '\n' || c == '\U{B}' || c == '\U{C}' || c == '\r'
  }

  /** The characters `String#strip` removes at either end: `\s` and NUL. */
  predicate IsStripChar(c: char) {
    IsSpace(c) || c == '\U{0}'
  }

  predicate NoneOf(s: string, c: char) {
    forall i :: 0 <= i < |s| ==> s[i] != c
  }

  predicate StartsWith(s: string, prefix: string) {
    |prefix| <= |s| && s[..|prefix|] == prefix
  }

  /** `String#end_with?`. */
  predicate EndsWith(s: string, suffix: string) {
    |suffix| <= |s| && s[|s| - |suffix|..] == suffix
  }

  // ----- Integer#to_s and String#to_i --------------------------------------------------------

  function DigitChar(d: nat): (c: char)
    requires d < 10
    ensures IsDigit(c) && DigitValue(c) == d
  {
    (d + '0' as int) as char
  }

  function DigitValue(c: char): nat
    requires IsDigit(c)
  {
    c as int - '0' as int
  }

  /** `Integer#to_s` of a non-negative integer: its decimal digits. */
  function NatToString(n: nat): (r: string)
    ensures |r| > 0
    ensures forall i :: 0 <= i < |r| ==> IsDigit(r[i])
    decreases n
  {
    if n < 10 then [DigitChar(n)] else NatToString(n / 10) + [DigitChar(n % 10)]
  }

  /** `Integer#to_s`. */
  function IntToString(i: int): string {
    if i < 0 then "-" + NatToString(-i) else NatToString(i)
  }

  function DropLeadingSpace(s: string): (r: string)
    decreases |s|
  {
    if |s| > 0 && IsSpace(s[0]) then DropLeadingSpace(s[1..]) else s
  }

  /**
   * Reads a run of decimal digits in which a single underscore may stand
   * between two digits, as Ruby's integer parser does, continuing from `acc`.
   */
  function Accumulate(t: string, acc: nat): nat
    decreases |t|
  {
    if |t| > 0 && IsDigit(t[0]) then Accumulate(t[1..], acc * 10 + DigitValue(t[0]))
    else if |t| > 1 && t[0] == '_' && IsDigit(t[1]) then Accumulate(t[2..], acc * 10 + DigitValue(t[1]))
    else acc
  }

  function LeadingDigits(t: string): nat {
    if |t| > 0 && IsDigit(t[0]) then Accumulate(t, 0) else 0
  }

  /**
   * `String#to_i`: leading whitespace, one optional sign, then the longest
   * digit run; anything after it is ignored and no digits at all gives 0.
   */
  function ToI(s: string): int {
    var t := DropLeadingSpace(s);
    if |t| > 0 && t[0] == '-' then -(LeadingDigits(t[1..]) as int)
    else if |t| > 0 && t[0] == '+' then LeadingDigits(t[1..])
    else LeadingDigits(t)
  }

  lemma {:induction false} AccumulateAppend(s: string, c: char, acc: nat)
    requires forall i :: 0 <= i < |s| ==> IsDigit(s[i])
    requires IsDigit(c)
    ensures Accumulate(s + [c], acc) == Accumulate(s, acc) * 10 + DigitValue(c)
    decreases |s|
  {
    if |s| == 0 {
      assert (s + [c])[1..] == [];
    } else {
      assert (s + [c])[1..] == s[1..] + [c];
      AccumulateAppend(s[1..], c, acc * 10 + DigitValue(s[0]));
    }
  }

  lemma {:induction false} AccumulateNatToString(n: nat)
    ensures Accumulate(NatToString(n), 0) == n
    decreases n
  {
    if n < 10 {
      assert [DigitChar(n)][1..] == [];
    } else {
      AccumulateNatToString(n / 10);
      AccumulateAppend(NatToString(n / 10), DigitChar(n % 10), 0);
    }
  }

  /** `to_i` of a digit run. */
  lemma ToIOfDigits(d: string)
    requires |d| > 0 && IsDigit(d[0])
    ensures ToI(d) == Accumulate(d, 0)
  {
    assert !IsSpace(d[0]) && d[0] != '-' && d[0] != '+';
    assert DropLeadingSpace(d) == d;
    assert LeadingDigits(d) == Accumulate(d, 0);
  }

  /** `to_i` of a digit run after a minus sign. */
  lemma ToIOfNegatedDigits(d: string)
    requires |d| > 0 && IsDigit(d[0])
    ensures ToI("-" + d) == -(Accumulate(d, 0) as int)
  {
    var t := "-" + d;
    assert DropLeadingSpace(t) == t;
    assert t[1..] == d;
  }

  /** `to_i` reads back what `to_s` wrote: the decimal form of an integer round-trips. */
  lemma ToIOfToS(i: int)
    ensures ToI(IntToString(i)) == i
  {
    var n: nat := if i < 0 then -i else i;
    AccumulateNatToString(n);
    if i < 0 {
      ToIOfNegatedDigits(NatToString(n));
    } else {
      ToIOfDigits(NatToString(n));
    }
  }

  /** `"0".to_i` is 0. */
  lemma ToIOfZero()
    ensures ToI("0") == 0
  {
    assert NatToString(0) == "0";
    ToIOfToS(0);
  }

  /** Distinct non-negative integers have distinct decimal forms. */
  lemma NatToStringInjective(m: nat, n: nat)
    requires m != n
    ensures NatToString(m) != NatToString(n)
  {
    ToIOfToS(m);
    ToIOfToS(n);
  }

  // ----- String#strip -------------------------------------------------------------------------

  function StripLeading(s: string): (r: string)
    decreases |s|
  {
    if |s| > 0 && IsStripChar(s[0]) then StripLeading(s[1..]) else s
  }

  function StripTrailing(s: string): (r: string)
    decreases |s|
  {
    if |s| > 0 && IsStripChar(s[|s| - 1]) then StripTrailing(s[..|s| - 1]) else s
  }

  /** `String#strip`. */
  function Strip(s: string): string {
    StripTrailing(StripLeading(s))
  }

  // ----- String#split on one character ---------------------------------------------------------

  /** Every field between occurrences of `c`, empty fields included (so never empty). */
  function SplitOn(s: string, c: char): (r: seq<string>)
    ensures |r| > 0
    decreases |s|
  {
    if s == [] then [[]]
    else
      var rest := SplitOn(s[1..], c);
      if s[0] == c then [[]] + rest else [[s[0]] + rest[0]] + rest[1..]
  }

  /** `Array#join(c)`. */
  function JoinWith(parts: seq<string>, c: char): string
    decreases |parts|
  {
    if |parts| == 0 then []
    else if |parts| == 1 then parts[0]
    else parts[0] + [c] + JoinWith(parts[1..], c)
  }

  function DropTrailingEmpty(parts: seq<string>): (r: seq<string>)
    ensures |r| <= |parts| && r == parts[..|r|]
    ensures |r| > 0 ==> r[|r| - 1] != []
    decreases |parts|
  {
    if |parts| > 0 && parts[|parts| - 1] == [] then DropTrailingEmpty(parts[..|parts| - 1]) else parts
  }

  /** Ruby's `String#split(c)`: the fields between separators, trailing empty fields dropped. */
  function RubySplit(s: string, c: char): seq<string> {
    DropTrailingEmpty(SplitOn(s, c))
  }

  lemma {:induction false} SplitWithoutSeparator(s: string, c: char)
    requires NoneOf(s, c)
    ensures SplitOn(s, c) == [s]
    decreases |s|
  {
    if s != [] {
      SplitWithoutSeparator(s[1..], c);
      assert [s[0]] + s[1..] == s;
    }
  }

  lemma {:induction false} SplitAfterField(p: string, c: char, rest: string)
    requires NoneOf(p, c)
    ensures SplitOn(p + [c] + rest, c) == [p] + SplitOn(rest, c)
    decreases |p|
  {
    if p == [] {
      assert ([c] + rest)[1..] == rest;
    } else {
      assert (p + [c] + rest)[1..] == p[1..] + [c] + rest;
      SplitAfterField(p[1..], c, rest);
      assert [p[0]] + p[1..] == p;
    }
  }

  /** Joining the fields of a split gives back the string. */
  lemma {:induction false} JoinOfSplit(s: string, c: char)
    ensures JoinWith(SplitOn(s, c), c) == s
    decreases |s|
  {
    if s != [] {
      JoinOfSplit(s[1..], c);
      var rest := SplitOn(s[1..], c);
      if s[0] == c {
        assert JoinWith([[]] + rest, c) == [] + [c] + JoinWith(rest, c);
      } else if |rest| == 1 {
        assert JoinWith([[s[0]] + rest[0]] + rest[1..], c) == [s[0]] + rest[0];
      } else {
        var parts := [[s[0]] + rest[0]] + rest[1..];
        assert parts[1..] == rest[1..];
        assert JoinWith(rest, c) == rest[0] + [c] + JoinWith(rest[1..], c);
      }
    }
  }

  /** Splitting a join of separator-free fields gives back the fields. */
  lemma {:induction false} SplitOfJoin(parts: seq<string>, c: char)
    requires |parts| > 0
    requires forall i :: 0 <= i < |parts| ==> NoneOf(parts[i], c)
    ensures SplitOn(JoinWith(parts, c), c) == parts
    decreases |parts|
  {
    if |parts| == 1 {
      SplitWithoutSeparator(parts[0], c);
    } else {
      SplitOfJoin(parts[1..], c);
      SplitAfterField(parts[0], c, JoinWith(parts[1..], c));
    }
  }

  // ----- odds and ends -------------------------------------------------------------------------

  /** Whether `needle` occurs in `hay`, as `hay[needle]` tests. */
  predicate IsSubstring(needle: string, hay: string) {
    exists i :: 0 <= i <= |hay| && StartsWith(hay[i..], needle)
  }

  /** `String#upcase` on ASCII letters. */
  function Upcase(s: string): (r: string)
    ensures |r| == |s|
    ensures forall i :: 0 <= i < |s| ==> !('a' <= r[i] <= 'z')
    ensures forall i :: 0 <= i < |s| ==> !('a' <= s[i] <= 'z') ==> r[i] == s[i]
    ensures forall i :: 0 <= i < |s| ==> 'a' <= s[i] <= 'z' ==> 'A' <= r[i] <= 'Z' && r[i] as int == s[i] as int - 32
  {
    seq(|s|, i requires 0 <= i < |s| => if 'a' <= s[i] <= 'z' then (s[i] as int - 32) as char else s[i])
  }

  /** `gsub(/\W/, '-')`: every character that is not a word character becomes `-`. */
  function ReplaceNonWord(s: string): (r: string)
    ensures |r| == |s|
    ensures forall i :: 0 <= i < |r| ==> (IsWordChar(s[i]) ==> r[i] == s[i]) && (!IsWordChar(s[i]) ==> r[i] == '-')
  {
    seq(|s|, i requires 0 <= i < |s| => if IsWordChar(s[i]) then s[i] else '-')
  }
}
