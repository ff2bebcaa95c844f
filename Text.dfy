/**
 * The few JavaScript string built-ins the helpers rely on, over `string`
 * (a sequence of code points): decimal rendering of integers
 * (`Number.prototype.toString`), `padStart` with a one-character filler,
 * `indexOf` of a substring, `replace` with a string pattern (first
 * occurrence only), `split` and `join` on a one-character separator.
 */
module Text {

  predicate IsAsciiDigit(c: char) {
    '0' <= c <= '9'
  }

  predicate AllAsciiDigits(s: string) {
    forall i :: 0 <= i < |s| ==> IsAsciiDigit(s[i])
  }

  function DigitChar(d: nat): (c: char)
    requires d < 10
    ensures IsAsciiDigit(c)
  {
    ('0' as int + d) as char
  }

  function DigitValue(c: char): (d: nat)
    requires IsAsciiDigit(c)
    ensures d < 10 && DigitChar(d) == c
  {
    c as int - '0' as int
  }

  /** The number a run of ASCII digits denotes, read most significant first. */
  function DigitsValue(s: string): nat
    requires AllAsciiDigits(s)
  {
    if s == [] then 0 else DigitsValue(s[..|s| - 1]) * 10 + DigitValue(s[|s| - 1])
  }

  /** `n.toString()` for a non-negative integer: its shortest decimal spelling. */
  function NatToString(n: nat): (r: string)
    ensures 1 <= |r| && AllAsciiDigits(r)
    ensures |r| == 1 <==> n < 10
    ensures n < 100 ==> |r| <= 2
    ensures |r| > 1 ==> r[0] != '0'
  {
    if n < 10 then [DigitChar(n)] else NatToString(n / 10) + [DigitChar(n % 10)]
  }

  /** `i.toString()` for any integer: a minus sign in front of a negative one. */
  function IntToString(i: int): (r: string)
    ensures 1 <= |r|
    ensures i >= 0 ==> AllAsciiDigits(r) && DigitsValue(r) == i
    ensures i < 0 ==> r[0] == '-' && AllAsciiDigits(r[1..]) && DigitsValue(r[1..]) == -i
  {
    if i < 0 then
      NatToStringRoundTrip(-i);
      assert ("-" + NatToString(-i))[1..] == NatToString(-i);
      "-" + NatToString(-i)
    else
      NatToStringRoundTrip(i);
      NatToString(i)
  }

  /** Rendering a natural number and reading it back gives the number. */
  lemma {:induction false} NatToStringRoundTrip(n: nat)
    ensures DigitsValue(NatToString(n)) == n
  {
    if n >= 10 {
      var r := NatToString(n);
      NatToStringRoundTrip(n / 10);
      assert r[..|r| - 1] == NatToString(n / 10);
    }
  }

  /** A leading zero does not change the value of a run of digits. */
  lemma {:induction false} LeadingZero(s: string)
    requires AllAsciiDigits(s)
    ensures AllAsciiDigits("0" + s) && DigitsValue("0" + s) == DigitsValue(s)
  {
    if s != [] {
      LeadingZero(s[..|s| - 1]);
      assert ("0" + s)[..|s|] == "0" + s[..|s| - 1];
    }
  }

  function Repeat(c: char, n: nat): (r: string)
    ensures |r| == n && forall i :: 0 <= i < n ==> r[i] == c
  {
    if n == 0 then [] else [c] + Repeat(c, n - 1)
  }

  /** `s.padStart(width, fill)` with a one-character filler. */
  function PadStart(s: string, width: nat, fill: char): (r: string)
    ensures |r| == if |s| >= width then |s| else width
    ensures r[|r| - |s|..] == s
    ensures forall i :: 0 <= i < |r| - |s| ==> r[i] == fill
  {
    if |s| >= width then s else Repeat(fill, width - |s|) + s
  }

  /**
   * `n.toString().padStart(2, '0')`, the two-digit field of the time
   * helpers: at least two ASCII digits, and a value of two or more digits is
   * left as it is.
   */
  function Pad2(n: nat): (r: string)
    ensures 2 <= |r| && AllAsciiDigits(r)
    ensures n >= 10 ==> r == NatToString(n)
  {
    PadStart(NatToString(n), 2, '0')
  }

  /** Below 100 the padded field is exactly two ASCII digits that read back as `n`. */
  lemma Pad2TwoDigits(n: nat)
    requires n < 100
    ensures |Pad2(n)| == 2 && AllAsciiDigits(Pad2(n)) && DigitsValue(Pad2(n)) == n
  {
    var d := NatToString(n);
    NatToStringRoundTrip(n);
    if |d| < 2 {
      assert Pad2(n) == "0" + d;
      LeadingZero(d);
    }
  }

  /** A slice is its first element followed by the rest. */
  lemma SliceHead(s: string, i: nat, j: nat)
    requires i < j <= |s|
    ensures s[i..j] == [s[i]] + s[i + 1..j]
  {
  }

  /** `p` occurs in `s` starting at index `k`. */
  predicate OccursAt(s: string, p: string, k: nat) {
    k + |p| <= |s| && s[k..k + |p|] == p
  }

  /** `k` is where `s.indexOf(p)` finds `p`: an occurrence with none before it. */
  predicate FirstOccurrence(s: string, p: string, k: nat) {
    OccursAt(s, p, k) && forall j :: 0 <= j < k ==> !OccursAt(s, p, j)
  }

  /** `s.indexOf(p, from)`: the first occurrence at or after `from`, or -1. */
  function IndexOfFrom(s: string, p: string, from: nat): (k: int)
    requires from <= |s|
    ensures k == -1 || from <= k <= |s|
    ensures k == -1 <==> forall j :: from <= j <= |s| ==> !OccursAt(s, p, j)
    ensures k != -1 ==> OccursAt(s, p, k) && forall j :: from <= j < k ==> !OccursAt(s, p, j)
    decreases |s| - from
  {
    if OccursAt(s, p, from) then from
    else if from == |s| then -1
    else IndexOfFrom(s, p, from + 1)
  }

  /**
   * `s.replace(p, rep)` with a string pattern: only the first occurrence is
   * replaced; without an occurrence the string comes back unchanged.
   */
  function ReplaceFirst(s: string, p: string, rep: string): (r: string)
    ensures (forall j :: 0 <= j <= |s| ==> !OccursAt(s, p, j)) ==> r == s
    ensures forall k :: 0 <= k <= |s| && FirstOccurrence(s, p, k) ==>
              r == s[..k] + rep + s[k + |p|..]
  {
    var k := IndexOfFrom(s, p, 0);
    if k == -1 then s else s[..k] + rep + s[k + |p|..]
  }

  /**
   * Replacing a pattern whose first character does not occur before it
   * rewrites exactly that occurrence.
   */
  lemma ReplaceAt(pre: string, p: string, post: string, rep: string)
    requires |p| >= 1 && p[0] !in pre
    ensures ReplaceFirst(pre + p + post, p, rep) == pre + rep + post
  {
    var s := pre + p + post;
    assert OccursAt(s, p, |pre|);
    forall j | 0 <= j < |pre| ensures !OccursAt(s, p, j) {
      assert s[j] == pre[j];
    }
    assert FirstOccurrence(s, p, |pre|);
    assert s[..|pre|] == pre && s[|pre| + |p|..] == post;
  }

  /** Replacing a pattern whose first character does not occur at all changes nothing. */
  lemma ReplaceAbsent(s: string, p: string, rep: string)
    requires |p| >= 1
    ensures p[0] !in s ==> ReplaceFirst(s, p, rep) == s
  {
    if p[0] !in s {
      forall j | 0 <= j <= |s| ensures !OccursAt(s, p, j) {
        assert j + |p| <= |s| ==> s[j..j + |p|][0] == s[j];
      }
    }
  }

  /** `s.split(sep)` for a one-character separator: never empty, `"".split(sep) == [""]`. */
  function Split(s: string, sep: char): (fields: seq<string>)
    ensures |fields| >= 1
  {
    if s == [] then [[]]
    else
      var rest := Split(s[1..], sep);
      if s[0] == sep then [[]] + rest else [[s[0]] + rest[0]] + rest[1..]
  }

  /** `fields.join(sep)` for a one-character separator: the first field, then the separator if more follow. */
  function Join(fields: seq<string>, sep: char): (r: string)
    requires |fields| >= 1
    ensures |fields[0]| <= |r| && r[..|fields[0]|] == fields[0]
    ensures |fields| > 1 ==> |fields[0]| < |r| && r[|fields[0]|] == sep
    decreases |fields|
  {
    if |fields| == 1 then fields[0] else fields[0] + [sep] + Join(fields[1..], sep)
  }

  /** No field of a split holds the separator, and joining the fields gives the string back. */
  lemma {:induction false} SplitJoin(s: string, sep: char)
    ensures Join(Split(s, sep), sep) == s
    ensures forall f :: f in Split(s, sep) ==> sep !in f
  {
    if s != [] {
      SplitJoin(s[1..], sep);
      var rest := Split(s[1..], sep);
      if s[0] != sep && |rest| > 1 {
        assert Split(s, sep)[1..] == rest[1..];
      }
    }
  }

  /** Joining fields free of the separator and splitting again gives the fields back. */
  lemma {:induction false} JoinSplit(fields: seq<string>, sep: char)
    requires |fields| >= 1
    requires forall f :: f in fields ==> sep !in f
    ensures Split(Join(fields, sep), sep) == fields
  {
    if |fields| == 1 {
      SplitNoSeparator(fields[0], sep);
    } else {
      JoinSplit(fields[1..], sep);
      SplitPrefix(fields[0], Join(fields[1..], sep), sep);
    }
  }

  lemma {:induction false} SplitNoSeparator(s: string, sep: char)
    requires sep !in s
    ensures Split(s, sep) == [s]
  {
    if s != [] {
      SplitNoSeparator(s[1..], sep);
      assert [s[0]] + s[1..] == s;
    }
  }

  lemma {:induction false} SplitPrefix(f: string, tail: string, sep: char)
    requires sep !in f
    ensures Split(f + [sep] + tail, sep) == [f] + Split(tail, sep)
  {
    if f != [] {
      assert (f + [sep] + tail)[1..] == f[1..] + [sep] + tail;
      SplitPrefix(f[1..], tail, sep);
      var rest := Split(f[1..] + [sep] + tail, sep);
      assert rest[0] == f[1..] && rest[1..] == Split(tail, sep);
      assert [f[0]] + f[1..] == f;
    } else {
      assert (f + [sep] + tail)[1..] == tail;
    }
  }
}
