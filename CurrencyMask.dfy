/**
 * `maskCurrency`: a global replace of the regular expression
 * `(\d{1,maxLength-3})(,)?(\d{2})` by group 1, the radix and group 3.
 * The regular expression engine is modelled by its matching rule for this
 * one pattern: positions are tried left to right; at a position the first
 * group takes as many ASCII digits as it may and gives them back one at a
 * time, and for each length the optional comma is tried present before
 * absent. A match is rewritten and the scan resumes after it; where nothing
 * matches one character is copied and the scan moves on.
 */
module CurrencyMask {
  import opened Text
  import opened Outcomes

  /**
   * The pattern the source builds: the first group is 1..maxLead ASCII
   * digits followed by the literal text `infix`, then an optional ',' and two
   * ASCII digits. `infix` is empty except when maxLength - 3 is negative: the
   * braces then do not form a quantifier and stand for themselves.
   */
  datatype Pattern = Pattern(maxLead: nat, infix: string)

  /**
   * `new RegExp(`(\\d{1,${maxLength - 3}})(,)?(\\d{2})`, "g")`: `\d{1,0}` is a
   * SyntaxError (numbers out of order in a quantifier), `\d{1,-k}` is a digit
   * followed by the literal text `{1,-k}`.
   */
  function MaskPattern(maxLength: int): (r: Result<Pattern>)
    ensures r.Thrown? <==> maxLength == 3
    ensures r.Ok? ==> r.value.maxLead >= 1
    ensures maxLength > 3 ==> r == Ok(Pattern(maxLength - 3, ""))
  {
    if maxLength - 3 >= 1 then Ok(Pattern(maxLength - 3, ""))
    else if maxLength - 3 == 0 then Thrown(SyntaxError)
    else Ok(Pattern(1, "{1," + IntToString(maxLength - 3) + "}"))
  }

  /** `n` ASCII digits start at `i`. */
  predicate DigitsAt(s: string, i: nat, n: nat) {
    i + n <= |s| && forall k :: i <= k < i + n ==> IsAsciiDigit(s[k])
  }

  /**
   * The pattern can match at `i` with a first group of `lead` digits and
   * the comma present or absent: the declarative reading of the pattern.
   */
  predicate Fits(s: string, i: nat, pat: Pattern, lead: nat, comma: bool) {
    && 1 <= lead <= pat.maxLead
    && DigitsAt(s, i, lead)
    && OccursAt(s, pat.infix, i + lead)
    && (comma ==> i + lead + |pat.infix| < |s| && s[i + lead + |pat.infix|] == ',')
    && DigitsAt(s, i + lead + |pat.infix| + (if comma then 1 else 0), 2)
  }

  /** The order in which backtracking tries alternatives: longer first group first, then comma before none. */
  predicate TriedBefore(lead1: nat, comma1: bool, lead2: nat, comma2: bool) {
    lead1 > lead2 || (lead1 == lead2 && comma1 && !comma2)
  }

  /** Where a match is found: the length of the first group and whether the comma was taken. */
  datatype Match = Match(lead: nat, comma: bool)

  /** The greedy `\d{1,max}`: the number of ASCII digits from `i` on, at most `max`. */
  function LeadRun(s: string, i: nat, max: nat): (n: nat)
    requires i <= |s|
    ensures n <= max && DigitsAt(s, i, n)
    ensures n < max && i + n < |s| ==> !IsAsciiDigit(s[i + n])
    decreases max
  {
    if max == 0 || i == |s| || !IsAsciiDigit(s[i]) then 0 else 1 + LeadRun(s, i + 1, max - 1)
  }

  /**
   * Backtracking over the first group's length, from `lead` down to 1: after
   * the group the literal infix, then ',' and two digits, else two digits.
   */
  function Backtrack(s: string, i: nat, pat: Pattern, lead: nat): Option<Match>
    decreases lead
  {
    if lead == 0 then None
    else if Fits(s, i, pat, lead, true) then Some(Match(lead, true))
    else if Fits(s, i, pat, lead, false) then Some(Match(lead, false))
    else Backtrack(s, i, pat, lead - 1)
  }

  /** One attempt of the regular expression at position `i`. */
  function MatchAt(s: string, i: nat, pat: Pattern): Option<Match>
    requires i <= |s|
  {
    Backtrack(s, i, pat, LeadRun(s, i, pat.maxLead))
  }

  /** Where the scan resumes after a match at `i`. */
  function MatchEnd(i: nat, pat: Pattern, m: Match): nat {
    i + m.lead + |pat.infix| + (if m.comma then 1 else 0) + 2
  }

  /** The replacement of a match at `i`: `[p1, p3].join(radix)`. */
  function Rewrite(s: string, i: nat, pat: Pattern, m: Match, radix: string): string
    requires MatchEnd(i, pat, m) <= |s|
  {
    s[i..i + m.lead + |pat.infix|] + radix + s[MatchEnd(i, pat, m) - 2..MatchEnd(i, pat, m)]
  }

  /**
   * The global replace from position `i` on: at each position either the
   * match found there is rewritten and the scan resumes after it, or one
   * character is copied.
   */
  function MaskFrom(s: string, i: nat, pat: Pattern, radix: string): string
    requires i <= |s|
    decreases |s| - i
  {
    if i == |s| then []
    else
      match MatchAt(s, i, pat)
      case Some(m) =>
        MatchBounds(s, i, pat);
        Rewrite(s, i, pat, m, radix) + MaskFrom(s, MatchEnd(i, pat, m), pat, radix)
      case None => [s[i]] + MaskFrom(s, i + 1, pat, radix)
  }

  /** `maskCurrency(value, maxLength, radix)`. */
  function MaskCurrency(value: string, maxLength: int, radix: string): (r: Result<string>)
    ensures r.Thrown? <==> maxLength == 3
    ensures r.Thrown? ==> r.error == SyntaxError
  {
    match MaskPattern(maxLength)
    case Thrown(e) => Thrown(e)
    case Ok(pat) => Ok(MaskFrom(value, 0, pat, radix))
  }

  /** Backtracking from `lead` finds the first fitting alternative in the order the engine tries them. */
  lemma {:induction false} BacktrackFindsFirst(s: string, i: nat, pat: Pattern, lead: nat)
    requires lead <= pat.maxLead && DigitsAt(s, i, lead)
    ensures Backtrack(s, i, pat, lead).None? <==>
              forall l: nat, c: bool :: 1 <= l <= lead ==> !Fits(s, i, pat, l, c)
    ensures Backtrack(s, i, pat, lead).Some? ==>
              var m := Backtrack(s, i, pat, lead).value;
              && m.lead <= lead && Fits(s, i, pat, m.lead, m.comma)
              && forall l: nat, c: bool :: l <= lead && TriedBefore(l, c, m.lead, m.comma) ==> !Fits(s, i, pat, l, c)
  {
    if lead == 0 {
    } else if Fits(s, i, pat, lead, true) {
      assert Backtrack(s, i, pat, lead) == Some(Match(lead, true));
    } else if Fits(s, i, pat, lead, false) {
      assert Backtrack(s, i, pat, lead) == Some(Match(lead, false));
    } else {
      assert DigitsAt(s, i, lead - 1);
      BacktrackFindsFirst(s, i, pat, lead - 1);
      assert Backtrack(s, i, pat, lead) == Backtrack(s, i, pat, lead - 1);
    }
  }

  /**
   * The attempt at `i` succeeds exactly when the pattern fits there, and it
   * picks the alternative backtracking reaches first: the longest first
   * group, and for that length the comma if it can be taken.
   */
  lemma MatchAtIsFirstFit(s: string, i: nat, pat: Pattern)
    requires i <= |s|
    ensures MatchAt(s, i, pat).None? <==> forall l: nat, c: bool :: !Fits(s, i, pat, l, c)
    ensures MatchAt(s, i, pat).Some? ==>
              var m := MatchAt(s, i, pat).value;
              && Fits(s, i, pat, m.lead, m.comma)
              && forall l: nat, c: bool :: TriedBefore(l, c, m.lead, m.comma) ==> !Fits(s, i, pat, l, c)
  {
    var run := LeadRun(s, i, pat.maxLead);
    BacktrackFindsFirst(s, i, pat, run);
    forall l: nat, c: bool | l > run ensures !Fits(s, i, pat, l, c) {
      assert i + run < |s| && DigitsAt(s, i, l) ==> IsAsciiDigit(s[i + run]);
    }
  }

  /** A match lies inside the string, so the scan resumes at a later position. */
  lemma MatchBounds(s: string, i: nat, pat: Pattern)
    requires i <= |s|
    ensures MatchAt(s, i, pat).Some? ==> i < MatchEnd(i, pat, MatchAt(s, i, pat).value) <= |s|
  {
    MatchAtIsFirstFit(s, i, pat);
  }

  /**
   * A match is 1..maxLength-3 digits, an optional ',' and two digits: a run
   * of at most maxLength-1 digits. It becomes the leading digits, the radix
   * and the last two digits.
   */
  lemma MatchShape(s: string, i: nat, maxLength: int, radix: string)
    requires maxLength > 3 && i <= |s|
    requires MatchAt(s, i, Pattern(maxLength - 3, "")).Some?
    ensures var pat := Pattern(maxLength - 3, "");
      var m := MatchAt(s, i, pat).value;
      var e := MatchEnd(i, pat, m);
      && 1 <= m.lead <= maxLength - 3 && m.lead + 2 <= maxLength - 1
      && DigitsAt(s, i, m.lead) && DigitsAt(s, e - 2, 2)
      && (m.comma ==> s[i + m.lead] == ',')
      && Rewrite(s, i, pat, m, radix) == s[i..i + m.lead] + radix + s[e - 2..e]
  {
    MatchAtIsFirstFit(s, i, Pattern(maxLength - 3, ""));
  }

  /** Where nothing matches at `i`, the scan copies one character and moves on. */
  lemma CopyStep(s: string, i: nat, pat: Pattern, radix: string)
    requires i < |s| && MatchAt(s, i, pat).None?
    ensures MaskFrom(s, i, pat, radix) == [s[i]] + MaskFrom(s, i + 1, pat, radix)
  {
  }

  /** Where a match is found at `i`, the scan rewrites it and resumes after it. */
  lemma RewriteStep(s: string, i: nat, pat: Pattern, radix: string)
    requires i < |s| && MatchAt(s, i, pat).Some?
    ensures var m := MatchAt(s, i, pat).value;
      MatchEnd(i, pat, m) <= |s| &&
      MaskFrom(s, i, pat, radix) == Rewrite(s, i, pat, m, radix) + MaskFrom(s, MatchEnd(i, pat, m), pat, radix)
  {
    MatchBounds(s, i, pat);
  }

  lemma PrependCopied(c: char, copied: string, rest: string)
    ensures [c] + (copied + rest) == ([c] + copied) + rest
  {
  }

  /** Without any match from `i` on, the rest of the string is copied unchanged. */
  lemma {:induction false} NoMatchCopies(s: string, i: nat, pat: Pattern, radix: string)
    requires i <= |s|
    requires forall j :: i <= j <= |s| ==> MatchAt(s, j, pat).None?
    ensures MaskFrom(s, i, pat, radix) == s[i..]
    decreases |s| - i
  {
    if i < |s| {
      NoMatchCopies(s, i + 1, pat, radix);
      CopyStep(s, i, pat, radix);
      SliceHead(s, i, |s|);
      assert s[i..] == s[i..|s|] && s[i + 1..] == s[i + 1..|s|];
    }
  }

  /** A value in which the pattern matches nowhere is returned unchanged. */
  lemma NoMatchUnchanged(value: string, maxLength: int, radix: string)
    requires maxLength != 3
    requires forall j :: 0 <= j <= |value| ==> MatchAt(value, j, MaskPattern(maxLength).value).None?
    ensures MaskCurrency(value, maxLength, radix) == Ok(value)
  {
    NoMatchCopies(value, 0, MaskPattern(maxLength).value, radix);
  }

  /**
   * The scan is leftmost-first: text before the first position where the
   * pattern matches is copied unchanged, that match is rewritten, and the
   * scan resumes right after it.
   */
  lemma {:induction false} LeftmostMatch(s: string, i: nat, j: nat, pat: Pattern, radix: string)
    requires i <= j < |s|
    requires forall p :: i <= p < j ==> MatchAt(s, p, pat).None?
    requires MatchAt(s, j, pat).Some?
    ensures var m := MatchAt(s, j, pat).value;
      MatchEnd(j, pat, m) <= |s| &&
      MaskFrom(s, i, pat, radix) == s[i..j] + (Rewrite(s, j, pat, m, radix) + MaskFrom(s, MatchEnd(j, pat, m), pat, radix))
    decreases j - i
  {
    MatchBounds(s, j, pat);
    if i < j {
      LeftmostMatch(s, i + 1, j, pat, radix);
      var m := MatchAt(s, j, pat).value;
      var rest := Rewrite(s, j, pat, m, radix) + MaskFrom(s, MatchEnd(j, pat, m), pat, radix);
      CopyStep(s, i, pat, radix);
      SliceHead(s, i, j);
      PrependCopied(s[i], s[i + 1..j], rest);
    } else {
      RewriteStep(s, j, pat, radix);
      assert s[j..j] == [];
    }
  }

  /**
   * A value that is wholly a run of 3 to maxLength-1 ASCII digits gets one
   * separator, before its last two digits: "1234567" becomes "12345,67" with the defaults.
   */
  lemma DigitRunMasked(s: string, maxLength: int, radix: string)
    requires maxLength > 3
    requires 3 <= |s| <= maxLength - 1 && DigitsAt(s, 0, |s|)
    ensures MaskCurrency(s, maxLength, radix) == Ok(s[..|s| - 2] + radix + s[|s| - 2..])
  {
    var pat := Pattern(maxLength - 3, "");
    MatchAtIsFirstFit(s, 0, pat);
    assert Fits(s, 0, pat, |s| - 2, false);
    forall l: nat, c: bool | TriedBefore(l, c, |s| - 2, false) ensures !Fits(s, 0, pat, l, c) {
    }
    var m := MatchAt(s, 0, pat).value;
    assert m == Match(|s| - 2, false);
    assert MatchEnd(0, pat, m) == |s|;
    assert MaskFrom(s, 0, pat, radix) == Rewrite(s, 0, pat, m, radix) + MaskFrom(s, |s|, pat, radix);
    assert Rewrite(s, 0, pat, m, radix) == s[..|s| - 2] + radix + s[|s| - 2..];
    assert MaskPattern(maxLength) == Ok(pat);
    assert MaskFrom(s, |s|, pat, radix) == [];
    assert MaskCurrency(s, maxLength, radix) == Ok(MaskFrom(s, 0, pat, radix));
    assert MaskFrom(s, 0, pat, radix) == s[..|s| - 2] + radix + s[|s| - 2..];
  }

  /**
   * A value that starts with at least maxLength-1 ASCII digits is cut after
   * them: the first match takes maxLength-3 digits and the next two, and the
   * scan resumes on the rest, whatever follows.
   */
  lemma LongDigitRunCut(s: string, maxLength: int, radix: string)
    requires maxLength > 3
    requires DigitsAt(s, 0, maxLength - 1)
    ensures var pat := Pattern(maxLength - 3, "");
      MaskFrom(s, 0, pat, radix)
      == s[..maxLength - 3] + radix + s[maxLength - 3..maxLength - 1] + MaskFrom(s, maxLength - 1, pat, radix)
  {
    var pat := Pattern(maxLength - 3, "");
    var n := maxLength - 3;
    MatchAtIsFirstFit(s, 0, pat);
    assert Fits(s, 0, pat, n, false);
    var m := MatchAt(s, 0, pat).value;
    assert m == Match(n, false);
    assert MatchEnd(0, pat, m) == maxLength - 1;
    assert Rewrite(s, 0, pat, m, radix) == s[..n] + radix + s[n..n + 2];
  }

  /** With a maximum length below 3 the braces are literal text: `\d{1,-1}` for maxLength 2. */
  lemma LiteralBracesBelowThree()
    ensures MaskPattern(2) == Ok(Pattern(1, "{1,-1}"))
  {
    assert NatToString(1) == "1";
    assert IntToString(-1) == "-1";
    assert "{1," + "-1" + "}" == "{1,-1}";
  }

  /** The default maximum length used by the source. */
  const DefaultMaxLength: int := 12

  /** The README's example: "1234567" becomes "12345,67", one separator only. */
  lemma MaskExample()
    ensures MaskCurrency("1234567", DefaultMaxLength, ",") == Ok("12345,67")
  {
    ExampleIsDigitRun();
    DigitRunMasked("1234567", DefaultMaxLength, ",");
    ExampleSplit();
  }

  lemma ExampleIsDigitRun()
    ensures DigitsAt("1234567", 0, 7)
  {
  }

  lemma ExampleSplit()
    ensures "1234567"[..5] + "," + "1234567"[5..] == "12345,67"
  {
  }
}
