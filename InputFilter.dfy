/**
 * `englishEntegersCheck`: a key handler that lets through the keys an
 * integer may be typed with and cancels every other keystroke.
 */
module InputFilter {
  import opened Text
  import opened Outcomes

  /** A keyboard event: the key it carries and whether its default action was cancelled. */
  class KeyEvent {
    const key: string
    var defaultPrevented: bool

    constructor (key: string)
      ensures this.key == key && !defaultPrevented
    {
      this.key := key;
      defaultPrevented := false;
    }

    /** `preventDefault()`: cancels the default action of the keystroke. */
    method PreventDefault()
      modifies this
      ensures defaultPrevented
    {
      defaultPrevented := true;
    }
  }

  /** `[0-9]*` followed by the end of input: every remaining character is an ASCII digit. */
  function DigitsToEnd(s: string): bool {
    s == [] || (IsAsciiDigit(s[0]) && DigitsToEnd(s[1..]))
  }

  /**
   * `/^-?[0-9]*$/.test(key)`, tried the way the engine backtracks: first
   * with the optional '-' taken, then without it.
   */
  function IntegerKey(key: string): bool {
    (|key| > 0 && key[0] == '-' && DigitsToEnd(key[1..])) || DigitsToEnd(key)
  }

  lemma {:induction false} DigitsToEndIsAllDigits(s: string)
    ensures DigitsToEnd(s) <==> AllAsciiDigits(s)
  {
    if s != [] {
      DigitsToEndIsAllDigits(s[1..]);
      assert forall i :: 1 <= i < |s| ==> s[i] == s[1..][i - 1];
    }
  }

  /** A key is accepted exactly when it is an optional '-' followed by zero or more ASCII digits. */
  lemma IntegerKeyIsSignedDigits(key: string)
    ensures IntegerKey(key) <==> exists d :: AllAsciiDigits(d) && (key == d || key == "-" + d)
  {
    DigitsToEndIsAllDigits(key);
    if |key| > 0 {
      DigitsToEndIsAllDigits(key[1..]);
      if key[0] == '-' {
        assert key == "-" + key[1..];
      }
    }
    if exists d :: AllAsciiDigits(d) && key == "-" + d {
      var d :| AllAsciiDigits(d) && key == "-" + d;
      assert key[1..] == d;
    }
  }

  /** Keys the handler cancels and keys it lets through. */
  lemma IntegerKeyExamples()
    ensures !IntegerKey("a") && !IntegerKey("--") && !IntegerKey("5-") && !IntegerKey("Backspace")
    ensures IntegerKey("") && IntegerKey("-") && IntegerKey("7") && IntegerKey("-42")
  {
    assert "5-"[1..] == "-";
  }

  /**
   * `englishEntegersCheck(e)`: a rejected key has its default action
   * prevented and the handler returns nothing; an accepted key leaves the
   * event as it was and the handler returns it.
   */
  method EnglishEntegersCheck(e: KeyEvent) returns (r: Option<KeyEvent>)
    modifies e
    ensures !IntegerKey(e.key) ==> r == None && e.defaultPrevented
    ensures IntegerKey(e.key) ==> r == Some(e) && e.defaultPrevented == old(e.defaultPrevented)
  {
    if !IntegerKey(e.key) {
      e.PreventDefault();
      return None;
    }
    return Some(e);
  }
}
