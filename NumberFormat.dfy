/**
 * `shortenNumber`'s choice of scale: the loop that divides by 1000 and picks
 * a postfix from a fixed table. Numbers are exact reals here; the
 * `toFixed` rendering of the scaled value is not part of this model.
 */
module NumberFormat {

  /** The postfix table, kept literally (entries past 'B' are this code's own convention). */
  const NumberPostfixes: seq<string> := ["", "K", "M", "B", "KB", "MB", "BB"]

  /** The default `minimumValue`: numbers below a thousand are returned as they are. */
  const DefaultMinimumValue: real := 1000.0

  /**
   * What `shortenNumber` returns: the input itself when it is below the
   * minimum, otherwise the scaled value (rendered by `toFixed` in the
   * source) and the postfix that follows the space.
   */
  datatype Shortened = Unchanged(number: real) | Scaled(value: real, postfix: string)

  /** 1000 to the power k. */
  function Pow1000(k: nat): (p: real)
    ensures p >= 1.0
  {
    if k == 0 then 1.0 else 1000.0 * Pow1000(k - 1)
  }

  /**
   * How many times the loop divides `x` by 1000 when `budget` iterations
   * remain: it stops at the first value below 1000 or when the budget is spent.
   */
  function Divisions(x: real, budget: nat): (k: nat)
    ensures k <= budget
  {
    if budget == 0 || x < 1000.0 then 0 else 1 + Divisions(x / 1000.0, budget - 1)
  }

  /** The number of divisions `shortenNumber` performs on `x`. */
  function Scale(x: real): nat {
    Divisions(x, |NumberPostfixes|)
  }

  /** The postfix after k divisions: the table entry when the loop broke there, '' when it ran out. */
  function PostfixAfter(k: nat): string {
    if k < |NumberPostfixes| then NumberPostfixes[k] else ""
  }

  /**
   * `shortenNumber(number, toFix, minimumValue)` up to the `toFixed` rendering.
   * Below `minimumValue` the number comes back unchanged; otherwise it is
   * divided by 1000 until it is below 1000 (at most seven times) and the
   * postfix is the table entry at the index where the loop broke.
   */
  method ShortenNumber(number: real, minimumValue: real) returns (r: Shortened)
    ensures number < minimumValue ==> r == Unchanged(number)
    ensures number >= minimumValue ==> r.Scaled?
    ensures r.Scaled? ==> r.value * Pow1000(Scale(number)) == number
    ensures r.Scaled? ==> r.postfix == PostfixAfter(Scale(number))
  {
    if number < minimumValue {
      return Unchanged(number);
    }
    var n := number;
    var inputNumberPostFix := "";
    var i := 0;
    while i < |NumberPostfixes|
      invariant 0 <= i <= |NumberPostfixes|
      invariant n * Pow1000(i) == number
      invariant Scale(number) == i + Divisions(n, |NumberPostfixes| - i)
      invariant inputNumberPostFix == ""
    {
      if n < 1000.0 {
        inputNumberPostFix := NumberPostfixes[i];
        break;
      }
      n := n / 1000.0;
      i := i + 1;
    }
    r := Scaled(n, inputNumberPostFix);
  }

  /**
   * Every division the loop makes is of a value of at least 1000, and when
   * it stops early the value left is below 1000.
   */
  lemma {:induction false} DivisionsBounds(x: real, budget: nat)
    ensures forall j :: 0 <= j < Divisions(x, budget) ==> x >= 1000.0 * Pow1000(j)
    ensures Divisions(x, budget) < budget ==> x < 1000.0 * Pow1000(Divisions(x, budget))
  {
    if budget > 0 && x >= 1000.0 {
      var y := x / 1000.0;
      DivisionsBounds(y, budget - 1);
      var k := Divisions(x, budget);
      forall j | 0 <= j < k ensures x >= 1000.0 * Pow1000(j) {
        if j > 0 {
          assert y >= 1000.0 * Pow1000(j - 1);
        }
      }
    }
  }

  /**
   * When the loop breaks at index k the scaled value is below 1000 and, for
   * k > 0, at least 1; the postfix is the table entry at k.
   */
  lemma ScaleWhenBroken(x: real)
    requires Scale(x) < |NumberPostfixes|
    ensures var k := Scale(x);
      && x < 1000.0 * Pow1000(k) && (k > 0 ==> x >= Pow1000(k))
      && PostfixAfter(k) == NumberPostfixes[k]
  {
    DivisionsBounds(x, |NumberPostfixes|);
    var k := Scale(x);
    if k > 0 {
      assert x >= 1000.0 * Pow1000(k - 1);
    }
  }

  /** The loop runs out without breaking exactly when the number is at least 1000^7; the postfix is then ''. */
  lemma {:induction false} ScaleSaturates(x: real)
    ensures Scale(x) == |NumberPostfixes| <==> x >= Pow1000(|NumberPostfixes|)
    ensures Scale(x) == |NumberPostfixes| ==> PostfixAfter(Scale(x)) == ""
  {
    DivisionsBounds(x, |NumberPostfixes|);
    var k := Scale(x);
    if k == |NumberPostfixes| {
      assert x >= 1000.0 * Pow1000(6);
    }
  }

  /** Scales are exclusive: a number in [1000^k, 1000^(k+1)) with k < 7 is divided exactly k times. */
  lemma ScaleIsUnique(x: real, k: nat)
    requires k < |NumberPostfixes|
    requires (k == 0 || x >= Pow1000(k)) && x < Pow1000(k + 1)
    ensures Scale(x) == k
  {
    DivisionsBounds(x, |NumberPostfixes|);
    var s := Scale(x);
    if s < k {
      PowMonotone(s + 1, k);
    }
  }

  lemma {:induction false} PowMonotone(i: nat, j: nat)
    requires i <= j
    ensures Pow1000(i) <= Pow1000(j)
  {
    if i < j {
      PowMonotone(i, j - 1);
    }
  }

  /** 1500 is divided once and takes 'K'; 2 500 000 is divided twice and takes 'M'. */
  lemma ShortenExamples()
    ensures Scale(1500.0) == 1 && PostfixAfter(1) == "K" && 1.5 * Pow1000(1) == 1500.0
    ensures Scale(2500000.0) == 2 && PostfixAfter(2) == "M" && 2.5 * Pow1000(2) == 2500000.0
  {
    ScaleIsUnique(1500.0, 1);
    ScaleIsUnique(2500000.0, 2);
  }
}
