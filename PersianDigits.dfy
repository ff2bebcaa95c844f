/**
 * Persian numerals to ASCII digits: the single-glyph lookup
 * `persianToEnglishNumber` and the digit translation of the slash-separated
 * date that `getTodayInPersian` performs on the platform's Persian rendering.
 */
module PersianDigits {
  import opened Text
  import opened Outcomes

  /** The Persian numeral glyphs U+06F0..U+06F9, in order of value. */
  const PersianNumbers: seq<string> := ["۰", "۱", "۲", "۳", "۴", "۵", "۶", "۷", "۸", "۹"]

  const EnglishNumbers: seq<string> := ["0", "1", "2", "3", "4", "5", "6", "7", "8", "9"]

  predicate IsPersianNumeral(c: char) {
    '۰' <= c <= '۹'
  }

  /** The value of a Persian numeral: its distance from U+06F0. */
  function NumeralValue(c: char): (d: nat)
    requires IsPersianNumeral(c)
    ensures d < 10
  {
    c as int - '۰' as int
  }

  /** Entry i of the two tables is the numeral, respectively the ASCII digit, of value i. */
  lemma Tables()
    ensures |PersianNumbers| == 10 && |EnglishNumbers| == 10
    ensures forall i :: 0 <= i < 10 ==> |PersianNumbers[i]| == 1 && IsPersianNumeral(PersianNumbers[i][0])
    ensures forall i :: 0 <= i < 10 ==> NumeralValue(PersianNumbers[i][0]) == i
    ensures forall i :: 0 <= i < 10 ==> EnglishNumbers[i] == [DigitChar(i)]
  {
  }

  /** A string is in the glyph table exactly when it is one Persian numeral. */
  lemma InPersianNumbers(x: string)
    ensures x in PersianNumbers <==> |x| == 1 && IsPersianNumeral(x[0])
  {
    Tables();
    if |x| == 1 && IsPersianNumeral(x[0]) {
      assert PersianNumbers[NumeralValue(x[0])] == x;
    }
  }

  /** `list.indexOf(x)` on an array of strings: the first index holding `x`, or -1. */
  function IndexOf(list: seq<string>, x: string): (k: int)
    ensures -1 <= k < |list|
    ensures k == -1 <==> x !in list
    ensures k >= 0 ==> list[k] == x && forall j :: 0 <= j < k ==> list[j] != x
  {
    if list == [] then -1
    else if list[0] == x then 0
    else
      var k := IndexOf(list[1..], x);
      if k == -1 then -1 else k + 1
  }

  /**
   * A single Persian numeral becomes the ASCII digit of the same value; any
   * other string, ASCII digits and multi-character strings included, is
   * returned unchanged.
   */
  function PersianToEnglishNumber(number: string): (r: string)
    ensures |number| == 1 && IsPersianNumeral(number[0]) ==> r == [DigitChar(NumeralValue(number[0]))]
    ensures !(|number| == 1 && IsPersianNumeral(number[0])) ==> r == number
  {
    InPersianNumbers(number);
    Tables();
    var foundIndex := IndexOf(PersianNumbers, number);
    if foundIndex > -1 then EnglishNumbers[foundIndex] else number
  }

  /** The lookup as the two tables give it: the glyph at index i becomes the digit at index i. */
  lemma PersianToEnglishNumberTable()
    ensures forall i :: 0 <= i < 10 ==> PersianToEnglishNumber(PersianNumbers[i]) == EnglishNumbers[i]
  {
    Tables();
  }

  /** A Persian five becomes '5'. */
  lemma PersianFiveExample()
    ensures PersianToEnglishNumber("۵") == "5"
  {
    var five := "۵";
    assert |five| == 1 && IsPersianNumeral(five[0]) && NumeralValue(five[0]) == 5;
    assert DigitChar(5) == '5';
  }

  /** An ASCII digit, a letter and two numerals in one string pass through. */
  lemma PassThroughExamples()
    ensures PersianToEnglishNumber("5") == "5" && PersianToEnglishNumber("a") == "a"
    ensures PersianToEnglishNumber("۱۲") == "۱۲"
  {
    assert !IsPersianNumeral('5') && !IsPersianNumeral('a');
  }

  /** Converting twice is converting once. */
  lemma PersianToEnglishNumberIdempotent(number: string)
    ensures PersianToEnglishNumber(PersianToEnglishNumber(number)) == PersianToEnglishNumber(number)
  {
  }

  /** The code point a single code point is translated to. */
  function TranslatedChar(c: char): char {
    if IsPersianNumeral(c) then DigitChar(NumeralValue(c)) else c
  }

  /**
   * What the `for (let i of field) out += persianToEnglishNumber(i)` loop
   * builds: the translation of every code point of `field`, in order.
   */
  function Translated(field: string): (r: string)
    ensures |r| == |field|
  {
    if field == [] then []
    else Translated(field[..|field| - 1]) + [TranslatedChar(field[|field| - 1])]
  }

  /** The lookup applied to one code point gives that code point's translation. */
  lemma OneCodePoint(c: char)
    ensures PersianToEnglishNumber([c]) == [TranslatedChar(c)]
  {
  }

  /**
   * Each Persian numeral becomes the ASCII digit of its value and every
   * other code point stays where it was.
   */
  lemma {:induction false} TranslatedAt(field: string)
    ensures forall k :: 0 <= k < |field| ==> Translated(field)[k] == TranslatedChar(field[k])
  {
    if field != [] {
      var init := field[..|field| - 1];
      TranslatedAt(init);
      var t, u := Translated(field), Translated(init);
      forall k | 0 <= k < |field| ensures t[k] == TranslatedChar(field[k]) {
        if k < |init| {
          assert t[k] == u[k] && field[k] == init[k];
        }
      }
    }
  }

  /** No Persian numeral is left in a translated field. */
  lemma NoPersianNumeralLeft(field: string)
    ensures forall k :: 0 <= k < |Translated(field)| ==> !IsPersianNumeral(Translated(field)[k])
  {
    TranslatedAt(field);
  }

  /** A field written in Persian numerals becomes a field of ASCII digits. */
  lemma PersianNumeralsBecomeDigits(field: string)
    requires forall k :: 0 <= k < |field| ==> IsPersianNumeral(field[k])
    ensures AllAsciiDigits(Translated(field))
  {
    TranslatedAt(field);
  }

  /** Translating an already translated field changes nothing. */
  lemma TranslatedIdempotent(field: string)
    ensures Translated(Translated(field)) == Translated(field)
  {
    TranslatedAt(field);
    TranslatedAt(Translated(field));
  }

  /** One loop of `getTodayInPersian`: translate a field code point by code point. */
  method TranslateField(field: string) returns (out: string)
    ensures out == Translated(field)
  {
    out := "";
    for i := 0 to |field|
      invariant out == Translated(field[..i])
    {
      assert field[..i + 1][..i] == field[..i];
      OneCodePoint(field[i]);
      out := out + PersianToEnglishNumber([field[i]]);
    }
    assert field[..|field|] == field;
  }

  /** The `{ year, month, day }` object `getTodayInPersian` returns. */
  datatype PersianDate = PersianDate(year: string, month: string, day: string)

  /**
   * `getTodayInPersian` given the platform's `toLocaleDateString('fa-IR')`
   * rendering of today: year, month and day are the first three
   * `/`-separated fields, each translated; with fewer than three fields the
   * loop over the missing one throws a TypeError.
   */
  method GetTodayInPersian(today: string) returns (r: Result<PersianDate>)
    ensures r.Thrown? <==> |Split(today, '/')| < 3
    ensures r.Thrown? ==> r.error == TypeError
    ensures r.Ok? ==> var f := Split(today, '/');
              r.value == PersianDate(Translated(f[0]), Translated(f[1]), Translated(f[2]))
  {
    var fields := Split(today, '/');
    var year := TranslateField(fields[0]);
    if |fields| < 2 {
      return Thrown(TypeError);
    }
    var month := TranslateField(fields[1]);
    if |fields| < 3 {
      return Thrown(TypeError);
    }
    var day := TranslateField(fields[2]);
    r := Ok(PersianDate(year, month, day));
  }

  /** A date rendered as `y/m/d` with slash-free fields splits back into `y`, `m` and `d`. */
  lemma TodayFields(y: string, m: string, d: string)
    requires '/' !in y && '/' !in m && '/' !in d
    ensures Split(y + "/" + m + "/" + d, '/') == [y, m, d]
  {
    assert y + "/" + m + "/" + d == y + ['/'] + (m + ['/'] + d);
    SplitPrefix(y, m + ['/'] + d, '/');
    SplitPrefix(m, d, '/');
    SplitNoSeparator(d, '/');
  }
}
