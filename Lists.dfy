/**
 * The list helpers: `addRowToList`, which numbers the items of a list, and
 * `filterDateConstants`, which builds the year, month and day choices of a
 * date picker.
 */
module Lists {
  import opened Outcomes

  /** The values an item's fields hold. */
  datatype Value = Int(i: int) | Str(s: string) | Flag(b: bool) | Null

  /** An item of the list: a plain object, as a map from field names to values. */
  type Item = map<string, Value>

  const RowKey: string := "row"

  /**
   * `list.map((item, index) => ({ ...item, row: index + 1 }))`: a new list in
   * which the i-th item is a copy of the i-th input item whose `row` field
   * is i + 1 and whose other fields are unchanged.
   */
  function AddRowToList(list: seq<Item>): (r: seq<Item>)
    ensures |r| == |list|
    ensures forall i :: 0 <= i < |list| ==> r[i].Keys == list[i].Keys + {RowKey}
    ensures forall i :: 0 <= i < |list| ==> r[i][RowKey] == Int(i + 1)
    ensures forall i, k :: 0 <= i < |list| && k in list[i] && k != RowKey ==> r[i][k] == list[i][k]
  {
    seq(|list|, i requires 0 <= i < |list| => list[i][RowKey := Int(i + 1)])
  }

  /** Numbering a numbered list again changes nothing: `row` is overwritten, not added twice. */
  lemma AddRowToListIdempotent(list: seq<Item>)
    ensures AddRowToList(AddRowToList(list)) == AddRowToList(list)
  {
    var once := AddRowToList(list);
    var twice := AddRowToList(once);
    forall i | 0 <= i < |list| ensures twice[i] == once[i] {
      assert twice[i].Keys == once[i].Keys;
    }
  }

  /** Dropping `row` again gives back an input that had no `row` field. */
  lemma AddRowToListRoundTrip(list: seq<Item>)
    requires forall i :: 0 <= i < |list| ==> RowKey !in list[i]
    ensures forall i :: 0 <= i < |list| ==> AddRowToList(list)[i] - {RowKey} == list[i]
  {
    var r := AddRowToList(list);
    forall i | 0 <= i < |list| ensures r[i] - {RowKey} == list[i] {
      assert (r[i] - {RowKey}).Keys == list[i].Keys;
    }
  }

  /** One choice of the date picker: its `label` (named `caption` here, `label` being a Dafny keyword) and its `value`. */
  datatype Choice<L> = Choice(caption: L, value: int)

  /** The `{ years, months, days }` object `filterDateConstants` returns. */
  datatype DateConstants = DateConstants(years: seq<Choice<int>>, months: seq<Choice<string>>, days: seq<Choice<int>>)

  /** The months of the Persian calendar with their numbers. */
  const PersianMonths: seq<Choice<string>> := [
    Choice("فروردین", 1), Choice("اردیبهشت", 2), Choice("خرداد", 3), Choice("تیر", 4),
    Choice("مرداد", 5), Choice("شهریور", 6), Choice("مهر", 7), Choice("آبان", 8),
    Choice("آذر", 9), Choice("دی", 10), Choice("بهمن", 11), Choice("اسفند", 12)
  ]

  /** Twelve months, numbered 1 to 12 in calendar order. */
  lemma PersianMonthsInOrder()
    ensures |PersianMonths| == 12
    ensures forall i :: 0 <= i < 12 ==> PersianMonths[i].value == i + 1
  {
  }

  /** The largest length an array can have: 2^32 - 1. */
  const MaxArrayLength: int := 0xFFFF_FFFF

  /** The default `length`: a month of 31 days. */
  const DefaultDayCount: int := 31

  /** `Array.from({ length }, (_, i) => i + 1).map(item => ({ label: item, value: item }))` for a valid length. */
  function DayChoices(length: nat): (days: seq<Choice<int>>)
    ensures |days| == length
    ensures forall i :: 0 <= i < length ==> days[i].value == i + 1 && days[i].caption == days[i].value
  {
    seq(length, i requires 0 <= i < length => Choice(i + 1, i + 1))
  }

  /**
   * `filterDateConstants(length)` given the current Gregorian year: ten
   * years counting down from year - 620, the days 1..length (a negative
   * length counts as 0, one beyond the array limit throws a RangeError) and
   * the twelve months.
   */
  method FilterDateConstants(currentYear: int, length: int) returns (r: Result<DateConstants>)
    ensures r.Thrown? <==> length > MaxArrayLength
    ensures r.Thrown? ==> r.error == RangeError
    ensures r.Ok? ==> |r.value.years| == 10
    ensures r.Ok? ==> forall i :: 0 <= i < 10 ==>
              r.value.years[i].value == currentYear - 620 - i && r.value.years[i].caption == r.value.years[i].value
    ensures r.Ok? ==> forall i, j :: 0 <= i < j < 10 ==> r.value.years[i].value > r.value.years[j].value
    ensures r.Ok? ==> r.value.days == DayChoices(if length < 0 then 0 else length)
    ensures r.Ok? ==> r.value.months == PersianMonths
  {
    var thisYear := currentYear - 620;
    var years: seq<int> := [];
    for i := 0 to 10
      invariant |years| == i
      invariant forall j :: 0 <= j < i ==> years[j] == thisYear - j
    {
      years := years + [thisYear - i];
    }
    if length > MaxArrayLength {
      return Thrown(RangeError);
    }
    var days := DayChoices(if length < 0 then 0 else length);
    var yearChoices := seq(|years|, i requires 0 <= i < |years| => Choice(years[i], years[i]));
    r := Ok(DateConstants(yearChoices, PersianMonths, days));
  }
}
