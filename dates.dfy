/** Publication dates: the recogniser for the three literal formats the view
    accepts, and the earliest/latest date over one page of results. A date is
    kept as its (year, month, day) triple and dates are compared in that
    lexicographic order. */
module PublicationDates {

  import opened Wrappers
  import opened Books

  datatype Date = Date(year: nat, month: nat, day: nat)

  /** What an earliest/latest slot shows: nothing yet, the sentinel `'N/A'`,
      or a calendar date. */
  datatype DateText = Blank | NotAvailable | Calendar(date: Date)

  // ---------------------------------------------------------------------
  // Decimal digits

  predicate IsDigit(c: char) {
    '0' <= c <= '9'
  }

  predicate AllDigits(s: string) {
    forall i :: 0 <= i < |s| ==> IsDigit(s[i])
  }

  function DigitValue(c: char): nat
    requires IsDigit(c)
  {
    c as int - '0' as int
  }

  function DigitChar(d: nat): char
    requires d < 10
  {
    ('0' as int + d) as char
  }

  function Pow10(w: nat): (r: nat)
    ensures r >= 1
  {
    if w == 0 then 1 else 10 * Pow10(w - 1)
  }

  /** The value of a run of decimal digits, most significant digit first. */
  function Number(s: string): nat
    requires AllDigits(s)
  {
    if s == [] then 0 else 10 * Number(s[..|s| - 1]) + DigitValue(s[|s| - 1])
  }

  /** `n` written with exactly `w` digits, padded with leading zeros. */
  function Digits(n: nat, w: nat): (r: string)
    requires n < Pow10(w)
    ensures |r| == w && AllDigits(r)
  {
    if w == 0 then [] else Digits(n / 10, w - 1) + [DigitChar(n % 10)]
  }

  /** Reading back a zero-padded number gives the number. */
  lemma {:induction false} NumberOfDigits(n: nat, w: nat)
    requires n < Pow10(w)
    ensures Number(Digits(n, w)) == n
  {
    if w > 0 {
      var s := Digits(n, w);
      assert s[..|s| - 1] == Digits(n / 10, w - 1);
      NumberOfDigits(n / 10, w - 1);
    }
  }

  /** A run of digits is the zero-padded rendering of its own value. */
  lemma {:induction false} DigitsOfNumber(s: string)
    requires AllDigits(s)
    ensures Number(s) < Pow10(|s|) && Digits(Number(s), |s|) == s
  {
    if s != [] {
      var p := s[..|s| - 1];
      DigitsOfNumber(p);
      var n := Number(s);
      assert n / 10 == Number(p) && n % 10 == DigitValue(s[|s| - 1]);
      assert s == p + [s[|s| - 1]];
    }
  }

  // ---------------------------------------------------------------------
  // The three anchored patterns /^\d{4}$/, /^\d{4}-\d{2}$/, /^\d{4}-\d{2}-\d{2}$/

  /** One position of a fixed-length pattern: `\d` or a literal character. */
  datatype Token = AnyDigit | Literal(c: char)

  predicate Accepts(t: Token, c: char) {
    match t
    case AnyDigit => IsDigit(c)
    case Literal(l) => c == l
  }

  /** The whole string matches the pattern, from `^` to `$`. */
  predicate Matches(p: seq<Token>, s: string) {
    |s| == |p| && forall i :: 0 <= i < |s| ==> Accepts(p[i], s[i])
  }

  const YearPattern: seq<Token> := [AnyDigit, AnyDigit, AnyDigit, AnyDigit]
  const YearMonthPattern: seq<Token> := YearPattern + [Literal('-'), AnyDigit, AnyDigit]
  const FullDatePattern: seq<Token> := YearMonthPattern + [Literal('-'), AnyDigit, AnyDigit]

  lemma MatchedFields(s: string)
    ensures Matches(YearPattern, s) ==> AllDigits(s)
    ensures Matches(YearMonthPattern, s) || Matches(FullDatePattern, s) ==>
              AllDigits(s[..4]) && s[4] == '-' && AllDigits(s[5..7])
    ensures Matches(FullDatePattern, s) ==> s[7] == '-' && AllDigits(s[8..])
  {
  }

  /** The recogniser: a year alone is January 1st of that year, a year and a
      month is the 1st of that month, a full date is itself; anything else is
      not a date. The patterns are tried in this order. */
  function ParsePublicationDate(s: string): (r: Option<Date>)
    ensures r.Some? ==> |s| == 4 || |s| == 7 || |s| == 10
    ensures r.Some? ==> AllDigits(s[..4]) && r.value.year == Number(s[..4])
  {
    MatchedFields(s);
    if Matches(YearPattern, s) then
      assert s[..4] == s;
      Some(Date(Number(s), 1, 1))
    else if Matches(YearMonthPattern, s) then
      Some(Date(Number(s[..4]), Number(s[5..7]), 1))
    else if Matches(FullDatePattern, s) then
      Some(Date(Number(s[..4]), Number(s[5..7]), Number(s[8..])))
    else
      None
  }

  // Renderings of the three formats, the inverse direction of the recogniser.

  function YearText(y: nat): string
    requires y < 10000
  {
    Digits(y, 4)
  }

  function YearMonthText(y: nat, m: nat): string
    requires y < 10000 && m < 100
  {
    Digits(y, 4) + "-" + Digits(m, 2)
  }

  function FullDateText(y: nat, m: nat, d: nat): string
    requires y < 10000 && m < 100 && d < 100
  {
    YearMonthText(y, m) + "-" + Digits(d, 2)
  }

  /** Four digits are January 1st of that year. */
  lemma ParseYear(y: nat)
    requires y < 10000
    ensures ParsePublicationDate(YearText(y)) == Some(Date(y, 1, 1))
  {
    NumberOfDigits(y, 4);
  }

  /** `YYYY-MM` is the 1st of that month. */
  lemma ParseYearMonth(y: nat, m: nat)
    requires y < 10000 && m < 100
    ensures ParsePublicationDate(YearMonthText(y, m)) == Some(Date(y, m, 1))
  {
    var s := YearMonthText(y, m);
    assert s[..4] == Digits(y, 4) && s[5..7] == Digits(m, 2);
    assert Matches(YearMonthPattern, s);
    NumberOfDigits(y, 4);
    NumberOfDigits(m, 2);
  }

  /** `YYYY-MM-DD` is that day. */
  lemma ParseFullDate(y: nat, m: nat, d: nat)
    requires y < 10000 && m < 100 && d < 100
    ensures ParsePublicationDate(FullDateText(y, m, d)) == Some(Date(y, m, d))
  {
    var s := FullDateText(y, m, d);
    assert s[..4] == Digits(y, 4) && s[5..7] == Digits(m, 2) && s[8..] == Digits(d, 2);
    assert Matches(FullDatePattern, s);
    NumberOfDigits(y, 4);
    NumberOfDigits(m, 2);
    NumberOfDigits(d, 2);
  }

  /** Conversely, every accepted string is one of the three renderings, with
      month and day filled in with 1 where the string leaves them out. */
  lemma ParseOnlyThreeFormats(s: string)
    ensures ParsePublicationDate(s).Some? ==>
      var d := ParsePublicationDate(s).value;
      d.year < 10000 && d.month < 100 && d.day < 100 &&
      ((d.month == 1 && d.day == 1 && s == YearText(d.year)) ||
       (d.day == 1 && s == YearMonthText(d.year, d.month)) ||
       s == FullDateText(d.year, d.month, d.day))
  {
    MatchedFields(s);
    if Matches(YearPattern, s) {
      DigitsOfNumber(s);
    } else if Matches(YearMonthPattern, s) {
      DigitsOfNumber(s[..4]);
      DigitsOfNumber(s[5..7]);
      assert s == s[..4] + "-" + s[5..7];
    } else if Matches(FullDatePattern, s) {
      DigitsOfNumber(s[..4]);
      DigitsOfNumber(s[5..7]);
      DigitsOfNumber(s[8..]);
      assert s == s[..4] + "-" + s[5..7] + "-" + s[8..];
    }
  }

  /** Strings of a different length, with other separators or with other
      characters than digits are not dates. */
  lemma ParseRejectsOtherShapes()
    ensures ParsePublicationDate("") == None
    ensures ParsePublicationDate("2001-5") == None
    ensures ParsePublicationDate("2001/05/10") == None
    ensures ParsePublicationDate("May 2001") == None
    ensures ParsePublicationDate("2001-05-10T00:00") == None
    ensures ParsePublicationDate("20010") == None
  {
    assert !Accepts(FullDatePattern[4], "2001/05/10"[4]);
    assert !Accepts(YearPattern[0], "May 2001"[0]);
  }

  /** The same recogniser with the patterns tried longest first. */
  function ParseLongestFirst(s: string): Option<Date>
  {
    MatchedFields(s);
    if Matches(FullDatePattern, s) then
      Some(Date(Number(s[..4]), Number(s[5..7]), Number(s[8..])))
    else if Matches(YearMonthPattern, s) then
      Some(Date(Number(s[..4]), Number(s[5..7]), 1))
    else if Matches(YearPattern, s) then
      Some(Date(Number(s), 1, 1))
    else
      None
  }

  /** The three patterns are mutually exclusive, so the order in which they
      are tried does not matter. */
  lemma ParseOrderIrrelevant(s: string)
    ensures !(Matches(YearPattern, s) && Matches(YearMonthPattern, s))
    ensures !(Matches(YearPattern, s) && Matches(FullDatePattern, s))
    ensures !(Matches(YearMonthPattern, s) && Matches(FullDatePattern, s))
    ensures ParsePublicationDate(s) == ParseLongestFirst(s)
  {
  }

  // ---------------------------------------------------------------------
  // Earliest and latest date of a page

  /** `a` is not later than `b`. */
  predicate NotAfter(a: Date, b: Date) {
    a.year < b.year ||
    (a.year == b.year && (a.month < b.month || (a.month == b.month && a.day <= b.day)))
  }

  /** The smallest of the dates, as `Math.min` over their time values. */
  function Earliest(ds: seq<Date>): (r: Date)
    requires |ds| > 0
    ensures r in ds
    ensures forall d :: d in ds ==> NotAfter(r, d)
  {
    if |ds| == 1 then ds[0]
    else
      var m := Earliest(ds[..|ds| - 1]);
      assert ds == ds[..|ds| - 1] + [ds[|ds| - 1]];
      if NotAfter(m, ds[|ds| - 1]) then m else ds[|ds| - 1]
  }

  /** The largest of the dates, as `Math.max` over their time values. */
  function Latest(ds: seq<Date>): (r: Date)
    requires |ds| > 0
    ensures r in ds
    ensures forall d :: d in ds ==> NotAfter(d, r)
  {
    if |ds| == 1 then ds[0]
    else
      var m := Latest(ds[..|ds| - 1]);
      assert ds == ds[..|ds| - 1] + [ds[|ds| - 1]];
      if NotAfter(ds[|ds| - 1], m) then m else ds[|ds| - 1]
  }

  /** The `publishedDate` of every item, dropping the items that have none
      (absent or the empty string). */
  function PublishedDates(items: seq<Volume>): (dates: seq<string>)
    ensures |dates| <= |items|
    ensures forall d :: d in dates ==> d != ""
  {
    if items == [] then []
    else
      var rest := PublishedDates(items[1..]);
      match items[0].publishedDate
      case Some(s) => if s != "" then [s] + rest else rest
      case None => rest
  }

  /** The dates that the recogniser accepts, in item order. */
  function ParsedDates(dates: seq<string>): (ds: seq<Date>)
    ensures |ds| <= |dates|
  {
    if dates == [] then []
    else
      var rest := ParsedDates(dates[1..]);
      match ParsePublicationDate(dates[0])
      case Some(d) => [d] + rest
      case None => rest
  }

  /** The date an item contributes, if any. */
  function ItemDate(v: Volume): Option<Date> {
    match v.publishedDate
    case Some(s) => if s != "" then ParsePublicationDate(s) else None
    case None => None
  }

  /** The parsed dates of a page are exactly the dates its items carry in one
      of the three formats; items without a date, or with a date in another
      format, contribute nothing. */
  lemma {:induction false} PageDatesMembers(items: seq<Volume>)
    ensures forall d :: d in ParsedDates(PublishedDates(items)) <==>
              exists i :: 0 <= i < |items| && ItemDate(items[i]) == Some(d)
  {
    if items != [] {
      PageDatesMembers(items[1..]);
      var rest := PublishedDates(items[1..]);
      match items[0].publishedDate
      case Some(s) =>
        if s != "" {
          assert ([s] + rest)[1..] == rest;
        }
      case None =>
    }
    forall d | d in ParsedDates(PublishedDates(items))
      ensures exists i :: 0 <= i < |items| && ItemDate(items[i]) == Some(d)
    {
      if items != [] && (d !in ParsedDates(PublishedDates(items[1..])) || ItemDate(items[0]) == Some(d)) {
        assert ItemDate(items[0]) == Some(d);
      } else {
        var i :| 0 <= i < |items[1..]| && ItemDate(items[1..][i]) == Some(d);
        assert ItemDate(items[i + 1]) == Some(d);
      }
    }
    forall d | exists i :: 0 <= i < |items| && ItemDate(items[i]) == Some(d)
      ensures d in ParsedDates(PublishedDates(items))
    {
      var i :| 0 <= i < |items| && ItemDate(items[i]) == Some(d);
      if i > 0 {
        assert ItemDate(items[1..][i - 1]) == Some(d);
      }
    }
  }

  /** The earliest-date slot written after a successful fetch. */
  function EarliestText(items: seq<Volume>): (t: DateText)
    ensures t != Blank
    ensures t.Calendar? ==> t.date in ParsedDates(PublishedDates(items))
  {
    var ds := ParsedDates(PublishedDates(items));
    if |ds| > 0 then Calendar(Earliest(ds)) else NotAvailable
  }

  /** The latest-date slot written after a successful fetch. */
  function LatestText(items: seq<Volume>): (t: DateText)
    ensures t != Blank
    ensures t.Calendar? ==> t.date in ParsedDates(PublishedDates(items))
  {
    var ds := ParsedDates(PublishedDates(items));
    if |ds| > 0 then Calendar(Latest(ds)) else NotAvailable
  }

  /** When some date parses, the earliest is not after the latest and both
      bound every date of the page; when none does, both slots read `'N/A'`. */
  lemma DateRange(items: seq<Volume>)
    ensures EarliestText(items) == NotAvailable <==>
              forall i :: 0 <= i < |items| ==> ItemDate(items[i]).None?
    ensures LatestText(items) == NotAvailable <==> EarliestText(items) == NotAvailable
    ensures EarliestText(items).Calendar? <==> LatestText(items).Calendar?
    ensures EarliestText(items).Calendar? ==>
      var e, l := EarliestText(items).date, LatestText(items).date;
      NotAfter(e, l) &&
      (exists i :: 0 <= i < |items| && ItemDate(items[i]) == Some(e)) &&
      (exists j :: 0 <= j < |items| && ItemDate(items[j]) == Some(l)) &&
      (forall i :: 0 <= i < |items| && ItemDate(items[i]).Some? ==>
         NotAfter(e, ItemDate(items[i]).value) && NotAfter(ItemDate(items[i]).value, l))
  {
    PageDatesMembers(items);
    var ds := ParsedDates(PublishedDates(items));
    if |ds| > 0 {
      var e, l := Earliest(ds), Latest(ds);
      assert NotAfter(e, l) by { assert l in ds; }
      forall i | 0 <= i < |items| && ItemDate(items[i]).Some?
        ensures NotAfter(e, ItemDate(items[i]).value) && NotAfter(ItemDate(items[i]).value, l)
      {
        assert ItemDate(items[i]).value in ds;
      }
    }
  }

  // The three formats side by side: January 1st, May 1st and May 10th of 2001.

  lemma DigitsExamples()
    ensures Digits(2001, 4) == "2001" && Digits(5, 2) == "05" && Digits(10, 2) == "10"
  {
    assert Digits(200, 3) == "200";
  }

  lemma ParseYearExample()
    ensures ParsePublicationDate("2001") == Some(Date(2001, 1, 1))
  {
    DigitsExamples();
    ParseYear(2001);
  }

  lemma ParseYearMonthExample()
    ensures ParsePublicationDate("2001-05") == Some(Date(2001, 5, 1))
  {
    DigitsExamples();
    assert YearMonthText(2001, 5) == "2001-05";
    ParseYearMonth(2001, 5);
  }

  lemma ParseFullDateExample()
    ensures ParsePublicationDate("2001-05-10") == Some(Date(2001, 5, 10))
  {
    DigitsExamples();
    assert YearMonthText(2001, 5) == "2001-05";
    assert FullDateText(2001, 5, 10) == "2001-05-10";
    ParseFullDate(2001, 5, 10);
  }

  /** A page dated `2001`, `2001-05` and `2001-05-10` runs from 2001-01-01
      to 2001-05-10. */
  lemma MixedFormatsExample()
    ensures var items := [Volume(None, "", None, Some("2001")),
                          Volume(None, "", None, Some("2001-05")),
                          Volume(None, "", None, Some("2001-05-10"))];
            EarliestText(items) == Calendar(Date(2001, 1, 1)) &&
            LatestText(items) == Calendar(Date(2001, 5, 10))
  {
    var items := [Volume(None, "", None, Some("2001")),
                  Volume(None, "", None, Some("2001-05")),
                  Volume(None, "", None, Some("2001-05-10"))];
    ParseYearExample();
    ParseYearMonthExample();
    ParseFullDateExample();
    assert PublishedDates(items[2..]) == ["2001-05-10"];
    assert PublishedDates(items[1..]) == ["2001-05", "2001-05-10"];
    assert PublishedDates(items) == ["2001", "2001-05", "2001-05-10"];
    var strs := ["2001", "2001-05", "2001-05-10"];
    assert ParsedDates(strs[2..]) == [Date(2001, 5, 10)];
    assert ParsedDates(strs[1..]) == [Date(2001, 5, 1), Date(2001, 5, 10)];
    var ds := [Date(2001, 1, 1), Date(2001, 5, 1), Date(2001, 5, 10)];
    assert ParsedDates(strs) == ds;
    assert Earliest(ds[..1]) == Date(2001, 1, 1);
    assert Earliest(ds[..2]) == Date(2001, 1, 1);
    assert Latest(ds[..1]) == Date(2001, 1, 1);
    assert Latest(ds[..2]) == Date(2001, 5, 1);
  }
}
