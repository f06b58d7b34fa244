/** Event dates: the format check applied while validating the table, the
    tolerant parser used while building the timeline, and the day-first text
    shown in the info panel. The format check and the parser are independent: the
    check splits the string as given, the parser trims it first. */
module Dates {
  import opened Wrappers
  import opened JsString

  /** Why a date was rejected; the validator adds the line and column. */
  datatype DateProblem =
    | Missing
    | TooManyParts(date: string)
    | BadFormat(date: string)

  /** A parsed date: the year always, then month and day when the text had
      that many parts. Parts keep their original text. */
  datatype DateValue = DateValue(year: string, month: Option<string>, day: Option<string>)

  /** One `checkIt(index, length)`: the part is digits only and exactly `n` long. */
  predicate DigitsOfLength(s: string, n: nat) {
    |s| == n && AllDigits(s)
  }

  predicate IsYear(s: string) {
    DigitsOfLength(s, 4)
  }

  predicate IsDayOrMonth(s: string) {
    DigitsOfLength(s, 1) || DigitsOfLength(s, 2)
  }

  /** The four accepted shapes, over the `/`-separated parts. */
  predicate OnlyYear(parts: seq<string>) {
    |parts| == 1 && IsYear(parts[0])
  }

  predicate YearAndMonth(parts: seq<string>) {
    |parts| == 2 && IsYear(parts[0]) && IsDayOrMonth(parts[1])
  }

  predicate YearMonthDay(parts: seq<string>) {
    |parts| == 3 && IsYear(parts[0]) && IsDayOrMonth(parts[1]) && IsDayOrMonth(parts[2])
  }

  predicate DayMonthYear(parts: seq<string>) {
    |parts| == 3 && IsYear(parts[2]) && IsDayOrMonth(parts[1]) && IsDayOrMonth(parts[0])
  }

  /** One of the four shapes holds. */
  predicate AcceptedParts(parts: seq<string>) {
    OnlyYear(parts) || YearAndMonth(parts) || YearMonthDay(parts) || DayMonthYear(parts)
  }

  /** `date == null || date == ""`. */
  predicate IsBlank(date: Option<string>) {
    date.None? || date.value == ""
  }

  /** Number of occurrences of `c` in `s`. */
  function Count(s: string, c: char): nat
  {
    if |s| == 0 then 0 else (if s[0] == c then 1 else 0) + Count(s[1..], c)
  }

  /** `validateDate(date, context, isOptional)`, without the context prefix:
      `None` when the date is acceptable, otherwise the problem. */
  function ValidateDate(date: Option<string>, isOptional: bool): (r: Option<DateProblem>)
    ensures IsBlank(date) ==> r == (if isOptional then None else Some(Missing))
    ensures !IsBlank(date) ==> r == None || r == Some(TooManyParts(date.value)) || r == Some(BadFormat(date.value))
    ensures !IsBlank(date) ==> (r == Some(TooManyParts(date.value)) <==> Count(date.value, '/') >= 3)
  {
    if IsBlank(date) then
      if isOptional then None else Some(Missing)
    else
      var parts := Split(date.value, '/');
      SplitCount(date.value, '/');
      if |parts| > 3 then Some(TooManyParts(date.value))
      else if AcceptedParts(parts) then None
      else Some(BadFormat(date.value))
  }

  lemma CountConcat(a: string, b: string, c: char)
    ensures Count(a + b, c) == Count(a, c) + Count(b, c)
  {
    if |a| == 0 {
      assert a + b == b;
    } else {
      assert (a + b)[0] == a[0];
      assert (a + b)[1..] == a[1..] + b;
      CountConcat(a[1..], b, c);
    }
  }

  lemma CountAbsent(s: string, c: char)
    requires c !in s
    ensures Count(s, c) == 0
  {
  }

  /** Splitting on `c` gives one piece more than there are `c`s. */
  lemma {:induction false} SplitCount(s: string, c: char)
    ensures |Split(s, c)| == Count(s, c) + 1
    decreases |s|
  {
    if c !in s {
      CountAbsent(s, c);
    } else {
      var i := IndexOf(s, c);
      assert s == s[..i] + [c] + s[i + 1..];
      CountConcat(s[..i] + [c], s[i + 1..], c);
      CountConcat(s[..i], [c], c);
      CountAbsent(s[..i], c);
      SplitCount(s[i + 1..], c);
    }
  }

  // ---------------------------------------------------------------------
  // The accepted grammar, stated on the text itself

  /** The date grammar written out as concatenations: `YYYY`, `YYYY/M`,
      `YYYY/M/D` or `D/M/YYYY`, where month and day have one or two digits. */
  ghost predicate WellFormedDate(s: string) {
    || IsYear(s)
    || (exists y, m :: IsYear(y) && IsDayOrMonth(m) && s == y + "/" + m)
    || (exists y, m, d :: IsYear(y) && IsDayOrMonth(m) && IsDayOrMonth(d) && s == y + "/" + m + "/" + d)
    || (exists d, m, y :: IsDayOrMonth(d) && IsDayOrMonth(m) && IsYear(y) && s == d + "/" + m + "/" + y)
  }

  lemma DigitsHaveNoSlash(s: string)
    requires AllDigits(s)
    ensures '/' !in s
  {
  }

  lemma JoinTwo(a: string, b: string, sep: char)
    ensures Join([a, b], sep) == a + [sep] + b
  {
    assert [a, b][1..] == [b];
  }

  lemma JoinThree(a: string, b: string, c: string, sep: char)
    ensures Join([a, b, c], sep) == a + [sep] + b + [sep] + c
  {
    assert [a, b, c][1..] == [b, c];
    JoinTwo(b, c, sep);
  }

  /** Two digit strings joined by `/` split back into the two. */
  lemma SplitTwoDigitParts(a: string, b: string)
    requires AllDigits(a) && AllDigits(b)
    ensures Split(a + "/" + b, '/') == [a, b]
  {
    DigitsHaveNoSlash(a);
    DigitsHaveNoSlash(b);
    JoinTwo(a, b, '/');
    SplitJoin([a, b], '/');
  }

  /** Three digit strings joined by `/` split back into the three. */
  lemma SplitThreeDigitParts(a: string, b: string, c: string)
    requires AllDigits(a) && AllDigits(b) && AllDigits(c)
    ensures Split(a + "/" + b + "/" + c, '/') == [a, b, c]
  {
    DigitsHaveNoSlash(a);
    DigitsHaveNoSlash(b);
    DigitsHaveNoSlash(c);
    JoinThree(a, b, c, '/');
    SplitJoin([a, b, c], '/');
  }

  /** The parts of a string, joined back with `/`, in the grammar's terms. */
  lemma PartsRebuild(s: string)
    ensures |Split(s, '/')| == 1 ==> s == Split(s, '/')[0]
    ensures |Split(s, '/')| == 2 ==> s == Split(s, '/')[0] + "/" + Split(s, '/')[1]
    ensures |Split(s, '/')| == 3 ==> s == Split(s, '/')[0] + "/" + Split(s, '/')[1] + "/" + Split(s, '/')[2]
  {
    var parts := Split(s, '/');
    JoinSplit(s, '/');
    if |parts| == 2 {
      JoinTwo(parts[0], parts[1], '/');
    } else if |parts| == 3 {
      JoinThree(parts[0], parts[1], parts[2], '/');
    }
  }

  lemma AcceptedIsWellFormed(s: string)
    requires AcceptedParts(Split(s, '/'))
    ensures WellFormedDate(s)
  {
    PartsRebuild(s);
  }

  lemma YearAccepted(y: string)
    requires IsYear(y)
    ensures AcceptedParts(Split(y, '/'))
  {
    DigitsHaveNoSlash(y);
    assert Split(y, '/') == [y];
  }

  lemma YearMonthAccepted(y: string, m: string)
    requires IsYear(y) && IsDayOrMonth(m)
    ensures AcceptedParts(Split(y + "/" + m, '/'))
  {
    SplitTwoDigitParts(y, m);
    assert YearAndMonth([y, m]);
  }

  lemma YearMonthDayAccepted(y: string, m: string, d: string)
    requires IsYear(y) && IsDayOrMonth(m) && IsDayOrMonth(d)
    ensures AcceptedParts(Split(y + "/" + m + "/" + d, '/'))
  {
    SplitThreeDigitParts(y, m, d);
    assert YearMonthDay([y, m, d]);
  }

  lemma DayMonthYearAccepted(d: string, m: string, y: string)
    requires IsDayOrMonth(d) && IsDayOrMonth(m) && IsYear(y)
    ensures AcceptedParts(Split(d + "/" + m + "/" + y, '/'))
  {
    SplitThreeDigitParts(d, m, y);
    assert DayMonthYear([d, m, y]);
  }

  lemma WellFormedIsAccepted(s: string)
    requires WellFormedDate(s)
    ensures AcceptedParts(Split(s, '/'))
  {
    if IsYear(s) {
      YearAccepted(s);
    } else if exists y, m :: IsYear(y) && IsDayOrMonth(m) && s == y + "/" + m {
      var y, m :| IsYear(y) && IsDayOrMonth(m) && s == y + "/" + m;
      YearMonthAccepted(y, m);
    } else if exists y, m, d :: IsYear(y) && IsDayOrMonth(m) && IsDayOrMonth(d) && s == y + "/" + m + "/" + d {
      var y, m, d :| IsYear(y) && IsDayOrMonth(m) && IsDayOrMonth(d) && s == y + "/" + m + "/" + d;
      YearMonthDayAccepted(y, m, d);
    } else {
      var d, m, y :| IsDayOrMonth(d) && IsDayOrMonth(m) && IsYear(y) && s == d + "/" + m + "/" + y;
      DayMonthYearAccepted(d, m, y);
    }
  }

  /** The format check accepts a non-empty string exactly when it is in the
      date grammar. */
  lemma ValidateDateGrammar(s: string, isOptional: bool)
    requires s != ""
    ensures ValidateDate(Some(s), isOptional) == None <==> WellFormedDate(s)
  {
    if ValidateDate(Some(s), isOptional) == None {
      AcceptedIsWellFormed(s);
    }
    if WellFormedDate(s) {
      WellFormedIsAccepted(s);
    }
  }

  // ---------------------------------------------------------------------
  // Parsing

  function Reverse<T>(s: seq<T>): (r: seq<T>)
    ensures |r| == |s|
    ensures forall i :: 0 <= i < |s| ==> r[i] == s[|s| - 1 - i]
  {
    if |s| == 0 then [] else Reverse(s[1..]) + [s[0]]
  }

  /** The parts `parseDate` works on, in year-first order: the trimmed text
      split on `/`, reversed when the third part is four characters long. */
  function YearFirstParts(s: string): (parts: seq<string>)
    ensures |parts| == |Split(Trim(s), '/')|
  {
    var raw := Split(Trim(s), '/');
    if |raw| >= 3 && |raw[2]| == 4 then Reverse(raw) else raw
  }

  /** `parseDate(dateString)`: `None` for a missing or blank date, otherwise
      year, month and day from the year-first parts. */
  function ParseDate(date: Option<string>): (r: Option<DateValue>)
    ensures r.None? <==> date.None? || AllWhitespace(date.value)
    ensures r.Some? ==> (r.value.month.Some? <==> Count(Trim(date.value), '/') >= 1)
    ensures r.Some? ==> (r.value.day.Some? <==> Count(Trim(date.value), '/') >= 2)
  {
    if date.None? || date.value == "" || Trim(date.value) == "" then None
    else
      var parts := YearFirstParts(date.value);
      SplitCount(Trim(date.value), '/');
      Some(DateValue(
        parts[0],
        if |parts| >= 2 then Some(parts[1]) else None,
        if |parts| >= 3 then Some(parts[2]) else None))
  }

  /** Any date text, read through its `/`-separated pieces: when the third
      piece has four characters the pieces are read from the end (year,
      month, day), otherwise from the start; pieces past the third are
      ignored. */
  lemma ParseDatePieces(ps: seq<string>)
    requires |ps| >= 1 && NoneContains(ps, '/')
    requires IsTrimmed(Join(ps, '/')) && !AllWhitespace(Join(ps, '/'))
    ensures var r := ParseDate(Some(Join(ps, '/')));
            r.Some?
            && (|ps| >= 3 && |ps[2]| == 4 ==>
                  r.value == DateValue(ps[|ps| - 1], Some(ps[|ps| - 2]), Some(ps[|ps| - 3])))
            && (!(|ps| >= 3 && |ps[2]| == 4) ==>
                  r.value == DateValue(ps[0], if |ps| >= 2 then Some(ps[1]) else None,
                                       if |ps| >= 3 then Some(ps[2]) else None))
  {
    var s := Join(ps, '/');
    assert Trim(s) == s;
    SplitJoin(ps, '/');
    assert Split(Trim(s), '/') == ps;
  }

  /** A third piece of four characters turns the reading around even when
      there are four pieces and the last is the year: `"a/b/cdef/g"` has
      year `"g"`, month `"cdef"` and day `"b"`. */
  lemma FourPiecesReadFromTheEnd(a: string, b: string, c: string, d: string)
    requires '/' !in a && '/' !in b && '/' !in c && '/' !in d
    requires |c| == 4
    requires a != "" && !IsWhitespace(a[0]) && d != "" && !IsWhitespace(d[|d| - 1])
    ensures ParseDate(Some(a + "/" + b + "/" + c + "/" + d)) == Some(DateValue(d, Some(c), Some(b)))
  {
    var ps := [a, b, c, d];
    var s := a + "/" + b + "/" + c + "/" + d;
    assert Join(ps, '/') == s by {
      assert ps[1..] == [b, c, d] && ps[2..] == [c, d] && ps[3..] == [d];
      assert Join(ps[2..], '/') == c + "/" + d;
    }
    assert IsTrimmed(s) && !AllWhitespace(s) by {
      assert s[0] == a[0] && s[|s| - 1] == d[|d| - 1];
    }
    ParseDatePieces(ps);
  }

  /** A value with a four-digit year and one- or two-digit month and day. */
  predicate WellShaped(v: DateValue) {
    && IsYear(v.year)
    && (v.month.Some? ==> IsDayOrMonth(v.month.value))
    && (v.day.Some? ==> v.month.Some? && IsDayOrMonth(v.day.value))
  }

  lemma DigitsTrimmed(s: string)
    requires AllDigits(s)
    ensures Trim(s) == s
  {
  }

  lemma ConcatTrimmed(a: string, b: string)
    requires AllDigits(a) && AllDigits(b)
    ensures IsTrimmed(a + b)
  {
    assert (a + b)[0] == a[0];
    assert (a + b)[|a + b| - 1] == b[|b| - 1];
  }

  /** Any date the format check accepts parses to a well-shaped value, with
      day-first text turned round to year-first. */
  lemma ParseValidatedDate(s: string, isOptional: bool)
    requires s != ""
    requires ValidateDate(Some(s), isOptional) == None
    ensures ParseDate(Some(s)).Some?
    ensures WellShaped(ParseDate(Some(s)).value)
  {
    var parts := Split(s, '/');
    assert AcceptedParts(parts);
    AcceptedTrimmed(s);
    ParseAccepted(s);
  }

  lemma AcceptedTrimmed(s: string)
    requires AcceptedParts(Split(s, '/'))
    ensures Trim(s) == s
  {
    var parts := Split(s, '/');
    PartsRebuild(s);
    if |parts| == 1 {
      DigitsTrimmed(s);
    } else if |parts| == 2 {
      TwoPartsTrimmed(parts[0], parts[1]);
    } else {
      ThreePartsTrimmed(parts[0], parts[1], parts[2]);
    }
  }

  lemma ParseAccepted(s: string)
    requires Trim(s) == s && s != ""
    requires AcceptedParts(Split(s, '/'))
    ensures ParseDate(Some(s)).Some?
    ensures WellShaped(ParseDate(Some(s)).value)
  {
    var parts := Split(s, '/');
    var yearFirst := YearFirstParts(s);
    assert yearFirst == if |parts| == 3 && |parts[2]| == 4 then Reverse(parts) else parts;
    assert IsYear(yearFirst[0]);
  }

  lemma TwoPartsTrimmed(a: string, b: string)
    requires AllDigits(a) && AllDigits(b)
    ensures Trim(a + "/" + b) == a + "/" + b
  {
    var s := a + "/" + b;
    assert s[0] == a[0];
    assert s[|s| - 1] == b[|b| - 1];
  }

  lemma ThreePartsTrimmed(a: string, b: string, c: string)
    requires AllDigits(a) && AllDigits(b) && AllDigits(c)
    ensures Trim(a + "/" + b + "/" + c) == a + "/" + b + "/" + c
  {
    var s := a + "/" + b + "/" + c;
    assert s[0] == a[0];
    assert s[|s| - 1] == c[|c| - 1];
  }

  /** `"D/M/YYYY"` and `"YYYY/M/D"` parse to the same year-first value. */
  lemma DayFirstMatchesYearFirst(y: string, m: string, d: string)
    requires IsYear(y) && IsDayOrMonth(m) && IsDayOrMonth(d)
    ensures ParseDate(Some(d + "/" + m + "/" + y)) == Some(DateValue(y, Some(m), Some(d)))
    ensures ParseDate(Some(y + "/" + m + "/" + d)) == Some(DateValue(y, Some(m), Some(d)))
  {
    ParseDayFirst(y, m, d);
    ParseYearFirst(y, m, d);
  }

  lemma ParseDayFirst(y: string, m: string, d: string)
    requires IsYear(y) && IsDayOrMonth(m) && IsDayOrMonth(d)
    ensures ParseDate(Some(d + "/" + m + "/" + y)) == Some(DateValue(y, Some(m), Some(d)))
  {
    var s := d + "/" + m + "/" + y;
    ThreePartsTrimmed(d, m, y);
    SplitThreeDigitParts(d, m, y);
    ReverseThree(d, m, y);
    assert YearFirstParts(s) == [y, m, d];
  }

  lemma ReverseThree<T>(a: T, b: T, c: T)
    ensures Reverse([a, b, c]) == [c, b, a]
  {
    assert [a, b, c][1..] == [b, c];
    assert [b, c][1..] == [c];
  }

  lemma ParseYearFirst(y: string, m: string, d: string)
    requires IsYear(y) && IsDayOrMonth(m) && IsDayOrMonth(d)
    ensures ParseDate(Some(y + "/" + m + "/" + d)) == Some(DateValue(y, Some(m), Some(d)))
  {
    var s := y + "/" + m + "/" + d;
    ThreePartsTrimmed(y, m, d);
    SplitThreeDigitParts(y, m, d);
    assert YearFirstParts(s) == [y, m, d];
  }

  // ---------------------------------------------------------------------
  // Display

  /** The format check reads the text as given, while parsing trims it
      first: a year with a space in front is rejected by the one and read
      by the other. */
  lemma PaddedYear(y: string)
    requires IsYear(y)
    ensures ValidateDate(Some(" " + y), false) == Some(BadFormat(" " + y))
    ensures ParseDate(Some(" " + y)) == Some(DateValue(y, None, None))
  {
    var s := " " + y;
    DigitsHaveNoSlash(y);
    assert '/' !in s;
    CountAbsent(s, '/');
    SplitCount(s, '/');
    JoinSplit(s, '/');
    assert Split(s, '/') == [s];
    assert Trim(s) == y;
    DigitsTrimmed(y);
    CountAbsent(y, '/');
    SplitCount(y, '/');
    JoinSplit(y, '/');
  }

  /** How JavaScript concatenates a property that may be `undefined`. */
  function Shown(part: Option<string>): string {
    part.GetOr("undefined")
  }

  /** The inner `formatDate` of the info panel: day-first, showing only the
      parts that are present and non-empty. */
  function FormatDate(v: DateValue): (r: string)
    ensures WellShaped(v) ==> Count(r, '/') == (if v.day.Some? then 2 else if v.month.Some? then 1 else 0)
  {
    NoSlashCount(v.year);
    if v.day.Some? && v.day.value != "" then
      SlashCount(v.day.value + "/" + Shown(v.month), v.year);
      SlashCount(v.day.value, Shown(v.month));
      NoSlashCount(v.day.value);
      NoSlashCount(Shown(v.month));
      v.day.value + "/" + Shown(v.month) + "/" + v.year
    else if v.month.Some? && v.month.value != "" then
      SlashCount(v.month.value, v.year);
      NoSlashCount(v.month.value);
      v.month.value + "/" + v.year
    else v.year
  }

  lemma SlashCount(a: string, b: string)
    ensures Count(a + "/" + b, '/') == Count(a, '/') + 1 + Count(b, '/')
  {
    CountConcat(a + "/", b, '/');
    CountConcat(a, "/", '/');
  }

  lemma NoSlashCount(s: string)
    ensures AllDigits(s) ==> Count(s, '/') == 0
  {
    if AllDigits(s) {
      DigitsHaveNoSlash(s);
      CountAbsent(s, '/');
    }
  }

  /** A full date shown day-first reads back as the same value. */
  lemma FormatParseFullDate(v: DateValue)
    requires WellShaped(v) && v.day.Some?
    ensures ParseDate(Some(FormatDate(v))) == Some(v)
  {
    DayFirstMatchesYearFirst(v.year, v.month.value, v.day.value);
  }

  /** A year on its own is shown as the year and reads back unchanged. */
  lemma FormatParseYear(v: DateValue)
    requires WellShaped(v) && v.month.None?
    ensures FormatDate(v) == v.year
    ensures ParseDate(Some(FormatDate(v))) == Some(v)
  {
    DigitsTrimmed(v.year);
    DigitsHaveNoSlash(v.year);
  }

  /** Month and year are shown month first, which `parseDate` reads year
      first: the two parts come back swapped. */
  lemma FormatMonthYearSwaps(v: DateValue)
    requires WellShaped(v) && v.month.Some? && v.day.None?
    ensures FormatDate(v) == v.month.value + "/" + v.year
    ensures ParseDate(Some(FormatDate(v))) == Some(DateValue(v.month.value, Some(v.year), None))
  {
    var m := v.month.value;
    var s := m + "/" + v.year;
    DigitsHaveNoSlash(m);
    DigitsHaveNoSlash(v.year);
    assert Join([m, v.year], '/') == s;
    assert IsTrimmed(s) && !AllWhitespace(s) by {
      assert s[0] == m[0] && s[|s| - 1] == v.year[|v.year| - 1];
    }
    ParseDatePieces([m, v.year]);
  }
}
