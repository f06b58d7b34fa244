/** `setEmpireColours(year)`: choosing the period of the empire table that
    applies to a year, and the country-code to colour map it defines. */
module Empires {
  import opened Wrappers
  import opened JsString
  import opened JsNumber
  import opened Locations
  import opened Choropleth

  /** The `year` argument: absent (`undefined`), `NaN` (what `parseInt` of
      a year without digits gives), or a whole number. */
  datatype YearArg = Undefined | NotANumber | Year(value: int)

  /** One row of the empire table. `bound` is the numeric value of its
      `Year` cell, `None` when that value is `NaN`; `columns` are its cells,
      header to text, in the order the row's properties are enumerated. */
  datatype Period = Period(bound: Option<int>, columns: seq<(string, string)>)

  /** The year argument of the call made when an event is shown:
      `parseInt` of the event's year. */
  function YearOf(year: string): (r: YearArg)
    ensures r.NotANumber? <==> ParseInt(year).NaN?
    ensures r.Year? ==> ParseInt(year) == Int(r.value)
  {
    match ParseInt(year)
    case NaN => NotANumber
    case Int(n) => Year(n)
  }

  /** A year written in decimal digits, as a validated date's year is, is
      passed on as its value. */
  lemma YearOfDigits(year: string)
    requires AllDigits(year)
    ensures YearOf(year) == Year(ValueIn(year, 10))
  {
    ParseIntDigits(year);
  }

  /** The decimal text of a year gives that year back. */
  lemma YearOfDecimal(n: nat)
    ensures YearOf(NatToString(n)) == Year(n)
  {
    YearOfDigits(NatToString(n));
  }

  /** The loop stops at a period when the year is undefined or not after
      the period's `Year`; comparisons with `NaN` are false. */
  predicate Stops(year: YearArg, p: Period) {
    year.Undefined? || (year.Year? && p.bound.Some? && year.value <= p.bound.value)
  }

  /** Index of the period the loop leaves in `potentialPeriod`: the first
      one it stops at, or the last one when it stops at none. */
  function SelectIndex(periods: seq<Period>, year: YearArg): (k: nat)
    requires |periods| > 0
    ensures k < |periods|
    ensures forall i :: 0 <= i < k ==> !Stops(year, periods[i])
    ensures Stops(year, periods[k]) || k == |periods| - 1
  {
    if |periods| == 1 || Stops(year, periods[0]) then 0
    else
      var k := SelectIndex(periods[1..], year);
      assert forall i :: 1 <= i < k + 1 ==> periods[i] == periods[1..][i - 1];
      k + 1
  }

  /** `empirePeriod`: `null` for an empty table. */
  function SelectPeriod(periods: seq<Period>, year: YearArg): (r: Option<Period>)
    ensures r.None? <==> |periods| == 0
    ensures r.Some? ==> r.value in periods
    ensures year.Undefined? && |periods| > 0 ==> r == Some(periods[0])
    ensures year.NotANumber? && |periods| > 0 ==> r == Some(periods[|periods| - 1])
  {
    if |periods| == 0 then None else Some(periods[SelectIndex(periods, year)])
  }

  /** With the periods in increasing order of `Year`, a year up to the last
      one selects the period whose `Year` is the first not before it. */
  lemma SelectInSortedTable(periods: seq<Period>, y: int)
    requires |periods| > 0
    requires forall i :: 0 <= i < |periods| ==> periods[i].bound.Some?
    requires forall i, j :: 0 <= i < j < |periods| ==> periods[i].bound.value < periods[j].bound.value
    requires y <= periods[|periods| - 1].bound.value
    ensures var k := SelectIndex(periods, Year(y));
            y <= periods[k].bound.value && (k == 0 || periods[k - 1].bound.value < y)
  {
  }

  /** A year after every period's `Year` selects the last period. */
  lemma SelectAfterLastYear(periods: seq<Period>, y: int)
    requires |periods| > 0
    requires forall i :: 0 <= i < |periods| ==> periods[i].bound.Some? && periods[i].bound.value < y
    ensures SelectIndex(periods, Year(y)) == |periods| - 1
  {
  }

  // ---------------------------------------------------------------------
  // The colour map of a period

  /** The keys that are not empires. */
  predicate IsColourKey(key: string) {
    key != "Year" && key != ""
  }

  /** The second non-empty space-separated word of the key, `undefined`
      when there is none: `"Roman red"` colours with `"red"`. */
  function Colour(key: string): (r: Option<string>)
    ensures r.Some? <==> |DropEmpty(Split(key, ' '))| >= 2
    ensures r.Some? ==> r.value != "" && ' ' !in r.value
  {
    var words := DropEmpty(Split(key, ' '));
    if |words| >= 2 then
      assert words[1] in DropEmpty(Split(key, ' '));
      Some(words[1])
    else None
  }

  /** A header `"<empire> <colour>"` of two words colours with its second
      word. */
  lemma ColourOfKey(empire: string, colour: string)
    requires empire != "" && colour != ""
    requires ' ' !in empire && ' ' !in colour
    ensures Colour(empire + " " + colour) == Some(colour)
  {
    SplitAtFirst(empire, ' ', colour);
    assert empire + " " + colour == empire + [' '] + colour;
    assert Split(colour, ' ') == [colour];
    var pieces := [empire] + [colour];
    assert DropEmpty(pieces) == [empire] + DropEmpty([colour]);
    assert pieces[1..] == [colour];
  }

  /** The trimmed pieces of a cell between `;`, empty ones included. */
  function CodesOf(cell: string): (r: seq<string>)
    ensures |r| >= 1
    ensures forall i :: 0 <= i < |r| ==> IsTrimmed(r[i]) && ';' !in r[i]
  {
    var pieces := Split(cell, ';');
    TrimmedPieces(pieces);
    TrimAll(pieces)
  }

  /** A cell written as trimmed codes joined with `;` gives back those
      codes, in order. */
  lemma CodesOfJoin(codes: seq<string>)
    requires |codes| >= 1
    requires forall i :: 0 <= i < |codes| ==> IsTrimmed(codes[i]) && ';' !in codes[i]
    ensures CodesOf(Join(codes, ';')) == codes
  {
    SplitJoin(codes, ';');
  }

  /** Column `col` assigns a colour to code `c`. */
  predicate Assigns(col: (string, string), c: string) {
    IsColourKey(col.0) && c in CodesOf(col.1)
  }

  /** What the loop does with each column: the `Year` column and the one
      with an empty header assign nothing. */
  function Updates(columns: seq<(string, string)>): (r: seq<(seq<string>, Option<string>)>)
    ensures |r| == |columns|
    ensures forall i :: 0 <= i < |columns| ==> r[i].1 == Colour(columns[i].0)
  {
    seq(|columns|, i requires 0 <= i < |columns| =>
      (if IsColourKey(columns[i].0) then CodesOf(columns[i].1) else [], Colour(columns[i].0)))
  }

  /** The codes the update of each column paints are the ones it assigns. */
  lemma UpdatesAssign(columns: seq<(string, string)>)
    ensures forall i, c :: 0 <= i < |columns| ==> (c in Updates(columns)[i].0 <==> Assigns(columns[i], c))
  {
  }

  /** `u` paints, column by column, what the columns assign, in their colours. */
  ghost predicate PaintsColumns(columns: seq<(string, string)>, u: seq<(seq<string>, Option<string>)>) {
    && |u| == |columns|
    && (forall i :: 0 <= i < |columns| ==> u[i].1 == Colour(columns[i].0))
    && (forall i, c :: 0 <= i < |columns| ==> (c in u[i].0 <==> Assigns(columns[i], c)))
  }

  /** `colourUpdatesForThisPeriod` after the loop over `columns`: every code
      of every empire column gets that column's colour, a later column
      replacing what an earlier one assigned. */
  function ColourMap(columns: seq<(string, string)>): (r: map<string, Option<string>>)
    ensures forall c :: c in r <==> exists i :: 0 <= i < |columns| && Assigns(columns[i], c)
    ensures forall c, i :: 0 <= i < |columns| && Assigns(columns[i], c)
              && (forall j :: i < j < |columns| ==> !Assigns(columns[j], c))
              ==> c in r && r[c] == Colour(columns[i].0)
  {
    var u := Updates(columns);
    UpdatesAssign(columns);
    var r := PaintAll(map[], u);
    ColourMapKeys(columns, u, r);
    ColourMapLast(columns, u, r);
    r
  }

  lemma ColourMapKeys(columns: seq<(string, string)>, u: seq<(seq<string>, Option<string>)>, r: map<string, Option<string>>)
    requires PaintsColumns(columns, u)
    requires PaintedKeys(map[], u, r)
    ensures forall c :: c in r <==> exists i :: 0 <= i < |columns| && Assigns(columns[i], c)
  {
    forall c ensures c in r <==> exists i :: 0 <= i < |columns| && Assigns(columns[i], c) {
      if c in r {
        var i :| 0 <= i < |u| && c in u[i].0;
        assert Assigns(columns[i], c);
      }
      if exists i :: 0 <= i < |columns| && Assigns(columns[i], c) {
        var i :| 0 <= i < |columns| && Assigns(columns[i], c);
        assert c in u[i].0;
      }
    }
  }

  lemma ColourMapLast(columns: seq<(string, string)>, u: seq<(seq<string>, Option<string>)>, r: map<string, Option<string>>)
    requires PaintsColumns(columns, u)
    requires PaintedLast(u, r)
    ensures forall c, i :: 0 <= i < |columns| && Assigns(columns[i], c)
              && (forall j :: i < j < |columns| ==> !Assigns(columns[j], c))
              ==> c in r && r[c] == Colour(columns[i].0)
  {
    forall c, i | 0 <= i < |columns| && Assigns(columns[i], c) && (forall j :: i < j < |columns| ==> !Assigns(columns[j], c))
      ensures c in r && r[c] == Colour(columns[i].0)
    {
      assert c in u[i].0;
      forall j | i < j < |u| ensures c !in u[j].0 {
        assert !Assigns(columns[j], c);
      }
    }
  }

  /** `setEmpireColours(year)`: the colours of the selected period, nothing
      for an empty table. */
  function EmpireColours(periods: seq<Period>, year: YearArg): (r: map<string, Option<string>>)
    ensures |periods| == 0 ==> r == map[]
    ensures |periods| > 0 ==> r == ColourMap(periods[SelectIndex(periods, year)].columns)
    ensures |periods| > 0 ==>
              forall c :: c in r <==> exists i :: 0 <= i < |SelectPeriod(periods, year).value.columns|
                                              && Assigns(SelectPeriod(periods, year).value.columns[i], c)
  {
    match SelectPeriod(periods, year)
    case None => map[]
    case Some(p) => ColourMap(p.columns)
  }

  /** Empty codes are kept: a cell ending in `;` also colours the code `""`. */
  lemma TrailingSemicolonColoursEmpty(key: string, cell: string)
    requires IsColourKey(key)
    ensures "" in ColourMap([(key, cell + ";")])
    ensures ColourMap([(key, cell + ";")])[""] == Colour(key)
  {
    SplitTrailingSeparator(cell, ';');
    var pieces := Split(cell + [';'], ';');
    assert pieces[|pieces| - 1] == "";
    assert Trim("") == "";
    assert CodesOf(cell + ";")[|pieces| - 1] == "";
    assert Assigns((key, cell + ";"), "");
  }

  /** The `Year` column and a column with an empty header colour nothing. */
  lemma NonEmpireColumnsIgnored(columns: seq<(string, string)>, key: string, cell: string)
    requires !IsColourKey(key)
    ensures ColourMap(columns + [(key, cell)]) == ColourMap(columns)
  {
    var longer := columns + [(key, cell)];
    assert Updates(longer) == Updates(columns) + [([], Colour(key))];
    assert Updates(longer)[..|columns|] == Updates(columns);
  }
}
