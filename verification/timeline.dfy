/** `populateTimeline(data)`: the events the timeline is built from, their
    ids, and the lookup from lower-cased title to id. */
module Timeline {
  import opened Wrappers
  import opened JsString
  import opened JsNumber
  import opened Dates
  import opened Validation

  /** A slide of the timeline. `endDate` is `None` when the slide has no
      `end_date` property; `startDate` is `None` when it is `null`. */
  datatype TimelineEvent = TimelineEvent(
    headline: string,
    text: string,
    uniqueId: string,
    startDate: Option<DateValue>,
    endDate: Option<DateValue>)

  /** What the call leaves behind: the timeline's slides, the kept records
      (`allEvents`), `idLookup`, and the ids reported as having no start date. */
  datatype Populated = Populated(
    events: seq<TimelineEvent>,
    kept: seq<Row>,
    idLookup: map<string, nat>,
    undated: seq<nat>)

  /** The text every slide carries. */
  const SlideText: string := "Not Included"

  /** A record the filter keeps. */
  predicate Kept(row: Row)
    requires "StartDate" in row
  {
    !ContainsDoubleSlash(row["StartDate"])
  }

  predicate AllDated(rows: seq<Row>) {
    forall i :: 0 <= i < |rows| ==> "StartDate" in rows[i]
  }

  /** `data.filter(...)`: the records whose start date has no `//`, in order. */
  function KeepEvents(rows: seq<Row>): (r: seq<Row>)
    requires AllDated(rows)
    ensures |r| <= |rows|
    ensures forall x :: x in r <==> x in rows && Kept(x)
  {
    if |rows| == 0 then []
    else
      var rest := KeepEvents(rows[1..]);
      assert forall x :: x in rows <==> x == rows[0] || x in rows[1..];
      if Kept(rows[0]) then [rows[0]] + rest else rest
  }

  /** The filter keeps order: filtering a concatenation filters each part. */
  lemma {:induction false} KeepEventsAppend(a: seq<Row>, b: seq<Row>)
    requires AllDated(a) && AllDated(b)
    ensures AllDated(a + b)
    ensures KeepEvents(a + b) == KeepEvents(a) + KeepEvents(b)
    decreases |a|
  {
    if |a| > 0 {
      assert (a + b)[0] == a[0];
      assert (a + b)[1..] == a[1..] + b;
      KeepEventsAppend(a[1..], b);
    } else {
      assert a + b == b;
    }
  }

  /** A start date with `//` only part way through still drops the record:
      the test is "contains", not "starts with". */
  lemma DoubleSlashInsideDrops(row: Row, before: string, after: string)
    requires "StartDate" in row && row["StartDate"] == before + "//" + after
    ensures KeepEvents([row]) == []
  {
    assert row["StartDate"][|before|] == '/' && row["StartDate"][|before| + 1] == '/';
  }

  /** Every kept record has a title to build its slide from. */
  predicate Titled(rows: seq<Row>) {
    forall i :: 0 <= i < |rows| ==> "StartDate" in rows[i] && "Title" in rows[i]
  }

  /** The slide made from the record with id `id`. */
  function Slide(row: Row, id: nat): (e: TimelineEvent)
    requires "StartDate" in row && "Title" in row
    ensures e.uniqueId == NatToString(id) && ParseInt(e.uniqueId) == Int(id)
    ensures e.headline == row["Title"] && e.text == SlideText
    ensures e.startDate == ParseDate(Some(row["StartDate"]))
    ensures e.startDate.None? <==> AllWhitespace(row["StartDate"])
    ensures e.endDate == ParseDate(Get(row, "EndDate"))
    ensures e.endDate.Some? <==> ParseDate(Get(row, "EndDate")).Some?
  {
    ParseIntNatToString(id);
    TimelineEvent(row["Title"], SlideText, NatToString(id),
                  ParseDate(Some(row["StartDate"])), ParseDate(Get(row, "EndDate")))
  }

  /** The `map` over the kept records, ids counting from 0. */
  function Slides(kept: seq<Row>): (r: seq<TimelineEvent>)
    requires Titled(kept)
    ensures |r| == |kept|
    ensures forall k :: 0 <= k < |r| ==> r[k] == Slide(kept[k], k)
  {
    seq(|kept|, k requires 0 <= k < |kept| => Slide(kept[k], k))
  }

  /** No two slides share a `unique_id`. */
  lemma SlideIdsDistinct(kept: seq<Row>, i: nat, j: nat)
    requires Titled(kept)
    requires i < |kept| && j < |kept| && i != j
    ensures Slides(kept)[i].uniqueId != Slides(kept)[j].uniqueId
  {
    var r := Slides(kept);
    assert ParseInt(r[i].uniqueId) == Int(i);
    assert ParseInt(r[j].uniqueId) == Int(j);
  }

  function TitleKey(row: Row): string
    requires "Title" in row
  {
    ToLower(row["Title"])
  }

  /** `r` holds exactly the lower-cased titles of `kept`. */
  ghost predicate LookupKeys(kept: seq<Row>, r: map<string, nat>)
    requires Titled(kept)
  {
    forall key :: key in r <==> exists i :: 0 <= i < |kept| && TitleKey(kept[i]) == key
  }

  /** Every id in `r` is that of a record with the key as its title, and
      no later record has that title. */
  ghost predicate LookupSound(kept: seq<Row>, r: map<string, nat>)
    requires Titled(kept)
  {
    forall key :: key in r ==>
      r[key] < |kept| && TitleKey(kept[r[key]]) == key
      && forall j :: r[key] < j < |kept| ==> TitleKey(kept[j]) != key
  }

  lemma LookupKeysStep(kept: seq<Row>, before: map<string, nat>)
    requires Titled(kept) && |kept| > 0
    requires LookupKeys(kept[..|kept| - 1], before)
    ensures LookupKeys(kept, before[TitleKey(kept[|kept| - 1]) := |kept| - 1])
  {
    var n := |kept| - 1;
    var prefix := kept[..n];
    var r := before[TitleKey(kept[n]) := n];
    forall key ensures key in r <==> exists i :: 0 <= i < |kept| && TitleKey(kept[i]) == key {
      if key in before {
        var i :| 0 <= i < n && TitleKey(prefix[i]) == key;
        assert kept[i] == prefix[i];
      }
      if exists i :: 0 <= i < |kept| && TitleKey(kept[i]) == key {
        var i :| 0 <= i < |kept| && TitleKey(kept[i]) == key;
        if i < n {
          assert kept[i] == prefix[i];
        }
      }
    }
  }

  lemma LookupSoundStep(kept: seq<Row>, before: map<string, nat>)
    requires Titled(kept) && |kept| > 0
    requires LookupSound(kept[..|kept| - 1], before)
    ensures LookupSound(kept, before[TitleKey(kept[|kept| - 1]) := |kept| - 1])
  {
    var n := |kept| - 1;
    var prefix := kept[..n];
    var r := before[TitleKey(kept[n]) := n];
    forall key | key in r
      ensures r[key] < |kept| && TitleKey(kept[r[key]]) == key
      ensures forall j :: r[key] < j < |kept| ==> TitleKey(kept[j]) != key
    {
      if key != TitleKey(kept[n]) {
        var k := before[key];
        assert kept[k] == prefix[k];
        forall j | k < j < |kept| ensures TitleKey(kept[j]) != key {
          if j < n {
            assert kept[j] == prefix[j];
          }
        }
      }
    }
  }

  /** `idLookup`: each kept record's lower-cased title to its id; when
      titles collide, the later record's id is the one kept. */
  function IdLookup(kept: seq<Row>): (r: map<string, nat>)
    requires Titled(kept)
    ensures LookupKeys(kept, r) && LookupSound(kept, r)
  {
    if |kept| == 0 then map[]
    else
      var n := |kept| - 1;
      var before := IdLookup(kept[..n]);
      LookupKeysStep(kept, before);
      LookupSoundStep(kept, before);
      before[TitleKey(kept[n]) := n]
  }

  /** Later duplicates win: the id a title maps to is that of the last
      record with that title. */
  lemma LookupLastWins(kept: seq<Row>, i: nat)
    requires Titled(kept) && i < |kept|
    requires forall j :: i < j < |kept| ==> TitleKey(kept[j]) != TitleKey(kept[i])
    ensures TitleKey(kept[i]) in IdLookup(kept)
    ensures IdLookup(kept)[TitleKey(kept[i])] == i
  {
  }

  /** The lookup leads back to the last slide whose headline lower-cases to
      the key. */
  lemma LookupFindsSlide(kept: seq<Row>, key: string)
    requires Titled(kept)
    requires key in IdLookup(kept)
    ensures ToLower(Slides(kept)[IdLookup(kept)[key]].headline) == key
    ensures forall j :: IdLookup(kept)[key] < j < |kept| ==> ToLower(Slides(kept)[j].headline) != key
  {
    var lookup := IdLookup(kept);
    var k := lookup[key];
    assert k < |kept| && TitleKey(kept[k]) == key && forall j :: k < j < |kept| ==> TitleKey(kept[j]) != key by {
      assert LookupSound(kept, lookup);
    }
    HeadlineKey(kept, k);
    forall j | k < j < |kept| ensures ToLower(Slides(kept)[j].headline) != key {
      HeadlineKey(kept, j);
    }
  }

  /** A slide's headline lower-cases to its record's lookup key. */
  lemma HeadlineKey(kept: seq<Row>, j: nat)
    requires Titled(kept) && j < |kept|
    ensures ToLower(Slides(kept)[j].headline) == TitleKey(kept[j])
  {
    assert Slides(kept)[j] == Slide(kept[j], j);
  }

  /** The ids, in order, of the slides with a `null` start date: each one is
      reported as having no start date. */
  function Undated(events: seq<TimelineEvent>): (r: seq<nat>)
    ensures forall k :: k in r <==> 0 <= k < |events| && events[k].startDate.None?
    ensures forall a, b :: 0 <= a < b < |r| ==> r[a] < r[b]
  {
    if |events| == 0 then []
    else
      var n := |events| - 1;
      var rest := Undated(events[..n]);
      assert forall k :: 0 <= k < n ==> events[k] == events[..n][k];
      forall a | 0 <= a < |rest| ensures rest[a] < n {
        assert rest[a] in rest;
      }
      if events[n].startDate.None? then rest + [n] else rest
  }

  /** The whole of `populateTimeline(data)`, without the widget it feeds. */
  function Populate(rows: seq<Row>): (r: Populated)
    requires AllDated(rows)
    requires forall i :: 0 <= i < |rows| && Kept(rows[i]) ==> "Title" in rows[i]
    ensures r.kept == KeepEvents(rows)
    ensures forall x :: x in r.kept <==> x in rows && Kept(x)
    ensures Titled(r.kept)
    ensures |r.events| == |r.kept|
    ensures forall k :: 0 <= k < |r.events| ==> r.events[k] == Slide(r.kept[k], k)
    ensures forall key :: key in r.idLookup ==>
              (r.idLookup[key] < |r.events| && ToLower(r.events[r.idLookup[key]].headline) == key)
    ensures LookupKeys(r.kept, r.idLookup) && LookupSound(r.kept, r.idLookup)
    ensures forall k :: k in r.undated <==> 0 <= k < |r.kept| && AllWhitespace(r.kept[k]["StartDate"])
    ensures r.undated == Undated(r.events)
  {
    var kept := KeepEvents(rows);
    assert Titled(kept) by {
      forall i | 0 <= i < |kept| ensures "StartDate" in kept[i] && "Title" in kept[i] {
        assert kept[i] in kept;
      }
    }
    var events := Slides(kept);
    LookupOnSlides(kept);
    UndatedRecords(kept);
    Populated(events, kept, IdLookup(kept), Undated(events))
  }

  /** Every key of the lookup leads to a slide whose headline lower-cases
      to it. */
  lemma LookupOnSlides(kept: seq<Row>)
    requires Titled(kept)
    ensures forall key :: key in IdLookup(kept) ==>
              IdLookup(kept)[key] < |Slides(kept)| && ToLower(Slides(kept)[IdLookup(kept)[key]].headline) == key
  {
    forall key | key in IdLookup(kept)
      ensures IdLookup(kept)[key] < |Slides(kept)| && ToLower(Slides(kept)[IdLookup(kept)[key]].headline) == key
    {
      LookupFindsSlide(kept, key);
    }
  }

  /** The ids reported as having no start date are those of the records
      whose start date is blank. */
  lemma UndatedRecords(kept: seq<Row>)
    requires Titled(kept)
    ensures forall k :: k in Undated(Slides(kept)) <==> 0 <= k < |kept| && AllWhitespace(kept[k]["StartDate"])
  {
    var events := Slides(kept);
    forall k | 0 <= k < |kept| ensures events[k].startDate.None? <==> AllWhitespace(kept[k]["StartDate"]) {
      assert events[k] == Slide(kept[k], k);
    }
  }
}
