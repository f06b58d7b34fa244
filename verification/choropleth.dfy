/** Colouring countries on the map: a table from country code to colour,
    filled by successive assignments in which a later one wins. */
module Choropleth {

  /** `applyCountryColours(choropleth, parts, colour)` and the `forEach` of
      the empire colouring: every code of `codes` gets `colour`, every other
      entry stays. */
  function Paint<C>(m: map<string, C>, codes: seq<string>, colour: C): (r: map<string, C>)
    ensures forall c :: c in r <==> c in m || c in codes
    ensures forall c :: c in codes ==> r[c] == colour
    ensures forall c :: c in m && c !in codes ==> r[c] == m[c]
  {
    m + map c | c in codes :: colour
  }

  /** `r` is what painting `updates` in order onto `m` leaves: a code is
      coloured when `m` or some update has it; the last update that has it
      decides its colour, and a code no update has keeps its colour in `m`. */
  ghost predicate Painted<C>(m: map<string, C>, updates: seq<(seq<string>, C)>, r: map<string, C>) {
    PaintedKeys(m, updates, r) && PaintedLast(updates, r) && PaintedKept(m, updates, r)
  }

  ghost predicate PaintedKeys<C>(m: map<string, C>, updates: seq<(seq<string>, C)>, r: map<string, C>) {
    forall c :: c in r <==> c in m || exists i :: 0 <= i < |updates| && c in updates[i].0
  }

  ghost predicate PaintedLast<C>(updates: seq<(seq<string>, C)>, r: map<string, C>) {
    forall c, i :: 0 <= i < |updates| && c in updates[i].0
      && (forall j :: i < j < |updates| ==> c !in updates[j].0)
      ==> c in r && r[c] == updates[i].1
  }

  ghost predicate PaintedKept<C>(m: map<string, C>, updates: seq<(seq<string>, C)>, r: map<string, C>) {
    forall c :: c in m && (forall i :: 0 <= i < |updates| ==> c !in updates[i].0) ==> c in r && r[c] == m[c]
  }

  lemma PaintKeysStep<C>(m: map<string, C>, updates: seq<(seq<string>, C)>, before: map<string, C>)
    requires |updates| > 0
    requires PaintedKeys(m, updates[..|updates| - 1], before)
    ensures PaintedKeys(m, updates, Paint(before, updates[|updates| - 1].0, updates[|updates| - 1].1))
  {
    var n := |updates| - 1;
    var prefix := updates[..n];
    var r := Paint(before, updates[n].0, updates[n].1);
    forall c ensures c in r <==> c in m || exists i :: 0 <= i < |updates| && c in updates[i].0 {
      if c in r && c !in updates[n].0 {
        assert c in before;
        if c !in m {
          var i :| 0 <= i < n && c in prefix[i].0;
          assert updates[i] == prefix[i];
        }
      }
      if exists i :: 0 <= i < |updates| && c in updates[i].0 {
        var i :| 0 <= i < |updates| && c in updates[i].0;
        if i < n {
          assert prefix[i] == updates[i];
        }
      }
    }
  }

  lemma PaintLastStep<C>(updates: seq<(seq<string>, C)>, before: map<string, C>)
    requires |updates| > 0
    requires PaintedLast(updates[..|updates| - 1], before)
    ensures PaintedLast(updates, Paint(before, updates[|updates| - 1].0, updates[|updates| - 1].1))
  {
    var n := |updates| - 1;
    var prefix := updates[..n];
    var r := Paint(before, updates[n].0, updates[n].1);
    forall c, i | 0 <= i < |updates| && c in updates[i].0 && (forall j :: i < j < |updates| ==> c !in updates[j].0)
      ensures c in r && r[c] == updates[i].1
    {
      if i < n {
        assert c !in updates[n].0;
        assert prefix[i] == updates[i];
        assert forall j :: i < j < n ==> prefix[j] == updates[j];
      }
    }
  }

  lemma PaintKeptStep<C>(m: map<string, C>, updates: seq<(seq<string>, C)>, before: map<string, C>)
    requires |updates| > 0
    requires PaintedKept(m, updates[..|updates| - 1], before)
    ensures PaintedKept(m, updates, Paint(before, updates[|updates| - 1].0, updates[|updates| - 1].1))
  {
    var n := |updates| - 1;
    var prefix := updates[..n];
    assert forall i :: 0 <= i < n ==> prefix[i] == updates[i];
  }

  /** The assignments `updates` applied in order to `m`. */
  function PaintAll<C>(m: map<string, C>, updates: seq<(seq<string>, C)>): (r: map<string, C>)
    ensures Painted(m, updates, r)
  {
    if |updates| == 0 then m
    else
      var before := PaintAll(m, updates[..|updates| - 1]);
      PaintKeysStep(m, updates, before);
      PaintLastStep(updates, before);
      PaintKeptStep(m, updates, before);
      Paint(before, updates[|updates| - 1].0, updates[|updates| - 1].1)
  }

  /** Painting the same codes twice in a row: only the second colour shows. */
  lemma PaintTwice<C>(m: map<string, C>, codes: seq<string>, first: C, second: C)
    ensures Paint(Paint(m, codes, first), codes, second) == Paint(m, codes, second)
  {
  }
}
