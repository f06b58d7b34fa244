/** `displayEventOnMap(eventData)`: what an event puts on the map — a
    bubble, an arc or a fill chosen by how many locations it names, and the
    influence colour painted over the fill. */
module Projection {
  import opened Wrappers
  import opened JsString
  import opened JsNumber
  import opened Dates
  import opened Locations
  import opened Choropleth
  import opened Validation

  /** A point as the text of its two coordinates; `longitude` is `None`
      when the text has no `,` (JavaScript reads `undefined` there). */
  datatype LatLong = LatLong(latitude: string, longitude: Option<string>)

  /** `countryToLatLong`: a code's coordinates as text. */
  type CoordinateTable = map<string, (string, string)>

  datatype Bubble = Bubble(name: Option<string>, at: LatLong, radius: Num)
  datatype Arc = Arc(origin: LatLong, destination: LatLong)

  /** `selections` once the event is drawn. */
  datatype Selections = Selections(bubbles: seq<Bubble>, arcs: seq<Arc>, choropleth: map<string, string>)

  const FillColour: string := "#4C668C"
  const InfluenceColour: string := "#758AA8"
  const DefaultRadius: int := 10

  /** `ensureLatLong(location)`: a three-character location is a code looked
      up in the table (`None` when the table has no such code: the lookup
      throws); anything else is `latitude,longitude`. */
  function EnsureLatLong(location: string, table: CoordinateTable): (r: Option<LatLong>)
    ensures r.None? <==> |Trim(location)| == 3 && Trim(location) !in table
    ensures |Trim(location)| == 3 && r.Some? ==> r.value == LatLong(table[Trim(location)].0, Some(table[Trim(location)].1))
    ensures |Trim(location)| != 3 ==> r.Some? && ',' !in r.value.latitude
  {
    var t := Trim(location);
    if |t| == 3 then
      if t in table then Some(LatLong(table[t].0, Some(table[t].1))) else None
    else
      var parts := Split(t, ',');
      Some(LatLong(parts[0], if |parts| >= 2 then Some(parts[1]) else None))
  }

  /** Coordinates written as `latitude,longitude` read back as written. */
  lemma CoordinatesRead(lat: string, long: string, table: CoordinateTable)
    requires ',' !in lat && ',' !in long
    requires IsTrimmed(lat + "," + long)
    requires |lat + "," + long| != 3
    ensures EnsureLatLong(lat + "," + long, table) == Some(LatLong(lat, Some(long)))
  {
    SplitAtFirst(lat, ',', long);
    assert lat + "," + long == lat + [','] + long;
  }

  /** `if (eventData.radius)`: a radius that is present and not empty is read
      with `parseInt` (and may be `NaN`); otherwise the bubble has radius 10. */
  function Radius(event: Row): (r: Num)
    ensures ("radius" !in event || event["radius"] == "") ==> r == Int(DefaultRadius)
    ensures "radius" in event && event["radius"] != "" ==> r == ParseInt(event["radius"])
  {
    match Get(event, "radius")
    case Some(text) => if text != "" then ParseInt(text) else Int(DefaultRadius)
    case None => Int(DefaultRadius)
  }

  /** A radius written in decimal digits is that number of pixels, zero
      included; the radius field's text overrides whatever the event had. */
  lemma RadiusReadsDecimal(event: Row, n: nat)
    ensures Radius(event["radius" := NatToString(n)]) == Int(n)
  {
    ParseIntNatToString(n);
  }

  /** The bubbles, arcs and fill of the locations `parts`, before the
      influences are painted; `None` when a coordinate lookup throws. */
  function Shape(parts: seq<string>, event: Row, table: CoordinateTable): (r: Option<Selections>)
    ensures r.Some? ==> |r.value.bubbles| == (if |parts| == 1 then 1 else 0)
    ensures r.Some? ==> |r.value.arcs| == (if |parts| == 2 then 1 else 0)
    ensures r.Some? ==> forall c :: c in r.value.choropleth <==> |parts| > 2 && c in parts
    ensures r.Some? ==> forall c :: c in r.value.choropleth ==> r.value.choropleth[c] == FillColour
    ensures r.None? <==> (|parts| == 1 || |parts| == 2)
                         && exists i :: 0 <= i < |parts| && EnsureLatLong(parts[i], table).None?
  {
    if |parts| == 1 then
      match EnsureLatLong(parts[0], table)
      case None => None
      case Some(at) => Some(Selections([Bubble(Get(event, "Title"), at, Radius(event))], [], map[]))
    else if |parts| == 2 then
      match (EnsureLatLong(parts[0], table), EnsureLatLong(parts[1], table))
      case (Some(origin), Some(destination)) => Some(Selections([], [Arc(origin, destination)], map[]))
      case _ => None
    else if |parts| > 2 then Some(Selections([], [], Paint(map[], parts, FillColour)))
    else Some(Selections([], [], map[]))
  }

  /** What the info panel reads before the map is touched, without
      throwing: a start date that parses (`formatDate` of `null` throws) and
      the `RelatedEvents`, `Tags`, `Footnotes` and `Location` fields, which
      are split; then `Influences`, which is split once the shape is drawn.
      The record is the one the timeline keeps, with its `StartDate` text
      read through `ParseDate` as `populateTimeline` does. */
  predicate Displayable(event: Row) {
    ParseDate(Get(event, "StartDate")).Some?
    && "RelatedEvents" in event && "Tags" in event && "Footnotes" in event
    && "Location" in event && "Influences" in event
  }

  /** `displayEventOnMap(eventData)`: `None` when nothing is drawn — no
      event, a record the info panel or the map throws on (see
      `Displayable`), or a coordinate lookup that throws. */
  function DisplayEvent(event: Option<Row>, table: CoordinateTable): (r: Option<Selections>)
    ensures event.None? ==> r.None?
    ensures r.Some? ==> event.Some? && Displayable(event.value)
    ensures event.Some? && ParseDate(Get(event.value, "StartDate")).None? ==> r.None?
    ensures event.Some? ==>
              ("RelatedEvents" !in event.value || "Tags" !in event.value || "Footnotes" !in event.value
               || "Location" !in event.value || "Influences" !in event.value) ==> r.None?
  {
    if event.None? || !Displayable(event.value) then None
    else
      var row := event.value;
      match Shape(SplitUpLocations(row["Location"]), row, table)
      case None => None
      case Some(s) => Some(s.(choropleth := Paint(s.choropleth, SplitUpLocations(row["Influences"]), InfluenceColour)))
  }

  /** The locations of a drawable event. */
  function Parts(event: Row): seq<string>
    requires "Location" in event
  {
    SplitUpLocations(event["Location"])
  }

  function Influences(event: Row): seq<string>
    requires "Influences" in event
  {
    SplitUpLocations(event["Influences"])
  }

  /** An event is drawn exactly when the panel and the map can read it and
      every coordinate lookup a bubble or arc needs succeeds. */
  lemma DrawnWhen(event: Row, table: CoordinateTable)
    ensures DisplayEvent(Some(event), table).Some?
        <==> Displayable(event)
             && !((|Parts(event)| == 1 || |Parts(event)| == 2)
                  && exists i :: 0 <= i < |Parts(event)| && EnsureLatLong(Parts(event)[i], table).None?)
  {
  }

  /** One location gives one bubble named after the event, with radius 10
      unless the event gives one; two give one arc from the first location to
      the second; more give neither. */
  lemma GeometryByCount(event: Row, table: CoordinateTable)
    requires DisplayEvent(Some(event), table).Some?
    ensures var s := DisplayEvent(Some(event), table).value;
            var parts := Parts(event);
            (|parts| == 1 ==> s.arcs == [] && |s.bubbles| == 1
                              && s.bubbles[0] == Bubble(Get(event, "Title"), EnsureLatLong(parts[0], table).value, Radius(event)))
            && (|parts| == 2 ==> s.bubbles == [] && |s.arcs| == 1
                                 && s.arcs[0] == Arc(EnsureLatLong(parts[0], table).value, EnsureLatLong(parts[1], table).value))
            && (|parts| != 1 && |parts| != 2 ==> s.bubbles == [] && s.arcs == [])
  {
  }

  /** Every influence is coloured with the influence colour, also where the
      fill had already coloured it; every other location of a fill keeps the
      fill colour; nothing else is coloured. */
  lemma InfluencesWin(event: Row, table: CoordinateTable)
    requires DisplayEvent(Some(event), table).Some?
    ensures var m := DisplayEvent(Some(event), table).value.choropleth;
            (forall c :: c in m <==> c in Influences(event) || (|Parts(event)| > 2 && c in Parts(event)))
            && (forall c :: c in Influences(event) ==> m[c] == InfluenceColour)
            && (forall c :: |Parts(event)| > 2 && c in Parts(event) && c !in Influences(event) ==> m[c] == FillColour)
  {
  }

  /** With no influences, a fill colours exactly its locations. */
  lemma FillAlone(event: Row, table: CoordinateTable)
    requires Displayable(event)
    requires |Parts(event)| > 2 && Influences(event) == []
    ensures DisplayEvent(Some(event), table).Some?
    ensures DisplayEvent(Some(event), table).value.choropleth == map c | c in Parts(event) :: FillColour
  {
    var fill := Paint(map[], Parts(event), FillColour);
    assert DisplayEvent(Some(event), table) == Some(Selections([], [], Paint(fill, [], InfluenceColour))) by {
      assert Shape(Parts(event), event, table) == Some(Selections([], [], fill));
    }
    FillThenNothing(Parts(event));
  }

  lemma FillThenNothing(parts: seq<string>)
    ensures Paint(Paint(map[], parts, FillColour), [], InfluenceColour) == map c | c in parts :: FillColour
  {
  }
}
