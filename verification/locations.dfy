/** Location fields: tokenising a `;`-separated list, expanding region
    aliases into country codes, and the in-place rewrite the validator
    applies to the `Location` and `Influences` columns. */
module Locations {
  import opened JsString

  /** One geometry of the world map: its id (a country code) and its name. */
  datatype GeoEntry = GeoEntry(id: string, name: string)

  /** The id the map uses for areas that are not countries. */
  const NonCountryId: string := "-99"

  /** The geometries that are countries, in map order (`allCodes`). */
  function Countries(geo: seq<GeoEntry>): (r: seq<GeoEntry>)
    ensures forall e :: e in r <==> e in geo && e.id != NonCountryId
    ensures |r| <= |geo|
  {
    if |geo| == 0 then []
    else (if geo[0].id != NonCountryId then [geo[0]] else []) + Countries(geo[1..])
  }

  /** The ids of the countries, in map order: what `world` expands to. */
  function CountryIds(geo: seq<GeoEntry>): (r: seq<string>)
    ensures NonCountryId !in r
    ensures forall e :: e in geo && e.id != NonCountryId ==> e.id in r
  {
    var cs := Countries(geo);
    var r := seq(|cs|, i requires 0 <= i < |cs| => cs[i].id);
    assert forall e :: e in geo && e.id != NonCountryId ==> e.id in r by {
      forall e | e in geo && e.id != NonCountryId ensures e.id in r {
        var i :| 0 <= i < |cs| && cs[i] == e;
        assert r[i] == e.id;
      }
    }
    r
  }

  /** The filter keeps map order: the countries of two runs of geometries
      are those of the first run followed by those of the second. */
  lemma {:induction false} CountriesAppend(a: seq<GeoEntry>, b: seq<GeoEntry>)
    ensures Countries(a + b) == Countries(a) + Countries(b)
    decreases |a|
  {
    if |a| == 0 {
      assert a + b == b;
    } else {
      assert (a + b)[0] == a[0];
      assert (a + b)[1..] == a[1..] + b;
      CountriesAppend(a[1..], b);
    }
  }

  /** One geometry is a country exactly when its id is not `-99`. */
  lemma CountriesOne(e: GeoEntry)
    ensures Countries([e]) == if e.id != NonCountryId then [e] else []
  {
    assert [e][1..] == [];
  }

  /** The ids of two runs of geometries are those of the first run followed
      by those of the second. */
  lemma CountryIdsAppend(a: seq<GeoEntry>, b: seq<GeoEntry>)
    ensures CountryIds(a + b) == CountryIds(a) + CountryIds(b)
  {
    CountriesAppend(a, b);
  }

  /** The ids are those of the countries, position by position. */
  lemma CountryIdsAt(geo: seq<GeoEntry>)
    ensures |CountryIds(geo)| == |Countries(geo)|
    ensures forall i :: 0 <= i < |Countries(geo)| ==> CountryIds(geo)[i] == Countries(geo)[i].id
  {
  }

  // ---------------------------------------------------------------------
  // Tokenising

  /** A token as `splitUpLocations` produces it. */
  predicate IsToken(t: string) {
    t != "" && IsTrimmed(t) && ';' !in t
  }

  function TrimAll(parts: seq<string>): (r: seq<string>)
    ensures |r| == |parts|
    ensures forall i :: 0 <= i < |parts| ==> r[i] == Trim(parts[i])
  {
    seq(|parts|, i requires 0 <= i < |parts| => Trim(parts[i]))
  }

  function DropEmpty(parts: seq<string>): (r: seq<string>)
    ensures forall i :: 0 <= i < |r| ==> r[i] != "" && r[i] in parts
    ensures forall i :: 0 <= i < |parts| && parts[i] != "" ==> parts[i] in r
    ensures |r| <= |parts|
  {
    if |parts| == 0 then []
    else (if parts[0] != "" then [parts[0]] else []) + DropEmpty(parts[1..])
  }

  /** `splitUpLocations(locations)`: the trimmed, non-empty pieces between
      semicolons, in order. */
  function SplitUpLocations(s: string): (r: seq<string>)
    ensures |r| <= |Split(s, ';')|
  {
    DropEmpty(TrimAll(Split(s, ';')))
  }

  /** Every piece `splitUpLocations` returns is a token. */
  lemma SplitUpLocationsTokens(s: string)
    ensures forall i :: 0 <= i < |SplitUpLocations(s)| ==> IsToken(SplitUpLocations(s)[i])
  {
    var pieces := Split(s, ';');
    TrimmedPieces(pieces);
    DropEmptyKeepsTokens(TrimAll(pieces));
  }

  /** Trimming only removes characters, so it adds no separator. */
  lemma TrimInfix(s: string)
    ensures forall c :: c in Trim(s) ==> c in s
  {
    var a := LeadingSpace(s);
    var t := s[a..];
    forall c | c in Trim(s) ensures c in s {
      var i :| 0 <= i < |Trim(s)| && Trim(s)[i] == c;
      assert Trim(s)[i] == t[i];
      assert t[i] == s[a + i];
    }
  }

  lemma TrimmedPieces(pieces: seq<string>)
    requires NoneContains(pieces, ';')
    ensures forall i :: 0 <= i < |pieces| ==> IsTrimmed(TrimAll(pieces)[i]) && ';' !in TrimAll(pieces)[i]
  {
    forall i | 0 <= i < |pieces| ensures ';' !in TrimAll(pieces)[i] {
      TrimInfix(pieces[i]);
    }
  }

  lemma {:induction false} DropEmptyKeepsTokens(parts: seq<string>)
    requires forall i :: 0 <= i < |parts| ==> IsTrimmed(parts[i]) && ';' !in parts[i]
    ensures forall i :: 0 <= i < |DropEmpty(parts)| ==> IsToken(DropEmpty(parts)[i])
    decreases |parts|
  {
    if |parts| > 0 {
      DropEmptyKeepsTokens(parts[1..]);
    }
  }

  lemma TrimAllTokens(ts: seq<string>)
    requires forall i :: 0 <= i < |ts| ==> IsToken(ts[i])
    ensures TrimAll(ts) == ts
  {
  }

  lemma {:induction false} DropEmptyOfTokens(ts: seq<string>)
    requires forall i :: 0 <= i < |ts| ==> ts[i] != ""
    ensures DropEmpty(ts) == ts
    decreases |ts|
  {
    if |ts| > 0 {
      DropEmptyOfTokens(ts[1..]);
      assert ts == [ts[0]] + ts[1..];
    }
  }

  /** Tokenising the `;`-join of a list of tokens gives the list back. */
  lemma SplitUpJoin(ts: seq<string>)
    requires forall i :: 0 <= i < |ts| ==> IsToken(ts[i])
    ensures SplitUpLocations(Join(ts, ';')) == ts
  {
    if |ts| == 0 {
      assert Split("", ';') == [""];
      assert TrimAll([""]) == [""];
    } else {
      SplitJoin(ts, ';');
      TrimAllTokens(ts);
      DropEmptyOfTokens(ts);
    }
  }

  // ---------------------------------------------------------------------
  // Alias expansion

  const Prussia: seq<string> := ["DEU", "POL"]
  const Scandinavia: seq<string> := ["FIN", "DNK", "SWE", "NOR"]
  const SouthAmerica: seq<string> :=
    ["ARG", "BOL", "BRA", "CHL", "COL", "ECU", "GUY", "PRY", "PER", "SUR", "URY", "VEN"]
  const CentralAmerica: seq<string> := ["BLZ", "CRI", "SLV", "GTM", "HND", "NIC", "PAN"]

  /** The lower-cased tokens that stand for more than one code. */
  predicate IsAlias(part: string) {
    part == "world" || part == "prussia" || part == "scandinavia"
    || part == "south america" || part == "central america"
  }

  /** The codes one token stands for; `ids` are the country ids of the map. */
  function ExpandToken(token: string, ids: seq<string>): seq<string>
  {
    var part := ToLower(token);
    if part == "world" then ids
    else if part == "prussia" then Prussia
    else if part == "scandinavia" then Scandinavia
    else if part == "south america" then SouthAmerica
    else if part == "central america" then CentralAmerica
    else [ToUpper(part)]
  }

  /** Every code an alias can produce. */
  predicate IsAliasCode(c: string) {
    c in Prussia || c in Scandinavia || c in SouthAmerica || c in CentralAmerica
  }

  /** `expandParts(parts)`: the expansions of the tokens, concatenated in
      order, duplicates kept. */
  function ExpandParts(parts: seq<string>, ids: seq<string>): (r: seq<string>)
    ensures forall i :: 0 <= i < |parts| && !IsAlias(ToLower(parts[i])) ==> ToUpper(parts[i]) in r
    ensures forall c :: c in r ==> c in ids || IsAliasCode(c) || exists i :: 0 <= i < |parts| && c == ToUpper(parts[i])
  {
    if |parts| == 0 then []
    else
      var head := ExpandToken(parts[0], ids);
      var rest := ExpandParts(parts[1..], ids);
      LowerAfterUpper(parts[0]);
      assert forall i :: 1 <= i < |parts| ==> parts[i] == parts[1..][i - 1];
      head + rest
  }

  lemma {:induction false} ExpandPartsAppend(a: seq<string>, b: seq<string>, ids: seq<string>)
    ensures ExpandParts(a + b, ids) == ExpandParts(a, ids) + ExpandParts(b, ids)
    decreases |a|
  {
    if |a| == 0 {
      assert a + b == b;
    } else {
      assert (a + b)[0] == a[0];
      assert (a + b)[1..] == a[1..] + b;
      ExpandPartsAppend(a[1..], b, ids);
    }
  }

  /** `world` expands to every country id of the map, in map order. */
  lemma ExpandWorld(geo: seq<GeoEntry>)
    ensures ExpandParts(["WoRlD"], CountryIds(geo)) == CountryIds(geo)
    ensures ExpandParts(["world"], CountryIds(geo)) == CountryIds(geo)
  {
    assert ToLower("WoRlD") == "world";
  }

  lemma ExpandPrussiaScandinavia(ids: seq<string>)
    ensures ExpandParts(["prussia", "scandinavia"], ids) == ["DEU", "POL", "FIN", "DNK", "SWE", "NOR"]
  {
    LowerOfLowerCase("prussia");
    LowerOfLowerCase("scandinavia");
    assert ExpandToken("prussia", ids) == Prussia;
    assert ExpandToken("scandinavia", ids) == Scandinavia;
    ExpandPartsAppend(["prussia"], ["scandinavia"], ids);
    assert ["prussia"] + ["scandinavia"] == ["prussia", "scandinavia"];
  }

  // ---------------------------------------------------------------------
  // The rewrite of a Location or Influences field

  /** The value the validator stores back into a `Location` or `Influences`
      field: lower-cased, tokenised, expanded and joined with `;`. */
  function NormaliseField(raw: string, ids: seq<string>): string
  {
    Join(ExpandParts(SplitUpLocations(ToLower(raw)), ids), ';')
  }

  /** A code that the rewrite leaves as it is: a token with no lower-case
      letter that is not an alias in any case. */
  predicate IsCanonical(c: string) {
    IsToken(c) && IsUpperCase(c) && !IsAlias(ToLower(c))
  }

  lemma UpperPreservesToken(t: string)
    requires IsToken(t)
    ensures IsToken(ToUpper(t))
  {
    var u := ToUpper(t);
    assert u[0] == UpperChar(t[0]);
    assert u[|u| - 1] == UpperChar(t[|t| - 1]);
    assert ';' !in u by {
      forall i | 0 <= i < |u| ensures u[i] != ';' {
        assert t[i] != ';';
      }
    }
  }

  lemma LowerPreservesToken(t: string)
    requires IsToken(t)
    ensures IsToken(ToLower(t))
  {
    var u := ToLower(t);
    assert u[0] == LowerChar(t[0]);
    assert u[|u| - 1] == LowerChar(t[|t| - 1]);
    assert ';' !in u by {
      forall i | 0 <= i < |u| ensures u[i] != ';' {
        assert t[i] != ';';
      }
    }
  }

  /** Three upper-case letters. */
  predicate IsThreeLetterCode(c: string) {
    |c| == 3 && IsUpper(c[0]) && IsUpper(c[1]) && IsUpper(c[2])
  }

  lemma ThreeLetterCodeCanonical(c: string)
    requires IsThreeLetterCode(c)
    ensures IsCanonical(c)
  {
    assert |ToLower(c)| == 3;
    assert ';' !in c by {
      forall i | 0 <= i < 3 ensures c[i] != ';' { }
    }
  }

  lemma AliasCodesCanonical()
    ensures forall c :: IsAliasCode(c) ==> IsCanonical(c)
  {
    assert forall c :: c in Prussia ==> IsThreeLetterCode(c);
    assert forall c :: c in Scandinavia ==> IsThreeLetterCode(c);
    assert forall c :: c in SouthAmerica ==> IsThreeLetterCode(c);
    assert forall c :: c in CentralAmerica ==> IsThreeLetterCode(c);
    forall c | IsAliasCode(c) ensures IsCanonical(c) {
      ThreeLetterCodeCanonical(c);
    }
  }

  /** A canonical code expands to itself, whatever its letters' case in the input. */
  lemma CanonicalExpandsToItself(c: string, ids: seq<string>)
    requires IsCanonical(c)
    ensures ExpandToken(c, ids) == [c]
    ensures ExpandToken(ToLower(c), ids) == [c]
  {
    LowerIsLowerCase(c);
    LowerAfterUpper(c);
    assert ToUpper(c) == c;
  }

  /** Expanding tokens yields canonical codes, provided the map's ids are canonical. */
  lemma {:induction false} ExpandedAreCanonical(parts: seq<string>, ids: seq<string>)
    requires forall i :: 0 <= i < |parts| ==> IsToken(parts[i])
    requires forall i :: 0 <= i < |ids| ==> IsCanonical(ids[i])
    ensures forall c :: c in ExpandParts(parts, ids) ==> IsCanonical(c)
    decreases |parts|
  {
    if |parts| > 0 {
      ExpandedAreCanonical(parts[1..], ids);
      var part := ToLower(parts[0]);
      if !IsAlias(part) {
        var u := ToUpper(part);
        LowerPreservesToken(parts[0]);
        UpperPreservesToken(part);
        LowerAfterUpper(part);
        LowerIsLowerCase(parts[0]);
        assert ToLower(u) == part;
        assert IsUpperCase(u);
      }
      AliasCodesCanonical();
    }
  }

  function LowerAll(cs: seq<string>): (r: seq<string>)
    ensures |r| == |cs|
    ensures forall i :: 0 <= i < |cs| ==> r[i] == ToLower(cs[i])
  {
    seq(|cs|, i requires 0 <= i < |cs| => ToLower(cs[i]))
  }

  /** Expanding lower-cased canonical codes gives the codes back. */
  lemma {:induction false} ExpandLoweredCanonical(cs: seq<string>, ids: seq<string>)
    requires forall i :: 0 <= i < |cs| ==> IsCanonical(cs[i])
    ensures ExpandParts(LowerAll(cs), ids) == cs
    decreases |cs|
  {
    if |cs| > 0 {
      CanonicalExpandsToItself(cs[0], ids);
      assert LowerAll(cs)[1..] == LowerAll(cs[1..]);
      ExpandLoweredCanonical(cs[1..], ids);
      assert cs == [cs[0]] + cs[1..];
    }
  }

  /** What the code check reads back from a rewritten field: its tokens are
      the expanded codes, in order and with repeats, and each one is a
      canonical code, provided the map's ids are canonical codes. */
  lemma NormaliseFieldTokens(raw: string, ids: seq<string>)
    requires forall i :: 0 <= i < |ids| ==> IsCanonical(ids[i])
    ensures SplitUpLocations(NormaliseField(raw, ids)) == ExpandParts(SplitUpLocations(ToLower(raw)), ids)
    ensures forall c :: c in SplitUpLocations(NormaliseField(raw, ids)) ==> IsCanonical(c)
  {
    var cs := ExpandParts(SplitUpLocations(ToLower(raw)), ids);
    SplitUpLocationsTokens(ToLower(raw));
    ExpandedAreCanonical(SplitUpLocations(ToLower(raw)), ids);
    forall i | 0 <= i < |cs| ensures IsToken(cs[i]) {
      assert cs[i] in cs;
    }
    SplitUpJoin(cs);
  }

  /** Rewriting a field a second time leaves it as the first rewrite left it,
      provided the map's ids are canonical codes. */
  lemma NormaliseIdempotent(raw: string, ids: seq<string>)
    requires forall i :: 0 <= i < |ids| ==> IsCanonical(ids[i])
    ensures NormaliseField(NormaliseField(raw, ids), ids) == NormaliseField(raw, ids)
  {
    var cs := ExpandParts(SplitUpLocations(ToLower(raw)), ids);
    SplitUpLocationsTokens(ToLower(raw));
    ExpandedAreCanonical(SplitUpLocations(ToLower(raw)), ids);
    LowerJoin(cs, ';');
    var lowered := LowerAll(cs);
    assert seq(|cs|, i requires 0 <= i < |cs| => ToLower(cs[i])) == lowered;
    forall i | 0 <= i < |lowered| ensures IsToken(lowered[i]) {
      assert cs[i] in cs;
      LowerPreservesToken(cs[i]);
    }
    SplitUpJoin(lowered);
    ExpandLoweredCanonical(cs, ids);
  }
}
