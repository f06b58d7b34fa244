/** The country-code check run on every rewritten `Location` and
    `Influences` field: the known-code set and the name-to-code table built
    from the map, and `validateCodes`. */
module Codes {
  import opened Wrappers
  import opened JsString
  import opened Locations
  import opened Messages

  /** `codeMap`: the ids of the map's countries. */
  function CodeSet(geo: seq<GeoEntry>): (r: set<string>)
    ensures forall c :: c in r <==> c != NonCountryId && exists e :: e in geo && e.id == c
    ensures NonCountryId !in r
  {
    set e | e in Countries(geo) :: e.id
  }

  /** The table built by assigning, country by country in map order,
      lower-cased name to id; a later country with the same lower-cased
      name replaces an earlier one. */
  function NameTable(es: seq<GeoEntry>): (r: map<string, string>)
    ensures forall k :: k in r <==> exists i :: 0 <= i < |es| && ToLower(es[i].name) == k
    ensures forall i :: 0 <= i < |es| && (forall j :: i < j < |es| ==> ToLower(es[j].name) != ToLower(es[i].name))
              ==> r[ToLower(es[i].name)] == es[i].id
  {
    if |es| == 0 then map[]
    else
      var prefix := es[..|es| - 1];
      var last := es[|es| - 1];
      var r := NameTable(prefix)[ToLower(last.name) := last.id];
      assert forall i :: 0 <= i < |es| - 1 ==> es[i] == prefix[i];
      r
  }

  /** `NameToCodeMap`. */
  function NameToCode(geo: seq<GeoEntry>): map<string, string>
  {
    NameTable(Countries(geo))
  }

  /** A three-character token that is a known code. */
  predicate IsKnownCode(part: string, codes: set<string>) {
    |part| == 3 && part in codes
  }

  /** A token the code check reports: it has a letter and is not a known code. */
  predicate IsFlagged(part: string, codes: set<string>) {
    HasLetter(part) && !IsKnownCode(part, codes)
  }

  /** The code suggested for a token: the id its lower-cased text names,
      unless that id is empty (JavaScript treats `""` as absent). */
  function Suggestion(part: string, names: map<string, string>): (r: Option<string>)
    ensures r.Some? <==> ToLower(part) in names && names[ToLower(part)] != ""
    ensures r.Some? ==> r.value == names[ToLower(part)]
  {
    var key := ToLower(part);
    if key in names && names[key] != "" then Some(names[key]) else None
  }

  /** The loop of `validateCodes` over already-split tokens. */
  function CheckTokens(parts: seq<string>, line: nat, codes: set<string>, names: map<string, string>)
    : (r: seq<Message>)
    ensures |r| <= |parts|
    ensures forall m :: m in r ==> m.InvalidCode? && m.line == line && m.code in parts
                                   && IsFlagged(m.code, codes) && m.suggestion == Suggestion(m.code, names)
    ensures forall p :: p in parts && IsFlagged(p, codes) ==> InvalidCode(line, p, Suggestion(p, names)) in r
    ensures r == [] <==> forall p :: p in parts ==> !IsFlagged(p, codes)
  {
    if |parts| == 0 then []
    else
      var rest := CheckTokens(parts[1..], line, codes, names);
      assert forall p :: p in parts ==> p == parts[0] || p in parts[1..];
      if IsFlagged(parts[0], codes) then [InvalidCode(line, parts[0], Suggestion(parts[0], names))] + rest
      else rest
  }

  /** `validateCodes(codes, lineNumber)`: one message per token of `codes`
      that has a letter and is not a known three-character code, carrying
      the suggested code when the token's lower-cased text names a country. */
  function ValidateCodes(codes: string, line: nat, geo: seq<GeoEntry>): (r: seq<Message>)
    ensures |r| <= |SplitUpLocations(codes)|
    ensures forall m :: m in r ==> m.InvalidCode? && m.line == line && IsFlagged(m.code, CodeSet(geo))
                                   && m.code in SplitUpLocations(codes)
                                   && m.suggestion == Suggestion(m.code, NameToCode(geo))
    ensures forall m :: m in r ==>
              (m.suggestion.Some? <==> (ToLower(m.code) in NameToCode(geo) && NameToCode(geo)[ToLower(m.code)] != ""))
    ensures forall p :: p in SplitUpLocations(codes) && IsFlagged(p, CodeSet(geo))
              ==> InvalidCode(line, p, Suggestion(p, NameToCode(geo))) in r
    ensures r == [] <==> forall p :: p in SplitUpLocations(codes) ==> !IsFlagged(p, CodeSet(geo))
  {
    CheckTokens(SplitUpLocations(codes), line, CodeSet(geo), NameToCode(geo))
  }

  /** A country's own name suggests its id, when its id is not empty and
      no later country of the map has the same lower-cased name. */
  lemma SuggestsCountryCode(geo: seq<GeoEntry>, i: nat)
    requires i < |geo| && geo[i].id != NonCountryId && geo[i].id != ""
    requires forall j :: i < j < |geo| && geo[j].id != NonCountryId ==> ToLower(geo[j].name) != ToLower(geo[i].name)
    ensures Suggestion(geo[i].name, NameToCode(geo)) == Some(geo[i].id)
  {
    var e := geo[i];
    var pre := geo[..i];
    var post := geo[i + 1..];
    var cs := Countries(geo);
    var k := |Countries(pre)|;
    assert cs == Countries(pre) + [e] + Countries(post) by {
      assert geo == pre + [e] + post;
      CountriesAppend(pre + [e], post);
      CountriesAppend(pre, [e]);
      CountriesOne(e);
    }
    assert cs[k] == e;
    forall jj | 0 <= jj < |post| && post[jj].id != NonCountryId ensures ToLower(post[jj].name) != ToLower(e.name) {
      assert post[jj] == geo[i + 1 + jj];
    }
    forall j | k < j < |cs| ensures ToLower(cs[j].name) != ToLower(e.name) {
      assert cs[j] == Countries(post)[j - k - 1];
      assert cs[j] in Countries(post);
    }
  }

  /** The token loop reports token by token: the messages for two runs of
      tokens are those of the first run followed by those of the second. */
  lemma {:induction false} CheckTokensAppend(a: seq<string>, b: seq<string>, line: nat, codes: set<string>, names: map<string, string>)
    ensures CheckTokens(a + b, line, codes, names) == CheckTokens(a, line, codes, names) + CheckTokens(b, line, codes, names)
    decreases |a|
  {
    if |a| == 0 {
      assert a + b == b;
    } else {
      assert (a + b)[0] == a[0];
      assert (a + b)[1..] == a[1..] + b;
      CheckTokensAppend(a[1..], b, line, codes, names);
    }
  }

  /** One token raises one message when it is flagged and none otherwise. */
  lemma CheckTokensOne(p: string, line: nat, codes: set<string>, names: map<string, string>)
    ensures CheckTokens([p], line, codes, names)
         == if IsFlagged(p, codes) then [InvalidCode(line, p, Suggestion(p, names))] else []
  {
    assert [p][1..] == [];
  }

  /** The code check of a field joined from two runs of tokens reports the first
      run's tokens, then the second run's. */
  lemma ValidateCodesAppend(a: seq<string>, b: seq<string>, line: nat, geo: seq<GeoEntry>)
    requires forall i :: 0 <= i < |a| ==> IsToken(a[i])
    requires forall i :: 0 <= i < |b| ==> IsToken(b[i])
    ensures ValidateCodes(Join(a + b, ';'), line, geo)
         == ValidateCodes(Join(a, ';'), line, geo) + ValidateCodes(Join(b, ';'), line, geo)
  {
    SplitUpJoin(a);
    SplitUpJoin(b);
    SplitUpJoin(a + b);
    CheckTokensAppend(a, b, line, CodeSet(geo), NameToCode(geo));
  }

  /** A field of one token raises exactly one message, with the token's
      suggestion, when the token is flagged, and none otherwise. */
  lemma ValidateCodesOne(t: string, line: nat, geo: seq<GeoEntry>)
    requires IsToken(t)
    ensures ValidateCodes(t, line, geo)
         == if IsFlagged(t, CodeSet(geo)) then [InvalidCode(line, t, Suggestion(t, NameToCode(geo)))] else []
  {
    SplitUpJoin([t]);
    assert Join([t], ';') == t;
    CheckTokensOne(t, line, CodeSet(geo), NameToCode(geo));
  }

  /** A token without letters is never reported, whatever it is. */
  lemma NoLetterNeverFlagged(part: string, codes: set<string>)
    requires forall i :: 0 <= i < |part| ==> !IsLetter(part[i])
    ensures !IsFlagged(part, codes)
  {
  }

  /** A field made only of known country codes of the map raises nothing. */
  lemma KnownCodesPass(cs: seq<string>, line: nat, geo: seq<GeoEntry>)
    requires forall i :: 0 <= i < |cs| ==> IsToken(cs[i]) && |cs[i]| == 3 && cs[i] in CodeSet(geo)
    ensures ValidateCodes(Join(cs, ';'), line, geo) == []
  {
    SplitUpJoin(cs);
  }
}
