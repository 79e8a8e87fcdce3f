// The request-time half of the produces matcher policy: the jump table picks
// one of the destinations `BuildJumpTable` ordered, from the `$format` query
// parameter or the `Accept` header of the request.

module PolicyJumpTable {
  import opened Wrappers
  import opened MediaTypes
  import opened StableSort
  import opened MatcherOptions
  import opened MatcherPolicy

  /**
   * One element of the `Accept` header: the media range as written and its
   * quality value. Quality values are counted in thousandths (the three
   * decimal digits section 5.3.1 of RFC 7231 allows), `None` when absent.
   */
  datatype AcceptValue = AcceptValue(mediaType: string, quality: Option<nat>)

  /**
   * What the jump table reads from a request: the values of the `$format`
   * query parameter when it is present, and the parsed `Accept` header.
   */
  datatype Request = Request(format: Option<seq<string>>, accept: seq<AcceptValue>)

  /** Why no destination could be chosen: the exceptions `GetDestination` can raise. */
  datatype NegotiationError =
    | AmbiguousMatch(mediaType: MediaType)  // two destinations match one acceptable media type
    | NoDestinations                        // the table is empty and no 406 exit is wanted

  /** `DefaultContentTypes`: HTML first for browsers, then JSON. */
  const DefaultContentTypes: seq<MediaType> := [Html, Json]

  /** `mt.Quality ?? 1`. */
  function Quality(v: AcceptValue): nat {
    v.quality.GetOr(1000)
  }

  /** The key of `OrderByDescending(mt => mt.Quality ?? 1)`. */
  function DescendingQuality(v: AcceptValue): int {
    0 - Quality(v) as int
  }

  /** `String.IsNullOrWhiteSpace` over the ASCII white-space characters. */
  predicate IsBlank(s: string) {
    forall i :: 0 <= i < |s| ==> s[i] in {' ', '\t', '\n', '\r', '\U{000B}', '\U{000C}'}
  }

  /** The media type a `$format` value names: none for a blank or unknown value. */
  function FormatMediaType(mappings: FormatMappings, name: string): Option<MediaType> {
    if IsBlank(name) then None else Lookup(mappings, name)
  }

  /** The media types the `$format` values name, in the order given, unknown and blank values dropped. */
  function FormatMediaTypes(mappings: FormatMappings, names: seq<string>): (r: seq<MediaType>)
    ensures |r| <= |names|
  {
    if names == [] then []
    else
      var found := FormatMediaType(mappings, names[|names| - 1]);
      FormatMediaTypes(mappings, names[..|names| - 1]) + (if found.Some? then [found.value] else [])
  }

  /**
   * A media type is among those the `$format` values name exactly when some
   * value maps to it; values that name nothing known leave the list empty.
   */
  lemma {:induction false} FormatMediaTypesMembers(mappings: FormatMappings, names: seq<string>)
    ensures forall m :: m in FormatMediaTypes(mappings, names) <==>
      exists n :: n in names && FormatMediaType(mappings, n) == Some(m)
    ensures (forall n :: n in names ==> FormatMediaType(mappings, n).None?) ==> FormatMediaTypes(mappings, names) == []
    decreases |names|
  {
    if names != [] {
      var init, last := names[..|names| - 1], names[|names| - 1];
      assert names == init + [last];
      assert forall n :: n in names <==> n in init || n == last;
      FormatMediaTypesMembers(mappings, init);
    }
  }

  lemma FormatMediaTypesSnoc(mappings: FormatMappings, names: seq<string>, name: string)
    ensures FormatMediaTypes(mappings, names + [name]) ==
      FormatMediaTypes(mappings, names) + (match FormatMediaType(mappings, name) case Some(m) => [m] case None => [])
  {
    assert (names + [name])[..|names|] == names;
  }

  /**
   * The `$format` values are read in the order given: the media types of two
   * runs of values are those of the first run followed by those of the second.
   */
  lemma {:induction false} FormatMediaTypesConcat(mappings: FormatMappings, a: seq<string>, b: seq<string>)
    ensures FormatMediaTypes(mappings, a + b) == FormatMediaTypes(mappings, a) + FormatMediaTypes(mappings, b)
    decreases |b|
  {
    if b == [] {
      assert a + b == a;
    } else {
      var init, last := b[..|b| - 1], b[|b| - 1];
      var tail := match FormatMediaType(mappings, last) case Some(m) => [m] case None => [];
      calc {
        FormatMediaTypes(mappings, a + b);
      == { assert a + b == (a + init) + [last]; FormatMediaTypesSnoc(mappings, a + init, last); }
        FormatMediaTypes(mappings, a + init) + tail;
      == { FormatMediaTypesConcat(mappings, a, init); }
        FormatMediaTypes(mappings, a) + FormatMediaTypes(mappings, init) + tail;
      == { assert b == init + [last]; FormatMediaTypesSnoc(mappings, init, last); }
        FormatMediaTypes(mappings, a) + FormatMediaTypes(mappings, b);
      }
    }
  }

  // `MatchesAllSubTypes && MatchesAllTypes`: the any-type range browsers send.
  predicate IsAnyMediaType(m: MediaType) {
    MatchesAllSubTypes(m) && MatchesAllTypes(m)
  }

  /** The header element is the any-type range. */
  predicate IsAnyRange(v: AcceptValue) {
    IsAnyMediaType(Parse(v.mediaType))
  }

  /** The header's media ranges, parsed, in the order given. */
  function MediaTypesOf(values: seq<AcceptValue>): seq<MediaType> {
    seq(|values|, i requires 0 <= i < |values| => Parse(values[i].mediaType))
  }

  /**
   * The acceptable media types of a request, most preferred first: the
   * `$format` values when the parameter is present; otherwise the defaults
   * when the browser's any-type range is ignored and present, or when the
   * header is empty; otherwise the header's ranges by descending quality.
   */
  function AcceptableMediaTypes(t: JumpTable, req: Request): seq<MediaType> {
    match req.format
    case Some(names) => FormatMediaTypes(t.mappings, names)
    case None =>
      if !t.respectBrowserAcceptHeader && exists v :: v in req.accept && IsAnyRange(v) then
        DefaultContentTypes
      else if req.accept == [] then
        DefaultContentTypes
      else
        MediaTypesOf(SortBy(req.accept, DescendingQuality))
  }

  /** The `foreach` over the `$format` values of `GetAcceptableMediaTypesSortedByQuality`. */
  method CollectFormatMediaTypes(mappings: FormatMappings, names: seq<string>) returns (result: seq<MediaType>)
    ensures result == FormatMediaTypes(mappings, names)
  {
    result := [];
    for i := 0 to |names|
      invariant result == FormatMediaTypes(mappings, names[..i])
    {
      assert names[..i + 1][..i] == names[..i];
      var name := names[i];
      if !IsBlank(name) {
        var found := Lookup(mappings, name);
        if found.Some? {
          result := result + [found.value];
        }
      }
    }
    assert names[..|names|] == names;
  }

  /**
   * The `foreach` over the `Accept` header of
   * `GetAcceptableMediaTypesSortedByQuality`, once the header is sorted and
   * each range parsed: the defaults as soon as an ignored any-type range is
   * met or when there is no range, else every range.
   */
  method ScanAccept(respectBrowserAcceptHeader: bool, types: seq<MediaType>) returns (result: seq<MediaType>)
    ensures !respectBrowserAcceptHeader && (exists j :: 0 <= j < |types| && IsAnyMediaType(types[j])) ==>
      result == DefaultContentTypes
    ensures (respectBrowserAcceptHeader || forall j :: 0 <= j < |types| ==> !IsAnyMediaType(types[j])) ==>
      result == if types == [] then DefaultContentTypes else types
  {
    result := [];
    for i := 0 to |types|
      invariant result == types[..i]
      invariant !respectBrowserAcceptHeader ==> forall j :: 0 <= j < i ==> !IsAnyMediaType(types[j])
    {
      var m := types[i];
      if !respectBrowserAcceptHeader && IsAnyMediaType(m) {
        return DefaultContentTypes;
      }
      assert types[..i + 1] == types[..i] + [m];
      result := result + [m];
    }
    assert types[..|types|] == types;
    if result == [] {
      return DefaultContentTypes;
    }
  }

  /**
   * The `Accept` half of `GetAcceptableMediaTypesSortedByQuality`:
   * `OrderByDescending`, then the scan over the parsed ranges.
   */
  method CollectAcceptMediaTypes(respectBrowserAcceptHeader: bool, accept: seq<AcceptValue>) returns (result: seq<MediaType>)
    ensures !respectBrowserAcceptHeader && (exists v :: v in accept && IsAnyRange(v)) ==>
      result == DefaultContentTypes
    ensures accept == [] ==> result == DefaultContentTypes
    ensures (respectBrowserAcceptHeader || forall v :: v in accept ==> !IsAnyRange(v)) && accept != [] ==>
      result == MediaTypesOf(SortBy(accept, DescendingQuality))
  {
    var sorted := SortBy(accept, DescendingQuality);
    var types := MediaTypesOf(sorted);
    AnyRangeSorted(accept);
    result := ScanAccept(respectBrowserAcceptHeader, types);
  }

  /** Sorting and parsing the header neither adds nor removes an any-type range. */
  lemma AnyRangeSorted(accept: seq<AcceptValue>)
    ensures |MediaTypesOf(SortBy(accept, DescendingQuality))| == |accept|
    ensures var types := MediaTypesOf(SortBy(accept, DescendingQuality));
      (exists v :: v in accept && IsAnyRange(v)) <==> exists j :: 0 <= j < |types| && IsAnyMediaType(types[j])
  {
    var sorted := SortBy(accept, DescendingQuality);
    var types := MediaTypesOf(sorted);
    SortByMembers(accept, DescendingQuality);
    if exists v :: v in accept && IsAnyRange(v) {
      var v :| v in accept && IsAnyRange(v);
      assert v in sorted;
      var j :| 0 <= j < |sorted| && sorted[j] == v;
      assert IsAnyMediaType(types[j]);
    }
    if exists j :: 0 <= j < |types| && IsAnyMediaType(types[j]) {
      var j :| 0 <= j < |types| && IsAnyMediaType(types[j]);
      assert IsAnyRange(sorted[j]);
      assert sorted[j] in sorted;
    }
  }

  /** `GetAcceptableMediaTypesSortedByQuality`. */
  method GetAcceptableMediaTypesSortedByQuality(t: JumpTable, req: Request) returns (result: seq<MediaType>)
    ensures result == AcceptableMediaTypes(t, req)
  {
    if req.format.Some? {
      result := CollectFormatMediaTypes(t.mappings, req.format.value);
    } else {
      result := CollectAcceptMediaTypes(t.respectBrowserAcceptHeader, req.accept);
    }
  }

  /** Without `$format` there is always at least one acceptable media type. */
  lemma AcceptableNonEmpty(t: JumpTable, req: Request)
    requires req.format.None?
    ensures |AcceptableMediaTypes(t, req)| > 0
  {
    SortByLength(req.accept, DescendingQuality);
  }

  /**
   * When the header decides, its ranges come out as a permutation of the
   * header ordered by non-increasing quality, equal qualities keeping the
   * header's order.
   */
  lemma AcceptOrder(t: JumpTable, req: Request)
    requires req.format.None? && req.accept != []
    requires t.respectBrowserAcceptHeader || forall v :: v in req.accept ==> !IsAnyRange(v)
    ensures var s := SortBy(req.accept, DescendingQuality);
      && AcceptableMediaTypes(t, req) == MediaTypesOf(s)
      && multiset(s) == multiset(req.accept)
      && (forall i, j :: 0 <= i < j < |s| ==> Quality(s[i]) >= Quality(s[j]))
      && (forall q :: KeyFilter(s, DescendingQuality, q) == KeyFilter(req.accept, DescendingQuality, q))
  {
    var s := SortBy(req.accept, DescendingQuality);
    SortByCorrect(req.accept, DescendingQuality);
    assert forall i, j :: 0 <= i < j < |s| ==> DescendingQuality(s[i]) <= DescendingQuality(s[j]);
  }

  /** The `$format` values decide alone: each named media type is acceptable and nothing else is. */
  lemma FormatOverrides(t: JumpTable, req: Request)
    requires req.format.Some?
    ensures forall m :: m in AcceptableMediaTypes(t, req) <==>
      exists n :: n in req.format.value && !IsBlank(n) && Lookup(t.mappings, n) == Some(m)
  {
    FormatMediaTypesMembers(t.mappings, req.format.value);
  }

  lemma DefaultFormatNames()
    ensures FormatMediaType(DefaultMappings, "json") == Some(Json)
    ensures FormatMediaType(DefaultMappings, "html") == Some(Html)
  {
    DefaultMappingsContents();
    assert EqualsIgnoreCase("json", "json") && EqualsIgnoreCase("html", "html");
    assert !IsBlank("json") by { assert "json"[0] == 'j'; }
    assert !IsBlank("html") by { assert "html"[0] == 'h'; }
  }

  /** With the default map, `?$format=json&$format=html` prefers JSON, then HTML. */
  lemma FormatOrderDecides(t: JumpTable, req: Request)
    requires t.mappings == DefaultMappings && req.format == Some(["json", "html"])
    ensures AcceptableMediaTypes(t, req) == [Json, Html]
  {
    DefaultFormatNames();
    assert [] + ["json"] == ["json"] && ["json"] + ["html"] == ["json", "html"];
    FormatMediaTypesSnoc(DefaultMappings, [], "json");
    FormatMediaTypesSnoc(DefaultMappings, ["json"], "html");
  }

  /** A mapping the host adds (or re-points, whatever its case) is what its `$format` value names. */
  lemma FormatUsesUserMapping(t: JumpTable, base: FormatMappings, key: string, value: MediaType, name: string)
    requires ValidMappings(base) && t.mappings == Set(base, key, value)
    requires !IsBlank(name) && EqualsIgnoreCase(name, key)
    ensures AcceptableMediaTypes(t, Request(Some([name]), [])) == [value]
  {
    SetLookup(base, key, value);
    assert [name][..0] == [];
  }

  // ---------------------------------------------------------------------------
  // GetDestination
  // ---------------------------------------------------------------------------

  /** The table entries whose media type is a subset of `m`, in table order. */
  function MatchingDestinations(dests: seq<TableEntry>, m: MediaType): (r: seq<TableEntry>)
    ensures |r| <= |dests|
  {
    if dests == [] then []
    else
      var last := dests[|dests| - 1];
      MatchingDestinations(dests[..|dests| - 1], m) + (if IsSubsetOf(last.mediaType, m) then [last] else [])
  }

  /** An entry is among the matches exactly when it is in the table and its media type is a subset of `m`. */
  lemma {:induction false} MatchingMembers(dests: seq<TableEntry>, m: MediaType)
    ensures forall e :: e in MatchingDestinations(dests, m) <==> e in dests && IsSubsetOf(e.mediaType, m)
    decreases |dests|
  {
    if dests != [] {
      var init, last := dests[..|dests| - 1], dests[|dests| - 1];
      assert dests == init + [last];
      assert forall e :: e in dests <==> e in init || e == last;
      MatchingMembers(init, m);
    }
  }

  lemma MatchingSnoc(dests: seq<TableEntry>, last: TableEntry, m: MediaType)
    ensures MatchingDestinations(dests + [last], m) ==
      MatchingDestinations(dests, m) + (if IsSubsetOf(last.mediaType, m) then [last] else [])
  {
    assert (dests + [last])[..|dests|] == dests;
  }

  /** Matching keeps table order: the matches of a concatenation are the matches of each part, in turn. */
  lemma {:induction false} MatchingConcat(a: seq<TableEntry>, b: seq<TableEntry>, m: MediaType)
    ensures MatchingDestinations(a + b, m) == MatchingDestinations(a, m) + MatchingDestinations(b, m)
    decreases |b|
  {
    if b == [] {
      assert a + b == a;
    } else {
      var init, last := b[..|b| - 1], b[|b| - 1];
      var tail := if IsSubsetOf(last.mediaType, m) then [last] else [];
      calc {
        MatchingDestinations(a + b, m);
      == { assert a + b == (a + init) + [last]; MatchingSnoc(a + init, last, m); }
        MatchingDestinations(a + init, m) + tail;
      == { MatchingConcat(a, init, m); }
        MatchingDestinations(a, m) + MatchingDestinations(init, m) + tail;
      == { assert b == init + [last]; MatchingSnoc(init, last, m); }
        MatchingDestinations(a, m) + MatchingDestinations(b, m);
      }
    }
  }

  /**
   * Every matching entry is counted once per occurrence in the table, and no
   * other entry is counted: two equal entries that both match are two matches.
   */
  lemma {:induction false} MatchingCount(dests: seq<TableEntry>, m: MediaType, e: TableEntry)
    ensures multiset(MatchingDestinations(dests, m))[e] ==
      if IsSubsetOf(e.mediaType, m) then multiset(dests)[e] else 0
    decreases |dests|
  {
    if dests != [] {
      var init, last := dests[..|dests| - 1], dests[|dests| - 1];
      assert dests == init + [last];
      MatchingCount(init, m, e);
    }
  }

  /** Every entry matches the any-type range. */
  lemma {:induction false} MatchingAll(dests: seq<TableEntry>, m: MediaType)
    requires IsAnyMediaType(m)
    ensures MatchingDestinations(dests, m) == dests
    decreases |dests|
  {
    if dests != [] {
      var init, last := dests[..|dests| - 1], dests[|dests| - 1];
      SubsetOfAny(last.mediaType, m);
      MatchingAll(init, m);
      assert dests == init + [last];
    }
  }

  lemma MatchingPrefix(dests: seq<TableEntry>, m: MediaType, j: nat)
    requires j < |dests|
    ensures MatchingDestinations(dests[..j + 1], m) ==
      MatchingDestinations(dests[..j], m) + (if IsSubsetOf(dests[j].mediaType, m) then [dests[j]] else [])
  {
    assert dests[..j + 1][..j] == dests[..j];
  }

  /**
   * The destination for the acceptable media types, most preferred first: the
   * first type some entry matches decides, and it must be matched by exactly
   * one entry; when none is matched, the 406 exit if the host wants one, else
   * the first entry.
   */
  function Negotiate(dests: seq<TableEntry>, types: seq<MediaType>, exit: int, strict: bool): Result<int, NegotiationError>
  {
    if types == [] then
      if strict then Ok(exit)
      else if dests != [] then Ok(dests[0].destination)
      else Err(NoDestinations)
    else
      var matches := MatchingDestinations(dests, types[0]);
      if |matches| == 1 then Ok(matches[0].destination)
      else if |matches| > 1 then Err(AmbiguousMatch(types[0]))
      else Negotiate(dests, types[1..], exit, strict)
  }

  /** What `GetDestination` returns for a request. */
  function Outcome(t: JumpTable, req: Request): Result<int, NegotiationError> {
    if |t.destinations| == 1 then Ok(t.destinations[0].destination)
    else Negotiate(t.destinations, AcceptableMediaTypes(t, req), t.exitDestination, t.returnHttpNotAcceptable)
  }

  /** The inner loop of `GetDestination`: the one entry matching `m`, none, or an ambiguity. */
  method MatchOne(dests: seq<TableEntry>, m: MediaType) returns (matched: Result<Option<int>, NegotiationError>)
    ensures var matches := MatchingDestinations(dests, m);
      && (|matches| == 0 ==> matched == Ok(None))
      && (|matches| == 1 ==> matched == Ok(Some(matches[0].destination)))
      && (|matches| > 1 ==> matched == Err(AmbiguousMatch(m)))
  {
    var found: Option<int> := None;
    for j := 0 to |dests|
      invariant |MatchingDestinations(dests[..j], m)| <= 1
      invariant found.None? <==> |MatchingDestinations(dests[..j], m)| == 0
      invariant found.Some? ==> found.value == MatchingDestinations(dests[..j], m)[0].destination
    {
      MatchingPrefix(dests, m, j);
      if IsSubsetOf(dests[j].mediaType, m) {
        if found.Some? {
          MatchingGrows(dests, m, j + 1);
          return Err(AmbiguousMatch(m));
        }
        found := Some(dests[j].destination);
      }
    }
    assert dests[..|dests|] == dests;
    matched := Ok(found);
  }

  /** The matches of a prefix are a prefix of the matches. */
  lemma {:induction false} MatchingGrows(dests: seq<TableEntry>, m: MediaType, j: nat)
    requires j <= |dests|
    ensures |MatchingDestinations(dests[..j], m)| <= |MatchingDestinations(dests, m)|
    decreases |dests| - j
  {
    if j < |dests| {
      MatchingPrefix(dests, m, j);
      MatchingGrows(dests, m, j + 1);
    } else {
      assert dests[..j] == dests;
    }
  }

  /** `GetDestination`. */
  method GetDestination(t: JumpTable, req: Request) returns (r: Result<int, NegotiationError>)
    ensures r == Outcome(t, req)
  {
    if |t.destinations| == 1 {
      return Ok(t.destinations[0].destination);
    }
    var types := GetAcceptableMediaTypesSortedByQuality(t, req);
    var i := 0;
    while i < |types|
      invariant 0 <= i <= |types|
      invariant Negotiate(t.destinations, types, t.exitDestination, t.returnHttpNotAcceptable) ==
        Negotiate(t.destinations, types[i..], t.exitDestination, t.returnHttpNotAcceptable)
    {
      var matched := MatchOne(t.destinations, types[i]);
      if matched.Err? {
        return Err(matched.error);
      }
      if matched.value.Some? {
        return Ok(matched.value.value);
      }
      assert types[i..][1..] == types[i + 1..];
      i := i + 1;
    }
    if t.returnHttpNotAcceptable {
      r := Ok(t.exitDestination);
    } else if |t.destinations| > 0 {
      r := Ok(t.destinations[0].destination);
    } else {
      r := Err(NoDestinations);
    }
  }

  // ---------------------------------------------------------------------------
  // Properties of negotiation
  // ---------------------------------------------------------------------------

  /**
   * The first acceptable media type that any entry matches decides: its one
   * matching entry wins, and two or more are an ambiguity.
   */
  lemma {:induction false} NegotiateFirstMatch(dests: seq<TableEntry>, types: seq<MediaType>, exit: int, strict: bool, k: nat)
    requires k < |types|
    requires forall j :: 0 <= j < k ==> MatchingDestinations(dests, types[j]) == []
    requires MatchingDestinations(dests, types[k]) != []
    ensures var matches := MatchingDestinations(dests, types[k]);
      Negotiate(dests, types, exit, strict) ==
        if |matches| == 1 then Ok(matches[0].destination) else Err(AmbiguousMatch(types[k]))
  {
    if k > 0 {
      assert MatchingDestinations(dests, types[0]) == [];
      NegotiateFirstMatch(dests, types[1..], exit, strict, k - 1);
    }
  }

  /** When no acceptable media type is matched, the 406 exit or the first entry is chosen. */
  lemma {:induction false} NegotiateNoMatch(dests: seq<TableEntry>, types: seq<MediaType>, exit: int, strict: bool)
    requires forall j :: 0 <= j < |types| ==> MatchingDestinations(dests, types[j]) == []
    ensures Negotiate(dests, types, exit, strict) ==
      if strict then Ok(exit) else if dests != [] then Ok(dests[0].destination) else Err(NoDestinations)
  {
    if types != [] {
      assert MatchingDestinations(dests, types[0]) == [];
      NegotiateNoMatch(dests, types[1..], exit, strict);
    }
  }

  /**
   * A chosen destination is that of an entry matching an acceptable media
   * type, or the fallback; an ambiguity names an acceptable media type two
   * entries match; and an empty table with no 406 exit is the only failure
   * left.
   */
  lemma {:induction false} NegotiateSound(dests: seq<TableEntry>, types: seq<MediaType>, exit: int, strict: bool)
    ensures var r := Negotiate(dests, types, exit, strict);
      && (r.Ok? ==>
            || (exists e, m :: e in dests && m in types && IsSubsetOf(e.mediaType, m) && e.destination == r.value)
            || (strict && r.value == exit)
            || (!strict && dests != [] && r.value == dests[0].destination))
      && (r.Err? && r.error.AmbiguousMatch? ==> r.error.mediaType in types && |MatchingDestinations(dests, r.error.mediaType)| > 1)
      && (r == Err(NoDestinations) ==> !strict && dests == [])
  {
    if types != [] {
      var matches := MatchingDestinations(dests, types[0]);
      if |matches| == 1 {
        MatchingMembers(dests, types[0]);
        assert matches[0] in matches && matches[0] in dests && IsSubsetOf(matches[0].mediaType, types[0]);
        assert types[0] in types;
      } else if |matches| == 0 {
        NegotiateSound(dests, types[1..], exit, strict);
        var r := Negotiate(dests, types, exit, strict);
        if r.Ok? && exists e, m :: e in dests && m in types[1..] && IsSubsetOf(e.mediaType, m) && e.destination == r.value {
          var e, m :| e in dests && m in types[1..] && IsSubsetOf(e.mediaType, m) && e.destination == r.value;
          assert m in types;
        }
      }
    }
  }

  /** A browser's any-type range, when the host does not respect it, stands for the defaults. */
  lemma BrowserDefaults(t: JumpTable, req: Request, v: AcceptValue)
    requires !t.respectBrowserAcceptHeader
    requires req.format.None? && v in req.accept && IsAnyRange(v)
    ensures AcceptableMediaTypes(t, req) == [Html, Json]
  {
  }

  /**
   * A browser that sends the any-type range while the host does not respect
   * it gets the HTML destination when exactly one entry serves HTML.
   */
  lemma BrowserGetsHtml(t: JumpTable, req: Request, v: AcceptValue)
    requires |t.destinations| != 1 && !t.respectBrowserAcceptHeader
    requires req.format.None? && v in req.accept && IsAnyRange(v)
    requires |MatchingDestinations(t.destinations, Html)| == 1
    ensures Outcome(t, req) == Ok(MatchingDestinations(t.destinations, Html)[0].destination)
  {
    BrowserDefaults(t, req, v);
    NegotiateFirstMatch(t.destinations, [Html, Json], t.exitDestination, t.returnHttpNotAcceptable, 0);
  }

  lemma NegotiateSecond(dests: seq<TableEntry>, first: MediaType, second: MediaType, exit: int, strict: bool)
    requires MatchingDestinations(dests, first) == []
    requires |MatchingDestinations(dests, second)| == 1
    ensures Negotiate(dests, [first, second], exit, strict) == Ok(MatchingDestinations(dests, second)[0].destination)
  {
    assert [first, second][1..] == [second];
  }

  /** ... and the JSON destination when no entry serves HTML and exactly one serves JSON. */
  lemma BrowserFallsBackToJson(t: JumpTable, req: Request, v: AcceptValue)
    requires |t.destinations| != 1 && !t.respectBrowserAcceptHeader
    requires req.format.None? && v in req.accept && IsAnyRange(v)
    requires MatchingDestinations(t.destinations, Html) == []
    requires |MatchingDestinations(t.destinations, Json)| == 1
    ensures Outcome(t, req) == Ok(MatchingDestinations(t.destinations, Json)[0].destination)
  {
    BrowserDefaults(t, req, v);
    NegotiateSecond(t.destinations, Html, Json, t.exitDestination, t.returnHttpNotAcceptable);
  }

  /**
   * A `$format` naming nothing known leaves no acceptable media type, so a
   * table of several entries falls back to the 406 exit or its first entry.
   */
  lemma FormatNamesNothing(t: JumpTable, req: Request)
    requires req.format.Some? && forall n :: n in req.format.value ==> FormatMediaType(t.mappings, n).None?
    ensures AcceptableMediaTypes(t, req) == []
    ensures |t.destinations| != 1 ==>
      Outcome(t, req) == (if t.returnHttpNotAcceptable then Ok(t.exitDestination)
                          else if t.destinations != [] then Ok(t.destinations[0].destination)
                          else Err(NoDestinations))
  {
    FormatMediaTypesMembers(t.mappings, req.format.value);
  }

  /**
   * When the host respects the browser's header, a request accepting only the
   * any-type range matches every entry, so a table of two or more entries
   * reports an ambiguity.
   */
  lemma RespectedAnyIsAmbiguous(t: JumpTable, req: Request, v: AcceptValue)
    requires t.respectBrowserAcceptHeader && |t.destinations| >= 2
    requires req.format.None? && req.accept == [v] && v.mediaType == AnyContentType
    ensures Outcome(t, req) == Err(AmbiguousMatch(Parse(AnyContentType)))
  {
    SortByMembers(req.accept, DescendingQuality);
    var sorted := SortBy(req.accept, DescendingQuality);
    assert sorted[0] in sorted;
    assert sorted == [v];
    assert AcceptableMediaTypes(t, req) == [Parse(AnyContentType)];
    ParseAny();
    MatchingAll(t.destinations, Parse(AnyContentType));
  }
}
