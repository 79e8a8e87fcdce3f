/**
 * `ProducesMatcherPolicy`, build time: whether the policy applies to a set of
 * endpoints, the endpoint comparer, the partition of the endpoints into
 * content-type edges, and the jump table ordered by wildcard specificity.
 */
module MatcherPolicy {
  import opened Wrappers
  import opened MediaTypes
  import opened StableSort
  import opened MatcherOptions

  const AnyContentType: string := "*/*"

  /**
   * A routing endpoint: a display name and the content types of its
   * `IProducesMetadata` (`None` when it has none). `RejectEndpoint` is the
   * sentinel for the endpoint that answers HTTP 406 Not Acceptable; it has no
   * metadata.
   */
  datatype Endpoint = Endpoint(displayName: string, produces: Option<seq<string>>) | RejectEndpoint

  /** The policy's configuration, read from its options when it is constructed. */
  datatype Policy = Policy(mappings: FormatMappings, respectBrowserAcceptHeader: bool, returnHttpNotAcceptable: bool)

  /** `endpoint.Metadata.GetMetadata<IProducesMetadata>()?.ContentTypes`. */
  function ContentTypes(e: Endpoint): Option<seq<string>> {
    match e
    case Endpoint(_, produces) => produces
    case RejectEndpoint => None
  }

  /** The content types, with a missing list read as empty (`?? Array.Empty<string>()`). */
  function DeclaredTypes(e: Endpoint): seq<string> {
    ContentTypes(e).GetOr([])
  }

  predicate NonEmpty(contentTypes: Option<seq<string>>) {
    contentTypes.Some? && |contentTypes.value| > 0
  }

  predicate HasContentTypes(e: Endpoint) {
    NonEmpty(ContentTypes(e))
  }

  // ---------------------------------------------------------------------------
  // AppliesToEndpoints and the comparer
  // ---------------------------------------------------------------------------

  /** The policy applies iff some endpoint declares at least one content type. */
  function AppliesToEndpoints(endpoints: seq<Endpoint>): (r: bool)
    ensures r <==> exists i :: 0 <= i < |endpoints| && HasContentTypes(endpoints[i])
  {
    if endpoints == [] then false
    else if HasContentTypes(endpoints[0]) then true
    else
      var r := AppliesToEndpoints(endpoints[1..]);
      assert forall i :: 1 <= i < |endpoints| ==> endpoints[i] == endpoints[1..][i - 1];
      r
  }

  /**
   * `EndpointMetadataComparer<T>.CompareMetadata` (an assumed model of the
   * ASP.NET base class): an endpoint with the metadata sorts before one without.
   */
  function BaseCompareMetadata(x: Option<seq<string>>, y: Option<seq<string>>): int {
    if x.None? && y.Some? then 1
    else if x.Some? && y.None? then -1
    else 0
  }

  /**
   * `ProducesMetadataEndpointComparer.CompareMetadata`: an empty content-type
   * list counts as no metadata; an endpoint with a non-empty list sorts first.
   */
  function CompareMetadata(x: Option<seq<string>>, y: Option<seq<string>>): (r: int)
    ensures r < 0 <==> NonEmpty(x) && !NonEmpty(y)
    ensures r > 0 <==> !NonEmpty(x) && NonEmpty(y)
    ensures r == 0 <==> NonEmpty(x) == NonEmpty(y)
  {
    BaseCompareMetadata(if NonEmpty(x) then x else None, if NonEmpty(y) then y else None)
  }

  /** `Comparer.Compare(a, b)`. */
  function Compare(a: Endpoint, b: Endpoint): int {
    CompareMetadata(ContentTypes(a), ContentTypes(b))
  }

  /** The comparer is antisymmetric and transitive, as a sort comparer must be. */
  lemma CompareIsPreorder(a: Endpoint, b: Endpoint, c: Endpoint)
    ensures Compare(a, b) == -Compare(b, a)
    ensures Compare(a, b) <= 0 && Compare(b, c) <= 0 ==> Compare(a, c) <= 0
  {
  }

  // ---------------------------------------------------------------------------
  // GetEdges
  // ---------------------------------------------------------------------------

  // The edge keys an endpoint contributes: its declared types, or */* when it has none.
  function KeySource(e: Endpoint): seq<string> {
    if HasContentTypes(e) then DeclaredTypes(e) else [AnyContentType]
  }

  /** `edges.ContainsKey(k)` on a dictionary keyed with `StringComparer.OrdinalIgnoreCase`. */
  predicate ContainsKey(keys: seq<string>, k: string) {
    exists i :: 0 <= i < |keys| && EqualsIgnoreCase(keys[i], k)
  }

  /** No two keys differ only in case. */
  predicate DistinctKeys(keys: seq<string>) {
    forall i, j :: 0 <= i < j < |keys| ==> !EqualsIgnoreCase(keys[i], keys[j])
  }

  function AddKey(keys: seq<string>, k: string): seq<string> {
    if ContainsKey(keys, k) then keys else keys + [k]
  }

  /** Adds each of `contentTypes`, in order, unless a key equal ignoring case is already there. */
  function AddKeys(keys: seq<string>, contentTypes: seq<string>): (r: seq<string>)
    ensures keys <= r
    ensures forall x :: x in r ==> x in keys || x in contentTypes
    ensures forall ct :: ct in contentTypes ==> ContainsKey(r, ct)
    ensures DistinctKeys(keys) ==> DistinctKeys(r)
  {
    if contentTypes == [] then keys
    else
      var init := contentTypes[..|contentTypes| - 1];
      var last := contentTypes[|contentTypes| - 1];
      var prev := AddKeys(keys, init);
      assert forall ct :: ct in contentTypes ==> ct in init || ct == last;
      assert forall ct :: ContainsKey(prev, ct) ==> ContainsKey(AddKey(prev, last), ct) by {
        forall ct | ContainsKey(prev, ct) ensures ContainsKey(AddKey(prev, last), ct) {
          var i :| 0 <= i < |prev| && EqualsIgnoreCase(prev[i], ct);
          assert AddKey(prev, last)[i] == prev[i];
        }
      }
      if ContainsKey(prev, last) then prev
      else
        assert (prev + [last])[|prev|] == last;
        prev + [last]
  }

  /**
   * The keys that adding `contentTypes` after `seen` contributes, front to
   * back: each type that no earlier key or type equals ignoring case.
   */
  function NewKeys(seen: seq<string>, contentTypes: seq<string>): seq<string>
    decreases |contentTypes|
  {
    if contentTypes == [] then []
    else if ContainsKey(seen, contentTypes[0]) then NewKeys(seen, contentTypes[1..])
    else [contentTypes[0]] + NewKeys(seen + [contentTypes[0]], contentTypes[1..])
  }

  lemma {:induction false} NewKeysSnoc(seen: seq<string>, a: seq<string>, c: string)
    ensures NewKeys(seen, a + [c]) ==
      NewKeys(seen, a) + (if ContainsKey(seen + NewKeys(seen, a), c) then [] else [c])
    decreases |a|
  {
    if a == [] {
      assert [] + [c] == [c];
      assert seen + [] == seen;
    } else {
      assert (a + [c])[0] == a[0];
      assert (a + [c])[1..] == a[1..] + [c];
      if ContainsKey(seen, a[0]) {
        NewKeysSnoc(seen, a[1..], c);
      } else {
        var seen' := seen + [a[0]];
        NewKeysSnoc(seen', a[1..], c);
        assert seen + NewKeys(seen, a) == seen' + NewKeys(seen', a[1..]);
      }
    }
  }

  /**
   * Adding an endpoint's types keeps the existing keys and appends, in the
   * endpoint's own order, each type that no earlier key or type equals
   * ignoring case.
   */
  lemma {:induction false} AddKeysFirstSeen(keys: seq<string>, contentTypes: seq<string>)
    ensures AddKeys(keys, contentTypes) == keys + NewKeys(keys, contentTypes)
    decreases |contentTypes|
  {
    if contentTypes == [] {
      assert keys + [] == keys;
    } else {
      var init := contentTypes[..|contentTypes| - 1];
      var last := contentTypes[|contentTypes| - 1];
      assert contentTypes == init + [last];
      AddKeysFirstSeen(keys, init);
      NewKeysSnoc(keys, init, last);
    }
  }

  /** The first pass of `GetEdges`: every distinct key, in first-seen order. */
  function CollectKeys(endpoints: seq<Endpoint>): (r: seq<string>)
    ensures DistinctKeys(r)
    ensures forall e, ct :: e in endpoints && ct in KeySource(e) ==> ContainsKey(r, ct)
    ensures forall x :: x in r ==> exists e :: e in endpoints && x in KeySource(e)
  {
    if endpoints == [] then []
    else
      var init := endpoints[..|endpoints| - 1];
      var last := endpoints[|endpoints| - 1];
      var prev := CollectKeys(init);
      var r := AddKeys(prev, KeySource(last));
      assert forall e :: e in endpoints ==> e in init || e == last;
      assert forall ct :: ContainsKey(prev, ct) ==> ContainsKey(r, ct) by {
        forall ct | ContainsKey(prev, ct) ensures ContainsKey(r, ct) {
          var i :| 0 <= i < |prev| && EqualsIgnoreCase(prev[i], ct);
          assert r[i] == prev[i];
        }
      }
      r
  }

  /**
   * Whether `e` goes into the edge keyed `key`: an endpoint without content
   * types goes everywhere; otherwise the key must be a subset of one of them.
   */
  predicate Belongs(key: string, e: Endpoint) {
    !HasContentTypes(e) || exists ct :: ct in DeclaredTypes(e) && IsSubsetOf(Parse(key), Parse(ct))
  }

  /** The endpoints that belong to the edge keyed `key`, in input order. */
  function Members(key: string, endpoints: seq<Endpoint>): (r: seq<Endpoint>)
    ensures forall e :: e in r <==> e in endpoints && Belongs(key, e)
  {
    if endpoints == [] then []
    else
      var init := endpoints[..|endpoints| - 1];
      var last := endpoints[|endpoints| - 1];
      assert forall e :: e in endpoints <==> e in init || e == last;
      Members(key, init) + (if Belongs(key, last) then [last] else [])
  }

  /** Membership keeps input order: the members of a concatenation are the members of each part, in turn. */
  lemma {:induction false} MembersConcat(key: string, a: seq<Endpoint>, b: seq<Endpoint>)
    ensures Members(key, a + b) == Members(key, a) + Members(key, b)
    decreases |b|
  {
    if b != [] {
      var init, last := b[..|b| - 1], b[|b| - 1];
      var tail := if Belongs(key, last) then [last] else [];
      assert b == init + [last];
      var front := a + init;
      assert a + b == front + [last];
      assert (front + [last])[..|front|] == front;
      assert Members(key, a + b) == Members(key, front) + tail;
      assert Members(key, b) == Members(key, init) + tail;
      MembersConcat(key, a, init);
    } else {
      assert a + b == a;
    }
  }

  /** An endpoint is in an edge's list once per occurrence in the input, or not at all: never twice for one occurrence. */
  lemma {:induction false} MembersCount(key: string, endpoints: seq<Endpoint>, e: Endpoint)
    ensures multiset(Members(key, endpoints))[e] == if Belongs(key, e) then multiset(endpoints)[e] else 0
    decreases |endpoints|
  {
    if endpoints != [] {
      var init, last := endpoints[..|endpoints| - 1], endpoints[|endpoints| - 1];
      assert endpoints == init + [last];
      MembersCount(key, init, e);
    }
  }

  /**
   * Keys appear in first-seen order: the keys of a prefix of the endpoints are
   * a prefix of the keys, and the next endpoint appends, in its own order, the
   * types not seen before.
   */
  lemma {:induction false} CollectKeysFirstSeen(endpoints: seq<Endpoint>, i: nat)
    requires i <= |endpoints|
    ensures CollectKeys(endpoints[..i]) <= CollectKeys(endpoints)
    ensures i < |endpoints| ==>
      CollectKeys(endpoints[..i + 1]) ==
        CollectKeys(endpoints[..i]) + NewKeys(CollectKeys(endpoints[..i]), KeySource(endpoints[i]))
    decreases |endpoints| - i
  {
    if i < |endpoints| {
      assert endpoints[..i + 1][..i] == endpoints[..i];
      AddKeysFirstSeen(CollectKeys(endpoints[..i]), KeySource(endpoints[i]));
      var j := |endpoints| - 1;
      assert endpoints[..j] == endpoints[..|endpoints| - 1];
      if i < j {
        assert endpoints[..j][..i] == endpoints[..i];
        CollectKeysFirstSeen(endpoints[..j], i);
      } else {
        assert endpoints[..j] == endpoints[..i];
      }
    } else {
      assert endpoints[..i] == endpoints;
    }
  }

  /** A `PolicyNodeEdge`: a content-type key and the endpoints it leads to. */
  datatype Edge = Edge(key: string, endpoints: seq<Endpoint>)

  /** The edges `GetEdges` builds from `endpoints`. */
  function EdgesOf(endpoints: seq<Endpoint>): seq<Edge> {
    var keys := CollectKeys(endpoints);
    var edges := seq(|keys|, k requires 0 <= k < |keys| => Edge(keys[k], Members(keys[k], endpoints)));
    if ContainsKey(keys, AnyContentType) then edges else edges + [Edge(AnyContentType, [RejectEndpoint])]
  }

  /** The first pass of `GetEdges`: the dictionary's keys, before any endpoint is added. */
  method CollectEdgeKeys(endpoints: seq<Endpoint>) returns (keys: seq<string>)
    ensures keys == CollectKeys(endpoints)
  {
    keys := [];
    for i := 0 to |endpoints|
      invariant keys == CollectKeys(endpoints[..i])
    {
      var contentTypes := DeclaredTypes(endpoints[i]);
      if |contentTypes| == 0 {
        contentTypes := [AnyContentType];
      }
      ghost var before := keys;
      for j := 0 to |contentTypes|
        invariant keys == AddKeys(before, contentTypes[..j])
      {
        assert contentTypes[..j + 1][..j] == contentTypes[..j];
        if !ContainsKey(keys, contentTypes[j]) {
          keys := keys + [contentTypes[j]];
        }
      }
      assert contentTypes[..|contentTypes|] == contentTypes;
      assert endpoints[..i + 1][..i] == endpoints[..i];
    }
    assert endpoints[..|endpoints|] == endpoints;
  }

  /** The inner loop of the second pass: is the edge key a subset of one of the declared types? */
  method MatchesAnyContentType(edgeKey: MediaType, contentTypes: seq<string>) returns (found: bool)
    ensures found <==> exists ct :: ct in contentTypes && IsSubsetOf(edgeKey, Parse(ct))
  {
    found := false;
    var j := 0;
    while j < |contentTypes| && !found
      invariant 0 <= j <= |contentTypes|
      invariant found <==> exists jj :: 0 <= jj < j && IsSubsetOf(edgeKey, Parse(contentTypes[jj]))
    {
      var mediaType := Parse(contentTypes[j]);
      if IsSubsetOf(edgeKey, mediaType) {
        found := true;
      }
      j := j + 1;
    }
    if !found {
      forall ct | ct in contentTypes ensures !IsSubsetOf(edgeKey, Parse(ct)) {
        var jj :| 0 <= jj < |contentTypes| && contentTypes[jj] == ct;
      }
    }
  }

  /** One step of the second pass: `endpoint` is appended to the list of every edge it belongs to. */
  method AddToEdges(keys: seq<string>, lists: seq<seq<Endpoint>>, endpoint: Endpoint) returns (updated: seq<seq<Endpoint>>)
    requires |lists| == |keys|
    ensures |updated| == |keys|
    ensures forall m :: 0 <= m < |keys| ==>
      updated[m] == lists[m] + (if Belongs(keys[m], endpoint) then [endpoint] else [])
  {
    updated := lists;
    var contentTypes := DeclaredTypes(endpoint);
    for k := 0 to |keys|
      invariant |updated| == |keys|
      invariant forall m :: 0 <= m < k ==>
        updated[m] == lists[m] + (if Belongs(keys[m], endpoint) then [endpoint] else [])
      invariant forall m :: k <= m < |keys| ==> updated[m] == lists[m]
    {
      if |contentTypes| == 0 {
        // No content types: the endpoint matches every edge.
        updated := updated[k := updated[k] + [endpoint]];
      } else {
        var found := MatchesAnyContentType(Parse(keys[k]), contentTypes);
        if found {
          updated := updated[k := updated[k] + [endpoint]];
        }
      }
    }
  }

  lemma MembersSnoc(key: string, endpoints: seq<Endpoint>, i: nat)
    requires i < |endpoints|
    ensures Members(key, endpoints[..i + 1]) ==
      Members(key, endpoints[..i]) + (if Belongs(key, endpoints[i]) then [endpoints[i]] else [])
  {
    assert endpoints[..i + 1][..i] == endpoints[..i];
  }

  /** The second pass of `GetEdges`: each edge's list gets, in input order, the endpoints that belong to it. */
  method FillEdges(keys: seq<string>, endpoints: seq<Endpoint>) returns (lists: seq<seq<Endpoint>>)
    ensures |lists| == |keys|
    ensures forall m :: 0 <= m < |keys| ==> lists[m] == Members(keys[m], endpoints)
  {
    lists := seq(|keys|, _ => []);
    for i := 0 to |endpoints|
      invariant |lists| == |keys|
      invariant forall m :: 0 <= m < |keys| ==> lists[m] == Members(keys[m], endpoints[..i])
    {
      lists := AddToEdges(keys, lists, endpoints[i]);
      forall m | 0 <= m < |keys| ensures lists[m] == Members(keys[m], endpoints[..i + 1]) {
        MembersSnoc(keys[m], endpoints, i);
      }
    }
    assert endpoints[..|endpoints|] == endpoints;
  }

  /** `GetEdges`: the two passes over the endpoints, then the synthetic reject edge. */
  method GetEdges(endpoints: seq<Endpoint>) returns (edges: seq<Edge>)
    ensures edges == EdgesOf(endpoints)
  {
    var keys := CollectEdgeKeys(endpoints);
    var lists := FillEdges(keys, endpoints);
    edges := seq(|keys|, k requires 0 <= k < |keys| => Edge(keys[k], lists[k]));
    // Without an endpoint for the all-types key, a synthetic one answers 406 Not Acceptable.
    if !ContainsKey(keys, AnyContentType) {
      edges := edges + [Edge(AnyContentType, [RejectEndpoint])];
    }
  }

  // ---------------------------------------------------------------------------
  // Properties of the edges
  // ---------------------------------------------------------------------------

  /** An edge key equal to the all-types pattern ignoring case is that pattern. */
  lemma AnyKeyExact(x: string)
    requires EqualsIgnoreCase(x, AnyContentType)
    ensures x == AnyContentType
  {
    EqualsIgnoreCaseNoLetters(x, AnyContentType);
  }

  /** The first |CollectKeys| edges are keyed by the collected keys, in order. */
  lemma EdgesPrefix(endpoints: seq<Endpoint>)
    ensures |CollectKeys(endpoints)| <= |EdgesOf(endpoints)| <= |CollectKeys(endpoints)| + 1
    ensures forall k :: 0 <= k < |CollectKeys(endpoints)| ==> EdgesOf(endpoints)[k].key == CollectKeys(endpoints)[k]
  {
  }

  /** The edge keys differ pairwise, even ignoring case. */
  lemma EdgeKeysDistinct(endpoints: seq<Endpoint>)
    ensures var r := EdgesOf(endpoints);
      forall i, j :: 0 <= i < j < |r| ==> !EqualsIgnoreCase(r[i].key, r[j].key)
  {
    var keys := CollectKeys(endpoints);
    var r := EdgesOf(endpoints);
    EdgesPrefix(endpoints);
    if !ContainsKey(keys, AnyContentType) {
      forall i | 0 <= i < |keys| ensures !EqualsIgnoreCase(r[i].key, r[|keys|].key) {
        assert r[i].key == keys[i];
      }
    }
  }

  lemma EdgeKeyFor(endpoints: seq<Endpoint>, ct: string)
    requires ContainsKey(CollectKeys(endpoints), ct)
    ensures exists k :: 0 <= k < |EdgesOf(endpoints)| && EqualsIgnoreCase(EdgesOf(endpoints)[k].key, ct)
  {
    var keys := CollectKeys(endpoints);
    EdgesPrefix(endpoints);
    var k :| 0 <= k < |keys| && EqualsIgnoreCase(keys[k], ct);
    assert EdgesOf(endpoints)[k].key == keys[k];
  }

  /** Every declared string, and the all-types key of an untyped endpoint, has its edge. */
  lemma EdgeKeysCover(endpoints: seq<Endpoint>)
    ensures var r := EdgesOf(endpoints);
      forall e, ct :: e in endpoints && ct in KeySource(e) ==> exists k :: 0 <= k < |r| && EqualsIgnoreCase(r[k].key, ct)
  {
    forall e, ct | e in endpoints && ct in KeySource(e)
      ensures exists k :: 0 <= k < |EdgesOf(endpoints)| && EqualsIgnoreCase(EdgesOf(endpoints)[k].key, ct)
    {
      EdgeKeyFor(endpoints, ct);
    }
  }

  /** Every edge key is declared by an endpoint, or is the all-types key. */
  lemma EdgeKeysDeclared(endpoints: seq<Endpoint>)
    ensures var r := EdgesOf(endpoints);
      forall k :: 0 <= k < |r| ==> r[k].key == AnyContentType || exists e :: e in endpoints && r[k].key in KeySource(e)
  {
    var keys := CollectKeys(endpoints);
    var r := EdgesOf(endpoints);
    EdgesPrefix(endpoints);
    forall k | 0 <= k < |r| && r[k].key != AnyContentType
      ensures exists e :: e in endpoints && r[k].key in KeySource(e)
    {
      assert keys[k] in keys;
    }
  }

  /** Exactly one edge is keyed with the all-types pattern. */
  lemma AnyEdgeUnique(endpoints: seq<Endpoint>)
    ensures var r := EdgesOf(endpoints);
      && (exists k :: 0 <= k < |r| && r[k].key == AnyContentType)
      && (forall i, j :: 0 <= i < |r| && 0 <= j < |r| && r[i].key == AnyContentType && r[j].key == AnyContentType ==> i == j)
  {
    var keys := CollectKeys(endpoints);
    var r := EdgesOf(endpoints);
    EdgesPrefix(endpoints);
    EdgeKeysDistinct(endpoints);
    if ContainsKey(keys, AnyContentType) {
      var k :| 0 <= k < |keys| && EqualsIgnoreCase(keys[k], AnyContentType);
      AnyKeyExact(keys[k]);
      assert r[k].key == AnyContentType;
    } else {
      assert r[|keys|].key == AnyContentType;
    }
  }

  /**
   * Every edge holds exactly the endpoints that belong to it, in input order,
   * each once — except a synthesized all-types edge, which holds only the
   * reject endpoint and exists only when no endpoint supplies that key.
   */
  lemma EdgeMembers(endpoints: seq<Endpoint>)
    ensures var r := EdgesOf(endpoints);
      forall k :: 0 <= k < |r| ==>
        || r[k].endpoints == Members(r[k].key, endpoints)
        || (&& k == |r| - 1
            && r[k] == Edge(AnyContentType, [RejectEndpoint])
            && forall e, ct :: e in endpoints && ct in KeySource(e) ==> !EqualsIgnoreCase(ct, AnyContentType))
  {
    var keys := CollectKeys(endpoints);
    var r := EdgesOf(endpoints);
    if !ContainsKey(keys, AnyContentType) {
      forall e, ct | e in endpoints && ct in KeySource(e) ensures !EqualsIgnoreCase(ct, AnyContentType) {
        assert ContainsKey(keys, ct);
        var k :| 0 <= k < |keys| && EqualsIgnoreCase(keys[k], ct);
      }
    }
  }

  /** An endpoint without content types is in every edge, and then no reject edge is synthesized. */
  lemma UntypedEndpointInEveryEdge(endpoints: seq<Endpoint>, e: Endpoint)
    requires e in endpoints && !HasContentTypes(e)
    ensures forall k :: 0 <= k < |EdgesOf(endpoints)| ==> e in EdgesOf(endpoints)[k].endpoints
  {
    var keys := CollectKeys(endpoints);
    assert AnyContentType in KeySource(e);
    assert ContainsKey(keys, AnyContentType);
    var r := EdgesOf(endpoints);
    assert |r| == |keys|;
    forall k | 0 <= k < |r| ensures e in r[k].endpoints {
      assert r[k].endpoints == Members(keys[k], endpoints);
    }
  }

  /**
   * A typed endpoint is in the edge of each type it declares: the edge keyed
   * by that type, ignoring case, lists the endpoint.
   */
  lemma DeclaredTypeServed(endpoints: seq<Endpoint>, e: Endpoint, ct: string)
    requires e in endpoints && ct in DeclaredTypes(e)
    ensures var r := EdgesOf(endpoints);
      exists k :: 0 <= k < |r| && EqualsIgnoreCase(r[k].key, ct) && e in r[k].endpoints
  {
    var keys := CollectKeys(endpoints);
    var r := EdgesOf(endpoints);
    assert ct in KeySource(e);
    var k :| 0 <= k < |keys| && EqualsIgnoreCase(keys[k], ct);
    SubsetIgnoresCase(keys[k], ct);
    assert Belongs(keys[k], e);
    assert r[k] == Edge(keys[k], Members(keys[k], endpoints));
  }

  // ---------------------------------------------------------------------------
  // BuildJumpTable
  // ---------------------------------------------------------------------------

  /** A `PolicyJumpTableEdge`: an edge's key (its state) and the destination the host assigned it. */
  datatype JumpTableEdge = JumpTableEdge(state: string, destination: int)

  /** An entry of the jump table: the parsed edge key and its destination. */
  datatype TableEntry = TableEntry(mediaType: MediaType, destination: int)

  /** `ProducesPolicyJumpTable`: the ordered entries, the exit, and the policy's configuration. */
  datatype JumpTable = JumpTable(
    exitDestination: int,
    destinations: seq<TableEntry>,
    mappings: FormatMappings,
    respectBrowserAcceptHeader: bool,
    returnHttpNotAcceptable: bool)

  /** `GetScore`: a higher score is a lower priority. */
  function GetScore(m: MediaType): (r: int)
    ensures 1 <= r <= 4
  {
    if MatchesAllTypes(m) then 4
    else if MatchesAllSubTypes(m) then 3
    else if MatchesAllSubTypesWithoutSuffix(m) then 2
    else 1
  }

  /**
   * The score of a pattern as text: all types 4, a type with subtype `*`
   * 3, the same with a suffix 2, anything else 1.
   */
  lemma ScoreOfPattern(m: MediaType)
    requires WellFormed(m)
    ensures m.mtype == Wildcard ==> GetScore(Parse(Format(m))) == 4
    ensures m.mtype != Wildcard && m.subtype == Wildcard && m.suffix.None? ==> GetScore(Parse(Format(m))) == 3
    ensures m.mtype != Wildcard && m.subtype == Wildcard && m.suffix.Some? ==> GetScore(Parse(Format(m))) == 2
    ensures m.mtype != Wildcard && m.subtype != Wildcard ==> GetScore(Parse(Format(m))) == 1
  {
    ParseFormat(m);
  }

  function EntryScore(e: TableEntry): int {
    GetScore(e.mediaType)
  }

  /** The edges with their keys parsed, in the order given. */
  function Entries(edges: seq<JumpTableEdge>): seq<TableEntry> {
    seq(|edges|, i requires 0 <= i < |edges| => TableEntry(Parse(edges[i].state), edges[i].destination))
  }

  /** `destinations[i]` is the first entry that matches all types. */
  predicate FirstAllTypesAt(destinations: seq<TableEntry>, i: int) {
    0 <= i < |destinations| && MatchesAllTypes(destinations[i].mediaType) &&
    forall j :: 0 <= j < i ==> !MatchesAllTypes(destinations[j].mediaType)
  }

  /**
   * The exit search of `BuildJumpTable`: the destination of the first entry
   * that matches all types, or `exitDestination` when no entry does.
   */
  method FindExit(destinations: seq<TableEntry>, exitDestination: int) returns (exit: int)
    ensures forall i :: FirstAllTypesAt(destinations, i) ==> exit == destinations[i].destination
    ensures (forall i :: 0 <= i < |destinations| ==> !MatchesAllTypes(destinations[i].mediaType)) ==>
      exit == exitDestination
  {
    exit := exitDestination;
    var i := 0;
    while i < |destinations|
      invariant 0 <= i <= |destinations|
      invariant forall j :: 0 <= j < i ==> !MatchesAllTypes(destinations[j].mediaType)
    {
      if MatchesAllTypes(destinations[i].mediaType) {
        exit := destinations[i].destination;
        break;
      }
      i := i + 1;
    }
  }

  /**
   * `BuildJumpTable`: the entries are the edges stably sorted by ascending
   * score — a permutation in which equal scores keep the edges' order — and the
   * exit is the destination of the first all-types entry, or the given exit
   * when there is none.
   */
  method BuildJumpTable(policy: Policy, exitDestination: int, edges: seq<JumpTableEdge>) returns (table: JumpTable)
    ensures table.destinations == SortBy(Entries(edges), EntryScore)
    ensures Sorted(table.destinations, EntryScore)
    ensures multiset(table.destinations) == multiset(Entries(edges))
    ensures forall score :: KeyFilter(table.destinations, EntryScore, score) == KeyFilter(Entries(edges), EntryScore, score)
    ensures forall i :: FirstAllTypesAt(table.destinations, i) ==> table.exitDestination == table.destinations[i].destination
    ensures (forall i :: 0 <= i < |table.destinations| ==> !MatchesAllTypes(table.destinations[i].mediaType)) ==>
      table.exitDestination == exitDestination
    ensures table.mappings == policy.mappings
    ensures table.respectBrowserAcceptHeader == policy.respectBrowserAcceptHeader
    ensures table.returnHttpNotAcceptable == policy.returnHttpNotAcceptable
  {
    var entries := Entries(edges);
    var ordered := SortBy(entries, EntryScore);
    SortByCorrect(entries, EntryScore);
    var exit := FindExit(ordered, exitDestination);
    table := JumpTable(exit, ordered, policy.mappings, policy.respectBrowserAcceptHeader, policy.returnHttpNotAcceptable);
  }

  /**
   * For the edges `GetEdges` builds, whatever destinations the host assigns,
   * the jump table has an all-types entry: the exit always comes from the table.
   */
  lemma TableHasAllTypesEntry(endpoints: seq<Endpoint>, edges: seq<JumpTableEdge>)
    requires |edges| == |EdgesOf(endpoints)|
    requires forall i :: 0 <= i < |edges| ==> edges[i].state == EdgesOf(endpoints)[i].key
    ensures var sorted := SortBy(Entries(edges), EntryScore);
      exists i :: 0 <= i < |sorted| && MatchesAllTypes(sorted[i].mediaType)
  {
    AnyEdgeUnique(endpoints);
    var r := EdgesOf(endpoints);
    var k :| 0 <= k < |r| && r[k].key == AnyContentType;
    ParseAny();
    var entry := Entries(edges)[k];
    assert MatchesAllTypes(entry.mediaType);
    SortByCorrect(Entries(edges), EntryScore);
    var sorted := SortBy(Entries(edges), EntryScore);
    assert entry in multiset(sorted);
    var i :| 0 <= i < |sorted| && sorted[i] == entry;
  }
}
