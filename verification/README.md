# Produces-based endpoint selection, modelled in Dafny

Dropsonic.AspNetCore.Routing lets several ASP.NET Core endpoints share one route.
Each endpoint declares the response content types it produces with a
`[Produces]` attribute. A matcher policy then picks one endpoint per request. It
compares the declared types with what the client accepts: the `Accept` header
(section 5.3.2 of RFC 7231, with the quality values of section 5.3.1) or a
`$format` query-string override.

The model has three parts:

- **Declaration resolution** (`produces_convention.dfy`, module `Convention`).
  `ProducesConvention.Apply` picks the action's first `[Produces]`, or else the
  controller's first. It appends that attribute's types as `ProducesMetadata` to
  every selector of the action. Selectors are a class whose metadata list the
  method updates in place.
- **Build time** (`matcher_policy.dfy`, module `MatcherPolicy`). This part covers:
  - whether the policy applies, and the endpoint comparer;
  - `GetEdges`, which splits the endpoints into content-type edges keyed ignoring
    case, and adds a reject (HTTP 406) edge for `*/*` when no endpoint supplies one;
  - `GetScore` and `BuildJumpTable`, which stable-sort the edges by how general
    their pattern is and choose the exit destination.
- **Request time** (`policy_jump_table.dfy`, module `PolicyJumpTable`).
  `GetAcceptableMediaTypesSortedByQuality` builds the ordered list of acceptable
  media types. `GetDestination` walks the table for the first acceptable type
  that exactly one entry matches. It raises an ambiguity when two entries match,
  and otherwise falls back to the 406 exit or to the first entry.

Supporting modules:

- `media_types.dfy` (`MediaTypes`): an assumed model of ASP.NET's `MediaType`.
  It covers parsing into type, subtype and suffix, ASCII case-insensitive
  comparison, the wildcard predicates and `IsSubsetOf`.
- `matcher_options.dfy` (`MatcherOptions`): the media-type constants and the
  case-insensitive `$format` dictionary.
- `stable_sort.dfy` (`StableSort`): LINQ's stable `OrderBy`.
- `wrappers.dfy`: `Option` and `Result`.

The imperative parts of the source are methods with loops: the passes of
`GetEdges`, the exit search of `BuildJumpTable`, the `foreach` loops of
`GetAcceptableMediaTypesSortedByQuality`, the nested loops of `GetDestination`,
and the selector loop of `Apply`. Most of them are proved equal to a
specification function (`EdgesOf`, `CollectKeys`, `Members`, `SortBy`,
`FormatMediaTypes`, `AcceptableMediaTypes`, `Outcome`), and the properties are
proved about those functions. Two are specified differently: the exit search
`FindExit` by the predicate `FirstAllTypesAt` (the first entry that matches all
types, or none), and `Apply` by the new metadata of each selector, stated with
`Appended` and `Occurrences`.

## Model

| member | source | states |
|---|---|---|
| MatcherPolicy.AppliesToEndpoints | src/Dropsonic.AspNetCore.Routing/ProducesMatcherPolicy.cs:69-74 | true exactly when some endpoint has a content-type list with at least one entry; missing or empty lists never make it true |
| MatcherPolicy.CompareMetadata | src/Dropsonic.AspNetCore.Routing/ProducesMatcherPolicy.cs:220-229 | an empty list counts as no metadata: negative exactly when only x has a non-empty list, positive exactly when only y has one, zero when both or neither have one |
| MatcherPolicy.CompareIsPreorder | tests/Dropsonic.AspNetCore.Routing.Tests/ProducesMatcherPolicyTests.cs:24-40 | the endpoint comparer is antisymmetric and transitive |
| MatcherPolicy.AddKeys | src/Dropsonic.AspNetCore.Routing/ProducesMatcherPolicy.cs:97-103 | adding an endpoint's types keeps the existing keys as a prefix, covers every type ignoring case, adds nothing else, and keeps keys distinct ignoring case; the order of the new keys is stated by `AddKeysFirstSeen` |
| MatcherPolicy.NewKeysSnoc | src/Dropsonic.AspNetCore.Routing/ProducesMatcherPolicy.cs:97-103 | one more type contributes itself exactly when no earlier key or type equals it ignoring case |
| MatcherPolicy.AddKeysFirstSeen | src/Dropsonic.AspNetCore.Routing/ProducesMatcherPolicy.cs:97-103 | adding an endpoint's types gives the old keys followed, in the endpoint's own order, by each type that no earlier key or type equals ignoring case |
| MatcherPolicy.CollectKeys | src/Dropsonic.AspNetCore.Routing/ProducesMatcherPolicy.cs:88-104 | the dictionary keys are distinct ignoring case, cover every declared type (`*/*` for an endpoint without types), and each comes from some endpoint |
| MatcherPolicy.CollectKeysFirstSeen | src/Dropsonic.AspNetCore.Routing/ProducesMatcherPolicy.cs:88-104 | keys are in first-seen order: the keys of any prefix of the endpoints are a prefix of the keys, and the next endpoint appends exactly its unseen types, in its own declared order |
| MatcherPolicy.Members | src/Dropsonic.AspNetCore.Routing/ProducesMatcherPolicy.cs:108-150 | an endpoint is in an edge exactly when it has no types or the edge key is a subset of one of its types |
| MatcherPolicy.MembersCount | src/Dropsonic.AspNetCore.Routing/ProducesMatcherPolicy.cs:108-150 | an endpoint that belongs to an edge appears in its list once per occurrence in the input, never more; one that does not belong never appears |
| MatcherPolicy.MembersConcat | src/Dropsonic.AspNetCore.Routing/ProducesMatcherPolicy.cs:108-150 | edge lists keep input order: the members of a concatenation are the members of each part, in turn |
| MatcherPolicy.CollectEdgeKeys | src/Dropsonic.AspNetCore.Routing/ProducesMatcherPolicy.cs:88-104 | the first pass of `GetEdges` computes exactly the key sequence `CollectKeys` |
| MatcherPolicy.MatchesAnyContentType | src/Dropsonic.AspNetCore.Routing/ProducesMatcherPolicy.cs:131-147 | the inner loop finds a match exactly when the edge key is a subset of one of the given types |
| MatcherPolicy.MembersSnoc | src/Dropsonic.AspNetCore.Routing/ProducesMatcherPolicy.cs:108-150 | one more endpoint extends each edge's list by that endpoint exactly when it belongs |
| MatcherPolicy.FillEdges | src/Dropsonic.AspNetCore.Routing/ProducesMatcherPolicy.cs:106-150 | the second pass of `GetEdges` leaves each key's list equal to exactly its members, in input order |
| MatcherPolicy.AddToEdges | src/Dropsonic.AspNetCore.Routing/ProducesMatcherPolicy.cs:110-149 | one endpoint of the second pass is appended to exactly the edges it belongs to; the other edges are unchanged |
| MatcherPolicy.GetEdges | src/Dropsonic.AspNetCore.Routing/ProducesMatcherPolicy.cs:76-165 | the edges equal `EdgesOf`: the keys in order with their members, plus the reject edge when no key is `*/*` |
| MatcherPolicy.EdgeKeysDistinct | src/Dropsonic.AspNetCore.Routing/ProducesMatcherPolicy.cs:88-160 | no two edge keys are equal ignoring case, the synthesized one included |
| MatcherPolicy.EdgeKeysCover | src/Dropsonic.AspNetCore.Routing/ProducesMatcherPolicy.cs:89-104 | every declared type, and `*/*` for an endpoint without types, has an edge whose key equals it ignoring case |
| MatcherPolicy.EdgeKeysDeclared | src/Dropsonic.AspNetCore.Routing/ProducesMatcherPolicy.cs:88-160 | every edge key is declared by an endpoint or is `*/*` |
| MatcherPolicy.AnyEdgeUnique | src/Dropsonic.AspNetCore.Routing/ProducesMatcherPolicy.cs:152-160 | exactly one edge is keyed `*/*` |
| MatcherPolicy.EdgeMembers | src/Dropsonic.AspNetCore.Routing/ProducesMatcherPolicy.cs:106-160 | every edge holds exactly its members, except a final synthesized `*/*` edge that holds only the reject endpoint and exists only when no endpoint supplies `*/*` |
| MatcherPolicy.UntypedEndpointInEveryEdge | src/Dropsonic.AspNetCore.Routing/ProducesMatcherPolicy.cs:111-119 | an endpoint without content types is in every edge |
| MatcherPolicy.DeclaredTypeServed | src/Dropsonic.AspNetCore.Routing/ProducesMatcherPolicy.cs:106-150 | an endpoint is in the edge keyed by each of its declared types, ignoring case |
| MatcherPolicy.GetScore | src/Dropsonic.AspNetCore.Routing/ProducesMatcherPolicy.cs:205-218 | scores lie between 1 and 4 |
| MatcherPolicy.ScoreOfPattern | src/Dropsonic.AspNetCore.Routing/ProducesMatcherPolicy.cs:205-218 | a pattern written as text scores 4 for `*/*`, 3 for `t/*`, 2 for `t/*+suffix` and 1 otherwise |
| MatcherPolicy.FindExit | src/Dropsonic.AspNetCore.Routing/ProducesMatcherPolicy.cs:190-199 | the exit is the destination of the first entry matching all types, or the given exit when no entry does |
| MatcherPolicy.BuildJumpTable | src/Dropsonic.AspNetCore.Routing/ProducesMatcherPolicy.cs:179-203 | the entries are a stable sort of the edges by ascending score (sorted, a permutation, ties in edge order); the exit is the first all-types entry's destination, or the given exit if there is none; the configuration is carried over |
| MatcherPolicy.TableHasAllTypesEntry | src/Dropsonic.AspNetCore.Routing/ProducesMatcherPolicy.cs:190-191 | for the edges `GetEdges` builds, the sorted table always has an all-types entry, so the exit comes from the table |
| StableSort.SortByCorrect | src/Dropsonic.AspNetCore.Routing/ProducesMatcherPolicy.cs:185-188 | LINQ `OrderBy` as modelled returns a sorted permutation in which equal keys keep their input order |
| StableSort.SortByLength | src/Dropsonic.AspNetCore.Routing/ProducesMatcherPolicy.cs:187 | sorting keeps the length |
| StableSort.SortByMembers | src/Dropsonic.AspNetCore.Routing/ProducesMatcherPolicy.cs:271-272 | sorting keeps exactly the input's elements |
| PolicyJumpTable.FormatMediaTypes | src/Dropsonic.AspNetCore.Routing/ProducesMatcherPolicy.cs:255-264 | the `$format` values yield at most one media type each |
| PolicyJumpTable.FormatMediaTypesMembers | src/Dropsonic.AspNetCore.Routing/ProducesMatcherPolicy.cs:255-264 | a media type is in the result exactly when a non-blank `$format` value maps to it, and the result is empty when none is known |
| PolicyJumpTable.FormatMediaTypesSnoc | src/Dropsonic.AspNetCore.Routing/ProducesMatcherPolicy.cs:255-264 | one more `$format` value appends its media type when it names one and nothing otherwise |
| PolicyJumpTable.FormatMediaTypesConcat | src/Dropsonic.AspNetCore.Routing/ProducesMatcherPolicy.cs:255-264 | the values are read in the order given: the media types of two runs of values are those of the first followed by those of the second |
| PolicyJumpTable.FormatOrderDecides | src/Dropsonic.AspNetCore.Routing/ProducesMatcherPolicy.cs:255-265 | with the default map, `$format=json` then `$format=html` gives `[application/json, text/html]`, in that order |
| PolicyJumpTable.CollectFormatMediaTypes | src/Dropsonic.AspNetCore.Routing/ProducesMatcherPolicy.cs:255-265 | the `$format` loop computes exactly `FormatMediaTypes` |
| PolicyJumpTable.ScanAccept | src/Dropsonic.AspNetCore.Routing/ProducesMatcherPolicy.cs:269-285 | over the sorted ranges, already parsed: the defaults once an ignored any-type range is met or when there are none; otherwise all of them, in order |
| PolicyJumpTable.CollectAcceptMediaTypes | src/Dropsonic.AspNetCore.Routing/ProducesMatcherPolicy.cs:269-287 | the defaults when an ignored `*/*` appears anywhere in the header or the header is empty; otherwise the ranges by descending quality |
| PolicyJumpTable.AnyRangeSorted | src/Dropsonic.AspNetCore.Routing/ProducesMatcherPolicy.cs:269-277 | sorting and parsing keep the number of ranges, and the sorted, parsed ranges hold the any-type range exactly when the header does |
| PolicyJumpTable.GetAcceptableMediaTypesSortedByQuality | src/Dropsonic.AspNetCore.Routing/ProducesMatcherPolicy.cs:250-288 | the result is exactly `AcceptableMediaTypes`: `$format` first, then the browser and empty-header defaults, then the header by quality |
| PolicyJumpTable.AcceptableNonEmpty | src/Dropsonic.AspNetCore.Routing/ProducesMatcherPolicy.cs:282-285 | without `$format` there is always an acceptable media type |
| PolicyJumpTable.AcceptOrder | src/Dropsonic.AspNetCore.Routing/ProducesMatcherPolicy.cs:269-270 | when the header decides, the ranges are a permutation of the header by non-increasing quality (missing q counts as 1), with equal qualities in header order |
| PolicyJumpTable.FormatOverrides | src/Dropsonic.AspNetCore.Routing/ProducesMatcherPolicy.cs:254-265 | with `$format` present, the acceptable types are exactly the mapped non-blank values, whatever the `Accept` header says |
| PolicyJumpTable.FormatUsesUserMapping | tests/Dropsonic.AspNetCore.Routing.Tests/ProducesMatcherPolicyTests.cs:379-408 | a mapping the host adds or re-points is what its `$format` value, in any case, names |
| PolicyJumpTable.FormatNamesNothing | src/Dropsonic.AspNetCore.Routing/ProducesMatcherPolicy.cs:255-265 | a `$format` naming nothing known leaves the list empty, so the table falls back to the 406 exit or its first entry |
| PolicyJumpTable.MatchingDestinations | src/Dropsonic.AspNetCore.Routing/ProducesMatcherPolicy.cs:302-315 | there are never more matches than entries |
| PolicyJumpTable.MatchingMembers | src/Dropsonic.AspNetCore.Routing/ProducesMatcherPolicy.cs:302-315 | an entry is among the matches exactly when it is in the table and its media type is a subset of the acceptable type |
| PolicyJumpTable.MatchingSnoc | src/Dropsonic.AspNetCore.Routing/ProducesMatcherPolicy.cs:302-315 | one more entry is appended to the matches exactly when its media type is a subset of the acceptable type |
| PolicyJumpTable.MatchingConcat | src/Dropsonic.AspNetCore.Routing/ProducesMatcherPolicy.cs:302-315 | matches keep table order: the matches of a concatenation are the matches of each part, in turn |
| PolicyJumpTable.MatchingCount | src/Dropsonic.AspNetCore.Routing/ProducesMatcherPolicy.cs:302-315 | a matching entry is counted once per occurrence in the table, any other entry never |
| PolicyJumpTable.MatchingAll | src/Dropsonic.AspNetCore.Routing/ProducesMatcherPolicy.cs:306 | every entry matches the any-type range |
| PolicyJumpTable.MatchingGrows | src/Dropsonic.AspNetCore.Routing/ProducesMatcherPolicy.cs:302-315 | the matches of a prefix of the table are no more than the matches of the table |
| PolicyJumpTable.MatchOne | src/Dropsonic.AspNetCore.Routing/ProducesMatcherPolicy.cs:300-316 | the inner loop yields none for no match, the one destination for one match, and the ambiguity error for two or more |
| PolicyJumpTable.GetDestination | src/Dropsonic.AspNetCore.Routing/ProducesMatcherPolicy.cs:290-323 | the result is exactly `Outcome`: a one-entry table answers with that entry, otherwise negotiation over the acceptable types |
| PolicyJumpTable.NegotiateFirstMatch | src/Dropsonic.AspNetCore.Routing/ProducesMatcherPolicy.cs:298-320 | the first acceptable type any entry matches decides: one match wins, two or more are an ambiguity |
| PolicyJumpTable.NegotiateNoMatch | src/Dropsonic.AspNetCore.Routing/ProducesMatcherPolicy.cs:322 | with no match, the 406 exit when `ReturnHttpNotAcceptable` is set, else the first entry (an error on an empty table) |
| PolicyJumpTable.NegotiateSound | src/Dropsonic.AspNetCore.Routing/ProducesMatcherPolicy.cs:298-322 | a chosen destination belongs to an entry matching an acceptable type, or is the fallback; an ambiguity names an acceptable type two entries match; an empty table without the 406 exit is the only other failure |
| PolicyJumpTable.NegotiateSecond | src/Dropsonic.AspNetCore.Routing/ProducesMatcherPolicy.cs:298-320 | when the first type matches nothing and the second matches one entry, that entry wins |
| PolicyJumpTable.BrowserDefaults | src/Dropsonic.AspNetCore.Routing/ProducesMatcherPolicy.cs:272-277 | a browser's `*/*`, when not respected, stands for `[text/html, application/json]` |
| PolicyJumpTable.BrowserGetsHtml | tests/Dropsonic.AspNetCore.Routing.Tests/ProducesMatcherPolicyTests.cs:146-204 | such a browser gets the HTML endpoint when exactly one entry serves HTML |
| PolicyJumpTable.BrowserFallsBackToJson | tests/Dropsonic.AspNetCore.Routing.Tests/ProducesMatcherPolicyTests.cs:263-316 | and the JSON endpoint when no entry serves HTML and exactly one serves JSON |
| PolicyJumpTable.RespectedAnyIsAmbiguous | src/Dropsonic.AspNetCore.Routing/ProducesMatcherPolicy.cs:269-315 | when the host respects the browser's header, a lone `*/*` range matches every entry, so a table of two or more entries reports an ambiguity |
| Convention.FirstProduces | src/Dropsonic.AspNetCore.Routing/ProducesConvention.cs:11 | the content types of the first `[Produces]` in the list; none exactly when there is no such attribute |
| Convention.ResolveProduces | src/Dropsonic.AspNetCore.Routing/ProducesConvention.cs:11-12 | the action's first `[Produces]` wins, unmerged; without one, the controller's first; none exactly when neither level has one |
| Convention.Apply | src/Dropsonic.AspNetCore.Routing/ProducesConvention.cs:9-19 | every selector keeps its metadata and gets the resolved types appended as one `ProducesMetadata` per occurrence in the selector list; with no `[Produces]` anywhere nothing changes |
| Convention.OccurrencesDistinct | src/Dropsonic.AspNetCore.Routing/ProducesConvention.cs:16-17 | in a selector list without repeats, each selector gets exactly one new entry |
| Convention.EffectiveAfterApply | tests/Dropsonic.AspNetCore.Routing.Tests/ProducesConventionTests.cs:97-121 | after `Apply`, the types an endpoint reports are the resolved ones in declared order; with nothing resolved the metadata is untouched |
| MatcherOptions.HtmlConstant | src/Dropsonic.AspNetCore.Routing/ProducesMatcherOptions.cs:14 | the `MediaTypes.Text.Html` constant is what the text `text/html` parses to |
| MatcherOptions.JsonConstant | src/Dropsonic.AspNetCore.Routing/ProducesMatcherOptions.cs:19 | the `MediaTypes.Application.Json` constant is what the text `application/json` parses to |
| MatcherOptions.KeyIndex | src/Dropsonic.AspNetCore.Routing/ProducesMatcherOptions.cs:29 | the position of the first key equal ignoring case, or the length when there is none |
| MatcherOptions.Lookup | src/Dropsonic.AspNetCore.Routing/ProducesMatcherOptions.cs:27-29 | a value is found exactly when some key equals the query ignoring case, and it is that key's value |
| MatcherOptions.LookupIgnoresCase | src/Dropsonic.AspNetCore.Routing/ProducesMatcherOptions.cs:27-29 | keys differing only in case (`JSON`, `Json`, `json`) find the same value |
| MatcherOptions.SetKeepsValid | src/Dropsonic.AspNetCore.Routing/ProducesMatcherOptions.cs:29 | setting a key keeps keys distinct ignoring case, and adds an entry only when no key equal ignoring case exists (one differing only in case is replaced) |
| MatcherOptions.SetLookup | src/Dropsonic.AspNetCore.Routing/ProducesMatcherOptions.cs:29 | after setting a key, the key in any case finds the new value and every other key finds what it found before |
| MatcherOptions.DefaultMappingsContents | src/Dropsonic.AspNetCore.Routing/ProducesMatcherOptions.cs:28-33 | the default map holds exactly `html` for `text/html` and `json` for `application/json`, keys in any case |
| MediaTypes.EqualsIgnoreCaseNoLetters | src/Dropsonic.AspNetCore.Routing/ProducesMatcherPolicy.cs:154 | a string without letters, such as `*/*`, equals only itself ignoring case |
| MediaTypes.FoldIdempotent | src/Dropsonic.AspNetCore.Routing/ProducesMatcherOptions.cs:29 | lower-casing twice is lower-casing once, a string equals its lower-cased form ignoring case, and text without upper-case letters is unchanged |
| MediaTypes.FoldSlice | src/Dropsonic.AspNetCore.Routing/ProducesMatcherOptions.cs:29 | lower-casing a slice is slicing the lower-cased text |
| MediaTypes.IndexOf | src/Dropsonic.AspNetCore.Routing/ProducesMatcherPolicy.cs:133 | the first occurrence of a character, or the length |
| MediaTypes.LastIndexOf | src/Dropsonic.AspNetCore.Routing/ProducesMatcherPolicy.cs:133 | the last occurrence of a character, or -1 |
| MediaTypes.ParseFormat | src/Dropsonic.AspNetCore.Routing/ProducesMatcherPolicy.cs:133 | parsing the text of a well-formed media type gives that media type back |
| MediaTypes.ParseFold | src/Dropsonic.AspNetCore.Routing/ProducesMatcherPolicy.cs:133 | parsing lower-cased text gives the parsed media type with each part lower-cased, because `/`, `;` and `+` are not letters |
| MediaTypes.SubsetIgnoresCase | src/Dropsonic.AspNetCore.Routing/ProducesMatcherPolicy.cs:139 | a media type is a subset of any text equal to its own text ignoring case |
| MediaTypes.ParseAny | src/Dropsonic.AspNetCore.Routing/ProducesMatcherPolicy.cs:41 | `*/*` parses to type `*`, subtype `*` and no suffix |
| MediaTypes.SubsetOfAny | src/Dropsonic.AspNetCore.Routing/ProducesMatcherPolicy.cs:306 | every media type is a subset of a range whose type and whole subtype are `*` |

## Left out

- `MediaType`, `MediaTypeHeaderValue` and `EndpointMetadataComparer` belong to
  ASP.NET Core and are not part of this model. `MediaTypes` and
  `MatcherPolicy.BaseCompareMetadata` are assumed models of the library's
  documented behaviour:
  - media-type parameters (`;charset=…`) are dropped and never matched;
  - invalid media-type text is parsed, never rejected.
- Case-insensitive comparison folds ASCII letters only. `OrdinalIgnoreCase`
  also folds other scripts.
- Quality values are `double?` in the source. They are modelled as whole
  thousandths, the precision section 5.3.1 of RFC 7231 allows.
- `String.IsNullOrWhiteSpace` is modelled over ASCII white space only.
- MediaTypes.Parse: white space around the tokens is not skipped, so
  `application/json ; charset=utf-8` parses to subtype `json ` (with the space)
  and would not match `application/json`. The library's parser trims it.
- The `Accept` header is taken as already parsed. Query-string access and
  `HttpContext` are reduced to the `Request` value.
- The reject endpoint's request delegate, which sets status 406, is the
  sentinel `RejectEndpoint`. The comment at
  `ProducesMatcherPolicy.cs:152-153` says 415, but the code at `:172` writes
  406; the model follows the code.
- An `ArgumentNullException` guard has nothing to model: every value here
  exists. The `Order` property (a constant 1) is not part of this model.
- `MvcBuilderExtensions.cs` is dependency-injection wiring, and the sample
  application is a demo; neither is part of this model.
- `GetDestination` on an empty table without the 406 exit would index past the
  end of an array. It is modelled as the error `NoDestinations`.
- `Dictionary` enumeration order is modelled as insertion order, which the
  source relies on for add-only dictionaries.
- Convention.Apply: a selector listed twice gets one entry per listing (the
  source's loop appends once per element). Aliasing among other objects is not
  modelled.
- Endpoint metadata is reduced to the content types of its `IProducesMetadata`
  (the last one, as `GetMetadata` returns it); `Convention.EffectiveProduces`
  states that reading.
