/**
 * An assumed model of the ASP.NET Core `MediaType` value type, whose source is
 * not part of this model: a media type `type/subtype[+suffix][;parameters]` is
 * parsed into its type, its subtype without suffix and its optional suffix
 * (parameters are dropped), names are compared ASCII case-insensitively, and
 * `IsSubsetOf` follows the type / subtype / suffix rules of the library.
 */
module MediaTypes {
  import opened Wrappers

  // ---------------------------------------------------------------------------
  // Case-insensitive comparison (StringComparer.OrdinalIgnoreCase, ASCII only)
  // ---------------------------------------------------------------------------

  function FoldChar(c: char): char {
    if 'A' <= c <= 'Z' then (c as int + 32) as char else c
  }

  /** The ASCII lower-case form of `s`. */
  function Fold(s: string): string {
    seq(|s|, i requires 0 <= i < |s| => FoldChar(s[i]))
  }

  predicate EqualsIgnoreCase(a: string, b: string) {
    Fold(a) == Fold(b)
  }

  /**
   * Folding is idempotent, so every string is equal ignoring case to its
   * folded form, and folding leaves a string without upper-case letters as it is.
   */
  lemma FoldIdempotent(s: string)
    ensures Fold(Fold(s)) == Fold(s)
    ensures EqualsIgnoreCase(Fold(s), s)
    ensures (forall i :: 0 <= i < |s| ==> !('A' <= s[i] <= 'Z')) ==> Fold(s) == s
  {
    var f := Fold(s);
    forall i | 0 <= i < |s| ensures FoldChar(f[i]) == f[i] {
      assert f[i] == FoldChar(s[i]);
    }
    assert Fold(f) == f;
  }

  /** Folding commutes with taking a slice. */
  lemma FoldSlice(s: string, i: nat, j: nat)
    requires i <= j <= |s|
    ensures Fold(s)[i..j] == Fold(s[i..j])
  {
  }

  /** A string without ASCII letters is case-insensitively equal only to itself. */
  lemma EqualsIgnoreCaseNoLetters(a: string, b: string)
    requires forall i :: 0 <= i < |b| ==> !('A' <= b[i] <= 'Z') && !('a' <= b[i] <= 'z')
    ensures EqualsIgnoreCase(a, b) <==> a == b
  {
    if EqualsIgnoreCase(a, b) {
      assert |a| == |b|;
      forall i | 0 <= i < |a| ensures a[i] == b[i] {
        assert Fold(a)[i] == Fold(b)[i];
      }
    }
  }

  // ---------------------------------------------------------------------------
  // The media type value and its parser
  // ---------------------------------------------------------------------------

  /** `subtype` is the subtype without its suffix; `suffix` is what follows the last `+`. */
  datatype MediaType = MediaType(mtype: string, subtype: string, suffix: Option<string>)

  const Wildcard: string := "*"

  /** Index of the first `c` in `s`, or `|s|` when there is none. */
  function IndexOf(s: string, c: char): (r: nat)
    ensures r <= |s|
    ensures r < |s| ==> s[r] == c
    ensures forall i :: 0 <= i < r ==> s[i] != c
  {
    if s == [] then 0
    else if s[0] == c then 0
    else 1 + IndexOf(s[1..], c)
  }

  /** Index of the last `c` in `s`, or -1 when there is none. */
  function LastIndexOf(s: string, c: char): (r: int)
    ensures -1 <= r < |s|
    ensures r >= 0 ==> s[r] == c
    ensures forall i :: r < i < |s| ==> s[i] != c
  {
    if s == [] then -1
    else if s[|s| - 1] == c then |s| - 1
    else LastIndexOf(s[..|s| - 1], c)
  }

  /** `new MediaType(string)`: parameters after `;` are dropped. */
  function Parse(s: string): MediaType {
    var core := s[..IndexOf(s, ';')];
    var slash := IndexOf(core, '/');
    var full := if slash < |core| then core[slash + 1..] else "";
    var plus := LastIndexOf(full, '+');
    if plus >= 0 then MediaType(core[..slash], full[..plus], Some(full[plus + 1..]))
    else MediaType(core[..slash], full, None)
  }

  /** `Parse` in steps: cut the parameters off, then split type and subtype. */
  lemma ParseSteps(s: string)
    ensures Parse(s) == ParseCore(s[..IndexOf(s, ';')])
  {
  }

  // `type/subtype[+suffix]` without parameters: the type ends at the first `/`.
  function ParseCore(core: string): MediaType {
    var slash := IndexOf(core, '/');
    SplitSubtype(core[..slash], if slash < |core| then core[slash + 1..] else "")
  }

  // The suffix is what follows the last `+` of the subtype.
  function SplitSubtype(mtype: string, full: string): MediaType {
    var plus := LastIndexOf(full, '+');
    if plus >= 0 then MediaType(mtype, full[..plus], Some(full[plus + 1..]))
    else MediaType(mtype, full, None)
  }

  /** The canonical text of a media type, without parameters. */
  function Format(m: MediaType): string {
    m.mtype + "/" + m.subtype + (if m.suffix.Some? then "+" + m.suffix.value else "")
  }

  predicate Free(s: string, c: char) {
    forall i :: 0 <= i < |s| ==> s[i] != c
  }

  /** A media type that `Format` writes out unambiguously. */
  predicate WellFormed(m: MediaType) {
    && Free(m.mtype, '/') && Free(m.mtype, ';')
    && Free(m.subtype, ';') && Free(m.subtype, '+')
    && (m.suffix.Some? ==> Free(m.suffix.value, ';') && Free(m.suffix.value, '+'))
  }

  lemma IndexOfIs(s: string, c: char, k: nat)
    requires k <= |s| && (k < |s| ==> s[k] == c)
    requires forall i :: 0 <= i < k ==> s[i] != c
    ensures IndexOf(s, c) == k
  {
  }

  lemma LastIndexOfIs(s: string, c: char, k: int)
    requires -1 <= k < |s| && (k >= 0 ==> s[k] == c)
    requires forall i :: k < i < |s| ==> s[i] != c
    ensures LastIndexOf(s, c) == k
  {
  }

  /** Splitting the subtype at its last `+` recovers subtype and suffix. */
  lemma SplitSuffix(m: MediaType, full: string)
    requires WellFormed(m)
    requires full == m.subtype + (if m.suffix.Some? then "+" + m.suffix.value else "")
    ensures SplitSubtype(m.mtype, full) == m
  {
    var p := |m.subtype|;
    if m.suffix.Some? {
      forall i | p < i < |full| ensures full[i] != '+' { assert full[i] == m.suffix.value[i - p - 1]; }
      LastIndexOfIs(full, '+', p);
      assert full[..p] == m.subtype;
      assert full[p + 1..] == m.suffix.value;
    } else {
      LastIndexOfIs(full, '+', -1);
    }
  }

  /** Well-formed text has no parameters: its first `;` is past the end. */
  lemma FormatNoParameters(m: MediaType, full: string)
    requires WellFormed(m)
    requires full == m.subtype + (if m.suffix.Some? then "+" + m.suffix.value else "")
    ensures Format(m) == m.mtype + "/" + full
    ensures IndexOf(Format(m), ';') == |Format(m)|
  {
    var s := Format(m);
    var t := |m.mtype|;
    assert s == m.mtype + "/" + full;
    forall i | 0 <= i < |s| ensures s[i] != ';' {
      if i < t { assert s[i] == m.mtype[i]; }
      else if i > t { assert s[i] == full[i - t - 1]; }
    }
    IndexOfIs(s, ';', |s|);
  }

  /** Splitting `type/full` at its first `/` gives back the type and the full subtype. */
  lemma SplitFormat(m: MediaType, full: string)
    requires WellFormed(m)
    requires full == m.subtype + (if m.suffix.Some? then "+" + m.suffix.value else "")
    ensures ParseCore(m.mtype + "/" + full) == m
  {
    var s := m.mtype + "/" + full;
    var t := |m.mtype|;
    forall i | 0 <= i < t ensures s[i] != '/' { assert s[i] == m.mtype[i]; }
    IndexOfIs(s, '/', t);
    assert s[..t] == m.mtype;
    assert s[t + 1..] == full;
    assert ParseCore(s) == SplitSubtype(m.mtype, full);
    SplitSuffix(m, full);
  }

  /** Parsing the canonical text gives back the media type. */
  lemma ParseFormat(m: MediaType)
    requires WellFormed(m)
    ensures Parse(Format(m)) == m
  {
    var s := Format(m);
    var full := m.subtype + (if m.suffix.Some? then "+" + m.suffix.value else "");
    FormatNoParameters(m, full);
    assert s[..|s|] == s;
    ParseSteps(s);
    SplitFormat(m, full);
  }

  // ---------------------------------------------------------------------------
  // Wildcards and the subset relation
  // ---------------------------------------------------------------------------

  /** `MediaType.MatchesAllTypes`: the type is `*`. */
  predicate MatchesAllTypes(m: MediaType) {
    m.mtype == Wildcard
  }

  /** `MediaType.MatchesAllSubTypes`: the whole subtype (suffix included) is `*`. */
  predicate MatchesAllSubTypes(m: MediaType) {
    m.subtype == Wildcard && m.suffix.None?
  }

  /** `MediaType.MatchesAllSubTypesWithoutSuffix`: the subtype before the suffix is `*`. */
  predicate MatchesAllSubTypesWithoutSuffix(m: MediaType) {
    m.subtype == Wildcard
  }

  predicate MatchesType(m: MediaType, range: MediaType) {
    MatchesAllTypes(range) || EqualsIgnoreCase(range.mtype, m.mtype)
  }

  predicate MatchesSubtype(m: MediaType, range: MediaType) {
    if MatchesAllSubTypes(range) then true
    else if range.suffix.Some? then
      && m.suffix.Some?
      && (MatchesAllSubTypesWithoutSuffix(range) || EqualsIgnoreCase(range.subtype, m.subtype))
      && EqualsIgnoreCase(range.suffix.value, m.suffix.value)
    else
      // the range's subtype may name either the whole subtype or the suffix
      if m.suffix.None? then EqualsIgnoreCase(range.subtype, m.subtype)
      else EqualsIgnoreCase(range.subtype, m.suffix.value)
  }

  /** `m.IsSubsetOf(range)`: every concrete type matched by `m` is matched by `range`. */
  predicate IsSubsetOf(m: MediaType, range: MediaType) {
    MatchesType(m, range) && MatchesSubtype(m, range)
  }

  // A separator that no letter folds to.
  predicate Separator(c: char) {
    !('A' <= c <= 'Z') && !('a' <= c <= 'z')
  }

  lemma FoldIndexOf(s: string, c: char)
    requires Separator(c)
    ensures IndexOf(Fold(s), c) == IndexOf(s, c)
  {
    var k := IndexOf(s, c);
    forall i | 0 <= i < k ensures Fold(s)[i] != c {
      assert s[i] != c;
    }
    IndexOfIs(Fold(s), c, k);
  }

  lemma FoldLastIndexOf(s: string, c: char)
    requires Separator(c)
    ensures LastIndexOf(Fold(s), c) == LastIndexOf(s, c)
  {
    var k := LastIndexOf(s, c);
    forall i | k < i < |s| ensures Fold(s)[i] != c {
      assert s[i] != c;
    }
    LastIndexOfIs(Fold(s), c, k);
  }

  /** Every part of a media type, folded. */
  function FoldParts(m: MediaType): MediaType {
    MediaType(Fold(m.mtype), Fold(m.subtype), if m.suffix.Some? then Some(Fold(m.suffix.value)) else None)
  }

  lemma SplitSubtypeFold(mtype: string, full: string)
    ensures SplitSubtype(Fold(mtype), Fold(full)) == FoldParts(SplitSubtype(mtype, full))
  {
    FoldLastIndexOf(full, '+');
    var plus := LastIndexOf(full, '+');
    if plus >= 0 {
      FoldSlice(full, 0, plus);
      FoldSlice(full, plus + 1, |full|);
      assert Fold(full)[..plus] == Fold(full[..plus]);
      assert Fold(full)[plus + 1..] == Fold(full[plus + 1..]);
    }
  }

  lemma ParseCoreFold(core: string)
    ensures ParseCore(Fold(core)) == FoldParts(ParseCore(core))
  {
    var folded := Fold(core);
    var slash := IndexOf(core, '/');
    FoldIndexOf(core, '/');
    FoldSlice(core, 0, slash);
    assert folded[..slash] == Fold(core[..slash]);
    if slash < |core| {
      FoldSlice(core, slash + 1, |core|);
      assert folded[slash + 1..] == Fold(core[slash + 1..]);
      assert ParseCore(folded) == SplitSubtype(Fold(core[..slash]), Fold(core[slash + 1..]));
      SplitSubtypeFold(core[..slash], core[slash + 1..]);
    } else {
      assert Fold("") == "";
      assert ParseCore(folded) == SplitSubtype(Fold(core[..slash]), Fold(""));
      SplitSubtypeFold(core[..slash], "");
    }
  }

  /** Parsing folded text gives the parsed media type with every part folded. */
  lemma ParseFold(s: string)
    ensures Parse(Fold(s)) == FoldParts(Parse(s))
  {
    var n := IndexOf(s, ';');
    FoldIndexOf(s, ';');
    FoldSlice(s, 0, n);
    ParseSteps(s);
    ParseSteps(Fold(s));
    ParseCoreFold(s[..n]);
  }

  /**
   * Text equal ignoring case parses to media types each a subset of the
   * other; in particular every media type is a subset of itself.
   */
  lemma SubsetIgnoresCase(a: string, b: string)
    requires EqualsIgnoreCase(a, b)
    ensures IsSubsetOf(Parse(a), Parse(b))
  {
    ParseFold(a);
    ParseFold(b);
    var p, q := Parse(a), Parse(b);
    assert FoldParts(p) == FoldParts(q);
  }

  /** The all-types pattern parses to type `*`, subtype `*` and no suffix. */
  lemma ParseAny()
    ensures Parse("*/*") == MediaType("*", "*", None)
  {
    var any := MediaType("*", "*", None);
    assert WellFormed(any) && Format(any) == "*/*";
    ParseFormat(any);
  }

  /** A range of any type and any subtype (the any-type range) is a superset of every media type. */
  lemma SubsetOfAny(m: MediaType, range: MediaType)
    requires MatchesAllTypes(range) && MatchesAllSubTypes(range)
    ensures IsSubsetOf(m, range)
  {
  }
}
