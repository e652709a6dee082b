/** Variable lookup on a frame: dotted names resolved through structure fields, the
    per-frame memo of dotted lookups, `isAvailable`, and the string/sequence getters.
    The memo is threaded through the calls as a map from the full dotted name to what
    the first lookup of that name found. */
module Lookup {
  import opened Wrappers
  import opened Externals
  import opened Values
  import opened Frames
  import Strings

  // ---------------------------------------------------------------------------
  // Dotted names

  /** The fields rejoined, each behind a dot: `[b, c]` gives ".b.c". */
  function DotSuffix(fields: seq<string>): string {
    if |fields| == 0 then "" else "." + fields[0] + DotSuffix(fields[1..])
  }

  predicate NoDots(fields: seq<string>) {
    forall i :: 0 <= i < |fields| ==> '.' !in fields[i]
  }

  /** The segments of `s` between dots (`split('.')` keeping empty segments). */
  function Segments(s: string): (r: seq<string>)
    ensures |r| > 0 && NoDots(r)
    ensures DotSuffix(r) == "." + s
    decreases |s|
  {
    var k := Strings.IndexOf(s, '.', 0);
    if k == -1 then
      NoDotAnywhere(s);
      [s]
    else
      var rest := Segments(s[k + 1..]);
      SegmentsStep(s, k, rest);
      [s[..k]] + rest
  }

  /** Without a dot, `s` is its own single segment. */
  lemma NoDotAnywhere(s: string)
    requires Strings.IndexOf(s, '.', 0) == -1
    ensures NoDots([s]) && DotSuffix([s]) == "." + s
  {
    assert '.' !in s by {
      forall i | 0 <= i < |s| ensures s[i] != '.' { }
    }
    assert DotSuffix([s]) == "." + s + DotSuffix([]);
  }

  /** The text before the first dot, followed by the segments after it, are the
      segments of the whole. */
  lemma SegmentsStep(s: string, k: int, rest: seq<string>)
    requires k == Strings.IndexOf(s, '.', 0) && k != -1
    requires |rest| > 0 && NoDots(rest) && DotSuffix(rest) == "." + s[k + 1..]
    ensures NoDots([s[..k]] + rest) && DotSuffix([s[..k]] + rest) == "." + s
  {
    NoDotBeforeFirst(s, k);
    NoDotsCons(s[..k], rest);
    DotSuffixCons(s[..k], rest);
    RejoinAtDot(s, k);
  }

  /** `indexOf` finds no dot before the first one. */
  lemma NoDotBeforeFirst(s: string, k: int)
    requires k == Strings.IndexOf(s, '.', 0) && k != -1
    ensures '.' !in s[..k]
  {
    forall i | 0 <= i < k ensures s[..k][i] != '.' { }
  }

  lemma NoDotsCons(head: string, rest: seq<string>)
    requires '.' !in head && NoDots(rest)
    ensures NoDots([head] + rest)
  {
    forall i | 0 <= i < |[head] + rest| ensures '.' !in ([head] + rest)[i] {
      if i > 0 {
        assert ([head] + rest)[i] == rest[i - 1];
      }
    }
  }

  lemma DotSuffixCons(head: string, rest: seq<string>)
    ensures DotSuffix([head] + rest) == "." + head + DotSuffix(rest)
  {
    assert ([head] + rest)[1..] == rest;
  }

  /** Cutting at the dot `k` and rejoining with that dot gives back the text. */
  lemma RejoinAtDot(s: string, k: int)
    requires 0 <= k < |s| && s[k] == '.'
    ensures "." + s[..k] + ("." + s[k + 1..]) == "." + s
  {
    assert s == s[..k] + "." + s[k + 1..];
  }

  /** A dot-free text followed by a dot splits at that dot. */
  lemma FirstDot(s: string, head: string, t: string)
    requires '.' !in head && s == head + "." + t
    ensures Strings.IndexOf(s, '.', 0) == |head|
    ensures s[..|head|] == head && s[|head| + 1..] == t
  {
    assert forall i :: 0 <= i < |head| ==> s[i] == head[i];
    Strings.IndexOfFirst(s, '.', 0, |head|);
  }

  /** Removing the leading dot of `"." + head + rest`. */
  lemma DropDot(fields: seq<string>, s: string)
    requires |fields| > 0 && DotSuffix(fields) == "." + s
    ensures s == fields[0] + DotSuffix(fields[1..])
  {
    assert s == ("." + s)[1..];
    assert DotSuffix(fields) == "." + (fields[0] + DotSuffix(fields[1..]));
  }

  /** Dot-free fields that rejoin to `"." + s` are exactly the segments of `s`. */
  lemma {:induction false} SegmentsUnique(fields: seq<string>, s: string)
    requires |fields| > 0 && NoDots(fields)
    requires DotSuffix(fields) == "." + s
    ensures fields == Segments(s)
    decreases |fields|
  {
    var head := fields[0];
    var tail := fields[1..];
    DropDot(fields, s);
    assert '.' !in head;
    if |tail| == 0 {
      assert s == head;
      Strings.IndexOfFirst(s, '.', 0, |s|);
      assert fields == [head];
    } else {
      var t := tail[0] + DotSuffix(tail[1..]);
      assert DotSuffix(tail) == "." + t;
      assert s == head + "." + t;
      FirstDot(s, head, t);
      assert NoDots(tail) by {
        forall i | 0 <= i < |tail| ensures '.' !in tail[i] {
          assert tail[i] == fields[i + 1];
        }
      }
      SegmentsUnique(tail, t);
      assert fields == [head] + tail;
    }
  }

  /** Where the do-while loop of `getStructureVariable` stops: the remaining prefix,
      the stack of stripped segments (top first) and the prefix's own lookup. */
  datatype PrefixSearch = PrefixSearch(structPath: string, fields: seq<string>, variable: Option<Value>)

  /** No prefix of `path` ending at a dot after position `lo` is bound. */
  predicate UnboundAfter(f: Frame, path: string, lo: nat)
    requires Valid(f)
  {
    forall j :: lo < j < |path| && path[j] == '.' ==> GetNonStructuredVariable(f, path[..j]).None?
  }

  /** Cutting `path` at its dot `i` and stacking the segment after it keeps the
      rejoined name. */
  lemma StripJoin(path: string, i: int, fields: seq<string>)
    requires 0 <= i < |path| && path[i] == '.'
    ensures path[..i] + DotSuffix([path[i + 1..]] + fields) == path + DotSuffix(fields)
  {
    assert ([path[i + 1..]] + fields)[1..] == fields;
    assert path == path[..i] + "." + path[i + 1..];
  }

  /** What holds of the prefix `path[..i]` beyond `lo` holds of `path`, when `i` is the
      last dot of `path` and `path[..i]` itself is unbound. */
  lemma UnboundAfterExtends(f: Frame, path: string, i: int, lo: int)
    requires Valid(f) && 0 <= lo < i < |path| && path[i] == '.' && '.' !in path[i + 1..]
    requires GetNonStructuredVariable(f, path[..i]).None? && UnboundAfter(f, path[..i], lo)
    ensures UnboundAfter(f, path, lo)
  {
    forall j | lo < j < |path| && path[j] == '.'
      ensures GetNonStructuredVariable(f, path[..j]).None?
    {
      if j < i {
        assert path[..i][j] == path[j] && path[..i][..j] == path[..j];
      }
    }
  }

  /** Nothing lies beyond the last dot. */
  lemma UnboundAfterLastDot(f: Frame, path: string, i: int)
    requires Valid(f) && 0 <= i < |path| && '.' !in path[i + 1..]
    ensures UnboundAfter(f, path, i)
  {
    forall j | i < j < |path| ensures path[j] != '.' {
      assert path[j] == path[i + 1..][j - i - 1];
    }
  }

  /** The do-while loop: move the last segment of `path` onto the stack until the
      remaining prefix resolves or holds no dot. It ends at the longest prefix of
      `path` ending before a dot that resolves, or at the dot-free first segment. */
  function StripToResolvable(f: Frame, path: string, fields: seq<string>): (r: PrefixSearch)
    requires Valid(f) && '.' in path && NoDots(fields)
    ensures r.structPath + DotSuffix(r.fields) == path + DotSuffix(fields)
    ensures |r.structPath| < |path| && r.structPath == path[..|r.structPath|] && path[|r.structPath|] == '.'
    ensures |r.fields| > 0 && NoDots(r.fields)
    ensures r.variable == GetNonStructuredVariable(f, r.structPath)
    ensures r.variable.None? ==> '.' !in r.structPath
    ensures UnboundAfter(f, path, |r.structPath|)
    decreases |path|
  {
    var i := Strings.LastIndexOf(path, '.');
    var prefix := path[..i];
    var stacked := [path[i + 1..]] + fields;
    StripJoin(path, i, fields);
    assert NoDots(stacked);
    var v := GetNonStructuredVariable(f, prefix);
    if v.None? && '.' in prefix then
      var r := StripToResolvable(f, prefix, stacked);
      UnboundAfterExtends(f, path, i, |r.structPath|);
      r
    else
      UnboundAfterLastDot(f, path, i);
      PrefixSearch(prefix, stacked, v)
  }

  /** The field loop of `getStructureVariable`: apply the fields left to right, each to
      the previous result. The structure path named in messages stays the resolved
      prefix throughout, as in the source. */
  function ApplyFields(v: Value, structPath: string, fields: seq<string>, strict: bool,
                       provider: Option<MetadataProvider>, mapper: PathMapper): (r: Result<Option<Value>, ExpansionError>)
    ensures !strict ==> r.Success?
    ensures strict ==> r != Success(None)
    ensures |fields| == 0 ==> r == Success(Some(v))
    decreases |fields|
  {
    if |fields| == 0 then Success(Some(v))
    else
      match GetFieldValue(v, structPath, fields[0], provider, mapper, strict)
      case Failure(e) => Failure(e)
      case Success(None) =>
        if strict then Failure(MissingField(structPath, fields[0])) else Success(None)
      case Success(Some(next)) => ApplyFields(next, structPath, fields[1..], strict, provider, mapper)
  }

  /** Strict and lenient field chains differ only where the lenient one answers null. */
  lemma {:induction false} ApplyFieldsStrictAgreesWithLenient(v: Value, structPath: string, fields: seq<string>,
                                                              provider: Option<MetadataProvider>, mapper: PathMapper)
    ensures var lenient := ApplyFields(v, structPath, fields, false, provider, mapper);
            var strict := ApplyFields(v, structPath, fields, true, provider, mapper);
            (lenient.value.Some? ==> strict == lenient) && (lenient.value.None? ==> strict.Failure?)
    decreases |fields|
  {
    if |fields| > 0 {
      StrictFieldAgreesWithLenient(v, structPath, fields[0], provider, mapper);
      var step := GetFieldValue(v, structPath, fields[0], provider, mapper, false);
      if step.value.Some? {
        ApplyFieldsStrictAgreesWithLenient(step.value.value, structPath, fields[1..], provider, mapper);
      }
    }
  }

  /** Whether a field chain succeeds, and how it fails, depends on the shape of the
      starting value only: never on the path mapper or the metadata provider. */
  lemma {:induction false} ApplyFieldsShapeDecidesOutcome(v1: Value, v2: Value, structPath: string, fields: seq<string>,
                                                          strict: bool, p1: Option<MetadataProvider>, p2: Option<MetadataProvider>,
                                                          m1: PathMapper, m2: PathMapper)
    requires FieldShape(v1) == FieldShape(v2)
    ensures OutcomesAgree(ApplyFields(v1, structPath, fields, strict, p1, m1),
                          ApplyFields(v2, structPath, fields, strict, p2, m2))
    decreases |fields|
  {
    if |fields| > 0 {
      FieldShapeDecidesOutcome(v1, v2, structPath, fields[0], p1, p2, m1, m2, strict);
      var s1 := GetFieldValue(v1, structPath, fields[0], p1, m1, strict);
      var s2 := GetFieldValue(v2, structPath, fields[0], p2, m2, strict);
      if s1.Success? && s1.value.Some? {
        ApplyFieldsShapeDecidesOutcome(s1.value.value, s2.value.value, structPath, fields[1..], strict, p1, p2, m1, m2);
      }
    }
  }

  /** No prefix of `name` that ends before a dot is bound (vacuous for a dot-free name). */
  predicate NoPrefixResolves(f: Frame, name: string)
    requires Valid(f)
  {
    forall j :: 0 <= j < |name| && name[j] == '.' ==> GetNonStructuredVariable(f, name[..j]).None?
  }

  /** `name[..j]` is the longest prefix of `name` ending before a dot that is bound. */
  predicate LongestResolvablePrefix(f: Frame, name: string, j: int)
    requires Valid(f)
  {
    && 0 <= j < |name| && name[j] == '.'
    && GetNonStructuredVariable(f, name[..j]).Some?
    && forall k :: j < k < |name| && name[k] == '.' ==> GetNonStructuredVariable(f, name[..k]).None?
  }

  /** `getStructureVariable`. */
  function GetStructureVariable(f: Frame, name: string, strict: bool,
                                provider: Option<MetadataProvider>, mapper: PathMapper): (r: Result<Option<Value>, ExpansionError>)
    requires Valid(f)
    ensures !strict ==> r.Success?
  {
    if '.' !in name then Success(None)
    else
      var s := StripToResolvable(f, name, []);
      if s.variable.None? then Success(None)
      else ApplyFields(s.variable.value, s.structPath, s.fields, strict, provider, mapper)
  }

  /** `fields` are the dot-separated segments of `rest`: dot-free pieces, at least
      one, that rejoin to it (unique by `SegmentsUnique`). */
  predicate SplitsInto(rest: string, fields: seq<string>) {
    |fields| > 0 && NoDots(fields) && DotSuffix(fields) == "." + rest
  }

  /** A search that stopped at a bound prefix, with every longer prefix unbound,
      stopped at the longest bound prefix, and its stack holds the segments after it. */
  lemma FoundIsLongest(f: Frame, name: string, s: PrefixSearch)
    requires Valid(f) && s.structPath + DotSuffix(s.fields) == name
    requires |s.structPath| < |name| && name[|s.structPath|] == '.'
    requires NoDots(s.fields) && |s.fields| > 0
    requires GetNonStructuredVariable(f, s.structPath).Some? && UnboundAfter(f, name, |s.structPath|)
    ensures LongestResolvablePrefix(f, name, |s.structPath|)
    ensures s.structPath == name[..|s.structPath|]
    ensures SplitsInto(name[|s.structPath| + 1..], s.fields)
  {
    var j := |s.structPath|;
    assert name[..j] == s.structPath;
    RestAfterPrefix(name, s.structPath, DotSuffix(s.fields));
  }

  /** The loop runs out of dots only when no prefix is bound. */
  lemma StripFailsOnlyUnbound(f: Frame, name: string)
    requires Valid(f) && '.' in name
    ensures StripToResolvable(f, name, []).variable.None? ==> NoPrefixResolves(f, name)
  {
    var s := StripToResolvable(f, name, []);
    if s.variable.None? {
      NothingBoundBefore(f, name, s.structPath);
    }
  }

  /** When the loop stops at a bound prefix, it is the longest bound one. */
  lemma StripStopsAtLongest(f: Frame, name: string)
    requires Valid(f) && '.' in name
    ensures var s := StripToResolvable(f, name, []);
            s.variable.Some? ==> LongestResolvablePrefix(f, name, |s.structPath|)
                                 && s.structPath == name[..|s.structPath|]
  {
    var s := StripToResolvable(f, name, []);
    if s.variable.Some? {
      NoFieldsStacked(name);
      FoundIsLongest(f, name, s);
    }
  }

  /** When the loop stops at a bound prefix, the stack holds the segments after it. */
  lemma StripStacksRest(f: Frame, name: string)
    requires Valid(f) && '.' in name
    ensures var s := StripToResolvable(f, name, []);
            s.variable.Some? ==> SplitsInto(name[|s.structPath| + 1..], s.fields)
  {
    var s := StripToResolvable(f, name, []);
    if s.variable.Some? {
      NoFieldsStacked(name);
      FoundIsLongest(f, name, s);
    }
  }

  /** The loop stops at the longest bound prefix, with the segments after it stacked;
      it runs out of dots only when no prefix is bound. */
  lemma StripFindsLongest(f: Frame, name: string)
    requires Valid(f) && '.' in name
    ensures var s := StripToResolvable(f, name, []);
            (s.variable.None? ==> NoPrefixResolves(f, name))
            && (s.variable.Some? ==> LongestResolvablePrefix(f, name, |s.structPath|)
                                     && s.structPath == name[..|s.structPath|]
                                     && SplitsInto(name[|s.structPath| + 1..], s.fields))
  {
    StripFailsOnlyUnbound(f, name);
    StripStopsAtLongest(f, name);
    StripStacksRest(f, name);
  }

  /** An empty stack rejoins to nothing. */
  lemma NoFieldsStacked(name: string)
    ensures name + DotSuffix([]) == name
  {
    assert DotSuffix([]) == "";
  }

  /** When `name` is `prefix` followed by a dot-led rest, the rest is the dot and what
      follows it. */
  lemma RestAfterPrefix(name: string, prefix: string, rest: string)
    requires prefix + rest == name && |prefix| < |name| && name[|prefix|] == '.'
    ensures rest == "." + name[|prefix| + 1..]
  {
    assert rest == name[|prefix|..];
  }

  /** A dot-free unbound prefix that every longer bound prefix would follow rules
      out every bound prefix. */
  lemma NothingBoundBefore(f: Frame, name: string, first: string)
    requires Valid(f) && |first| < |name| && first == name[..|first|] && '.' !in first
    requires GetNonStructuredVariable(f, first).None? && UnboundAfter(f, name, |first|)
    ensures NoPrefixResolves(f, name)
  {
    forall k | 0 <= k < |name| && name[k] == '.'
      ensures GetNonStructuredVariable(f, name[..k]).None?
    {
      if k < |first| {
        assert false;
      } else if k == |first| {
        assert name[..k] == first;
      }
    }
  }

  /** A dot-free name has no prefix to resolve and no structure lookup. */
  lemma DotFreeHasNoStructure(f: Frame, name: string, strict: bool,
                              provider: Option<MetadataProvider>, mapper: PathMapper)
    requires Valid(f) && '.' !in name
    ensures NoPrefixResolves(f, name)
    ensures GetStructureVariable(f, name, strict, provider, mapper) == Success(None)
  {
    forall k | 0 <= k < |name| ensures name[k] != '.' { }
  }

  /** The loop running out of dots means no prefix is bound, and the lookup is absent. */
  lemma UnresolvedHasNoStructure(f: Frame, name: string, strict: bool,
                                 provider: Option<MetadataProvider>, mapper: PathMapper)
    requires Valid(f) && '.' in name && StripToResolvable(f, name, []).variable.None?
    ensures NoPrefixResolves(f, name)
    ensures GetStructureVariable(f, name, strict, provider, mapper) == Success(None)
  {
    StripFindsLongest(f, name);
  }

  /** The loop stopping at a bound prefix: it is the longest, and the fields after it
      are applied to its value. */
  lemma ResolvedAppliesFields(f: Frame, name: string, strict: bool,
                              provider: Option<MetadataProvider>, mapper: PathMapper)
    requires Valid(f) && '.' in name && StripToResolvable(f, name, []).variable.Some?
    ensures var j := |StripToResolvable(f, name, []).structPath|;
            && LongestResolvablePrefix(f, name, j)
            && GetStructureVariable(f, name, strict, provider, mapper)
               == ApplyFields(GetNonStructuredVariable(f, name[..j]).value, name[..j],
                              Segments(name[j + 1..]), strict, provider, mapper)
  {
    StripFindsLongest(f, name);
    var s := StripToResolvable(f, name, []);
    SegmentsUnique(s.fields, name[|s.structPath| + 1..]);
  }

  /** Dotted-name resolution: when some prefix is bound, the longest such prefix is
      taken and the remaining dot-separated segments are applied to its value left to
      right; when none is, the lookup is absent. A strict lookup is absent only then. */
  lemma DottedNameResolution(f: Frame, name: string, strict: bool,
                             provider: Option<MetadataProvider>, mapper: PathMapper)
    requires Valid(f)
    ensures NoPrefixResolves(f, name) ==> GetStructureVariable(f, name, strict, provider, mapper) == Success(None)
    ensures !NoPrefixResolves(f, name) ==>
              exists j :: LongestResolvablePrefix(f, name, j)
                       && GetStructureVariable(f, name, strict, provider, mapper)
                          == ApplyFields(GetNonStructuredVariable(f, name[..j]).value, name[..j],
                                         Segments(name[j + 1..]), strict, provider, mapper)
    ensures strict && GetStructureVariable(f, name, strict, provider, mapper) == Success(None) ==>
              NoPrefixResolves(f, name)
  {
    if '.' !in name {
      DotFreeHasNoStructure(f, name, strict, provider, mapper);
    } else if StripToResolvable(f, name, []).variable.None? {
      UnresolvedHasNoStructure(f, name, strict, provider, mapper);
    } else {
      ResolvedAppliesFields(f, name, strict, provider, mapper);
      var j := |StripToResolvable(f, name, []).structPath|;
      assert !NoPrefixResolves(f, name) by {
        assert name[j] == '.' && GetNonStructuredVariable(f, name[..j]).Some?;
      }
    }
  }

  /** Strict and lenient structure lookups differ only where the lenient one is null. */
  lemma StructureStrictAgreesWithLenient(f: Frame, name: string, provider: Option<MetadataProvider>, mapper: PathMapper)
    requires Valid(f)
    ensures var lenient := GetStructureVariable(f, name, false, provider, mapper);
            var strict := GetStructureVariable(f, name, true, provider, mapper);
            (lenient.value.Some? ==> strict == lenient)
            && (lenient.value.None? ==> strict.Failure? || strict == Success(None))
  {
    if '.' in name {
      var s := StripToResolvable(f, name, []);
      if s.variable.Some? {
        ApplyFieldsStrictAgreesWithLenient(s.variable.value, s.structPath, s.fields, provider, mapper);
      }
    }
  }

  /** The outcome of a structure lookup does not depend on the path mapper or the
      metadata provider, only the resolved values' contents do. */
  lemma StructureShapeIgnoresMapper(f: Frame, name: string, strict: bool,
                                    p1: Option<MetadataProvider>, p2: Option<MetadataProvider>, m1: PathMapper, m2: PathMapper)
    requires Valid(f)
    ensures OutcomesAgree(GetStructureVariable(f, name, strict, p1, m1), GetStructureVariable(f, name, strict, p2, m2))
  {
    if '.' in name {
      var s := StripToResolvable(f, name, []);
      if s.variable.Some? {
        ApplyFieldsShapeDecidesOutcome(s.variable.value, s.variable.value, s.structPath, s.fields, strict, p1, p2, m1, m2);
      }
    }
  }

  // ---------------------------------------------------------------------------
  // Uncached lookup

  /** `lookupVariable` on a frame whose memo has no entry for the name: own or
      inherited binding first, then (for a dotted name) structure resolution; a strict
      lookup that finds nothing fails with "Cannot find variable named". */
  function Resolve(f: Frame, name: string, strict: bool,
                   provider: Option<MetadataProvider>, mapper: PathMapper): (r: Result<Option<Value>, ExpansionError>)
    requires Valid(f)
    ensures GetNonStructuredVariable(f, name).Some? ==> r == Success(GetNonStructuredVariable(f, name))
    ensures !strict ==> r.Success?
    ensures strict ==> r != Success(None)
  {
    var own := GetNonStructuredVariable(f, name);
    if own.Some? then Success(own)
    else if '.' !in name then
      if strict then Failure(MissingVariable(name)) else Success(None)
    else NullAsMissing(GetStructureVariable(f, name, strict, provider, mapper), name, strict)
  }

  /** A structure lookup's null is a miss: "Cannot find variable named" when strict. */
  function NullAsMissing(found: Result<Option<Value>, ExpansionError>, name: string, strict: bool): (r: Result<Option<Value>, ExpansionError>)
    ensures found != Success(None) ==> r == found
    ensures found == Success(None) ==> r == if strict then Failure(MissingVariable(name)) else Success(None)
  {
    match found
    case Success(None) => if strict then Failure(MissingVariable(name)) else Success(None)
    case other => other
  }

  /** Strict and lenient lookups agree on every value found; the lenient one is null
      exactly where the strict one fails. */
  lemma ResolveStrictAgreesWithLenient(f: Frame, name: string, provider: Option<MetadataProvider>, mapper: PathMapper)
    requires Valid(f)
    ensures var lenient := Resolve(f, name, false, provider, mapper);
            var strict := Resolve(f, name, true, provider, mapper);
            (lenient.value.Some? <==> strict.Success?) && (lenient.value.Some? ==> strict == lenient)
  {
    StructureStrictAgreesWithLenient(f, name, provider, mapper);
  }

  /** Whether a lookup succeeds, and how it fails, never depends on the path mapper or
      the metadata provider. */
  lemma ResolveOutcomeIgnoresMapper(f: Frame, name: string, strict: bool,
                                    p1: Option<MetadataProvider>, p2: Option<MetadataProvider>, m1: PathMapper, m2: PathMapper)
    requires Valid(f)
    ensures OutcomesAgree(Resolve(f, name, strict, p1, m1), Resolve(f, name, strict, p2, m2))
  {
    StructureShapeIgnoresMapper(f, name, strict, p1, p2, m1, m2);
  }

  // ---------------------------------------------------------------------------
  // The memo of dotted lookups

  /** What the memo holds for a name: a value, an error (the source keeps its message),
      or `NULL_MARKER`. */
  datatype CacheEntry = CachedValue(value: Value) | CachedError(error: ExpansionError) | NullMarker

  type Cache = map<string, CacheEntry>

  /** `putIfAbsent`: the first entry stored for a key is never replaced. */
  function PutIfAbsent(cache: Cache, name: string, entry: CacheEntry): (r: Cache)
    ensures r.Keys == cache.Keys + {name}
    ensures forall k :: k in cache ==> r[k] == cache[k]
    ensures name !in cache ==> r[name] == entry
  {
    if name in cache then cache else cache[name := entry]
  }

  /** Whatever is stored afterwards, the first write for a key stays. */
  lemma FirstWriteWins(cache: Cache, name: string, first: CacheEntry, second: CacheEntry)
    requires name !in cache
    ensures PutIfAbsent(PutIfAbsent(cache, name, first), name, second)[name] == first
  {
  }

  /** The entry a structure lookup's outcome is memoised as. */
  function EntryFor(r: Result<Option<Value>, ExpansionError>): CacheEntry {
    match r
    case Success(Some(v)) => CachedValue(v)
    case Success(None) => NullMarker
    case Failure(e) => CachedError(e)
  }

  /** How `lookupVariable` answers from an entry. */
  function Answer(entry: CacheEntry, name: string, strict: bool): (r: Result<Option<Value>, ExpansionError>)
    ensures !strict ==> r.Success?
    ensures strict ==> r != Success(None)
    ensures entry.CachedValue? ==> r == Success(Some(entry.value))
  {
    match entry
    case CachedValue(v) => Success(Some(v))
    case CachedError(e) => if strict then Failure(e) else Success(None)
    case NullMarker => if strict then Failure(MissingVariable(name)) else Success(None)
  }

  /** `lookupVariable`: own or inherited binding, else a dot-free miss, else the memo
      entry for the full name, computed and stored on first use. */
  function LookupVariable(f: Frame, cache: Cache, name: string, strict: bool,
                          provider: Option<MetadataProvider>, mapper: PathMapper): (r: (Result<Option<Value>, ExpansionError>, Cache))
    requires Valid(f)
    ensures !strict ==> r.0.Success?
    ensures strict ==> r.0 != Success(None)
    ensures GetNonStructuredVariable(f, name).Some? ==> r == (Success(GetNonStructuredVariable(f, name)), cache)
    ensures cache.Keys <= r.1.Keys <= cache.Keys + {name}
    ensures forall k :: k in cache ==> r.1[k] == cache[k]
    ensures name !in cache ==> r.0 == Resolve(f, name, strict, provider, mapper)
  {
    var own := GetNonStructuredVariable(f, name);
    if own.Some? then (Success(own), cache)
    else if '.' !in name then
      (if strict then Failure(MissingVariable(name)) else Success(None), cache)
    else if name in cache then
      (Answer(cache[name], name, strict), cache)
    else
      var entry := EntryFor(GetStructureVariable(f, name, strict, provider, mapper));
      (Answer(entry, name, strict), PutIfAbsent(cache, name, entry))
  }

  /** The entry a lookup of `name` with the given strictness would store. */
  predicate EntryMatches(f: Frame, name: string, entry: CacheEntry, strict: bool,
                         provider: Option<MetadataProvider>, mapper: PathMapper)
    requires Valid(f)
  {
    && GetNonStructuredVariable(f, name).None? && '.' in name
    && entry == EntryFor(GetStructureVariable(f, name, strict, provider, mapper))
  }

  /** Every entry is what a strict or a lenient lookup with this mapper and provider
      stores. */
  predicate Coherent(f: Frame, cache: Cache, provider: Option<MetadataProvider>, mapper: PathMapper)
    requires Valid(f)
  {
    forall name :: name in cache ==>
      EntryMatches(f, name, cache[name], true, provider, mapper)
      || EntryMatches(f, name, cache[name], false, provider, mapper)
  }

  /** Every entry is what a strict lookup with this mapper and provider stores. */
  predicate StrictlyFilled(f: Frame, cache: Cache, provider: Option<MetadataProvider>, mapper: PathMapper)
    requires Valid(f)
  {
    forall name :: name in cache ==> EntryMatches(f, name, cache[name], true, provider, mapper)
  }

  /** Lookups with one mapper and provider keep the memo coherent for them. */
  lemma LookupKeepsCoherent(f: Frame, cache: Cache, name: string, strict: bool,
                            provider: Option<MetadataProvider>, mapper: PathMapper)
    requires Valid(f) && Coherent(f, cache, provider, mapper)
    ensures Coherent(f, LookupVariable(f, cache, name, strict, provider, mapper).1, provider, mapper)
  {
  }

  /** Strict lookups keep a strictly filled memo strictly filled. */
  lemma StrictLookupKeepsStrictlyFilled(f: Frame, cache: Cache, name: string,
                                        provider: Option<MetadataProvider>, mapper: PathMapper)
    requires Valid(f) && StrictlyFilled(f, cache, provider, mapper)
    ensures StrictlyFilled(f, LookupVariable(f, cache, name, true, provider, mapper).1, provider, mapper)
  {
  }

  /** A memo entry stored by a lookup of either strictness answers later lookups as
      an unmemoised lookup would, except that a null marker a lenient lookup left makes
      a strict lookup fail with "Cannot find variable named" where an unmemoised one may
      fail with a field error. */
  lemma EntryAnswersAsResolve(f: Frame, cache: Cache, name: string, strict: bool, entryStrict: bool,
                              provider: Option<MetadataProvider>, mapper: PathMapper)
    requires Valid(f) && name in cache && EntryMatches(f, name, cache[name], entryStrict, provider, mapper)
    ensures var cached := LookupVariable(f, cache, name, strict, provider, mapper).0;
            var direct := Resolve(f, name, strict, provider, mapper);
            (entryStrict || !strict ==> cached == direct)
            && (cached.Success? <==> direct.Success?)
            && (cached.Success? ==> cached == direct)
  {
    StructureStrictAgreesWithLenient(f, name, provider, mapper);
    AnswerAsDirect(name, strict, entryStrict, GetStructureVariable(f, name, false, provider, mapper),
                   GetStructureVariable(f, name, true, provider, mapper));
  }

  /** The case analysis behind `EntryAnswersAsResolve`, over the two structure lookup
      outcomes alone: answering from either one's entry agrees with the direct miss
      handling, up to the strict-after-lenient null marker. */
  lemma AnswerAsDirect(name: string, strict: bool, entryStrict: bool,
                       lenient: Result<Option<Value>, ExpansionError>, strictly: Result<Option<Value>, ExpansionError>)
    requires lenient.Success?
    requires lenient.value.Some? ==> strictly == lenient
    requires lenient.value.None? ==> strictly.Failure? || strictly == Success(None)
    ensures var cached := Answer(EntryFor(if entryStrict then strictly else lenient), name, strict);
            var direct := NullAsMissing(if strict then strictly else lenient, name, strict);
            (entryStrict || !strict ==> cached == direct)
            && (cached.Success? <==> direct.Success?)
            && (cached.Success? ==> cached == direct)
  {
  }

  /** On a strictly filled memo, a strict lookup answers exactly as without a memo. */
  lemma StrictlyFilledLookupIsResolve(f: Frame, cache: Cache, name: string,
                                      provider: Option<MetadataProvider>, mapper: PathMapper)
    requires Valid(f) && StrictlyFilled(f, cache, provider, mapper)
    ensures LookupVariable(f, cache, name, true, provider, mapper).0 == Resolve(f, name, true, provider, mapper)
  {
    if name in cache {
      EntryAnswersAsResolve(f, cache, name, true, true, provider, mapper);
    }
  }

  /** On a coherent memo a lenient lookup answers exactly as without a memo, and a
      strict one succeeds exactly when it would without a memo, with the same value. */
  lemma CoherentLookupIsResolve(f: Frame, cache: Cache, name: string, strict: bool,
                                provider: Option<MetadataProvider>, mapper: PathMapper)
    requires Valid(f) && Coherent(f, cache, provider, mapper)
    ensures var cached := LookupVariable(f, cache, name, strict, provider, mapper).0;
            var direct := Resolve(f, name, strict, provider, mapper);
            (!strict ==> cached == direct)
            && (cached.Success? <==> direct.Success?)
            && (cached.Success? ==> cached == direct)
  {
    if name in cache {
      if EntryMatches(f, name, cache[name], true, provider, mapper) {
        EntryAnswersAsResolve(f, cache, name, strict, true, provider, mapper);
      } else {
        EntryAnswersAsResolve(f, cache, name, strict, false, provider, mapper);
      }
    }
  }

  // ---------------------------------------------------------------------------
  // Public getters

  /** What a strict lookup finds without a memo, with the null strictness rules out
      unwrapped. */
  function DirectVariable(f: Frame, name: string, provider: Option<MetadataProvider>, mapper: PathMapper): Result<Value, ExpansionError>
    requires Valid(f)
  {
    match Resolve(f, name, true, provider, mapper)
    case Failure(e) => Failure(e)
    case Success(v) => Success(v.value)
  }

  /** `getStringVariable` without a memo. */
  function DirectStringVariable(f: Frame, name: string, mapper: PathMapper): Result<string, ExpansionError>
    requires Valid(f)
  {
    match DirectVariable(f, name, None, mapper)
    case Failure(e) => Failure(e)
    case Success(v) => GetStringValue(v, name, mapper)
  }

  /** `getSequenceVariable` without a memo. */
  function DirectSequenceVariable(f: Frame, name: string, provider: Option<MetadataProvider>, mapper: PathMapper): Result<seq<Value>, ExpansionError>
    requires Valid(f)
  {
    match DirectVariable(f, name, provider, mapper)
    case Failure(e) => Failure(e)
    case Success(v) => GetSequenceValue(v, name, mapper)
  }

  /** `toStringList` without a memo. */
  function DirectStringList(f: Frame, name: string, mapper: PathMapper): Result<seq<string>, ExpansionError>
    requires Valid(f)
  {
    match DirectSequenceVariable(f, name, None, mapper)
    case Failure(e) => Failure(e)
    case Success(vs) => StringsOf(vs, name, mapper)
  }

  /** `getVariable`: a strict lookup, which never answers null. A plain binding is
      returned as it is; an uncached name is answered as without a memo; the memo
      gains at most an entry for the name. */
  function GetVariable(f: Frame, cache: Cache, name: string,
                       provider: Option<MetadataProvider>, mapper: PathMapper): (r: (Result<Value, ExpansionError>, Cache))
    requires Valid(f)
    ensures var (res, c) := LookupVariable(f, cache, name, true, provider, mapper);
            r.1 == c && (r.0.Success? <==> res.Success?)
            && (r.0.Success? ==> res == Success(Some(r.0.value)))
            && (r.0.Failure? ==> res == Failure(r.0.error))
    ensures GetNonStructuredVariable(f, name).Some? ==> r == (Success(GetNonStructuredVariable(f, name).value), cache)
    ensures name !in cache ==> r.0 == DirectVariable(f, name, provider, mapper)
    ensures cache.Keys <= r.1.Keys <= cache.Keys + {name} && forall k :: k in cache ==> r.1[k] == cache[k]
  {
    var (res, c) := LookupVariable(f, cache, name, true, provider, mapper);
    match res
    case Success(v) => (Success(v.value), c)
    case Failure(e) => (Failure(e), c)
  }

  /** `getStringVariable`: the strict lookup (without a metadata provider), then "as
      string". */
  function GetStringVariable(f: Frame, cache: Cache, name: string, mapper: PathMapper): (r: (Result<string, ExpansionError>, Cache))
    requires Valid(f)
    ensures var (v, c) := GetVariable(f, cache, name, None, mapper);
            r.1 == c
            && (v.Failure? ==> r.0 == Failure(v.error))
            && (v.Success? ==> r.0 == GetStringValue(v.value, name, mapper))
    ensures GetNonStructuredVariable(f, name).Some? ==>
              r == (GetStringValue(GetNonStructuredVariable(f, name).value, name, mapper), cache)
    ensures name !in cache ==> r.0 == DirectStringVariable(f, name, mapper)
    ensures cache.Keys <= r.1.Keys <= cache.Keys + {name} && forall k :: k in cache ==> r.1[k] == cache[k]
  {
    var (v, c) := GetVariable(f, cache, name, None, mapper);
    match v
    case Failure(e) => (Failure(e), c)
    case Success(value) => (GetStringValue(value, name, mapper), c)
  }

  /** `getSequenceVariable`: the strict lookup, then "as sequence". */
  function GetSequenceVariable(f: Frame, cache: Cache, name: string,
                               provider: Option<MetadataProvider>, mapper: PathMapper): (r: (Result<seq<Value>, ExpansionError>, Cache))
    requires Valid(f)
    ensures var (v, c) := GetVariable(f, cache, name, provider, mapper);
            r.1 == c
            && (v.Failure? ==> r.0 == Failure(v.error))
            && (v.Success? ==> r.0 == GetSequenceValue(v.value, name, mapper))
    ensures GetNonStructuredVariable(f, name).Some? ==>
              r == (GetSequenceValue(GetNonStructuredVariable(f, name).value, name, mapper), cache)
    ensures name !in cache ==> r.0 == DirectSequenceVariable(f, name, provider, mapper)
    ensures cache.Keys <= r.1.Keys <= cache.Keys + {name} && forall k :: k in cache ==> r.1[k] == cache[k]
  {
    var (v, c) := GetVariable(f, cache, name, provider, mapper);
    match v
    case Failure(e) => (Failure(e), c)
    case Success(value) => (GetSequenceValue(value, name, mapper), c)
  }

  /** On a strictly filled memo the getters answer as without a memo, and the memo
      stays strictly filled. */
  lemma GetVariableIsDirect(f: Frame, cache: Cache, name: string, provider: Option<MetadataProvider>, mapper: PathMapper)
    requires Valid(f) && StrictlyFilled(f, cache, provider, mapper)
    ensures GetVariable(f, cache, name, provider, mapper).0 == DirectVariable(f, name, provider, mapper)
    ensures StrictlyFilled(f, GetVariable(f, cache, name, provider, mapper).1, provider, mapper)
  {
    StrictlyFilledLookupIsResolve(f, cache, name, provider, mapper);
    StrictLookupKeepsStrictlyFilled(f, cache, name, provider, mapper);
  }

  lemma GetStringVariableIsDirect(f: Frame, cache: Cache, name: string, mapper: PathMapper)
    requires Valid(f) && StrictlyFilled(f, cache, None, mapper)
    ensures GetStringVariable(f, cache, name, mapper).0 == DirectStringVariable(f, name, mapper)
    ensures StrictlyFilled(f, GetStringVariable(f, cache, name, mapper).1, None, mapper)
  {
    GetVariableIsDirect(f, cache, name, None, mapper);
  }

  lemma GetSequenceVariableIsDirect(f: Frame, cache: Cache, name: string, provider: Option<MetadataProvider>, mapper: PathMapper)
    requires Valid(f) && StrictlyFilled(f, cache, provider, mapper)
    ensures GetSequenceVariable(f, cache, name, provider, mapper).0 == DirectSequenceVariable(f, name, provider, mapper)
    ensures StrictlyFilled(f, GetSequenceVariable(f, cache, name, provider, mapper).1, provider, mapper)
  {
    GetVariableIsDirect(f, cache, name, provider, mapper);
  }

  /** "As string" of each element in order, stopping at the first failure. */
  function StringsOf(values: seq<Value>, name: string, mapper: PathMapper): (r: Result<seq<string>, ExpansionError>)
    ensures r.Success? <==> forall i :: 0 <= i < |values| ==> IsScalar(values[i])
    ensures r.Success? ==> |r.value| == |values|
    ensures r.Success? ==> forall i :: 0 <= i < |values| ==> GetStringValue(values[i], name, mapper) == Success(r.value[i])
    ensures r.Failure? ==> exists i :: 0 <= i < |values| && GetStringValue(values[i], name, mapper) == Failure(r.error)
                                       && forall j :: 0 <= j < i ==> IsScalar(values[j])
  {
    if |values| == 0 then Success([])
    else
      match GetStringValue(values[0], name, mapper)
      case Failure(e) => Failure(e)
      case Success(s) =>
        match StringsOf(values[1..], name, mapper)
        case Failure(e) =>
          var i :| 0 <= i < |values[1..]| && GetStringValue(values[1..][i], name, mapper) == Failure(e)
                   && forall j :: 0 <= j < i ==> IsScalar(values[1..][j]);
          assert GetStringValue(values[i + 1], name, mapper) == Failure(e);
          Failure(e)
        case Success(rest) => Success([s] + rest)
  }

  /** `toStringList`: the sequence variable's elements, each as a string. */
  function ToStringList(f: Frame, cache: Cache, name: string, mapper: PathMapper): (r: (Result<seq<string>, ExpansionError>, Cache))
    requires Valid(f)
    ensures var (vs, c) := GetSequenceVariable(f, cache, name, None, mapper);
            r.1 == c
            && (vs.Failure? ==> r.0 == Failure(vs.error))
            && (vs.Success? ==> r.0 == StringsOf(vs.value, name, mapper))
    ensures name !in cache ==> r.0 == DirectStringList(f, name, mapper)
    ensures cache.Keys <= r.1.Keys <= cache.Keys + {name} && forall k :: k in cache ==> r.1[k] == cache[k]
  {
    var (vs, c) := GetSequenceVariable(f, cache, name, None, mapper);
    match vs
    case Failure(e) => (Failure(e), c)
    case Success(values) => (StringsOf(values, name, mapper), c)
  }

  lemma ToStringListIsDirect(f: Frame, cache: Cache, name: string, mapper: PathMapper)
    requires Valid(f) && StrictlyFilled(f, cache, None, mapper)
    ensures ToStringList(f, cache, name, mapper).0 == DirectStringList(f, name, mapper)
    ensures StrictlyFilled(f, ToStringList(f, cache, name, mapper).1, None, mapper)
  {
    GetSequenceVariableIsDirect(f, cache, name, None, mapper);
  }

  /** A name bound in the frame chain to a string sequence lists its strings, each
      mapped heuristically, in order. */
  lemma ToStringListOfStringSequence(f: Frame, cache: Cache, name: string, mapper: PathMapper, strings: seq<string>)
    requires Valid(f)
    requires GetNonStructuredVariable(f, name) == Some(StringSequence(strings))
    ensures var r := ToStringList(f, cache, name, mapper).0;
            r.Success? && |r.value| == |strings|
            && forall i :: 0 <= i < |strings| ==> r.value[i] == mapper.MapHeuristically(strings[i])
  {
  }

  /** `isAvailable`: a lenient lookup with the no-op mapper; the memo it fills is the
      one later mapped lookups read. */
  function IsAvailable(f: Frame, cache: Cache, name: string, provider: Option<MetadataProvider>): (r: (bool, Cache))
    requires Valid(f)
    ensures var (res, c) := LookupVariable(f, cache, name, false, provider, Noop);
            r.1 == c && (r.0 <==> res.value.Some?)
    ensures GetNonStructuredVariable(f, name).Some? ==> r == (true, cache)
    ensures Coherent(f, cache, provider, Noop) ==> (r.0 <==> Resolve(f, name, true, provider, Noop).Success?)
    ensures cache.Keys <= r.1.Keys <= cache.Keys + {name} && forall k :: k in cache ==> r.1[k] == cache[k]
  {
    ProbeAnswersAsResolve(f, cache, name, provider);
    var (res, c) := LookupVariable(f, cache, name, false, provider, Noop);
    (res.value.Some?, c)
  }

  /** On a memo coherent with the no-op mapper, the lenient probe finds a value exactly
      when the strict lookup without a memo succeeds. */
  lemma ProbeAnswersAsResolve(f: Frame, cache: Cache, name: string, provider: Option<MetadataProvider>)
    requires Valid(f)
    ensures Coherent(f, cache, provider, Noop) ==>
              (LookupVariable(f, cache, name, false, provider, Noop).0.value.Some?
               <==> Resolve(f, name, true, provider, Noop).Success?)
  {
    if Coherent(f, cache, provider, Noop) {
      CoherentLookupIsResolve(f, cache, name, false, provider, Noop);
      ResolveStrictAgreesWithLenient(f, name, provider, Noop);
    }
  }

  /** With the same mapper and provider, a name is available exactly when a strict
      lookup of it returns a value instead of failing, before or after the probe. */
  lemma IsAvailableIffGetVariableSucceeds(f: Frame, cache: Cache, name: string, provider: Option<MetadataProvider>)
    requires Valid(f) && Coherent(f, cache, provider, Noop)
    ensures var (available, after) := IsAvailable(f, cache, name, provider);
            (available <==> GetVariable(f, cache, name, provider, Noop).0.Success?)
            && (available <==> GetVariable(f, after, name, provider, Noop).0.Success?)
  {
    var after := IsAvailable(f, cache, name, provider).1;
    LookupKeepsCoherent(f, cache, name, false, provider, Noop);
    CoherentLookupIsResolve(f, cache, name, false, provider, Noop);
    CoherentLookupIsResolve(f, cache, name, true, provider, Noop);
    CoherentLookupIsResolve(f, after, name, true, provider, Noop);
    ResolveStrictAgreesWithLenient(f, name, provider, Noop);
  }

  /** Availability does not depend on the path mapper: on a fresh memo, a name is
      available exactly when a strict lookup with any mapper and provider succeeds. */
  lemma AvailabilityIgnoresMapper(f: Frame, name: string, provider: Option<MetadataProvider>,
                                  otherProvider: Option<MetadataProvider>, mapper: PathMapper)
    requires Valid(f)
    ensures IsAvailable(f, map[], name, provider).0 <==> Resolve(f, name, true, otherProvider, mapper).Success?
  {
    ResolveStrictAgreesWithLenient(f, name, provider, Noop);
    ResolveOutcomeIgnoresMapper(f, name, true, provider, otherProvider, Noop, mapper);
  }

  /** A memo entry answers whatever mapper and provider the later lookup passes: the
      memo is keyed by the name alone. */
  lemma CachedLookupIgnoresMapper(f: Frame, cache: Cache, name: string, strict: bool,
                                  p1: Option<MetadataProvider>, p2: Option<MetadataProvider>, m1: PathMapper, m2: PathMapper)
    requires Valid(f) && name in cache
    ensures LookupVariable(f, cache, name, strict, p1, m1) == LookupVariable(f, cache, name, strict, p2, m2)
  {
  }

  /** The frame of the example below: `lib` bound to a dynamic library named "foo". */
  function LibFrame(): (f: Frame)
    ensures Valid(f) && f.SingleVariables? && f.name == "lib"
  {
    SingleVariables(None, "lib", LibraryToLinkValue(DynamicLibrary("foo")))
  }

  /** A mapper that moves every path under `out/`. */
  function UnderOut(path: string): string {
    "out/" + path
  }

  /** The search for `lib.name` stops at the bound prefix `lib` with `name` stacked. */
  lemma LibNameStopsAtLib()
    ensures GetNonStructuredVariable(LibFrame(), "lib.name").None?
    ensures StripToResolvable(LibFrame(), "lib.name", [])
            == PrefixSearch("lib", ["name"], Some(LibraryToLinkValue(DynamicLibrary("foo"))))
  {
    var name := "lib.name";
    assert name[3] == '.' && name[4..] == "name" && name[..3] == "lib";
    assert '.' !in name[4..];
    assert Strings.LastIndexOf(name, '.') == 3;
    assert GetNonStructuredVariable(LibFrame(), "lib") == Some(LibraryToLinkValue(DynamicLibrary("foo")));
  }

  /** `lib.name` resolves to the library's name under the given mapper. */
  lemma LibNameResolves(strict: bool, provider: Option<MetadataProvider>, mapper: PathMapper)
    ensures GetNonStructuredVariable(LibFrame(), "lib.name").None?
    ensures GetStructureVariable(LibFrame(), "lib.name", strict, provider, mapper)
            == Success(Some(StringValue(mapper.Map("foo"))))
  {
    var lib := LibraryToLinkValue(DynamicLibrary("foo"));
    LibNameStopsAtLib();
    assert "lib.name"[3] == '.';
    assert LibraryField(DynamicLibrary("foo"), NAME_FIELD, provider, mapper) == Some(StringValue(mapper.Map("foo")));
    assert ApplyFields(lib, "lib", ["name"], strict, provider, mapper) == Success(Some(StringValue(mapper.Map("foo"))));
  }

  /** The memo ignores the mapper: probing `lib.name` stores the unmapped name, which a
      later mapped lookup then returns instead of the mapped one. */
  lemma ProbeLeavesUnmappedValue()
    ensures var mapper := Mapper(UnderOut, UnderOut);
            var (available, after) := IsAvailable(LibFrame(), map[], "lib.name", None);
            available
            && GetStringVariable(LibFrame(), after, "lib.name", mapper).0 == Success("foo")
            && GetStringVariable(LibFrame(), map[], "lib.name", mapper).0 == Success("out/foo")
  {
    var mapper := Mapper(UnderOut, UnderOut);
    LibNameResolves(false, None, Noop);
    LibNameResolves(true, None, mapper);
    var after := IsAvailable(LibFrame(), map[], "lib.name", None).1;
    assert after == map["lib.name" := CachedValue(StringValue("foo"))];
    assert LookupVariable(LibFrame(), after, "lib.name", true, None, mapper).0 == Success(Some(StringValue("foo")));
    MappedLibName(map[]);
  }

  /** With no memo entry for `lib.name`, the mapped lookup of it is the mapped name. */
  lemma MappedLibName(cache: Cache)
    requires "lib.name" !in cache
    ensures GetStringVariable(LibFrame(), cache, "lib.name", Mapper(UnderOut, UnderOut)).0 == Success("out/foo")
  {
    var mapper := Mapper(UnderOut, UnderOut);
    MappedLibValue(cache);
    assert GetStringValue(StringValue("out/foo"), "lib.name", mapper) == Success("out/foo");
  }

  /** With no memo entry for `lib.name`, the mapped strict lookup finds the mapped name. */
  lemma MappedLibValue(cache: Cache)
    requires "lib.name" !in cache
    ensures GetVariable(LibFrame(), cache, "lib.name", None, Mapper(UnderOut, UnderOut)).0 == Success(StringValue("out/foo"))
  {
    MappedLibResolves();
  }

  /** Without a memo, the mapped strict lookup of `lib.name` is the mapped name. */
  lemma MappedLibResolves()
    ensures Resolve(LibFrame(), "lib.name", true, None, Mapper(UnderOut, UnderOut)) == Success(Some(StringValue("out/foo")))
  {
    var mapper := Mapper(UnderOut, UnderOut);
    LibNameResolves(true, None, mapper);
    assert "lib.name"[3] == '.';
    assert mapper.Map("foo") == "out/foo";
  }

  /** An availability probe that reads the memo but never writes it, so lookups after
      it see only entries computed with their own mapper. */
  function IsAvailableWithoutMemo(f: Frame, cache: Cache, name: string, provider: Option<MetadataProvider>): (r: bool)
    requires Valid(f)
    ensures r == IsAvailable(f, cache, name, provider).0
  {
    LookupVariable(f, cache, name, false, provider, Noop).0.value.Some?
  }

  /** The probe without memo answers availability for every mapper and provider the
      memo is coherent with. */
  lemma ProbeWithoutMemoIsSafe(f: Frame, cache: Cache, name: string, provider: Option<MetadataProvider>,
                               otherProvider: Option<MetadataProvider>, mapper: PathMapper)
    requires Valid(f) && Coherent(f, cache, otherProvider, mapper)
    ensures IsAvailableWithoutMemo(f, cache, name, provider) <==> Resolve(f, name, true, otherProvider, mapper).Success?
  {
    ResolveStrictAgreesWithLenient(f, name, otherProvider, mapper);
    if name in cache {
      CachedLookupIgnoresMapper(f, cache, name, false, provider, otherProvider, Noop, mapper);
      if EntryMatches(f, name, cache[name], true, otherProvider, mapper) {
        EntryAnswersAsResolve(f, cache, name, false, true, otherProvider, mapper);
      } else {
        EntryAnswersAsResolve(f, cache, name, false, false, otherProvider, mapper);
      }
    } else {
      ResolveStrictAgreesWithLenient(f, name, provider, Noop);
      ResolveOutcomeIgnoresMapper(f, name, true, provider, otherProvider, Noop, mapper);
    }
  }

  /** On the example above, probing without the memo keeps the mapped answer. */
  lemma ProbeWithoutMemoKeepsMappedValue()
    ensures var mapper := Mapper(UnderOut, UnderOut);
            IsAvailableWithoutMemo(LibFrame(), map[], "lib.name", None)
            && GetStringVariable(LibFrame(), map[], "lib.name", mapper).0 == Success("out/foo")
  {
    LibNameResolves(false, None, Noop);
    MappedLibName(map[]);
  }
}
