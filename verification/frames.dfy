/** Variable frames (`CcToolchainVariables`): the builder that accumulates bindings,
    the single-entry and sorted key-to-index representations it builds, and lookup of
    a plain (non-dotted) name through the parent chain. */
module Frames {
  import opened Wrappers
  import opened Externals
  import opened Values
  import Strings

  /** What the builder's map holds: a raw `String` or `Artifact`, or a `VariableValue`. */
  datatype Raw = RawString(s: string) | RawArtifact(a: Artifact) | RawValue(v: Value)

  /** `asVariableValue`: wraps raw strings and artifacts, passes values through. */
  function AsVariableValue(raw: Raw): (v: Value)
    ensures raw.RawString? ==> v == StringValue(raw.s)
    ensures raw.RawArtifact? ==> v == ArtifactValue(raw.a)
    ensures raw.RawValue? ==> v == raw.v
  {
    match raw
    case RawString(s) => StringValue(s)
    case RawArtifact(a) => ArtifactValue(a)
    case RawValue(v) => v
  }

  /** An immutable frame. `MapVariables` keeps its keys as the ordered `keyToIndex`
      map: key `keys[i]` has index `i` into `values`. */
  datatype Frame =
    | SingleVariables(parent: Option<Frame>, name: string, value: Value)
    | MapVariables(parent: Option<Frame>, keys: seq<string>, values: seq<Raw>)

  /** What the private constructors guarantee: sorted distinct keys, one value per key. */
  predicate Valid(f: Frame)
    decreases f
  {
    && (f.MapVariables? ==> |f.keys| == |f.values| && Strings.StrictlySorted(f.keys))
    && (f.parent.Some? ==> Valid(f.parent.value))
  }

  /** `getNonStructuredVariable`: own binding first, then the parent, else null. */
  function GetNonStructuredVariable(f: Frame, name: string): Option<Value>
    requires Valid(f)
    decreases f
  {
    match f
    case SingleVariables(parent, n, v) =>
      if n == name then Some(v)
      else if parent.None? then None
      else GetNonStructuredVariable(parent.value, name)
    case MapVariables(parent, keys, values) =>
      var i := Strings.Find(keys, name);
      if i != -1 then Some(AsVariableValue(values[i]))
      else if parent.Some? then GetNonStructuredVariable(parent.value, name)
      else None
  }

  /** `getVariableKeys`: the frame's own names, never its parent's. */
  function VariableKeys(f: Frame): set<string> {
    match f
    case SingleVariables(_, n, _) => {n}
    case MapVariables(_, keys, _) => set k | k in keys
  }

  /** The frame's own bindings, as values. */
  function OwnBindings(f: Frame): (m: map<string, Value>)
    requires Valid(f)
    ensures m.Keys == VariableKeys(f)
  {
    match f
    case SingleVariables(_, n, v) => map[n := v]
    case MapVariables(_, keys, values) =>
      map k | k in keys :: AsVariableValue(values[Strings.Find(keys, k)])
  }

  /** Reference semantics of a frame chain: the parent's environment overlaid by the
      frame's own bindings. */
  function Environment(f: Frame): map<string, Value>
    requires Valid(f)
    decreases f
  {
    var inherited := if f.parent.Some? then Environment(f.parent.value) else map[];
    inherited + OwnBindings(f)
  }

  /** Lookup through the parent chain is lookup in the flattened environment: a child
      binding shadows a parent binding of the same name, and every name the child does
      not bind is answered by the parent. */
  lemma {:induction false} LookupIsEnvironment(f: Frame, name: string)
    requires Valid(f)
    ensures GetNonStructuredVariable(f, name)
         == if name in Environment(f) then Some(Environment(f)[name]) else None
    decreases f
  {
    if f.parent.Some? {
      LookupIsEnvironment(f.parent.value, name);
    }
    if f.MapVariables? {
      var i := Strings.Find(f.keys, name);
      if i != -1 {
        assert name in f.keys;
      }
    }
  }

  /** The single-entry representation answers exactly as a one-key map representation. */
  lemma RepresentationsAgree(parent: Option<Frame>, key: string, raw: Raw, name: string)
    requires parent.Some? ==> Valid(parent.value)
    ensures Valid(SingleVariables(parent, key, AsVariableValue(raw)))
    ensures Valid(MapVariables(parent, [key], [raw]))
    ensures GetNonStructuredVariable(SingleVariables(parent, key, AsVariableValue(raw)), name)
         == GetNonStructuredVariable(MapVariables(parent, [key], [raw]), name)
  {
  }

  // ---------------------------------------------------------------------------
  // Builder

  /** Entries of the builder's `LinkedHashMap`, in insertion order. */
  type Entries = seq<(string, Raw)>

  predicate DistinctKeys(entries: Entries) {
    forall i, j :: 0 <= i < j < |entries| ==> entries[i].0 != entries[j].0
  }

  /** The map the entries stand for (a later entry for a key wins). */
  function ToMap(entries: Entries): map<string, Raw> {
    if |entries| == 0 then map[]
    else ToMap(entries[..|entries| - 1])[entries[|entries| - 1].0 := entries[|entries| - 1].1]
  }

  /** The keys of some entries, as a set. */
  function KeySet(entries: Entries): set<string> {
    set i | 0 <= i < |entries| :: entries[i].0
  }

  /** Dropping the last entry drops its key from the key set, and nothing else. */
  lemma KeySetSnoc(entries: Entries)
    requires |entries| > 0
    ensures KeySet(entries) == KeySet(entries[..|entries| - 1]) + {entries[|entries| - 1].0}
  {
    var init := entries[..|entries| - 1];
    forall k | k in KeySet(entries) ensures k in KeySet(init) + {entries[|entries| - 1].0} {
      var i :| 0 <= i < |entries| && entries[i].0 == k;
      if i < |init| {
        assert init[i].0 == k;
      }
    }
    forall k | k in KeySet(init) ensures k in KeySet(entries) {
      var i :| 0 <= i < |init| && init[i].0 == k;
      assert entries[i].0 == k;
    }
  }

  /** The map's keys are the entries' keys. */
  lemma {:induction false} ToMapKeys(entries: Entries)
    ensures ToMap(entries).Keys == KeySet(entries)
    decreases |entries|
  {
    if |entries| > 0 {
      ToMapKeys(entries[..|entries| - 1]);
      KeySetSnoc(entries);
    }
  }

  /** With distinct keys, every entry's value survives into the map. */
  lemma {:induction false} ToMapValues(entries: Entries)
    requires DistinctKeys(entries)
    ensures forall i :: 0 <= i < |entries| ==> entries[i].0 in ToMap(entries) && ToMap(entries)[entries[i].0] == entries[i].1
    decreases |entries|
  {
    if |entries| > 0 {
      var n := |entries| - 1;
      var init := entries[..n];
      assert forall i :: 0 <= i < n ==> init[i] == entries[i];
      ToMapValues(init);
      var m := ToMap(init);
      assert ToMap(entries) == m[entries[n].0 := entries[n].1];
      forall i | 0 <= i < |entries|
        ensures entries[i].0 in ToMap(entries) && ToMap(entries)[entries[i].0] == entries[i].1
      {
        if i < n {
          assert init[i] == entries[i] && entries[i].0 != entries[n].0;
        }
      }
    }
  }

  /** The map of distinct-key entries holds exactly their keys, each with its value. */
  lemma ToMapEntries(entries: Entries)
    requires DistinctKeys(entries)
    ensures ToMap(entries).Keys == KeySet(entries)
    ensures forall i :: 0 <= i < |entries| ==> ToMap(entries)[entries[i].0] == entries[i].1
  {
    ToMapKeys(entries);
    ToMapValues(entries);
  }

  /** The entries' keys, in insertion order. */
  function EntryKeys(entries: Entries): (keys: seq<string>)
    ensures |keys| == |entries|
    ensures forall i :: 0 <= i < |entries| ==> keys[i] == entries[i].0
  {
    seq(|entries|, i requires 0 <= i < |entries| => entries[i].0)
  }

  /** Position of `key` among the entries, or -1. */
  function FindEntry(entries: Entries, key: string): (r: int)
    ensures r == -1 ==> forall i :: 0 <= i < |entries| ==> entries[i].0 != key
    ensures r != -1 ==> 0 <= r < |entries| && entries[r].0 == key
  {
    Strings.Find(EntryKeys(entries), key)
  }

  /** A second update of the same key overrides the first. */
  lemma UpdateTwice<K, V>(m: map<K, V>, k: K, v1: V, v2: V)
    ensures m[k := v1][k := v2] == m[k := v2]
  {
  }

  /** Updates of two different keys commute. */
  lemma UpdatesCommute<K, V>(m: map<K, V>, k1: K, v1: V, k2: K, v2: V)
    requires k1 != k2
    ensures m[k1 := v1][k2 := v2] == m[k2 := v2][k1 := v1]
  {
  }

  /** Replacing the value of an entry in place updates that key only. */
  lemma {:induction false} ToMapReplace(entries: Entries, i: nat, raw: Raw)
    requires DistinctKeys(entries) && i < |entries|
    ensures ToMap(entries[i := (entries[i].0, raw)]) == ToMap(entries)[entries[i].0 := raw]
    decreases |entries|
  {
    var n := |entries| - 1;
    var key := entries[i].0;
    var r := entries[i := (key, raw)];
    if i == n {
      assert r[..n] == entries[..n];
      UpdateTwice(ToMap(entries[..n]), key, entries[n].1, raw);
    } else {
      assert r[..n] == entries[..n][i := (key, raw)];
      assert DistinctKeys(entries[..n]);
      ToMapReplace(entries[..n], i, raw);
      assert entries[n].0 != key;
      UpdatesCommute(ToMap(entries[..n]), key, raw, entries[n].0, entries[n].1);
    }
  }

  /** Appending an entry for a new key keeps the keys distinct. */
  lemma AppendKeepsDistinct(entries: Entries, key: string, raw: Raw)
    requires DistinctKeys(entries) && forall i :: 0 <= i < |entries| ==> entries[i].0 != key
    ensures DistinctKeys(entries + [(key, raw)])
  {
    var r := entries + [(key, raw)];
    forall i, j | 0 <= i < j < |r| ensures r[i].0 != r[j].0 {
      assert r[i] == entries[i];
      if j < |entries| {
        assert r[j] == entries[j];
      }
    }
  }

  /** Appending an entry for a new key adds that key. */
  lemma AppendEntry(entries: Entries, key: string, raw: Raw)
    requires DistinctKeys(entries) && forall i :: 0 <= i < |entries| ==> entries[i].0 != key
    ensures DistinctKeys(entries + [(key, raw)])
    ensures ToMap(entries + [(key, raw)]) == ToMap(entries)[key := raw]
  {
    AppendKeepsDistinct(entries, key, raw);
    var r := entries + [(key, raw)];
    assert r[..|entries|] == entries;
  }

  /** Replacing the value of an entry keeps the keys distinct and updates that key. */
  lemma ReplaceEntry(entries: Entries, i: nat, key: string, raw: Raw)
    requires DistinctKeys(entries) && i < |entries| && entries[i].0 == key
    ensures DistinctKeys(entries[i := (key, raw)])
    ensures ToMap(entries[i := (key, raw)]) == ToMap(entries)[key := raw]
  {
    ToMapReplace(entries, i, raw);
  }

  /** `LinkedHashMap.put`: replaces the value of a present key in place, else appends. */
  function Put(entries: Entries, key: string, raw: Raw): (r: Entries)
    requires DistinctKeys(entries)
    ensures DistinctKeys(r)
    ensures ToMap(r) == ToMap(entries)[key := raw]
  {
    var i := FindEntry(entries, key);
    if i == -1 then
      AppendEntry(entries, key, raw);
      entries + [(key, raw)]
    else
      ReplaceEntry(entries, i, key, raw);
      entries[i := (key, raw)]
  }

  /** Updating the right operand of a map union updates the union. */
  lemma UnionUpdate<K, V>(a: map<K, V>, b: map<K, V>, k: K, v: V)
    ensures (a + b)[k := v] == a + b[k := v]
  {
  }

  /** `putAll` of further entries, one `put` at a time, front to back. */
  function PutAll(entries: Entries, more: Entries): (r: Entries)
    requires DistinctKeys(entries)
    ensures DistinctKeys(r)
    ensures ToMap(r) == ToMap(entries) + ToMap(more)
  {
    if |more| == 0 then entries
    else
      var last := more[|more| - 1];
      var init := PutAll(entries, more[..|more| - 1]);
      UnionUpdate(ToMap(entries), ToMap(more[..|more| - 1]), last.0, last.1);
      Put(init, last.0, last.1)
  }

  /** `CcToolchainVariables.Builder`: an optional parent and the entries added so far. */
  datatype Builder = Builder(parent: Option<Frame>, entries: Entries) {
    predicate WellFormed() {
      DistinctKeys(entries) && (parent.Some? ==> Valid(parent.value))
    }

    /** The bindings the builder holds. */
    function Variables(): map<string, Raw> {
      ToMap(entries)
    }
  }

  /** `builder(parent)`. */
  function NewBuilder(parent: Option<Frame>): (b: Builder)
    requires parent.Some? ==> Valid(parent.value)
    ensures b.WellFormed() && b.Variables() == map[] && b.parent == parent
  {
    Builder(parent, [])
  }

  /** Reasons the builder rejects an addition (`IllegalArgumentException`). */
  datatype BuildError =
    | CannotOverwrite(name: string)
    | CannotOverwriteExisting(names: set<string>)
    | NullValue(name: string)
    | UnsupportedValueType(className: string)

  /** Binds `name` unconditionally (the overriding adders). */
  function Override(b: Builder, name: string, raw: Raw): (r: Builder)
    requires b.WellFormed()
    ensures r.WellFormed() && r.parent == b.parent
    ensures r.Variables() == b.Variables()[name := raw]
  {
    Builder(b.parent, Put(b.entries, name, raw))
  }

  /** `checkVariableNotPresentAlready` then `put`: fails only when this builder already
      binds `name`; a binding in the parent frame is not consulted. */
  function AddChecked(b: Builder, name: string, raw: Raw): (r: Result<Builder, BuildError>)
    requires b.WellFormed()
    ensures r.Failure? <==> name in b.Variables()
    ensures r.Failure? ==> r.error == CannotOverwrite(name)
    ensures r.Success? ==> r.value.WellFormed() && r.value.parent == b.parent
    ensures r.Success? ==> r.value.Variables() == b.Variables()[name := raw]
  {
    ToMapEntries(b.entries);
    if FindEntry(b.entries, name) != -1 then Failure(CannotOverwrite(name))
    else Success(Override(b, name, raw))
  }

  /** `addBooleanValue`: silently replaces an existing binding. */
  function AddBooleanValue(b: Builder, name: string, value: bool): (r: Builder)
    requires b.WellFormed()
    ensures r.WellFormed() && r.parent == b.parent
    ensures r.Variables() == b.Variables()[name := RawValue(BooleanValue(value))]
  {
    Override(b, name, RawValue(BooleanValue(value)))
  }

  /** `addStringVariable`. */
  function AddStringVariable(b: Builder, name: string, value: string): (r: Result<Builder, BuildError>)
    requires b.WellFormed()
    ensures r.Failure? <==> name in b.Variables()
    ensures r.Success? ==> r.value.Variables() == b.Variables()[name := RawString(value)]
  {
    AddChecked(b, name, RawString(value))
  }

  /** `addArtifactVariable`. */
  function AddArtifactVariable(b: Builder, name: string, value: Artifact): (r: Result<Builder, BuildError>)
    requires b.WellFormed()
    ensures r.Failure? <==> name in b.Variables()
    ensures r.Success? ==> r.value.Variables() == b.Variables()[name := RawArtifact(value)]
  {
    AddChecked(b, name, RawArtifact(value))
  }

  /** `overrideArtifactVariable`: silently replaces an existing binding. */
  function OverrideArtifactVariable(b: Builder, name: string, value: Artifact): (r: Builder)
    requires b.WellFormed()
    ensures r.WellFormed() && r.parent == b.parent
    ensures r.Variables() == b.Variables()[name := RawArtifact(value)]
  {
    Override(b, name, RawArtifact(value))
  }

  /** The Starlark objects `addArtifactOrStringVariable` may be handed. */
  datatype StarlarkObject = ObjString(s: string) | ObjArtifact(a: Artifact) | ObjNull | ObjOther(className: string)

  /** `addArtifactOrStringVariable`: dispatches on the object's type. */
  function AddArtifactOrStringVariable(b: Builder, name: string, value: StarlarkObject): (r: Result<Builder, BuildError>)
    requires b.WellFormed()
    ensures value.ObjNull? ==> r == Failure(NullValue(name))
    ensures value.ObjOther? ==> r == Failure(UnsupportedValueType(value.className))
    ensures value.ObjString? ==> r == AddStringVariable(b, name, value.s)
    ensures value.ObjArtifact? ==> r == AddArtifactVariable(b, name, value.a)
  {
    match value
    case ObjString(s) => AddStringVariable(b, name, s)
    case ObjArtifact(a) => AddArtifactVariable(b, name, a)
    case ObjNull => Failure(NullValue(name))
    case ObjOther(c) => Failure(UnsupportedValueType(c))
  }

  /** `addStringSequenceVariable` (the `ImmutableSet` and `Iterable` overloads). */
  function AddStringSequenceVariable(b: Builder, name: string, values: seq<string>): (r: Result<Builder, BuildError>)
    requires b.WellFormed()
    ensures r.Failure? <==> name in b.Variables()
    ensures r.Success? ==> r.value.Variables() == b.Variables()[name := RawValue(StringSequence(values))]
  {
    AddChecked(b, name, RawValue(StringSequence(values)))
  }

  /** `addStringSequenceVariable` (the `NestedSet` overload, flattened to a list). */
  function AddStringSetSequenceVariable(b: Builder, name: string, values: seq<string>): (r: Result<Builder, BuildError>)
    requires b.WellFormed()
    ensures r.Failure? <==> name in b.Variables()
    ensures r.Success? ==> r.value.Variables() == b.Variables()[name := RawValue(StringSetSequence(values))]
  {
    AddChecked(b, name, RawValue(StringSetSequence(values)))
  }

  /** `addPathFragmentSequenceVariable`. */
  function AddPathFragmentSequenceVariable(b: Builder, name: string, values: seq<string>): (r: Result<Builder, BuildError>)
    requires b.WellFormed()
    ensures r.Failure? <==> name in b.Variables()
    ensures r.Success? ==> r.value.Variables() == b.Variables()[name := RawValue(PathFragmentSetSequence(values))]
  {
    AddChecked(b, name, RawValue(PathFragmentSetSequence(values)))
  }

  /** `addArtifactSequenceVariable`. */
  function AddArtifactSequenceVariable(b: Builder, name: string, values: seq<Artifact>): (r: Result<Builder, BuildError>)
    requires b.WellFormed()
    ensures r.Failure? <==> name in b.Variables()
    ensures r.Success? ==> r.value.Variables() == b.Variables()[name := RawValue(ArtifactSetSequence(values))]
  {
    AddChecked(b, name, RawValue(ArtifactSetSequence(values)))
  }

  /** `addSequenceVariable`. */
  function AddSequenceVariable(b: Builder, name: string, values: seq<Value>): (r: Result<Builder, BuildError>)
    requires b.WellFormed()
    ensures r.Failure? <==> name in b.Variables()
    ensures r.Success? ==> r.value.Variables() == b.Variables()[name := RawValue(Sequence(values))]
  {
    AddChecked(b, name, RawValue(Sequence(values)))
  }

  /** `addVariable`. */
  function AddVariable(b: Builder, name: string, value: Value): (r: Result<Builder, BuildError>)
    requires b.WellFormed()
    ensures r.Failure? <==> name in b.Variables()
    ensures r.Success? ==> r.value.Variables() == b.Variables()[name := RawValue(value)]
  {
    AddChecked(b, name, RawValue(value))
  }

  /** Index of the first name of `vars` that the builder already binds, or -1. */
  function FirstPresent(b: Builder, vars: seq<(string, string)>): (r: int)
    ensures r == -1 ==> forall i :: 0 <= i < |vars| ==> vars[i].0 !in b.Variables()
    ensures r != -1 ==> 0 <= r < |vars| && vars[r].0 in b.Variables()
    ensures r != -1 ==> forall i :: 0 <= i < r ==> vars[i].0 !in b.Variables()
  {
    if |vars| == 0 then -1
    else if vars[0].0 in b.Variables() then 0
    else
      var r := FirstPresent(b, vars[1..]);
      if r == -1 then -1 else r + 1
  }

  function AsRawStrings(vars: seq<(string, string)>): (r: Entries)
    ensures |r| == |vars|
    ensures forall i :: 0 <= i < |vars| ==> r[i] == (vars[i].0, RawString(vars[i].1))
  {
    seq(|vars|, i requires 0 <= i < |vars| => (vars[i].0, RawString(vars[i].1)))
  }

  /** `addAllStringVariables`: `vars` is the map's entries in its iteration order; the
      first name already bound is reported and nothing is added. */
  function AddAllStringVariables(b: Builder, vars: seq<(string, string)>): (r: Result<Builder, BuildError>)
    requires b.WellFormed()
    ensures r.Failure? <==> exists i :: 0 <= i < |vars| && vars[i].0 in b.Variables()
    ensures r.Failure? ==> r.error.CannotOverwrite? && r.error.name in b.Variables()
    ensures r.Success? ==> r.value.WellFormed() && r.value.parent == b.parent
    ensures r.Success? ==> r.value.Variables() == b.Variables() + ToMap(AsRawStrings(vars))
  {
    var i := FirstPresent(b, vars);
    if i != -1 then Failure(CannotOverwrite(vars[i].0))
    else Success(Builder(b.parent, PutAll(b.entries, AsRawStrings(vars))))
  }

  /** `addVariablesToMap`: a frame's own entries; the map representation hands over
      its raw values, the single representation its wrapped value. */
  function OwnEntries(f: Frame): (r: Entries)
    requires Valid(f)
    ensures forall i :: 0 <= i < |r| ==> r[i].0 in VariableKeys(f)
  {
    match f
    case SingleVariables(_, n, v) => [(n, RawValue(v))]
    case MapVariables(_, keys, values) =>
      seq(|keys|, i requires 0 <= i < |keys| => (keys[i], values[i]))
  }

  /** Every own entry of a frame stands for the frame's own binding. */
  lemma OwnEntriesAreOwnBindings(f: Frame)
    requires Valid(f)
    ensures ToMap(OwnEntries(f)).Keys == VariableKeys(f)
    ensures forall k :: k in VariableKeys(f) ==> AsVariableValue(ToMap(OwnEntries(f))[k]) == OwnBindings(f)[k]
  {
    var e := OwnEntries(f);
    if f.MapVariables? {
      Strings.StrictlySortedIsDistinct(f.keys);
      assert DistinctKeys(e);
      ToMapEntries(e);
      assert ToMap(e).Keys == VariableKeys(f) by {
        forall k | k in VariableKeys(f) ensures k in ToMap(e).Keys {
          var i := Strings.Find(f.keys, k);
          assert e[i].0 == k;
        }
      }
      forall k | k in VariableKeys(f)
        ensures AsVariableValue(ToMap(e)[k]) == OwnBindings(f)[k]
      {
        var i := Strings.Find(f.keys, k);
        assert e[i].0 == k;
      }
    } else {
      assert e[..0] == [];
    }
  }

  /** `addAllNonTransitive`: fails when any own name of `other` is already bound here;
      otherwise copies exactly `other`'s own entries, never those of its parent. */
  function AddAllNonTransitive(b: Builder, other: Frame): (r: Result<Builder, BuildError>)
    requires b.WellFormed() && Valid(other)
    ensures r.Failure? <==> VariableKeys(other) * b.Variables().Keys != {}
    ensures r.Failure? ==> r.error == CannotOverwriteExisting(VariableKeys(other) * b.Variables().Keys)
    ensures r.Success? ==> r.value.WellFormed() && r.value.parent == b.parent
    ensures r.Success? ==> r.value.Variables().Keys == b.Variables().Keys + VariableKeys(other)
    ensures r.Success? ==> forall k :: k in b.Variables() ==> r.value.Variables()[k] == b.Variables()[k]
    ensures r.Success? ==> forall k :: k in VariableKeys(other) ==>
              AsVariableValue(r.value.Variables()[k]) == OwnBindings(other)[k]
  {
    var overlap := VariableKeys(other) * b.Variables().Keys;
    if overlap != {} then Failure(CannotOverwriteExisting(overlap))
    else
      OwnEntriesAreOwnBindings(other);
      var r := Builder(b.parent, PutAll(b.entries, OwnEntries(other)));
      assert r.Variables() == b.Variables() + ToMap(OwnEntries(other));
      assert forall k :: k in b.Variables() ==> k !in ToMap(OwnEntries(other)) by {
        forall k | k in b.Variables()
          ensures k !in VariableKeys(other)
        {
          assert k !in overlap;
        }
      }
      Success(r)
  }

  /** The builder's keys, in insertion order, are distinct and are its variables. */
  lemma BuilderKeys(b: Builder)
    requires b.WellFormed()
    ensures Strings.Distinct(EntryKeys(b.entries))
    ensures (set k | k in EntryKeys(b.entries)) == b.Variables().Keys
    ensures |b.Variables()| == |b.entries|
    ensures forall i :: 0 <= i < |b.entries| ==> b.Variables()[b.entries[i].0] == b.entries[i].1
  {
    ToMapEntries(b.entries);
    var keys := EntryKeys(b.entries);
    assert (set k | k in keys) == b.Variables().Keys by {
      forall k | k in b.Variables().Keys ensures k in keys {
        var i :| 0 <= i < |b.entries| && b.entries[i].0 == k;
        assert keys[i] == k;
      }
    }
    DistinctCardinality(keys);
  }

  /** A sort keeps exactly the elements it was given. */
  lemma SortKeepsElements(keys: seq<string>)
    requires Strings.Distinct(keys)
    ensures (set k | k in Strings.Sort(keys)) == (set k | k in keys)
  {
    var sorted := Strings.Sort(keys);
    forall k ensures k in sorted <==> k in keys {
      assert k in sorted <==> k in multiset(sorted);
      assert k in keys <==> k in multiset(keys);
    }
  }

  /** The values for `keys`, in key order, looked up in `m`. */
  function ValuesInKeyOrder(m: map<string, Raw>, keys: seq<string>): (values: seq<Raw>)
    requires forall i :: 0 <= i < |keys| ==> keys[i] in m
    ensures |values| == |keys|
    ensures forall i :: 0 <= i < |keys| ==> values[i] == m[keys[i]]
  {
    seq(|keys|, i requires 0 <= i < |keys| => m[keys[i]])
  }

  /** The sorted key-to-index representation of the builder's bindings. */
  function SortedFrame(b: Builder): (f: Frame)
    requires b.WellFormed()
    ensures f.MapVariables? && Valid(f) && f.parent == b.parent
    ensures (set k | k in f.keys) == b.Variables().Keys
    ensures forall i :: 0 <= i < |f.keys| ==> f.values[i] == b.Variables()[f.keys[i]]
  {
    BuilderKeys(b);
    var keys := EntryKeys(b.entries);
    var sorted := Strings.Sort(keys);
    SortKeepsElements(keys);
    assert forall i :: 0 <= i < |sorted| ==> sorted[i] in b.Variables() by {
      forall i | 0 <= i < |sorted| ensures sorted[i] in b.Variables() {
        assert sorted[i] in (set k | k in sorted);
      }
    }
    MapVariables(b.parent, sorted, ValuesInKeyOrder(b.Variables(), sorted))
  }

  /** `build()`: the single-entry representation exactly when one variable was added,
      otherwise the keys sorted with `values[i]` the binding of `keys[i]`. */
  function Build(b: Builder): (f: Frame)
    requires b.WellFormed()
    ensures Valid(f)
    ensures f.parent == b.parent
    ensures f.SingleVariables? <==> |b.Variables()| == 1
    ensures f.SingleVariables? ==> b.Variables().Keys == {f.name}
    ensures f.SingleVariables? ==> f.value == AsVariableValue(b.Variables()[f.name])
    ensures f.MapVariables? ==> Strings.StrictlySorted(f.keys)
    ensures f.MapVariables? ==> (set k | k in f.keys) == b.Variables().Keys
    ensures f.MapVariables? ==> forall i :: 0 <= i < |f.keys| ==> f.values[i] == b.Variables()[f.keys[i]]
  {
    BuilderKeys(b);
    if |b.entries| == 1 then
      assert EntryKeys(b.entries) == [b.entries[0].0];
      SingleVariables(b.parent, b.entries[0].0, AsVariableValue(b.entries[0].1))
    else
      SortedFrame(b)
  }

  lemma {:induction false} DistinctCardinality(s: seq<string>)
    requires Strings.Distinct(s)
    ensures |set k | k in s| == |s|
    decreases |s|
  {
    if |s| > 0 {
      var t := s[..|s| - 1];
      DistinctCardinality(t);
      assert (set k | k in s) == (set k | k in t) + {s[|s| - 1]} by {
        assert s == t + [s[|s| - 1]];
      }
      assert s[|s| - 1] !in t;
    }
  }

  /** The frame `build()` returns answers every own name from the builder (wrapped by
      `asVariableValue`) and every other name from the parent, whichever representation
      it picked. */
  lemma BuildKeepsBindings(b: Builder, name: string)
    requires b.WellFormed()
    ensures GetNonStructuredVariable(Build(b), name)
         == if name in b.Variables() then Some(AsVariableValue(b.Variables()[name]))
            else if b.parent.Some? then GetNonStructuredVariable(b.parent.value, name)
            else None
  {
    var f := Build(b);
    if f.MapVariables? {
      var i := Strings.Find(f.keys, name);
      if name in b.Variables() {
        assert name in (set k | k in f.keys);
      }
    }
  }

  /** `empty()`: the frame built by a fresh builder without a parent binds nothing. */
  function Empty(): (f: Frame)
    ensures Valid(f)
    ensures forall name :: GetNonStructuredVariable(f, name).None?
  {
    Build(NewBuilder(None))
  }
}
