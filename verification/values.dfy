/** The value model: the closed set of variable kinds a toolchain variable can be bound
    to, and the three questions each kind answers ("as string", "as sequence",
    "field"), plus truthiness. Kinds that do not support a question answer it with the
    uniform failure of `VariableValueAdapter`. */
module Values {
  import opened Wrappers
  import opened Externals
  import Strings

  /** The `LibraryToLinkValue` variants. The whole-archive subclasses of the static
      library, object file and object file group variants are the `wholeArchive` flag. */
  datatype LibraryToLink =
    | DynamicLibrary(name: string)
    | VersionedDynamicLibrary(name: string, path: string)
    | InterfaceLibrary(name: string)
    | StaticLibrary(name: string, wholeArchive: bool)
    | ObjectFile(name: string, wholeArchive: bool)
    | ObjectFileGroup(objectFiles: seq<Artifact>, wholeArchive: bool)
  {
    /** `getTypeName()`, the value of the `type` field. */
    function TypeName(): string {
      match this
      case DynamicLibrary(_) => "dynamic_library"
      case VersionedDynamicLibrary(_, _) => "versioned_dynamic_library"
      case InterfaceLibrary(_) => "interface_library"
      case StaticLibrary(_, _) => "static_library"
      case ObjectFile(_, _) => "object_file"
      case ObjectFileGroup(_, _) => "object_file_group"
    }

    /** `getIsWholeArchive()`: false unless a whole-archive subclass overrides it. */
    function IsWholeArchive(): bool {
      match this
      case StaticLibrary(_, w) => w
      case ObjectFile(_, w) => w
      case ObjectFileGroup(_, w) => w
      case _ => false
    }

    /** The variants extending `LibraryToLinkValueWithName`. */
    predicate HasName() {
      !ObjectFileGroup?
    }
  }

  /** `LibraryToLinkValue.forObjectFileGroup`: `None` is the IllegalArgumentException
      raised for an empty list of objects. */
  function ForObjectFileGroup(objects: seq<Artifact>, isWholeArchive: bool): (r: Option<LibraryToLink>)
    ensures r.Some? <==> |objects| > 0
    ensures r.Some? ==> r.value.ObjectFileGroup? && r.value.objectFiles == objects
    ensures r.Some? ==> r.value.IsWholeArchive() == isWholeArchive
  {
    if |objects| == 0 then None else Some(ObjectFileGroup(objects, isWholeArchive))
  }

  /** A variable value. Sequences have five backings: a list of arbitrary values
      (`Sequence`), a list of strings mapped heuristically (`StringSequence`), and
      flattened nested sets of strings, path fragments and artifacts. */
  datatype Value =
    | StringValue(text: string)
    | BooleanValue(flag: bool)
    | ArtifactValue(artifact: Artifact)
    | Sequence(elements: seq<Value>)
    | StringSequence(strings: seq<string>)
    | StringSetSequence(strings: seq<string>)
    | PathFragmentSetSequence(fragments: seq<string>)
    | ArtifactSetSequence(artifacts: seq<Artifact>)
    | LibraryToLinkValue(library: LibraryToLink)

  /** The reasons an `ExpansionException` is thrown by the lookup and value code. */
  datatype ExpansionError =
    | MissingVariable(name: string)
    | ExpectedString(name: string, typeName: string)
    | ExpectedSequence(name: string, typeName: string)
    | ExpectedStructure(name: string, field: string, typeName: string)
    | MissingField(structPath: string, field: string)

  const CONFIG_ERROR := "Invalid toolchain configuration: "

  /** The exception message, as the source formats it. */
  function Message(e: ExpansionError): string {
    match e
    case MissingVariable(n) =>
      CONFIG_ERROR + "Cannot find variable named '" + n + "'."
    case ExpectedString(n, t) =>
      CONFIG_ERROR + "Cannot expand variable '" + n + "': expected string, found " + t
    case ExpectedSequence(n, t) =>
      CONFIG_ERROR + "Cannot expand variable '" + n + "': expected sequence, found " + t
    case ExpectedStructure(n, f, t) =>
      CONFIG_ERROR + "Cannot expand variable '" + n + "." + f + "': variable '" + n
      + "' is " + t + ", expected structure"
    case MissingField(p, f) =>
      CONFIG_ERROR + "Cannot expand variable '" + p + "." + f + "': structure " + p
      + " doesn't have a field named '" + f + "'"
  }

  const SEQUENCE_TYPE_NAME := "sequence"
  const LIBRARY_TO_LINK_TYPE_NAME := "structure (LibraryToLink)"

  /** `getVariableTypeName()`: the kind tag used in error messages. */
  function VariableTypeName(v: Value): string {
    match v
    case StringValue(_) => "string"
    case BooleanValue(_) => "boolean"
    case ArtifactValue(_) => "artifact"
    case LibraryToLinkValue(_) => LIBRARY_TO_LINK_TYPE_NAME
    case _ => SEQUENCE_TYPE_NAME
  }

  /** The kinds that override `getStringValue`. */
  predicate IsScalar(v: Value) {
    v.StringValue? || v.BooleanValue? || v.ArtifactValue?
  }

  /** The kinds that override `getSequenceValue`. */
  predicate IsSequence(v: Value) {
    v.Sequence? || v.StringSequence? || v.StringSetSequence? || v.PathFragmentSetSequence?
    || v.ArtifactSetSequence?
  }

  /** "As string": scalars render, every other kind fails with the adapter's message. */
  function GetStringValue(v: Value, variableName: string, mapper: PathMapper): (r: Result<string, ExpansionError>)
    ensures r.Success? <==> IsScalar(v)
    ensures r.Failure? ==> r.error == ExpectedString(variableName, VariableTypeName(v))
    ensures v.StringValue? ==> r == Success(v.text)
    ensures v.BooleanValue? ==> r == Success(if v.flag then "1" else "0")
    ensures v.ArtifactValue? ==> r == Success(mapper.MappedExecPath(v.artifact))
  {
    match v
    case StringValue(s) => Success(s)
    case BooleanValue(b) => Success(if b then "1" else "0")
    case ArtifactValue(a) => Success(mapper.MappedExecPath(a))
    case _ => Failure(ExpectedString(variableName, VariableTypeName(v)))
  }

  /** Number of elements in a sequence kind's backing collection. */
  function BackingSize(v: Value): nat
    requires IsSequence(v)
  {
    match v
    case Sequence(vs) => |vs|
    case StringSequence(ss) => |ss|
    case StringSetSequence(ss) => |ss|
    case PathFragmentSetSequence(ps) => |ps|
    case ArtifactSetSequence(arts) => |arts|
  }

  /** "As sequence": the sequence kinds yield their elements in order, each string
      backing wrapping every element as a `StringValue` after its own mapping. */
  function GetSequenceValue(v: Value, variableName: string, mapper: PathMapper): (r: Result<seq<Value>, ExpansionError>)
    ensures r.Success? <==> IsSequence(v)
    ensures r.Failure? ==> r.error == ExpectedSequence(variableName, VariableTypeName(v))
    ensures r.Success? ==> |r.value| == BackingSize(v)
    ensures v.Sequence? ==> r == Success(v.elements)
    ensures v.StringSequence? ==> forall i :: 0 <= i < |v.strings| ==>
              r.value[i] == StringValue(mapper.MapHeuristically(v.strings[i]))
    ensures v.StringSetSequence? ==> forall i :: 0 <= i < |v.strings| ==>
              r.value[i] == StringValue(v.strings[i])
    ensures v.PathFragmentSetSequence? ==> forall i :: 0 <= i < |v.fragments| ==>
              r.value[i] == StringValue(SafePathString(mapper.Map(v.fragments[i])))
    ensures v.ArtifactSetSequence? ==> forall i :: 0 <= i < |v.artifacts| ==>
              r.value[i] == StringValue(mapper.MappedExecPath(v.artifacts[i]))
  {
    match v
    case Sequence(vs) => Success(vs)
    case StringSequence(ss) =>
      Success(seq(|ss|, i requires 0 <= i < |ss| => StringValue(mapper.MapHeuristically(ss[i]))))
    case StringSetSequence(ss) =>
      Success(seq(|ss|, i requires 0 <= i < |ss| => StringValue(ss[i])))
    case PathFragmentSetSequence(ps) =>
      Success(seq(|ps|, i requires 0 <= i < |ps| => StringValue(SafePathString(mapper.Map(ps[i])))))
    case ArtifactSetSequence(arts) =>
      Success(seq(|arts|, i requires 0 <= i < |arts| => StringValue(mapper.MappedExecPath(arts[i]))))
    case _ => Failure(ExpectedSequence(variableName, VariableTypeName(v)))
  }

  /** The exec paths one member of an object file group contributes: a tree artifact's
      children when metadata is known, nothing when it is null, and its own path when
      there is no provider (or it is not a tree). */
  function ObjectFileContribution(a: Artifact, provider: Option<MetadataProvider>, mapper: PathMapper): (r: seq<string>)
    ensures !a.isTree || provider.None? ==> r == [mapper.MappedExecPath(a)]
    ensures a.isTree && provider.Some? && provider.value.treeChildren(a).None? ==> r == []
    ensures a.isTree && provider.Some? && provider.value.treeChildren(a).Some? ==>
              var children := provider.value.treeChildren(a).value;
              |r| == |children| &&
              forall i :: 0 <= i < |children| ==> r[i] == mapper.MappedExecPath(children[i])
  {
    if a.isTree && provider.Some? then
      match provider.value.treeChildren(a)
      case None => []
      case Some(children) =>
        seq(|children|, i requires 0 <= i < |children| => mapper.MappedExecPath(children[i]))
    else
      [mapper.MappedExecPath(a)]
  }

  /** The `object_files` field of an object file group: the members' contributions in order. */
  function ExpandObjectFiles(objects: seq<Artifact>, provider: Option<MetadataProvider>, mapper: PathMapper): (r: seq<string>)
    ensures provider.None? ==> |r| == |objects|
    ensures provider.None? ==> forall i :: 0 <= i < |objects| ==> r[i] == mapper.MappedExecPath(objects[i])
  {
    if |objects| == 0 then []
    else ObjectFileContribution(objects[0], provider, mapper) + ExpandObjectFiles(objects[1..], provider, mapper)
  }

  /** Expanding a concatenation of groups is concatenating their expansions. */
  lemma {:induction false} ExpandObjectFilesAppend(a: seq<Artifact>, b: seq<Artifact>, provider: Option<MetadataProvider>, mapper: PathMapper)
    ensures ExpandObjectFiles(a + b, provider, mapper)
         == ExpandObjectFiles(a, provider, mapper) + ExpandObjectFiles(b, provider, mapper)
    decreases |a|
  {
    if |a| > 0 {
      assert (a + b)[0] == a[0] && (a + b)[1..] == a[1..] + b;
      ExpandObjectFilesAppend(a[1..], b, provider, mapper);
      Strings.ConcatAssociates(ObjectFileContribution(a[0], provider, mapper),
                               ExpandObjectFiles(a[1..], provider, mapper), ExpandObjectFiles(b, provider, mapper));
    } else {
      assert a + b == b;
    }
  }

  /** Without tree artifacts the provider is irrelevant: every member contributes its own path. */
  lemma {:induction false} ExpandObjectFilesWithoutTrees(objects: seq<Artifact>, provider: Option<MetadataProvider>, mapper: PathMapper)
    requires forall i :: 0 <= i < |objects| ==> !objects[i].isTree
    ensures ExpandObjectFiles(objects, provider, mapper) == ExpandObjectFiles(objects, None, mapper)
    decreases |objects|
  {
    if |objects| > 0 {
      ExpandObjectFilesWithoutTrees(objects[1..], provider, mapper);
    }
  }

  const TYPE_FIELD := "type"
  const IS_WHOLE_ARCHIVE_FIELD := "is_whole_archive"
  const NAME_FIELD := "name"
  const PATH_FIELD := "path"
  const OBJECT_FILES_FIELD := "object_files"

  /** `getFieldValue` of a library-to-link value: the overrides of the variant's class
      chain, falling back to `type`, `is_whole_archive` and otherwise null. */
  function LibraryField(lib: LibraryToLink, field: string, provider: Option<MetadataProvider>, mapper: PathMapper): (r: Option<Value>)
    ensures field == TYPE_FIELD ==> r == Some(StringValue(lib.TypeName()))
    ensures field == IS_WHOLE_ARCHIVE_FIELD ==> r == Some(BooleanValue(lib.IsWholeArchive()))
    ensures field == NAME_FIELD ==> (r.Some? <==> lib.HasName())
    ensures field == NAME_FIELD && lib.HasName() ==> r == Some(StringValue(mapper.Map(lib.name)))
    ensures field == PATH_FIELD ==> (r.Some? <==> lib.VersionedDynamicLibrary?)
    ensures field == PATH_FIELD && lib.VersionedDynamicLibrary? ==> r == Some(StringValue(lib.path))
    ensures field == OBJECT_FILES_FIELD ==> (r.Some? <==> lib.ObjectFileGroup?)
    ensures field == OBJECT_FILES_FIELD && lib.ObjectFileGroup? ==>
              r == Some(StringSequence(ExpandObjectFiles(lib.objectFiles, provider, mapper)))
    ensures field !in {TYPE_FIELD, IS_WHOLE_ARCHIVE_FIELD, NAME_FIELD, PATH_FIELD, OBJECT_FILES_FIELD} ==> r.None?
  {
    if lib.VersionedDynamicLibrary? && field == PATH_FIELD then
      Some(StringValue(lib.path))
    else if lib.HasName() && field == NAME_FIELD then
      if mapper.IsNoop() then Some(StringValue(lib.name))
      else Some(StringValue(mapper.Map(lib.name)))
    else if lib.ObjectFileGroup? && field == NAME_FIELD then
      None
    else if lib.ObjectFileGroup? && field == OBJECT_FILES_FIELD then
      Some(StringSequence(ExpandObjectFiles(lib.objectFiles, provider, mapper)))
    else if field == TYPE_FIELD then
      Some(StringValue(lib.TypeName()))
    else if field == IS_WHOLE_ARCHIVE_FIELD then
      Some(BooleanValue(lib.IsWholeArchive()))
    else
      None
  }

  /** "Field": library-to-link values answer from their fields and never fail; every
      other kind fails when strict and answers null otherwise. */
  function GetFieldValue(v: Value, variableName: string, field: string, provider: Option<MetadataProvider>,
                         mapper: PathMapper, strict: bool): (r: Result<Option<Value>, ExpansionError>)
    ensures v.LibraryToLinkValue? ==> r == Success(LibraryField(v.library, field, provider, mapper))
    ensures !v.LibraryToLinkValue? && strict ==>
              r == Failure(ExpectedStructure(variableName, field, VariableTypeName(v)))
    ensures !v.LibraryToLinkValue? && !strict ==> r == Success(None)
  {
    match v
    case LibraryToLinkValue(lib) => Success(LibraryField(lib, field, provider, mapper))
    case _ =>
      if strict then Failure(ExpectedStructure(variableName, field, VariableTypeName(v)))
      else Success(None)
  }

  /** `isTruthy()` as written: note `Sequence` answers `values.isEmpty()`. */
  function IsTruthy(v: Value): bool {
    match v
    case StringValue(s) => |s| > 0
    case BooleanValue(b) => b
    case ArtifactValue(_) => true
    case Sequence(vs) => |vs| == 0
    case StringSequence(ss) => |ss| > 0
    case StringSetSequence(ss) => |ss| > 0
    case PathFragmentSetSequence(ps) => |ps| > 0
    case ArtifactSetSequence(arts) => |arts| > 0
    case LibraryToLinkValue(_) => true
  }

  /** Truthiness with every sequence backing treated alike. */
  function IsTruthyIntended(v: Value): bool {
    if v.Sequence? then |v.elements| > 0 else IsTruthy(v)
  }

  /** The four string-producing backings follow "truthy iff as-sequence yields an
      element"; the generic `Sequence` backing reports the opposite. */
  lemma SequenceTruthinessAsWritten(v: Value, variableName: string, mapper: PathMapper)
    requires IsSequence(v)
    ensures v.Sequence? ==> (IsTruthy(v) <==> |GetSequenceValue(v, variableName, mapper).value| == 0)
    ensures !v.Sequence? ==> (IsTruthy(v) <==> |GetSequenceValue(v, variableName, mapper).value| > 0)
  {
  }

  /** The concrete discrepancy: an empty `Sequence` is truthy, an empty `StringSequence` is not. */
  lemma EmptySequenceIsTruthy()
    ensures IsTruthy(Sequence([]))
    ensures !IsTruthy(StringSequence([]))
    ensures !IsTruthy(Sequence([StringValue("x")]))
  {
  }

  /** Intended truthiness: every sequence kind is truthy iff it yields an element. */
  lemma IntendedSequenceTruthiness(v: Value, variableName: string, mapper: PathMapper)
    requires IsSequence(v)
    ensures IsTruthyIntended(v) <==> |GetSequenceValue(v, variableName, mapper).value| > 0
  {
  }

  /** Scalars: a string is truthy iff it renders non-empty, a boolean iff it renders "1";
      artifacts are always truthy. */
  lemma ScalarTruthiness(v: Value, variableName: string, mapper: PathMapper)
    requires IsScalar(v)
    ensures v.StringValue? ==> (IsTruthy(v) <==> GetStringValue(v, variableName, mapper).value != "")
    ensures v.BooleanValue? ==> (IsTruthy(v) <==> GetStringValue(v, variableName, mapper).value == "1")
    ensures v.BooleanValue? ==> GetStringValue(v, variableName, mapper).value in {"0", "1"}
    ensures v.ArtifactValue? ==> IsTruthy(v)
  {
  }

  /** No implicit coercion: a value answers at most one of "as string", "as sequence"
      and a non-null strict "field", and a failing question names the value's kind. */
  lemma CapabilitiesAreExclusive(v: Value, name: string, field: string, provider: Option<MetadataProvider>, mapper: PathMapper)
    ensures GetStringValue(v, name, mapper).Success? ==> GetSequenceValue(v, name, mapper).Failure?
    ensures GetSequenceValue(v, name, mapper).Success? ==> GetStringValue(v, name, mapper).Failure?
    ensures GetFieldValue(v, name, field, provider, mapper, true).Success? ==>
              GetStringValue(v, name, mapper).Failure? && GetSequenceValue(v, name, mapper).Failure?
  {
  }

  /** Every element a string-producing backing yields renders as a string; with the
      no-op mapper it renders as the stored string itself. */
  lemma StringBackingsRenderStrings(v: Value, variableName: string, elementName: string, mapper: PathMapper)
    requires IsSequence(v) && !v.Sequence?
    ensures forall i :: 0 <= i < |GetSequenceValue(v, variableName, mapper).value| ==>
              GetStringValue(GetSequenceValue(v, variableName, mapper).value[i], elementName, mapper).Success?
    ensures v.StringSequence? || v.StringSetSequence? ==>
              forall i :: 0 <= i < |v.strings| ==>
                GetStringValue(GetSequenceValue(v, variableName, Noop).value[i], elementName, Noop)
                == Success(v.strings[i])
  {
  }

  /** What a field lookup depends on: whether the value is a library-to-link value and
      which variant (otherwise its kind tag). */
  function FieldShape(v: Value): (bool, string) {
    if v.LibraryToLinkValue? then (true, v.library.TypeName()) else (false, VariableTypeName(v))
  }

  /** Two field answers agree when they fail alike, are both null, or both yield values
      of the same shape. */
  predicate OutcomesAgree(r1: Result<Option<Value>, ExpansionError>, r2: Result<Option<Value>, ExpansionError>) {
    match r1
    case Failure(e) => r2 == Failure(e)
    case Success(None) => r2 == Success(None)
    case Success(Some(x)) => r2.Success? && r2.value.Some? && FieldShape(x) == FieldShape(r2.value.value)
  }

  /** Whether a field exists, and what fails, never depends on the path mapper, the
      metadata provider or the contents of the value, only on its shape. */
  lemma FieldShapeDecidesOutcome(v1: Value, v2: Value, variableName: string, field: string,
                                 p1: Option<MetadataProvider>, p2: Option<MetadataProvider>,
                                 m1: PathMapper, m2: PathMapper, strict: bool)
    requires FieldShape(v1) == FieldShape(v2)
    ensures OutcomesAgree(GetFieldValue(v1, variableName, field, p1, m1, strict),
                          GetFieldValue(v2, variableName, field, p2, m2, strict))
  {
    if v1.LibraryToLinkValue? {
      LibraryFieldShape(v1.library, v2.library, field, p1, p2, m1, m2);
    }
  }

  /** Two libraries of the same variant have the same fields, of the same shapes. */
  lemma LibraryFieldShape(l1: LibraryToLink, l2: LibraryToLink, field: string,
                          p1: Option<MetadataProvider>, p2: Option<MetadataProvider>, m1: PathMapper, m2: PathMapper)
    requires l1.TypeName() == l2.TypeName()
    ensures var f1 := LibraryField(l1, field, p1, m1);
            var f2 := LibraryField(l2, field, p2, m2);
            (f1.Some? <==> f2.Some?) && (f1.Some? ==> FieldShape(f1.value) == FieldShape(f2.value))
  {
    match l1
    case DynamicLibrary(_) => assert l2.DynamicLibrary?;
    case VersionedDynamicLibrary(_, _) => assert l2.VersionedDynamicLibrary?;
    case InterfaceLibrary(_) => assert l2.InterfaceLibrary?;
    case StaticLibrary(_, _) => assert l2.StaticLibrary?;
    case ObjectFile(_, _) => assert l2.ObjectFile?;
    case ObjectFileGroup(_, _) => assert l2.ObjectFileGroup?;
  }

  /** Strict and lenient field access differ only in failing instead of answering null. */
  lemma StrictFieldAgreesWithLenient(v: Value, variableName: string, field: string,
                                     provider: Option<MetadataProvider>, mapper: PathMapper)
    ensures GetFieldValue(v, variableName, field, provider, mapper, false).Success?
    ensures var lenient := GetFieldValue(v, variableName, field, provider, mapper, false).value;
            var strict := GetFieldValue(v, variableName, field, provider, mapper, true);
            (lenient.Some? ==> strict == Success(lenient)) &&
            (lenient.None? ==> strict.Failure? || strict == Success(None))
  {
  }
}
