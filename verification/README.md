# Toolchain variables of the C++ rules, in Dafny

This project models the core of Bazel's `CcToolchainVariables`: the variable
environment that C++ toolchain flag templates are expanded against. It covers
four pieces:

- **The template parser** (`StringValueParser`). It splits a flag template such as
  `-f %{var1}/%{var2}` into literal and variable chunks. `%%` stands for one `%`,
  and a malformed placeholder aborts with a positioned error. `Parser.Parse` is an
  index loop. A parse succeeds exactly when some canonical chunk list prints back to
  the template, and then the result is that list. Otherwise it aborts at the first
  step that fails, after the loop has read the template up to that step.
  `Parser.ParseOutcomeUnique` shows that this contract admits exactly one result
  for each template. The loop runs the corrected variable step. Where the source
  throws from `substring` on an unterminated `%{name`, the model reports a missing
  `}` (see Findings).
- **The value model** (`VariableValueAdapter` and its subclasses). This covers
  strings, booleans, artifacts, the five sequence backings and the six
  `LibraryToLinkValue` variants. Each kind answers "as string", "as sequence" and
  "field", or fails with the adapter's uniform error. Each kind also has a
  truthiness rule.
- **Frames.** The builder and its overwrite rules, and the single-entry and sorted
  key-to-index representations `build()` picks. Plain-name lookup goes through the
  parent chain. Dotted names are resolved through the longest resolvable prefix and
  the remaining fields, with the memo of structured lookups threaded through the
  calls. The section also covers `isAvailable`, `getStringVariable`,
  `getSequenceVariable` and `toStringList`.
- **Chunk expansion** (`StringChunk.expand`). A template expands to the
  concatenation of its chunks' texts, and the first failing chunk fails it.

Modules follow the structure of the class:

- `Wrappers`: `Option` and `Result`.
- `Strings`: `indexOf`, `lastIndexOf`, `compareTo` order and sorting.
- `Externals`: artifacts, the path mapper and the metadata provider, as data and
  uninterpreted functions.
- `Values`: the value model.
- `Frames`: frames, `asVariableValue` and the builder.
- `Lookup`: dotted names, the memo and the getters.
- `Parser`: the template parser.
- `Expansion`: chunk expansion.

Errors are data. `ExpansionError` carries what each `ExpansionException` reports,
and `Values.Message` renders the source's text. A parse failure is
`Parser.ParseResult.Aborted`, and `Parser.AbortMessage` renders it. A builder
rejection is `Frames.BuildError`.

The memo is a map from names to entries, passed in and returned explicitly. Each
entry is a value, an error or the null marker. The memo answers a dotted name
before any search, as in the source. Lookup results are compared with the
memo-free `Lookup.Resolve`.

## Model

| member | source | states |
|---|---|---|
| Values.ForObjectFileGroup | src/main/java/com/google/devtools/build/lib/rules/cpp/CcToolchainVariables.java:655-662 | an object file group is created exactly when the list of objects is non-empty; it holds those objects and the requested whole-archive flag |
| Values.GetStringValue | src/main/java/com/google/devtools/build/lib/rules/cpp/CcToolchainVariables.java:592-599 | "as string" succeeds exactly for strings, booleans and artifacts; a string gives its text, a boolean "1"/"0", an artifact its mapped exec path (the overrides at lines 1217, 1264, 1295); every other kind fails with "expected string, found <type>" naming the variable and its type |
| Values.GetSequenceValue | src/main/java/com/google/devtools/build/lib/rules/cpp/CcToolchainVariables.java:602-609 | "as sequence" succeeds exactly for the five sequence kinds, keeping length and order; a generic sequence gives its elements, string lists are mapped heuristically, nested string sets are not mapped, path fragments are mapped and printed safely, artifacts give mapped exec paths (overrides at lines 952-1172); other kinds fail with "expected sequence, found <type>" |
| Values.ObjectFileContribution | src/main/java/com/google/devtools/build/lib/rules/cpp/CcToolchainVariables.java:886-897 | one member of a group contributes its own mapped path unless it is a tree artifact and a provider is present; then it contributes its children's mapped paths in order, or nothing when the tree metadata is null |
| Values.ExpandObjectFiles | src/main/java/com/google/devtools/build/lib/rules/cpp/CcToolchainVariables.java:884-899 | without a provider, `object_files` has one mapped exec path per object, in order |
| Values.ExpandObjectFilesAppend | src/main/java/com/google/devtools/build/lib/rules/cpp/CcToolchainVariables.java:885-899 | the expansion of `object_files` is the concatenation of the members' contributions: expanding a concatenation of lists concatenates their expansions |
| Values.ExpandObjectFilesWithoutTrees | src/main/java/com/google/devtools/build/lib/rules/cpp/CcToolchainVariables.java:886-897 | when no member is a tree artifact, the provider makes no difference to `object_files` |
| Values.LibraryField | src/main/java/com/google/devtools/build/lib/rules/cpp/CcToolchainVariables.java:665-904 | for every library-to-link variant: `type` is the variant's type name; `is_whole_archive` is the whole-archive flag; `name` exists exactly for the named variants and is the mapped name (the name itself under the no-op mapper); `path` exists exactly for versioned dynamic libraries and is unmapped; `object_files` exists exactly for object file groups; any other field is null |
| Values.GetFieldValue | src/main/java/com/google/devtools/build/lib/rules/cpp/CcToolchainVariables.java:573-589 | library-to-link values answer from their fields and never fail; any other kind fails with "expected structure" when strict and answers null otherwise |
| Values.SequenceTruthinessAsWritten | src/main/java/com/google/devtools/build/lib/rules/cpp/CcToolchainVariables.java:963-965 | the four string-producing backings are truthy exactly when they yield an element (lines 1023, 1085, 1133, 1181); the generic `Sequence` is truthy exactly when it yields none |
| Values.EmptySequenceIsTruthy | src/main/java/com/google/devtools/build/lib/rules/cpp/CcToolchainVariables.java:963-965 | an empty generic `Sequence` is truthy while an empty string sequence is not, and a one-element `Sequence` is falsy |
| Values.IntendedSequenceTruthiness | src/main/java/com/google/devtools/build/lib/rules/cpp/CcToolchainVariables.java:1023-1025 | with the corrected rule every sequence kind is truthy exactly when "as sequence" yields an element |
| Values.ScalarTruthiness | src/main/java/com/google/devtools/build/lib/rules/cpp/CcToolchainVariables.java:1227-1307 | a string is truthy exactly when it renders non-empty, a boolean exactly when it renders "1" (and it renders only "0" or "1"), an artifact always |
| Values.CapabilitiesAreExclusive | src/main/java/com/google/devtools/build/lib/rules/cpp/CcToolchainVariables.java:563-609 | no kind answers both "as string" and "as sequence", and a kind that answers a strict field access answers neither |
| Values.StringBackingsRenderStrings | src/main/java/com/google/devtools/build/lib/rules/cpp/CcToolchainVariables.java:1007-1015 | every element a string-producing backing yields renders as a string; under the no-op mapper a string list or string set renders its stored strings |
| Values.FieldShapeDecidesOutcome | src/main/java/com/google/devtools/build/lib/rules/cpp/CcToolchainVariables.java:665-678 | whether a field access fails, is null or yields a value (and of which kind) depends only on the value's kind or variant, never on the mapper, the provider or the stored names and paths |
| Values.LibraryFieldShape | src/main/java/com/google/devtools/build/lib/rules/cpp/CcToolchainVariables.java:665-904 | two libraries of the same variant have the same fields, whatever their contents, mapper or provider, and each field holds a value of the same kind in both |
| Values.StrictFieldAgreesWithLenient | src/main/java/com/google/devtools/build/lib/rules/cpp/CcToolchainVariables.java:573-589 | a lenient field access never fails; when it yields a value the strict one yields the same, and when it is null the strict one fails or is null |
| Frames.AsVariableValue | src/main/java/com/google/devtools/build/lib/rules/cpp/CcToolchainVariables.java:1529-1535 | raw strings become string values, raw artifacts artifact values, and values pass through unchanged |
| Frames.LookupIsEnvironment | src/main/java/com/google/devtools/build/lib/rules/cpp/CcToolchainVariables.java:1594-1604 | plain lookup through the parent chain equals lookup in the parent's environment overlaid by the frame's own bindings: a child binding shadows the parent's and every other name is answered by the parent, or is null without one |
| Frames.RepresentationsAgree | src/main/java/com/google/devtools/build/lib/rules/cpp/CcToolchainVariables.java:1660-1665 | the single-entry frame answers every name exactly as the one-key map frame with the same parent |
| Frames.NewBuilder | src/main/java/com/google/devtools/build/lib/rules/cpp/CcToolchainVariables.java:1326-1332 | a new builder holds no variables and keeps the given parent |
| Frames.AddChecked | src/main/java/com/google/devtools/build/lib/rules/cpp/CcToolchainVariables.java:1496-1500 | a checked addition fails with "Cannot overwrite variable" exactly when this builder already binds the name (the parent is not consulted); otherwise it binds the name and changes nothing else |
| Frames.AddBooleanValue | src/main/java/com/google/devtools/build/lib/rules/cpp/CcToolchainVariables.java:1347-1350 | binds the boolean, silently replacing any existing binding, and changes nothing else |
| Frames.AddStringVariable | src/main/java/com/google/devtools/build/lib/rules/cpp/CcToolchainVariables.java:1354-1359 | fails exactly when the name is already bound here; otherwise binds the raw string and nothing else changes |
| Frames.AddArtifactVariable | src/main/java/com/google/devtools/build/lib/rules/cpp/CcToolchainVariables.java:1363-1368 | fails exactly when the name is already bound here; otherwise binds the raw artifact |
| Frames.OverrideArtifactVariable | src/main/java/com/google/devtools/build/lib/rules/cpp/CcToolchainVariables.java:1371-1375 | binds the artifact, silently replacing any existing binding |
| Frames.AddArtifactOrStringVariable | src/main/java/com/google/devtools/build/lib/rules/cpp/CcToolchainVariables.java:1384-1394 | a string is added as a string variable and an artifact as an artifact variable; null fails with "Cannot set null", any other type with "Unsupported value type" |
| Frames.AddStringSequenceVariable | src/main/java/com/google/devtools/build/lib/rules/cpp/CcToolchainVariables.java:1434-1439 | fails exactly when the name is already bound here; otherwise binds a string sequence of the values (also the `ImmutableSet` overload at lines 1403-1410) |
| Frames.AddStringSetSequenceVariable | src/main/java/com/google/devtools/build/lib/rules/cpp/CcToolchainVariables.java:1418-1423 | fails exactly when the name is already bound here; otherwise binds a string set sequence |
| Frames.AddPathFragmentSequenceVariable | src/main/java/com/google/devtools/build/lib/rules/cpp/CcToolchainVariables.java:1447-1452 | fails exactly when the name is already bound here; otherwise binds a path fragment sequence |
| Frames.AddArtifactSequenceVariable | src/main/java/com/google/devtools/build/lib/rules/cpp/CcToolchainVariables.java:1460-1465 | fails exactly when the name is already bound here; otherwise binds an artifact sequence |
| Frames.AddSequenceVariable | src/main/java/com/google/devtools/build/lib/rules/cpp/CcToolchainVariables.java:1469-1474 | fails exactly when the name is already bound here; otherwise binds a generic sequence of the values |
| Frames.AddVariable | src/main/java/com/google/devtools/build/lib/rules/cpp/CcToolchainVariables.java:1479-1484 | fails exactly when the name is already bound here; otherwise binds the value |
| Frames.AddAllStringVariables | src/main/java/com/google/devtools/build/lib/rules/cpp/CcToolchainVariables.java:1488-1494 | fails exactly when some given name is already bound here, naming a bound one, and then adds nothing; otherwise the builder's variables are the old ones plus the given strings |
| Frames.OwnEntries | src/main/java/com/google/devtools/build/lib/rules/cpp/CcToolchainVariables.java:1586-1590 | a frame hands over only entries for its own keys (the single representation at lines 1654-1656 hands over its one value) |
| Frames.OwnEntriesAreOwnBindings | src/main/java/com/google/devtools/build/lib/rules/cpp/CcToolchainVariables.java:1586-1590 | the entries a frame hands over cover exactly its own keys, and each wraps to the frame's own binding of that key |
| Frames.AddAllNonTransitive | src/main/java/com/google/devtools/build/lib/rules/cpp/CcToolchainVariables.java:1507-1514 | fails with the set of overlapping names exactly when the other frame's own keys meet this builder's; otherwise the builder gains exactly the other frame's own keys, bound as that frame binds them, never its parent's, and keeps its existing bindings |
| Frames.Build | src/main/java/com/google/devtools/build/lib/rules/cpp/CcToolchainVariables.java:1517-1525 | `build()` gives the single-entry frame exactly when one variable was added, holding that name and its wrapped value; otherwise a map frame whose keys are the added names, strictly sorted, with `values[i]` the binding of `keys[i]` (the constructor at lines 1562-1573); the parent is kept |
| Frames.BuildKeepsBindings | src/main/java/com/google/devtools/build/lib/rules/cpp/CcToolchainVariables.java:1562-1573 | whichever representation is built, it answers each added name with its wrapped binding and every other name from the parent, or null without one |
| Frames.Empty | src/main/java/com/google/devtools/build/lib/rules/cpp/CcToolchainVariables.java:285-287 | the empty frame binds no name |
| Lookup.Segments | src/main/java/com/google/devtools/build/lib/rules/cpp/CcToolchainVariables.java:424-428 | the fields pushed while stripping are the dot-free segments whose dotted concatenation is the stripped rest |
| Lookup.StripToResolvable | src/main/java/com/google/devtools/build/lib/rules/cpp/CcToolchainVariables.java:424-428 | the do-while strips the last segment at least once; the struct path is a proper dotted prefix of the name, the pushed fields joined by dots rebuild the name, the variable is the plain lookup of the struct path, and no longer stripped prefix was bound |
| Lookup.StripFindsLongest | src/main/java/com/google/devtools/build/lib/rules/cpp/CcToolchainVariables.java:424-432 | the search stops at the longest proper dotted prefix that resolves, with the dot-free pieces of the rest of the name (which rejoin to it) as its fields, or finds that no proper dotted prefix resolves |
| Lookup.ApplyFields | src/main/java/com/google/devtools/build/lib/rules/cpp/CcToolchainVariables.java:434-451 | applying fields left to right never fails when lenient and never gives null when strict; no fields gives the value itself |
| Lookup.ApplyFieldsStrictAgreesWithLenient | src/main/java/com/google/devtools/build/lib/rules/cpp/CcToolchainVariables.java:434-451 | when the lenient field chain yields a value the strict one yields the same; when it is null the strict one fails |
| Lookup.ApplyFieldsShapeDecidesOutcome | src/main/java/com/google/devtools/build/lib/rules/cpp/CcToolchainVariables.java:434-451 | the outcome of a field chain depends only on the starting value's kind or variant, not on the mapper or provider |
| Lookup.GetStructureVariable | src/main/java/com/google/devtools/build/lib/rules/cpp/CcToolchainVariables.java:410-452 | structure lookup never fails when lenient |
| Lookup.DottedNameResolution | src/main/java/com/google/devtools/build/lib/rules/cpp/CcToolchainVariables.java:410-452 | when no proper dotted prefix of the name resolves the structure lookup is absent; otherwise it is the longest resolvable prefix's value with the remaining segments applied left to right (a null field failing strictly with "structure X doesn't have a field named F"); a strict absent answer happens only when no prefix resolves |
| Lookup.StructureStrictAgreesWithLenient | src/main/java/com/google/devtools/build/lib/rules/cpp/CcToolchainVariables.java:410-452 | when the lenient structure lookup yields a value the strict one yields the same; otherwise the strict one fails or is absent |
| Lookup.StructureShapeIgnoresMapper | src/main/java/com/google/devtools/build/lib/rules/cpp/CcToolchainVariables.java:410-452 | whether a structure lookup fails, is absent or yields a value of a given kind does not depend on the mapper or provider |
| Lookup.Resolve | src/main/java/com/google/devtools/build/lib/rules/cpp/CcToolchainVariables.java:357-369 | the memo-free lookup: an exact binding of the full name wins even if it contains dots; lenient never fails and strict never answers null |
| Lookup.NullAsMissing | src/main/java/com/google/devtools/build/lib/rules/cpp/CcToolchainVariables.java:396-406 | a structure lookup that found nothing fails with "Cannot find variable named" when strict and is null when lenient; a value or an error passes through unchanged |
| Lookup.ResolveStrictAgreesWithLenient | src/main/java/com/google/devtools/build/lib/rules/cpp/CcToolchainVariables.java:351-407 | the lenient lookup yields a value exactly when the strict one succeeds, and then both give the same value |
| Lookup.ResolveOutcomeIgnoresMapper | src/main/java/com/google/devtools/build/lib/rules/cpp/CcToolchainVariables.java:482-485 | whether a lookup fails, is absent or yields a value of a given kind does not depend on the mapper or provider |
| Lookup.PutIfAbsent | src/main/java/com/google/devtools/build/lib/rules/cpp/CcToolchainVariables.java:393-393 | storing adds the key, keeps every existing entry, and writes the new entry only when the key was absent |
| Lookup.FirstWriteWins | src/main/java/com/google/devtools/build/lib/rules/cpp/CcToolchainVariables.java:393-393 | of two stores for one name, the first one's entry stays |
| Lookup.Answer | src/main/java/com/google/devtools/build/lib/rules/cpp/CcToolchainVariables.java:396-406 | a stored value is returned; a stored error or the null marker fails when strict and is null when lenient |
| Lookup.LookupVariable | src/main/java/com/google/devtools/build/lib/rules/cpp/CcToolchainVariables.java:351-407 | an own or inherited plain binding answers directly and leaves the memo alone; lenient never fails, strict never answers null; the memo gains at most this name and keeps every entry it had; for a name not yet stored the answer is the memo-free lookup |
| Lookup.LookupKeepsCoherent | src/main/java/com/google/devtools/build/lib/rules/cpp/CcToolchainVariables.java:379-394 | with one mapper and provider, a lookup of either strictness keeps every memo entry equal to what a lookup of some strictness computes for its name |
| Lookup.StrictLookupKeepsStrictlyFilled | src/main/java/com/google/devtools/build/lib/rules/cpp/CcToolchainVariables.java:379-394 | strict lookups keep a memo of strictly computed entries strictly computed |
| Lookup.EntryAnswersAsResolve | src/main/java/com/google/devtools/build/lib/rules/cpp/CcToolchainVariables.java:396-406 | a stored entry answers as the memo-free lookup, except that a null marker stored leniently makes a strict lookup fail with "Cannot find variable named" where the memo-free one may fail with a field error; success and value always agree |
| Lookup.StrictlyFilledLookupIsResolve | src/main/java/com/google/devtools/build/lib/rules/cpp/CcToolchainVariables.java:379-406 | on a memo of strictly computed entries a strict lookup is exactly the memo-free one |
| Lookup.CoherentLookupIsResolve | src/main/java/com/google/devtools/build/lib/rules/cpp/CcToolchainVariables.java:379-406 | on a coherent memo a lenient lookup is exactly the memo-free one, and a strict one succeeds exactly when the memo-free one does, with the same value |
| Lookup.GetVariable | src/main/java/com/google/devtools/build/lib/rules/cpp/CcToolchainVariables.java:339-344 | `getVariable` is the strict lookup unwrapped. A plain binding in the frame chain is returned as it is, with the memo unchanged. A name with no memo entry gets the memo-free strict lookup's value or error. The memo gains at most an entry for the name and keeps every existing entry |
| Lookup.GetVariableIsDirect | src/main/java/com/google/devtools/build/lib/rules/cpp/CcToolchainVariables.java:339-344 | on a memo holding only what strict lookups store, `getVariable` answers exactly as the memo-free strict lookup, and the memo it leaves holds only such entries |
| Lookup.GetStringVariable | src/main/java/com/google/devtools/build/lib/rules/cpp/CcToolchainVariables.java:454-458 | a plain binding gives its value "as string", with the memo unchanged. A name with no memo entry gets the memo-free strict lookup (without a provider) followed by "as string", with a lookup error passed on. The memo gains at most an entry for the name |
| Lookup.GetStringVariableIsDirect | src/main/java/com/google/devtools/build/lib/rules/cpp/CcToolchainVariables.java:454-458 | on a memo holding only what strict lookups store, `getStringVariable` answers exactly as without a memo, and leaves such a memo behind |
| Lookup.GetSequenceVariable | src/main/java/com/google/devtools/build/lib/rules/cpp/CcToolchainVariables.java:460-473 | a plain binding gives its value "as sequence", with the memo unchanged. A name with no memo entry gets the memo-free strict lookup followed by "as sequence", with a lookup error passed on. The memo gains at most an entry for the name |
| Lookup.GetSequenceVariableIsDirect | src/main/java/com/google/devtools/build/lib/rules/cpp/CcToolchainVariables.java:460-473 | on a memo holding only what strict lookups store, `getSequenceVariable` answers exactly as without a memo, and leaves such a memo behind |
| Lookup.StringsOf | src/main/java/com/google/devtools/build/lib/rules/cpp/CcToolchainVariables.java:321-323 | rendering each element succeeds exactly when every element is a scalar, giving one string per element in order; otherwise it fails with the first non-scalar element's error |
| Lookup.ToStringList | src/main/java/com/google/devtools/build/lib/rules/cpp/CcToolchainVariables.java:317-325 | `toStringList` on a name with no memo entry is the memo-free "as sequence" of the variable, with every element rendered "as string" and the first failure passed on. The memo gains at most an entry for the name |
| Lookup.ToStringListIsDirect | src/main/java/com/google/devtools/build/lib/rules/cpp/CcToolchainVariables.java:317-325 | on a memo holding only what strict lookups store, `toStringList` answers exactly as without a memo, and leaves such a memo behind |
| Lookup.ToStringListOfStringSequence | src/main/java/com/google/devtools/build/lib/rules/cpp/CcToolchainVariables.java:317-325 | a variable bound to a string sequence gives its strings, heuristically mapped, same length and order |
| Lookup.IsAvailable | src/main/java/com/google/devtools/build/lib/rules/cpp/CcToolchainVariables.java:480-490 | `isAvailable` is true for a plain binding, with the memo unchanged. On a memo coherent with the no-op mapper, it is true exactly when the memo-free strict lookup succeeds. The memo gains at most an entry for the name |
| Lookup.ProbeAnswersAsResolve | src/main/java/com/google/devtools/build/lib/rules/cpp/CcToolchainVariables.java:480-490 | on a memo coherent with the no-op mapper, the lenient probe finds a value exactly when the memo-free strict lookup succeeds |
| Lookup.IsAvailableIffGetVariableSucceeds | src/main/java/com/google/devtools/build/lib/rules/cpp/CcToolchainVariables.java:480-490 | with the same mapper and provider on a coherent memo, a name is available exactly when the strict `getVariable` succeeds, before and after the probe |
| Lookup.AvailabilityIgnoresMapper | src/main/java/com/google/devtools/build/lib/rules/cpp/CcToolchainVariables.java:482-485 | on an empty memo, availability is exactly success of the strict lookup under any mapper and provider |
| Lookup.CachedLookupIgnoresMapper | src/main/java/com/google/devtools/build/lib/rules/cpp/CcToolchainVariables.java:379-380 | once a name is in the memo, its lookup answers alike for every mapper and provider |
| Lookup.LibNameResolves | src/main/java/com/google/devtools/build/lib/rules/cpp/CcToolchainVariables.java:721-733 | with `lib` bound to a dynamic library `foo`, `lib.name` resolves to the mapped name of `foo` |
| Lookup.MappedLibName | src/main/java/com/google/devtools/build/lib/rules/cpp/CcToolchainVariables.java:728-732 | without a memo entry for `lib.name`, a lookup with a mapper that prefixes `out/` gives `out/foo` |
| Lookup.ProbeLeavesUnmappedValue | src/main/java/com/google/devtools/build/lib/rules/cpp/CcToolchainVariables.java:482-485 | after `isAvailable("lib.name")`, `getStringVariable("lib.name")` with the `out/` mapper gives `foo`, while on an empty memo it gives `out/foo` |
| Lookup.IsAvailableWithoutMemo | src/main/java/com/google/devtools/build/lib/rules/cpp/CcToolchainVariables.java:480-490 | the corrected probe answers as `isAvailable` does but stores nothing |
| Lookup.ProbeWithoutMemoIsSafe | src/main/java/com/google/devtools/build/lib/rules/cpp/CcToolchainVariables.java:480-490 | the corrected probe says available exactly when the strict lookup succeeds under any mapper and provider the memo is coherent with |
| Lookup.ProbeWithoutMemoKeepsMappedValue | src/main/java/com/google/devtools/build/lib/rules/cpp/CcToolchainVariables.java:480-490 | with the corrected probe `lib.name` is available and the mapped lookup still gives `out/foo` |
| Parser.Escape | src/main/java/com/google/devtools/build/lib/rules/cpp/CcToolchainVariables.java:218-226 | a literal without `%` prints as itself, and printing never shortens a literal |
| Parser.ParseStringChunk | src/main/java/com/google/devtools/build/lib/rules/cpp/CcToolchainVariables.java:216-233 | a string chunk is a non-empty literal with no `%` after its first character; it consumes exactly its printed form (the escape `%%` for a leading `%`) and stops at the next `%` or the end |
| Parser.ParseVariableChunk | src/main/java/com/google/devtools/build/lib/rules/cpp/CcToolchainVariables.java:240-254 | as written: a parsed name is non-empty without `}` and consumes `%{name}`; "expected '{'" is reported at the index after `%` when the input ends or the next character is not `{`; "expected variable name" at the index after `%{` when the input ends or `}` follows; with no closing `}` the step crashes |
| Parser.UnterminatedVariableCrashes | src/main/java/com/google/devtools/build/lib/rules/cpp/CcToolchainVariables.java:249-250 | `%{abc` crashes at position 2 instead of reporting an error |
| Parser.ParseVariableChunkChecked | src/main/java/com/google/devtools/build/lib/rules/cpp/CcToolchainVariables.java:240-254 | the corrected step never crashes, agrees with the written one wherever that one does not crash, and reports a missing `}` at the index after `%{` |
| Parser.ParseStep | src/main/java/com/google/devtools/build/lib/rules/cpp/CcToolchainVariables.java:194-199 | a loop step never crashes; it advances over exactly the printed form of one canonical chunk, or aborts at a `%` with a position after it |
| Parser.StepReadsLiteral | src/main/java/com/google/devtools/build/lib/rules/cpp/CcToolchainVariables.java:216-233 | where a canonical literal's printed form is followed by the end or a `%`, the step reads exactly that literal |
| Parser.StepReadsVariable | src/main/java/com/google/devtools/build/lib/rules/cpp/CcToolchainVariables.java:240-254 | where `%{name}` stands for a canonical name, the step reads exactly that variable |
| Parser.StepFollowsCanonical | src/main/java/com/google/devtools/build/lib/rules/cpp/CcToolchainVariables.java:193-201 | if the rest of the template is the print of a canonical chunk list, the step reads that list's first chunk |
| Parser.Scan | src/main/java/com/google/devtools/build/lib/rules/cpp/CcToolchainVariables.java:178-201 | the scan loop ends in the parse outcome. It succeeds, with the canonical chunk list and its variable names, exactly when some canonical list prints the template. Otherwise it aborts with the reason and position of a failing step taken after a reading of the template up to that step (which `Parser.ParseOutcomeUnique` shows is the first failing step), just past the `%` or `{` that went wrong |
| Parser.Parse | src/main/java/com/google/devtools/build/lib/rules/cpp/CcToolchainVariables.java:178-201 | the parse succeeds exactly when some canonical chunk list (non-empty literals ending only before `%`, non-empty names without `}`) prints back to the template. It then returns that list, in source order, with its variable names as the used variables. An abort means no canonical list prints to the template. It carries the reason and position of the step that fails where the loop has read the template so far, each position pointing just after the `%` or `{` it is about |
| Parser.ParseOutcomeUnique | src/main/java/com/google/devtools/build/lib/rules/cpp/CcToolchainVariables.java:178-201 | any two results meeting the parser's contract for a template are equal, so an abort names the first malformed placeholder the loop reaches and no other |
| Parser.AbortEndsReading | src/main/java/com/google/devtools/build/lib/rules/cpp/CcToolchainVariables.java:193-201 | once the step after a reading of the template fails, no reading of the template goes further: the loop stops at its first failing step |
| Parser.ReadingPassesThrough | src/main/java/com/google/devtools/build/lib/rules/cpp/CcToolchainVariables.java:193-201 | a longer reading of the template passes through every shorter one, and the step at the end of the shorter one advances |
| Parser.FirstMalformedPlaceholderReported | src/main/java/com/google/devtools/build/lib/rules/cpp/CcToolchainVariables.java:240-244 | for `%x%{}` the only result the contract allows is "expected '{'" at position 1, not the empty name at the second placeholder |
| Parser.AbortMessage | src/main/java/com/google/devtools/build/lib/rules/cpp/CcToolchainVariables.java:260-264 | an abort message starts with "Invalid toolchain configuration: " and says more after it |
| Parser.DocumentedExample | src/main/java/com/google/devtools/build/lib/rules/cpp/CcToolchainVariables.java:156-162 | `["-f ", var1, "/", var2]` is canonical, prints to `-f %{var1}/%{var2}` and uses `var1` and `var2`, so it is the parse of that template |
| Parser.DocumentedChunksPrint | src/main/java/com/google/devtools/build/lib/rules/cpp/CcToolchainVariables.java:156-162 | the documented chunks print to `-f %{var1}/%{var2}` |
| Parser.DocumentedChunksNames | src/main/java/com/google/devtools/build/lib/rules/cpp/CcToolchainVariables.java:156-162 | the documented chunks use `var1` and `var2` |
| Parser.EscapeSplitsLiterals | src/main/java/com/google/devtools/build/lib/rules/cpp/CcToolchainVariables.java:221-222 | `abc%%def` is the print of the canonical list `["abc", "%def"]`, so it parses to those two literals |
| Parser.TrailingEscape | src/main/java/com/google/devtools/build/lib/rules/cpp/CcToolchainVariables.java:223-230 | `100%%` parses to the literals `"100"` and `"%"` |
| Expansion.ExpandChunk | src/main/java/com/google/devtools/build/lib/rules/cpp/CcToolchainVariables.java:78-129 | a literal chunk gives its text and leaves the memo alone; a variable chunk bound plainly gives that value "as string"; an unbound dot-free name fails with "Cannot find variable named"; the memo only grows |
| Expansion.Expand | src/main/java/com/google/devtools/build/lib/rules/cpp/CcToolchainVariables.java:122-129 | expanding a template only adds memo entries and keeps the existing ones |
| Expansion.ExpandDirect | src/main/java/com/google/devtools/build/lib/rules/cpp/CcToolchainVariables.java:122-129 | the memo-free expansion succeeds exactly when every chunk does, and otherwise fails with the first failing chunk's error |
| Expansion.ExpandLiterals | src/main/java/com/google/devtools/build/lib/rules/cpp/CcToolchainVariables.java:86-88 | a template of literals expands to their concatenated texts under any frame, memo and mapper |
| Expansion.ExpandChunkIsDirect | src/main/java/com/google/devtools/build/lib/rules/cpp/CcToolchainVariables.java:122-129 | on a memo of strictly computed entries, a chunk expands as without a memo and the memo stays strictly computed |
| Expansion.ExpandIsDirect | src/main/java/com/google/devtools/build/lib/rules/cpp/CcToolchainVariables.java:122-129 | on a memo of strictly computed entries, a template expands as without a memo and leaves such a memo behind |
| Expansion.ExpandTwice | src/main/java/com/google/devtools/build/lib/rules/cpp/CcToolchainVariables.java:122-129 | on a memo holding only what strict lookups store (the `StrictlyFilled` precondition), expanding the same template again with the memo the first expansion left gives the same result |
| Expansion.UndefinedVariableFails | src/main/java/com/google/devtools/build/lib/rules/cpp/CcToolchainVariables.java:362-367 | a template naming a dot-free variable that no frame binds fails with "Cannot find variable named" |
| Expansion.DocumentedExpansion | src/main/java/com/google/devtools/build/lib/rules/cpp/CcToolchainVariables.java:156-158 | `-f %{var1}/%{var2}` with `var1` = `x` and `var2` = `y` (bound in parent and child frames) expands to `-f x/y` |

## Left out

- Concurrency: the lazily created concurrent map, the double-checked locking and `volatile` around the memo. The memo is a plain map threaded through the calls.
- Interning (`BlazeInterners`, `String.intern`, the key-map interner): memory optimisations with no observable effect.
- `equals`/`hashCode` of chunks, values and frames: they rest on object identity and hashing.
- Starlark glue: `CcToolchainVariablesApi`, `StarlarkValue`, `isImmutable` and `EvalException` formatting. A parse failure is the `Aborted` result, and `Parser.AbortMessage` renders its text.
- `getString` of chunks, and the accessors `getChunks`/`getVariableKeys` beyond the data they expose.
- `PathMapper`, `Artifact`, `PathFragment`, `TreeArtifactValue` and `InputMetadataProvider` internals. They are reduced to an exec path, a tree flag, mapping functions and a children function. `getSafePathString` is modelled only as "the empty path prints as `.`".
- `NestedSet`: a nested set is its flattened list.
- Null arguments to builder methods (`checkNotNull`): Dafny values are never null. Only `addArtifactOrStringVariable`'s explicit null case is modelled.
- Lexicographic order: it compares Dafny characters, where Java's `compareTo` compares UTF-16 code units.
- Joining chunk texts into one flag: the flag code that calls `expand` is outside this class and not part of this model. `Expansion.Expand` concatenates the chunks' texts in order and stops at the first failure.
- Values.IsTruthy: as written, with an inverted `Sequence` rule; the model uses `IsTruthyIntended` where the intended rule matters (see Findings).
- Lookup.GetStructureVariable: its contract states only that lenient lookups never fail; the full characterisation is the separate lemma `Lookup.DottedNameResolution`.
- Parser.Parse: runs the corrected variable step. On `%{abc` it returns `Aborted(ExpectedCloseBrace, 2)` where the source throws from `substring` (lines 249-250). No member models the whole loop as written; only its step, `Parser.ParseVariableChunk`, is modelled as written.
- Parser.AbortMessage: its contract states only the common prefix, not the full message layout.
- Lookup.IsAvailable: models the memo keyed by name alone. A memo entry made under one mapper answers later lookups under another (see Findings).

## Findings

| source | as written | input that shows it | evidently intended | confidence | as-written member | corrected member |
|---|---|---|---|---|---|---|
| src/main/java/com/google/devtools/build/lib/rules/cpp/CcToolchainVariables.java:963-965 | `Sequence.isTruthy` returns `values.isEmpty()` | an empty `Sequence` is truthy and a one-element `Sequence` is falsy, while an empty `StringSequence` is falsy | truthy iff the sequence has an element, like the other four sequence kinds | not executed; high | Values.IsTruthy, Values.EmptySequenceIsTruthy | Values.IsTruthyIntended, Values.IntendedSequenceTruthiness |
| src/main/java/com/google/devtools/build/lib/rules/cpp/CcToolchainVariables.java:249-250 | `indexOf('}')` may return -1, and `substring(current, -1)` then throws an unchecked exception | the template `%{abc` | a positioned parse error for a missing `}`, like the other malformed placeholders | not executed; high | Parser.ParseVariableChunk, Parser.UnterminatedVariableCrashes | Parser.ParseVariableChunkChecked, Parser.Parse |
| src/main/java/com/google/devtools/build/lib/rules/cpp/CcToolchainVariables.java:379-393 | the memo of structured lookups is keyed by name alone, and `isAvailable` fills it using the no-op mapper (line 484) | `lib` bound to dynamic library `foo`: `isAvailable("lib.name")` and then `getStringVariable("lib.name")` with a mapper prefixing `out/` give `foo` instead of `out/foo` | availability probes and lookups with one mapper do not change what lookups with another mapper return | not executed; medium | Lookup.IsAvailable, Lookup.ProbeLeavesUnmappedValue | Lookup.IsAvailableWithoutMemo, Lookup.ProbeWithoutMemoIsSafe |
