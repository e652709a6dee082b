/** Expanding parsed chunks under a frame (`StringChunk.expand`): a literal gives its
    text, a variable its strict lookup rendered "as string". A whole template is the
    concatenation of its chunks, and the first failing chunk fails it. */
module Expansion {
  import opened Wrappers
  import opened Externals
  import opened Values
  import opened Frames
  import opened Lookup
  import opened Parser

  /** `StringLiteralChunk.expand` and `VariableChunk.expand`. */
  function ExpandChunk(c: Chunk, f: Frame, cache: Cache, mapper: PathMapper): (r: (Result<string, ExpansionError>, Cache))
    requires Valid(f)
    ensures c.Literal? ==> r == (Success(c.text), cache)
    ensures cache.Keys <= r.1.Keys && forall k :: k in cache ==> r.1[k] == cache[k]
    ensures c.Variable? && GetNonStructuredVariable(f, c.name).Some? ==>
              r == (GetStringValue(GetNonStructuredVariable(f, c.name).value, c.name, mapper), cache)
    ensures c.Variable? && GetNonStructuredVariable(f, c.name).None? && '.' !in c.name ==>
              r == (Failure(MissingVariable(c.name)), cache)
  {
    match c
    case Literal(t) => (Success(t), cache)
    case Variable(n) => GetStringVariable(f, cache, n, mapper)
  }

  /** Expanding the chunks in order, threading the memo; the first failure is the
      result and no partial text is returned. */
  function Expand(chunks: seq<Chunk>, f: Frame, cache: Cache, mapper: PathMapper): (r: (Result<string, ExpansionError>, Cache))
    requires Valid(f)
    ensures cache.Keys <= r.1.Keys && forall k :: k in cache ==> r.1[k] == cache[k]
    decreases |chunks|
  {
    if |chunks| == 0 then (Success(""), cache)
    else
      var (head, afterHead) := ExpandChunk(chunks[0], f, cache, mapper);
      match head
      case Failure(e) => (Failure(e), afterHead)
      case Success(s) =>
        var (rest, afterRest) := Expand(chunks[1..], f, afterHead, mapper);
        match rest
        case Failure(e) => (Failure(e), afterRest)
        case Success(t) => (Success(s + t), afterRest)
  }

  /** One chunk's contribution without a memo: a strict lookup, then "as string". */
  function ChunkValue(c: Chunk, f: Frame, mapper: PathMapper): Result<string, ExpansionError>
    requires Valid(f)
  {
    match c
    case Literal(t) => Success(t)
    case Variable(n) => DirectStringVariable(f, n, mapper)
  }

  /** The expansion the memo must not change: every chunk's contribution, concatenated,
      unless one fails, and then the first failure. */
  function ExpandDirect(chunks: seq<Chunk>, f: Frame, mapper: PathMapper): (r: Result<string, ExpansionError>)
    requires Valid(f)
    ensures r.Success? <==> forall i :: 0 <= i < |chunks| ==> ChunkValue(chunks[i], f, mapper).Success?
    ensures r.Failure? ==> exists i :: 0 <= i < |chunks| && ChunkValue(chunks[i], f, mapper) == Failure(r.error)
                                       && forall j :: 0 <= j < i ==> ChunkValue(chunks[j], f, mapper).Success?
    decreases |chunks|
  {
    if |chunks| == 0 then Success("")
    else
      match ChunkValue(chunks[0], f, mapper)
      case Failure(e) => Failure(e)
      case Success(s) =>
        match ExpandDirect(chunks[1..], f, mapper)
        case Failure(e) =>
          var i :| 0 <= i < |chunks[1..]| && ChunkValue(chunks[1..][i], f, mapper) == Failure(e)
                   && forall j :: 0 <= j < i ==> ChunkValue(chunks[1..][j], f, mapper).Success?;
          assert ChunkValue(chunks[i + 1], f, mapper) == Failure(e);
          Failure(e)
        case Success(t) => Success(s + t)
  }

  /** The concatenated texts of literal chunks. */
  function LiteralText(chunks: seq<Chunk>): string
    requires forall i :: 0 <= i < |chunks| ==> chunks[i].Literal?
  {
    if |chunks| == 0 then "" else chunks[0].text + LiteralText(chunks[1..])
  }

  /** A template without variables expands to its text under any frame, memo and
      mapper, and leaves the memo alone. */
  lemma {:induction false} ExpandLiterals(chunks: seq<Chunk>, f: Frame, cache: Cache, mapper: PathMapper)
    requires Valid(f) && forall i :: 0 <= i < |chunks| ==> chunks[i].Literal?
    ensures Expand(chunks, f, cache, mapper) == (Success(LiteralText(chunks)), cache)
    decreases |chunks|
  {
    if |chunks| > 0 {
      ExpandLiterals(chunks[1..], f, cache, mapper);
    }
  }

  /** One chunk on a strictly filled memo: the memo-free contribution, and the memo
      stays strictly filled. */
  lemma ExpandChunkIsDirect(c: Chunk, f: Frame, cache: Cache, mapper: PathMapper)
    requires Valid(f) && StrictlyFilled(f, cache, None, mapper)
    ensures ExpandChunk(c, f, cache, mapper).0 == ChunkValue(c, f, mapper)
    ensures StrictlyFilled(f, ExpandChunk(c, f, cache, mapper).1, None, mapper)
  {
    if c.Variable? {
      GetStringVariableIsDirect(f, cache, c.name, mapper);
    }
  }

  /** On a memo holding only what strict lookups store, expansion gives the memo-free
      result and leaves such a memo behind. */
  lemma {:induction false} ExpandIsDirect(chunks: seq<Chunk>, f: Frame, cache: Cache, mapper: PathMapper)
    requires Valid(f) && StrictlyFilled(f, cache, None, mapper)
    ensures Expand(chunks, f, cache, mapper).0 == ExpandDirect(chunks, f, mapper)
    ensures StrictlyFilled(f, Expand(chunks, f, cache, mapper).1, None, mapper)
    decreases |chunks|
  {
    if |chunks| > 0 {
      var (head, afterHead) := ExpandChunk(chunks[0], f, cache, mapper);
      ExpandChunkIsDirect(chunks[0], f, cache, mapper);
      ExpandIsDirect(chunks[1..], f, afterHead, mapper);
    }
  }

  /** Expanding the same template twice in a row gives the same result: the memo the
      first expansion fills does not change the second. */
  lemma ExpandTwice(chunks: seq<Chunk>, f: Frame, cache: Cache, mapper: PathMapper)
    requires Valid(f) && StrictlyFilled(f, cache, None, mapper)
    ensures var (first, after) := Expand(chunks, f, cache, mapper);
            Expand(chunks, f, after, mapper).0 == first
  {
    ExpandIsDirect(chunks, f, cache, mapper);
    ExpandIsDirect(chunks, f, Expand(chunks, f, cache, mapper).1, mapper);
  }

  /** Expanding `%{missing}` where no frame of the chain binds the dot-free name fails
      with "Cannot find variable named". */
  lemma UndefinedVariableFails(f: Frame, cache: Cache, name: string, mapper: PathMapper)
    requires Valid(f) && GetNonStructuredVariable(f, name).None? && '.' !in name
    ensures Expand([Variable(name)], f, cache, mapper).0 == Failure(MissingVariable(name))
  {
  }

  /** A template whose first chunk and remainder both expand without touching the
      memo expands to their concatenation. */
  lemma ExpandAppends(chunks: seq<Chunk>, f: Frame, cache: Cache, mapper: PathMapper, head: string, rest: string)
    requires Valid(f) && |chunks| > 0
    requires ExpandChunk(chunks[0], f, cache, mapper) == (Success(head), cache)
    requires Expand(chunks[1..], f, cache, mapper) == (Success(rest), cache)
    ensures Expand(chunks, f, cache, mapper) == (Success(head + rest), cache)
  {
  }

  /** `var1` bound in the parent frame, `var2` in the child. */
  function ExampleFrame(): (f: Frame)
    ensures Valid(f)
  {
    SingleVariables(Some(SingleVariables(None, "var1", StringValue("x"))), "var2", StringValue("y"))
  }

  /** "-f %{var1}/%{var2}" with var1 = "x" and var2 = "y" expands to "-f x/y". */
  lemma DocumentedExpansion(cache: Cache, mapper: PathMapper)
    ensures Expand(DocumentedChunks(), ExampleFrame(), cache, mapper) == (Success("-f x/y"), cache)
  {
    var f := ExampleFrame();
    var cs := DocumentedChunks();
    assert GetStringValue(StringValue("x"), "var1", mapper) == Success("x");
    assert GetStringValue(StringValue("y"), "var2", mapper) == Success("y");
    assert GetNonStructuredVariable(f, "var1") == Some(StringValue("x"));
    assert GetNonStructuredVariable(f, "var2") == Some(StringValue("y"));
    assert ExpandChunk(cs[1], f, cache, mapper) == (Success("x"), cache);
    assert ExpandChunk(cs[3], f, cache, mapper) == (Success("y"), cache);
    assert cs[3..][1..] == cs[4..] && cs[2..][1..] == cs[3..] && cs[1..][1..] == cs[2..];
    ExpandAppends(cs[3..], f, cache, mapper, "y", "");
    assert "y" + "" == "y";
    ExpandAppends(cs[2..], f, cache, mapper, "/", "y");
    assert "/" + "y" == "/y";
    ExpandAppends(cs[1..], f, cache, mapper, "x", "/y");
    assert "x" + "/y" == "x/y";
    ExpandAppends(cs, f, cache, mapper, "-f ", "x/y");
    assert "-f " + "x/y" == "-f x/y";
  }
}
