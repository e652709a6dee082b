/** The flag-template parser: a template such as "-f %{var1}/%{var2}" is split into
    literal text and variable references; "%%" stands for one literal '%'.

    A template is described here by the chunk list it prints back to: a literal prints
    its text with every '%' doubled and a variable prints as "%{name}". A chunk list is
    canonical when it is the one the parser produces, and the parser succeeds exactly on
    the templates that some canonical chunk list prints to. */
module Parser {
  import opened Wrappers
  import Strings
  import Values

  datatype Chunk = Literal(text: string) | Variable(name: string)

  /** A literal's text in template form: every '%' doubled. */
  function Escape(t: string): (r: string)
    ensures '%' !in t ==> r == t
    ensures |r| >= |t|
  {
    if |t| == 0 then ""
    else (if t[0] == '%' then "%%" else [t[0]]) + Escape(t[1..])
  }

  /** A chunk in template form (`getString`, with a literal's '%' escaped again). */
  function PrintChunk(c: Chunk): string {
    match c
    case Literal(t) => Escape(t)
    case Variable(n) => "%{" + n + "}"
  }

  /** The template a chunk list prints to. */
  function Print(cs: seq<Chunk>): string {
    if |cs| == 0 then "" else PrintChunk(cs[0]) + Print(cs[1..])
  }

  lemma {:induction false} PrintAppend(a: seq<Chunk>, b: seq<Chunk>)
    ensures Print(a + b) == Print(a) + Print(b)
    decreases |a|
  {
    if |a| > 0 {
      var head := PrintChunk(a[0]);
      assert (a + b)[0] == a[0] && (a + b)[1..] == a[1..] + b;
      PrintAppend(a[1..], b);
      PrintStep(a + b, head, Print(a[1..]) + Print(b));
      PrintStep(a, head, Print(a[1..]));
      Strings.ConcatAssociates(head, Print(a[1..]), Print(b));
    } else {
      assert a + b == b;
    }
  }

  /** The chunks the parser produces: a literal is non-empty and holds '%' at most as
      its first character (then it came from "%%"); a variable name is non-empty and
      holds no '}'. */
  predicate CanonicalChunk(c: Chunk) {
    match c
    case Literal(t) => |t| > 0 && forall i :: 0 < i < |t| ==> t[i] != '%'
    case Variable(n) => |n| > 0 && '}' !in n
  }

  /** A literal ends only before a '%', so a literal that follows a literal starts
      with the escaped '%'. */
  predicate MayFollow(prev: Chunk, next: Chunk) {
    prev.Literal? && next.Literal? ==> |next.text| > 0 && next.text[0] == '%'
  }

  predicate Canonical(cs: seq<Chunk>) {
    && (forall i :: 0 <= i < |cs| ==> CanonicalChunk(cs[i]))
    && (forall i :: 0 < i < |cs| ==> MayFollow(cs[i - 1], cs[i]))
  }

  /** `cs` is a canonical chunk list that prints back to `value`. */
  predicate PrintsTo(cs: seq<Chunk>, value: string) {
    Canonical(cs) && Print(cs) == value
  }

  /** The names the variable chunks refer to (`usedVariables`). */
  function VariableNames(cs: seq<Chunk>): set<string> {
    set i | 0 <= i < |cs| && cs[i].Variable? :: cs[i].name
  }

  lemma VariableNamesSnoc(cs: seq<Chunk>, c: Chunk)
    ensures VariableNames(cs + [c]) == VariableNames(cs) + (if c.Variable? then {c.name} else {})
  {
    var extended := cs + [c];
    assert forall i :: 0 <= i < |cs| ==> extended[i] == cs[i];
    assert extended[|cs|] == c;
  }

  // ---------------------------------------------------------------------------
  // One step of the scanner

  datatype ParseError = ExpectedOpenBrace | ExpectedVariableName | ExpectedCloseBrace

  /** What one step does at `current`: add a chunk and move on, abort with a positioned
      error, or (as written, for an unterminated variable) throw from `substring`. */
  datatype Step = Advance(chunk: Chunk, next: nat) | Abort(reason: ParseError, position: nat) | Crash(begin: nat)

  /** `atVariableStart`: a '%' not followed by another '%'. */
  predicate AtVariableStart(value: string, current: nat)
    requires current < |value|
  {
    value[current] == '%' && (current + 1 >= |value| || value[current + 1] != '%')
  }

  /** Canonical literal text holds no '%' after its first character. */
  lemma NoPercentInTail(t: string)
    requires CanonicalChunk(Literal(t))
    ensures '%' !in t[1..]
  {
    forall i | 0 <= i < |t[1..]| ensures t[1..][i] != '%' {
      assert t[1..][i] == t[i + 1];
    }
  }

  /** A doubled leading '%' is one more '%' in front of the text. */
  lemma DoubledFirst(t: string)
    requires |t| > 0 && t[0] == '%'
    ensures "%%" + t[1..] == "%" + t
  {
    assert t == "%" + t[1..];
  }

  /** Text is canonical literal text when it holds '%' at most first. */
  lemma EscapeLiteral(t: string)
    requires CanonicalChunk(Literal(t))
    ensures Escape(t) == if t[0] == '%' then "%" + t else t
  {
    NoPercentInTail(t);
    var tail := t[1..];
    assert Escape(tail) == tail;
    if t[0] == '%' {
      assert Escape(t) == "%%" + tail;
      DoubledFirst(t);
      assert Escape(t) == "%" + t;
    } else {
      assert Escape(t) == [t[0]] + tail;
      assert t == [t[0]] + tail;
      assert Escape(t) == t;
    }
  }

  /** The text between `start` and the next '%' (or the end) is canonical literal
      text, and in template form it is what the scanner passed over from `current`. */
  lemma LiteralSlice(value: string, current: nat, start: nat, stop: nat)
    requires current <= start <= current + 1 && start < stop <= |value|
    requires start == current + 1 ==> value[current] == '%' && value[start] == '%'
    requires start == current ==> value[current] != '%'
    requires forall i :: start < i < stop ==> value[i] != '%'
    ensures CanonicalChunk(Literal(value[start..stop]))
    ensures value[current..stop] == Escape(value[start..stop])
  {
    var t := value[start..stop];
    assert forall i :: 0 < i < |t| ==> t[i] == value[start + i];
    EscapeLiteral(t);
    if start == current + 1 {
      SliceCons(value, current, stop);
    }
  }

  /** A slice is its first character followed by the rest. */
  lemma SliceCons(value: string, lo: nat, hi: nat)
    requires lo < hi <= |value|
    ensures value[lo..hi] == [value[lo]] + value[lo + 1..hi]
  {
  }

  /** `parseStringChunk`: text up to the next '%'; at "%%" the text starts at the second
      '%', which makes it the literal's first character. */
  function ParseStringChunk(value: string, current: nat): (r: Step)
    requires current < |value| && !AtVariableStart(value, current)
    ensures r.Advance? && r.chunk.Literal? && CanonicalChunk(r.chunk)
    ensures current < r.next <= |value| && value[current..r.next] == PrintChunk(r.chunk)
    ensures r.next == |value| || value[r.next] == '%'
    ensures value[current] == '%' <==> r.chunk.text[0] == '%'
  {
    var start := if value[current] == '%' then current + 1 else current;
    var end := Strings.IndexOf(value, '%', start + 1);
    var stop := if end == -1 then |value| else end;
    LiteralSlice(value, current, start, stop);
    Advance(Literal(value[start..stop]), stop)
  }

  /** `parseVariableChunk` as written: '%' must be followed by '{' and a non-empty name;
      a name without a closing '}' reaches `substring(begin, -1)`, which throws. */
  function ParseVariableChunk(value: string, current: nat): (r: Step)
    requires current < |value| && AtVariableStart(value, current)
    ensures r.Advance? ==> r.chunk.Variable? && CanonicalChunk(r.chunk)
                           && current < r.next <= |value| && value[current..r.next] == PrintChunk(r.chunk)
    ensures r.Abort? && r.reason == ExpectedOpenBrace ==>
              r.position == current + 1 && (r.position == |value| || value[r.position] != '{')
    ensures r.Abort? && r.reason == ExpectedVariableName ==>
              r.position == current + 2 && current + 1 < |value| && value[current + 1] == '{'
              && (r.position == |value| || value[r.position] == '}')
    ensures r.Abort? ==> r.reason != ExpectedCloseBrace
    ensures r.Crash? ==> r.begin == current + 2 < |value| && value[current + 1] == '{' && '}' !in value[r.begin..]
  {
    var open := current + 1;
    if open >= |value| || value[open] != '{' then Abort(ExpectedOpenBrace, open)
    else
      var begin := open + 1;
      if begin >= |value| || value[begin] == '}' then Abort(ExpectedVariableName, begin)
      else
        var end := Strings.IndexOf(value, '}', begin);
        if end == -1 then
          assert '}' !in value[begin..] by {
            forall i | 0 <= i < |value[begin..]| ensures value[begin..][i] != '}' {
              assert value[begin..][i] == value[begin + i];
            }
          }
          Crash(begin)
        else
          var n := value[begin..end];
          assert '}' !in n by {
            forall i | 0 <= i < |n| ensures n[i] != '}' {
              assert n[i] == value[begin + i];
            }
          }
          assert value[current..end + 1] == "%{" + n + "}";
          Advance(Variable(n), end + 1)
  }

  /** An unterminated variable reaches the throwing `substring` call. */
  lemma UnterminatedVariableCrashes()
    ensures ParseVariableChunk("%{abc", 0) == Crash(2)
  {
    assert "%{abc"[2..] == "abc";
  }

  /** The step with an unterminated variable rejected like the other malformed
      placeholders, at the position where the name starts. */
  function ParseVariableChunkChecked(value: string, current: nat): (r: Step)
    requires current < |value| && AtVariableStart(value, current)
    ensures !r.Crash?
    ensures !ParseVariableChunk(value, current).Crash? ==> r == ParseVariableChunk(value, current)
    ensures r.Abort? && r.reason == ExpectedCloseBrace ==>
              r.position == current + 2 < |value| && value[current + 1] == '{' && '}' !in value[r.position..]
  {
    match ParseVariableChunk(value, current)
    case Crash(begin) => Abort(ExpectedCloseBrace, begin)
    case other => other
  }

  /** The step the parse loop takes at `current`. */
  function ParseStep(value: string, current: nat): (r: Step)
    requires current < |value|
    ensures !r.Crash?
    ensures r.Advance? ==> CanonicalChunk(r.chunk) && current < r.next <= |value|
                           && value[current..r.next] == PrintChunk(r.chunk)
    ensures r.Advance? && r.chunk.Literal? ==> (r.next == |value| || value[r.next] == '%')
    ensures r.Advance? && r.chunk.Literal? ==> (value[current] == '%' <==> r.chunk.text[0] == '%')
    ensures r.Abort? ==> value[current] == '%' && current < r.position <= |value|
    ensures r.Abort? && r.reason == ExpectedOpenBrace ==>
              r.position == current + 1 && (r.position == |value| || value[r.position] != '{')
    ensures r.Abort? && r.reason != ExpectedOpenBrace ==>
              r.position == current + 2 && value[current + 1] == '{'
    ensures r.Abort? && r.reason == ExpectedVariableName ==> r.position == |value| || value[r.position] == '}'
    ensures r.Abort? && r.reason == ExpectedCloseBrace ==> '}' !in value[r.position..]
  {
    if AtVariableStart(value, current) then ParseVariableChunkChecked(value, current)
    else ParseStringChunk(value, current)
  }

  // ---------------------------------------------------------------------------
  // Canonical chunk lists determine the steps

  /** Reading `p + tail` at `current`, character by character. */
  lemma PrefixChars(value: string, current: nat, p: string, tail: string)
    requires current <= |value| && value[current..] == p + tail
    ensures |value| == current + |p| + |tail|
    ensures forall k :: 0 <= k < |p| ==> value[current + k] == p[k]
    ensures |tail| > 0 ==> value[current + |p|] == tail[0]
    ensures value[current..current + |p|] == p
  {
    forall k | 0 <= k < |p| ensures value[current + k] == p[k] {
      assert value[current..][k] == (p + tail)[k];
    }
    if |tail| > 0 {
      assert value[current..][|p|] == (p + tail)[|p|];
    }
    assert value[current..current + |p|] == value[current..][..|p|];
  }

  /** Canonical literal text read back from the template holds no '%' after its first
      character. */
  lemma NoPercentAfterFirst(value: string, start: nat, stop: nat, t: string)
    requires start < stop <= |value| && value[start..stop] == t && CanonicalChunk(Literal(t))
    ensures forall i :: start + 1 <= i < stop ==> value[i] != '%'
  {
    forall i | start + 1 <= i < stop ensures value[i] != '%' {
      assert value[start..stop][i - start] == value[i];
    }
  }

  /** The literal step is determined by where its text starts and where the next '%'
      after that is. */
  lemma StringChunkAt(value: string, current: nat, start: nat, stop: nat)
    requires current < |value| && !AtVariableStart(value, current)
    requires start == (if value[current] == '%' then current + 1 else current)
    requires start < stop <= |value|
    requires Strings.IndexOf(value, '%', start + 1) == if stop == |value| then -1 else stop
    ensures ParseStep(value, current) == Advance(Literal(value[start..stop]), stop)
  {
  }

  /** A literal chunk in template form `p` at `current`, followed by a '%' or the end,
      is the chunk the step reads there. */
  lemma StepReadsTemplateLiteral(value: string, current: nat, t: string, p: string, tail: string)
    requires current < |value| && CanonicalChunk(Literal(t))
    requires p == (if t[0] == '%' then "%" + t else t)
    requires value[current..] == p + tail
    requires tail == "" || tail[0] == '%'
    ensures ParseStep(value, current) == Advance(Literal(t), current + |p|)
  {
    PrefixChars(value, current, p, tail);
    var stop := current + |p|;
    var start := if t[0] == '%' then current + 1 else current;
    assert value[start..stop] == t by {
      if t[0] == '%' {
        assert value[current..stop] == "%" + t;
        assert value[start..stop] == value[current..stop][1..];
      }
    }
    assert !AtVariableStart(value, current) && (value[current] == '%' <==> t[0] == '%') by {
      assert t[0] == '%' ==> value[current] == '%' && value[current + 1] == '%';
      assert t[0] != '%' ==> value[current] == t[0];
    }
    assert Strings.IndexOf(value, '%', start + 1) == if stop == |value| then -1 else stop by {
      NoPercentAfterFirst(value, start, stop, t);
      Strings.IndexOfFirst(value, '%', start + 1, stop);
    }
    StringChunkAt(value, current, start, stop);
  }

  /** A literal chunk printed at `current`, followed by a '%' or the end, is the chunk
      the step reads there. */
  lemma StepReadsLiteral(value: string, current: nat, t: string, tail: string)
    requires current < |value| && CanonicalChunk(Literal(t))
    requires value[current..] == Escape(t) + tail
    requires tail == "" || tail[0] == '%'
    ensures ParseStep(value, current) == Advance(Literal(t), current + |Escape(t)|)
  {
    EscapeLiteral(t);
    StepReadsTemplateLiteral(value, current, t, Escape(t), tail);
  }

  /** The variable step is determined by the "%{" at `current`, a non-empty name and
      where the next '}' is. */
  lemma VariableChunkAt(value: string, current: nat, close: nat)
    requires current + 2 < close < |value| && value[current] == '%' && value[current + 1] == '{'
    requires value[current + 2] != '}' && Strings.IndexOf(value, '}', current + 2) == close
    ensures ParseStep(value, current) == Advance(Variable(value[current + 2..close]), close + 1)
  {
    assert AtVariableStart(value, current);
  }

  /** A variable chunk printed at `current` is the chunk the step reads there. */
  lemma StepReadsVariable(value: string, current: nat, n: string, tail: string)
    requires current < |value| && CanonicalChunk(Variable(n))
    requires value[current..] == "%{" + n + "}" + tail
    ensures ParseStep(value, current) == Advance(Variable(n), current + |n| + 3)
  {
    var p := "%{" + n + "}";
    PrefixChars(value, current, p, tail);
    var begin := current + 2;
    var close := begin + |n|;
    assert value[current] == p[0] == '%' && value[current + 1] == p[1] == '{';
    assert value[close] == p[|n| + 2] == '}';
    assert value[begin..close] == n by {
      forall i | 0 <= i < |n| ensures value[begin..close][i] == n[i] {
        assert value[begin + i] == p[i + 2] == n[i];
      }
    }
    assert value[begin] == n[0] != '}';
    assert Strings.IndexOf(value, '}', begin) == close by {
      forall i | begin <= i < close ensures value[i] != '}' {
        assert value[i] == value[begin..close][i - begin];
      }
      Strings.IndexOfFirst(value, '}', begin, close);
    }
    VariableChunkAt(value, current, close);
  }

  /** The print of a canonical list after a literal starts with '%'. */
  lemma PrintAfterLiteral(cs: seq<Chunk>)
    requires Canonical(cs) && |cs| > 1 && cs[0].Literal?
    ensures |Print(cs[1..])| > 0 && Print(cs[1..])[0] == '%'
  {
    assert MayFollow(cs[0], cs[1]);
    var next := cs[1];
    assert cs[1..][0] == next;
    match next
    case Literal(t) =>
      assert Escape(t)[..2] == "%%";
    case Variable(n) =>
  }

  /** The suffix of a canonical list is canonical. */
  lemma CanonicalSuffix(cs: seq<Chunk>, k: nat)
    requires Canonical(cs) && k <= |cs|
    ensures Canonical(cs[k..])
  {
    var rest := cs[k..];
    forall i | 0 < i < |rest|
      ensures MayFollow(rest[i - 1], rest[i])
    {
      assert rest[i - 1] == cs[k + i - 1] && rest[i] == cs[k + i];
    }
  }

  /** Canonical chunks print non-empty text, so only the empty list prints "". */
  lemma CanonicalPrintsNonEmpty(cs: seq<Chunk>)
    requires Canonical(cs) && |cs| > 0
    ensures |Print(cs)| > 0
  {
    assert CanonicalChunk(cs[0]);
    match cs[0]
    case Literal(t) =>
      EscapeLiteral(t);
    case Variable(n) =>
  }

  /** A prefix of `cs` grows by the next element of `cs`. */
  lemma PrefixSnoc<T>(cs: seq<T>, prefix: seq<T>)
    requires |prefix| < |cs| && cs[..|prefix|] == prefix
    ensures cs[..|prefix| + 1] == prefix + [cs[|prefix|]]
  {
    assert cs[..|prefix| + 1] == cs[..|prefix|] + [cs[|prefix|]];
  }

  /** A sequence that starts with `prefix` is `prefix` followed by the rest. */
  lemma PrefixSplit<T>(cs: seq<T>, prefix: seq<T>)
    requires |prefix| <= |cs| && cs[..|prefix|] == prefix
    ensures cs == prefix + cs[|prefix|..]
  {
    assert cs == cs[..|prefix|] + cs[|prefix|..];
  }

  /** Wherever a canonical list prints the rest of the template, the step taken there
      reads that list's first chunk. */
  lemma StepFollowsCanonical(value: string, current: nat, rest: seq<Chunk>)
    requires current < |value| && Canonical(rest) && Print(rest) == value[current..]
    ensures |rest| > 0
    ensures ParseStep(value, current) == Advance(rest[0], current + |PrintChunk(rest[0])|)
  {
    assert |rest| > 0;
    var c := rest[0];
    var tail := Print(rest[1..]);
    assert value[current..] == PrintChunk(c) + tail;
    assert CanonicalChunk(c);
    match c
    case Literal(t) =>
      if |rest| > 1 {
        PrintAfterLiteral(rest);
      } else {
        assert tail == "";
      }
      StepReadsLiteral(value, current, t, tail);
    case Variable(n) =>
      assert PrintChunk(c) + tail == "%{" + n + "}" + tail;
      StepReadsVariable(value, current, n, tail);
  }

  /** A canonical list that prints the template and extends what has been parsed so far
      continues with the chunk the next step reads. */
  lemma CanonicalPrintContinues(value: string, current: nat, chunks: seq<Chunk>, cs: seq<Chunk>)
    requires current < |value| && Canonical(cs) && Print(chunks) == value[..current]
    ensures Print(cs) == value && |chunks| <= |cs| && cs[..|chunks|] == chunks ==>
              |chunks| < |cs| && ParseStep(value, current) == Advance(cs[|chunks|], current + |PrintChunk(cs[|chunks|])|)
  {
    if Print(cs) == value && |chunks| <= |cs| && cs[..|chunks|] == chunks {
      var rest := cs[|chunks|..];
      PrefixSplit(cs, chunks);
      PrintAppend(chunks, rest);
      assert value == value[..current] + value[current..];
      CanonicalSuffix(cs, |chunks|);
      StepFollowsCanonical(value, current, rest);
    }
  }

  /** A canonical list that prints the template and extends a complete parse is it. */
  lemma CanonicalPrintEnds(value: string, chunks: seq<Chunk>, cs: seq<Chunk>)
    requires Canonical(cs) && Print(chunks) == value
    ensures Print(cs) == value && |chunks| <= |cs| && cs[..|chunks|] == chunks ==> cs == chunks
  {
    if Print(cs) == value && |chunks| <= |cs| && cs[..|chunks|] == chunks {
      var rest := cs[|chunks|..];
      PrefixSplit(cs, chunks);
      PrintAppend(chunks, rest);
      CanonicalSuffix(cs, |chunks|);
      if |rest| > 0 {
        CanonicalPrintsNonEmpty(rest);
      }
    }
  }

  /** Adding a chunk the step read keeps the list canonical. */
  lemma CanonicalSnoc(chunks: seq<Chunk>, c: Chunk)
    requires Canonical(chunks) && CanonicalChunk(c)
    requires |chunks| > 0 ==> MayFollow(chunks[|chunks| - 1], c)
    ensures Canonical(chunks + [c])
  {
    var extended := chunks + [c];
    assert forall i :: 0 <= i < |chunks| ==> extended[i] == chunks[i];
  }

  // ---------------------------------------------------------------------------
  // Where a scan can stand

  /** `cs` is how the scanner reads the template up to `current`: canonical chunks
      printing exactly that prefix, a literal last chunk ending before a '%' or at
      the end. */
  predicate ReadsUpTo(value: string, current: nat, cs: seq<Chunk>) {
    && current <= |value| && Canonical(cs) && Print(cs) == value[..current]
    && (|cs| > 0 && cs[|cs| - 1].Literal? ==> current == |value| || value[current] == '%')
  }

  /** A prefix of a canonical list is canonical. */
  lemma CanonicalPrefix(cs: seq<Chunk>, k: nat)
    requires Canonical(cs) && k <= |cs|
    ensures Canonical(cs[..k])
  {
    var init := cs[..k];
    assert forall i :: 0 <= i < k ==> init[i] == cs[i];
  }

  /** A chunk that may follow a literal prints starting with '%'. */
  lemma PrintStartsWithPercent(c: Chunk)
    requires CanonicalChunk(c) && (c.Literal? ==> c.text[0] == '%')
    ensures |PrintChunk(c)| > 0 && PrintChunk(c)[0] == '%'
  {
    match c
    case Literal(t) =>
      assert Escape(t)[..2] == "%%";
    case Variable(n) =>
  }

  /** Splitting a reading at its last chunk: the text before and after it. */
  lemma ReadingSplits(value: string, current: nat, init: seq<Chunk>, c: Chunk)
    requires current <= |value| && Print(init + [c]) == value[..current]
    ensures |Print(init)| + |PrintChunk(c)| == current
    ensures Print(init) == value[..|Print(init)|]
    ensures value[|Print(init)|..] == PrintChunk(c) + value[current..]
  {
    PrintAppend(init, [c]);
    PrintSingle(c);
    SplitPrefix(value, current, Print(init), PrintChunk(c));
  }

  /** A prefix that is `a` then `b`: `a` is a shorter prefix and the rest starts with `b`. */
  lemma SplitPrefix<T>(value: seq<T>, current: nat, a: seq<T>, b: seq<T>)
    requires current <= |value| && a + b == value[..current]
    ensures |a| + |b| == current && a == value[..|a|]
    ensures value[|a|..] == b + value[current..]
  {
    assert value[..current][..|a|] == value[..|a|];
    assert value[|a|..current] == value[..current][|a|..];
    assert value[|a|..] == value[|a|..current] + value[current..];
  }

  /** A shorter prefix of the front is that prefix of the whole. */
  lemma PrefixOfFront<T>(cs: seq<T>, k: nat)
    requires k < |cs|
    ensures cs[..|cs| - 1][..k] == cs[..k]
  {
  }

  /** A non-empty sequence is its front followed by its last element. */
  lemma FrontLast<T>(cs: seq<T>)
    requires |cs| > 0
    ensures cs == cs[..|cs| - 1] + [cs[|cs| - 1]]
  {
  }

  /** The step at the end of a reading without its last chunk reads that chunk. */
  lemma LastChunkRead(value: string, before: nat, current: nat, c: Chunk)
    requires before < |value| && CanonicalChunk(c) && before + |PrintChunk(c)| == current <= |value|
    requires value[before..] == PrintChunk(c) + value[current..]
    requires c.Literal? ==> current == |value| || value[current] == '%'
    ensures ParseStep(value, before) == Advance(c, current)
  {
    var tail := value[current..];
    match c
    case Literal(t) =>
      StepReadsLiteral(value, before, t, tail);
    case Variable(n) =>
      StepReadsVariable(value, before, n, tail);
  }

  /** Where a reading stood before its last chunk. */
  function FrontEnd(current: nat, cs: seq<Chunk>): int
    requires |cs| > 0
  {
    current - |PrintChunk(cs[|cs| - 1])|
  }

  /** A reading with a last chunk is a shorter reading followed by the step that
      reads that chunk. */
  lemma ReadsUpToLast(value: string, current: nat, cs: seq<Chunk>)
    requires ReadsUpTo(value, current, cs) && |cs| > 0
    ensures 0 <= FrontEnd(current, cs) < |value| && ReadsUpTo(value, FrontEnd(current, cs), cs[..|cs| - 1])
    ensures ParseStep(value, FrontEnd(current, cs)) == Advance(cs[|cs| - 1], current)
  {
    ReadsUpToFront(value, current, cs);
    var init := cs[..|cs| - 1];
    var c := cs[|cs| - 1];
    var before := |Print(init)|;
    assert CanonicalChunk(c);
    LastChunkRead(value, before, current, c);
  }

  /** The front of a reading is a reading, ending where the last chunk's text starts. */
  lemma ReadsUpToFront(value: string, current: nat, cs: seq<Chunk>)
    requires ReadsUpTo(value, current, cs) && |cs| > 0
    ensures FrontEnd(current, cs) == |Print(cs[..|cs| - 1])|
    ensures 0 <= FrontEnd(current, cs) < |value| && ReadsUpTo(value, FrontEnd(current, cs), cs[..|cs| - 1])
    ensures value[FrontEnd(current, cs)..] == PrintChunk(cs[|cs| - 1]) + value[current..]
  {
    var init := cs[..|cs| - 1];
    var c := cs[|cs| - 1];
    FrontLast(cs);
    ReadingSplits(value, current, init, c);
    var before := |Print(init)|;
    assert CanonicalChunk(c);
    CanonicalPrefix(cs, |cs| - 1);
    CanonicalPrintsNonEmpty([c]);
    PrintSingle(c);
    if |init| > 0 && init[|init| - 1].Literal? {
      assert MayFollow(cs[|cs| - 2], c);
      PrintStartsWithPercent(c);
      assert value[before] == value[before..][0];
    }
  }

  /** Two readings with as many chunks are the same reading. */
  lemma {:induction false} ReadsUpToSameCount(value: string, c1: nat, cs1: seq<Chunk>, c2: nat, cs2: seq<Chunk>)
    requires ReadsUpTo(value, c1, cs1) && ReadsUpTo(value, c2, cs2) && |cs1| == |cs2|
    ensures c1 == c2 && cs1 == cs2
    decreases |cs1|
  {
    if |cs1| == 0 {
      assert |value[..c1]| == |value[..c2]| == 0;
    } else {
      ReadsUpToLast(value, c1, cs1);
      ReadsUpToLast(value, c2, cs2);
      ReadsUpToSameCount(value, FrontEnd(c1, cs1), cs1[..|cs1| - 1], FrontEnd(c2, cs2), cs2[..|cs2| - 1]);
      FrontLast(cs1);
      FrontLast(cs2);
    }
  }

  /** A longer reading passes through every shorter one, and the step at the end of
      the shorter one advances. */
  lemma {:induction false} ReadingPassesThrough(value: string, c1: nat, cs1: seq<Chunk>, c2: nat, cs2: seq<Chunk>)
    requires ReadsUpTo(value, c1, cs1) && ReadsUpTo(value, c2, cs2) && |cs1| < |cs2|
    ensures c1 < |value| && ParseStep(value, c1).Advance? && cs2[..|cs1|] == cs1
    decreases |cs2|
  {
    ReadsUpToFront(value, c2, cs2);
    var init := cs2[..|cs2| - 1];
    var before := FrontEnd(c2, cs2);
    if |init| == |cs1| {
      ReadsUpToLast(value, c2, cs2);
      ReadsUpToSameCount(value, c1, cs1, before, init);
    } else {
      ReadingPassesThrough(value, c1, cs1, before, init);
      PrefixOfFront(cs2, |cs1|);
    }
  }

  /** No reading goes past one whose next step fails. */
  lemma AbortEndsReading(value: string, c1: nat, cs1: seq<Chunk>, c2: nat, cs2: seq<Chunk>)
    requires ReadsUpTo(value, c1, cs1) && c1 < |value| && ParseStep(value, c1).Abort?
    requires ReadsUpTo(value, c2, cs2)
    ensures |cs2| <= |cs1|
  {
    if |cs1| < |cs2| {
      ReadingPassesThrough(value, c1, cs1, c2, cs2);
      assert false;
    }
  }

  // ---------------------------------------------------------------------------
  // The parse loop

  datatype ParseResult = Parsed(chunks: seq<Chunk>, used: set<string>) | Aborted(reason: ParseError, position: nat, template: string)

  /** What the scan loop knows at `current`: the chunks so far are canonical and print
      the template up to `current`, a literal last chunk ended before a '%' (or at the
      end), and every canonical list that prints the whole template starts with them. */
  ghost predicate Scanned(value: string, current: nat, chunks: seq<Chunk>) {
    && current <= |value|
    && Canonical(chunks) && Print(chunks) == value[..current]
    && (|chunks| > 0 && chunks[|chunks| - 1].Literal? ==> current == |value| || value[current] == '%')
    && forall cs :: PrintsTo(cs, value) ==> |chunks| <= |cs| && cs[..|chunks|] == chunks
  }

  /** Every canonical print of the template continues with the chunk an advancing
      step reads. */
  lemma AdvanceExtendsEveryPrint(value: string, current: nat, chunks: seq<Chunk>)
    requires current < |value| && Scanned(value, current, chunks) && ParseStep(value, current).Advance?
    ensures forall cs :: PrintsTo(cs, value) ==>
              |chunks| < |cs| && cs[..|chunks| + 1] == chunks + [ParseStep(value, current).chunk]
  {
    var c := ParseStep(value, current).chunk;
    forall cs | PrintsTo(cs, value)
      ensures |chunks| < |cs| && cs[..|chunks| + 1] == chunks + [c]
    {
      CanonicalPrintContinues(value, current, chunks, cs);
      PrefixSnoc(cs, chunks);
    }
  }

  /** An advancing step keeps what the loop knows. */
  lemma AdvanceKeepsScanned(value: string, current: nat, chunks: seq<Chunk>)
    requires current < |value| && Scanned(value, current, chunks) && ParseStep(value, current).Advance?
    ensures Scanned(value, ParseStep(value, current).next, chunks + [ParseStep(value, current).chunk])
  {
    AdvanceExtendsEveryPrint(value, current, chunks);
    AdvancePrintsFurther(value, current, chunks);
    AdvanceStaysCanonical(value, current, chunks);
  }

  /** The chunk an advancing step reads prints the text it advanced over. */
  lemma AdvancePrintsFurther(value: string, current: nat, chunks: seq<Chunk>)
    requires current < |value| && Print(chunks) == value[..current] && ParseStep(value, current).Advance?
    ensures Print(chunks + [ParseStep(value, current).chunk]) == value[..ParseStep(value, current).next]
  {
    var step := ParseStep(value, current);
    PrintSnoc(chunks, step.chunk, value, current, step.next);
  }

  /** A chunk printing the text after what a list prints extends that print. */
  lemma PrintSnoc(chunks: seq<Chunk>, c: Chunk, value: string, lo: nat, hi: nat)
    requires lo <= hi <= |value| && Print(chunks) == value[..lo] && value[lo..hi] == PrintChunk(c)
    ensures Print(chunks + [c]) == value[..hi]
  {
    PrintAppend(chunks, [c]);
    PrintSingle(c);
    PrefixJoin(value, lo, hi);
  }

  /** A prefix is a shorter prefix followed by the slice between them. */
  lemma PrefixJoin<T>(s: seq<T>, lo: nat, hi: nat)
    requires lo <= hi <= |s|
    ensures s[..hi] == s[..lo] + s[lo..hi]
  {
  }

  lemma PrintSingle(c: Chunk)
    ensures Print([c]) == PrintChunk(c)
  {
    assert [c][1..] == [];
  }

  /** The chunk an advancing step reads may follow the last chunk read, because a
      literal ends only before a '%'. */
  lemma AdvanceStaysCanonical(value: string, current: nat, chunks: seq<Chunk>)
    requires current < |value| && Canonical(chunks) && ParseStep(value, current).Advance?
    requires |chunks| > 0 && chunks[|chunks| - 1].Literal? ==> value[current] == '%'
    ensures Canonical(chunks + [ParseStep(value, current).chunk])
  {
    CanonicalSnoc(chunks, ParseStep(value, current).chunk);
  }

  /** A failing step rules out every canonical print of the template. */
  lemma AbortRulesOutPrints(value: string, current: nat, chunks: seq<Chunk>)
    requires current < |value| && Scanned(value, current, chunks) && ParseStep(value, current).Abort?
    ensures forall cs :: !PrintsTo(cs, value)
  {
    forall cs ensures !PrintsTo(cs, value) {
      if Canonical(cs) {
        CanonicalPrintContinues(value, current, chunks, cs);
      }
    }
  }

  /** Where a failing step reports its error: just past the '%' without a '{', or
      just past the '{' with no name or no closing '}'. */
  lemma AbortPosition(value: string, current: nat)
    requires current < |value| && ParseStep(value, current).Abort?
    ensures var r := Aborted(ParseStep(value, current).reason, ParseStep(value, current).position, value);
            && 0 < r.position <= |value| && (value[r.position - 1] == '%' || value[r.position - 1] == '{')
            && (r.reason == ExpectedOpenBrace ==>
                  value[r.position - 1] == '%' && (r.position == |value| || value[r.position] != '{'))
            && (r.reason == ExpectedVariableName ==>
                  value[r.position - 1] == '{' && (r.position == |value| || value[r.position] == '}'))
            && (r.reason == ExpectedCloseBrace ==>
                  value[r.position - 1] == '{' && '}' !in value[r.position..])
  {
  }

  /** At the end of the template the chunks are its only canonical print. */
  lemma ScannedToEnd(value: string, chunks: seq<Chunk>, used: set<string>)
    requires Scanned(value, |value|, chunks) && used == VariableNames(chunks)
    ensures Print(chunks) == value
    ensures forall cs :: PrintsTo(cs, value) ==> Parsed(chunks, used) == Parsed(cs, VariableNames(cs))
  {
    assert value[..|value|] == value;
    forall cs | PrintsTo(cs, value)
      ensures Parsed(chunks, used) == Parsed(cs, VariableNames(cs))
    {
      CanonicalPrintEnds(value, chunks, cs);
    }
  }

  /** What the parser promises about its result for `value`: success exactly on the
      templates a canonical chunk list prints to, with that list; otherwise an abort
      from the step that fails after a reading of the template, positioned just past
      the '%' or '{' that went wrong. */
  ghost predicate ParseOutcome(value: string, r: ParseResult) {
    && (r.Parsed? ==> PrintsTo(r.chunks, value) && r.used == VariableNames(r.chunks))
    && (forall cs :: PrintsTo(cs, value) ==> r == Parsed(cs, VariableNames(cs)))
    && (r.Aborted? ==> r.template == value && forall cs :: !PrintsTo(cs, value))
    && (r.Aborted? ==> 0 < r.position <= |value| && (value[r.position - 1] == '%' || value[r.position - 1] == '{'))
    && (r.Aborted? && r.reason == ExpectedOpenBrace ==>
          value[r.position - 1] == '%' && (r.position == |value| || value[r.position] != '{'))
    && (r.Aborted? && r.reason == ExpectedVariableName ==>
          value[r.position - 1] == '{' && (r.position == |value| || value[r.position] == '}'))
    && (r.Aborted? && r.reason == ExpectedCloseBrace ==>
          value[r.position - 1] == '{' && '}' !in value[r.position..])
    && (r.Aborted? ==> exists current: nat, cs :: AbortsAfter(value, current, cs, r.reason, r.position))
  }

  /** The scanner reads the template up to `current` as `cs` and the step there fails
      with `reason` at `position`. */
  predicate AbortsAfter(value: string, current: nat, cs: seq<Chunk>, reason: ParseError, position: nat) {
    ReadsUpTo(value, current, cs) && current < |value| && ParseStep(value, current) == Abort(reason, position)
  }

  /** The parser's promise determines its result: two results that both keep it are
      the same, so an abort names the first malformed placeholder and no other. */
  lemma ParseOutcomeUnique(value: string, r1: ParseResult, r2: ParseResult)
    requires ParseOutcome(value, r1) && ParseOutcome(value, r2)
    ensures r1 == r2
  {
    if r1.Parsed? || r2.Parsed? {
      var parsed := if r1.Parsed? then r1 else r2;
      assert PrintsTo(parsed.chunks, value);
    } else {
      var c1: nat, cs1 :| AbortsAfter(value, c1, cs1, r1.reason, r1.position);
      var c2: nat, cs2 :| AbortsAfter(value, c2, cs2, r2.reason, r2.position);
      AbortEndsReading(value, c1, cs1, c2, cs2);
      AbortEndsReading(value, c2, cs2, c1, cs1);
      ReadsUpToSameCount(value, c1, cs1, c2, cs2);
    }
  }

  /** Aborting where a step fails meets the parser's promise. */
  lemma AbortOutcome(value: string, current: nat, chunks: seq<Chunk>)
    requires current < |value| && Scanned(value, current, chunks) && ParseStep(value, current).Abort?
    ensures ParseOutcome(value, Aborted(ParseStep(value, current).reason, ParseStep(value, current).position, value))
  {
    AbortRulesOutPrints(value, current, chunks);
    AbortPosition(value, current);
    assert AbortsAfter(value, current, chunks, ParseStep(value, current).reason, ParseStep(value, current).position);
  }

  /** In "%x%{}" the first '%' lacks its '{': that is the error reported, not the
      empty name at the second placeholder. */
  lemma FirstMalformedPlaceholderReported(r: ParseResult)
    requires ParseOutcome("%x%{}", r)
    ensures r == Aborted(ExpectedOpenBrace, 1, "%x%{}")
  {
    var value := "%x%{}";
    assert ParseStep(value, 0) == Abort(ExpectedOpenBrace, 1) by {
      assert value[0] == '%' && value[1] == 'x';
    }
    assert Scanned(value, 0, []) by {
      assert value[..0] == [];
    }
    AbortOutcome(value, 0, []);
    ParseOutcomeUnique(value, r, Aborted(ExpectedOpenBrace, 1, value));
  }

  /** Returning the chunks once the whole template is scanned meets the parser's promise. */
  lemma ParsedOutcome(value: string, chunks: seq<Chunk>, used: set<string>)
    requires Scanned(value, |value|, chunks) && used == VariableNames(chunks)
    ensures ParseOutcome(value, Parsed(chunks, used))
  {
    ScannedToEnd(value, chunks, used);
  }

  /** The scan loop of `parse`: a variable at every '%' not followed by '%', a literal
      otherwise, until the end or the first malformed placeholder. */
  method Scan(value: string) returns (r: ParseResult)
    ensures ParseOutcome(value, r)
  {
    var current: nat := 0;
    var chunks: seq<Chunk> := [];
    var used: set<string> := {};
    while current < |value|
      invariant Scanned(value, current, chunks)
      invariant used == VariableNames(chunks)
      decreases |value| - current
    {
      var step := ParseStep(value, current);
      if step.Abort? {
        AbortOutcome(value, current, chunks);
        return Aborted(step.reason, step.position, value);
      }
      AdvanceKeepsScanned(value, current, chunks);
      VariableNamesSnoc(chunks, step.chunk);
      chunks := chunks + [step.chunk];
      used := if step.chunk.Variable? then used + {step.chunk.name} else used;
      current := step.next;
    }
    ParsedOutcome(value, chunks, used);
    return Parsed(chunks, used);
  }

  /** The parser: scan `value` left to right, a variable at every '%' not followed by
      '%', a literal otherwise. It succeeds exactly on the templates a canonical chunk
      list prints to, and then returns that list. */
  method Parse(value: string) returns (r: ParseResult)
    ensures r.Parsed? ==> PrintsTo(r.chunks, value) && r.used == VariableNames(r.chunks)
    ensures forall cs :: PrintsTo(cs, value) ==> r == Parsed(cs, VariableNames(cs))
    ensures r.Aborted? ==> r.template == value && forall cs :: !PrintsTo(cs, value)
    ensures r.Aborted? ==> 0 < r.position <= |value| && (value[r.position - 1] == '%' || value[r.position - 1] == '{')
    ensures r.Aborted? && r.reason == ExpectedOpenBrace ==>
              value[r.position - 1] == '%' && (r.position == |value| || value[r.position] != '{')
    ensures r.Aborted? && r.reason == ExpectedVariableName ==>
              value[r.position - 1] == '{' && (r.position == |value| || value[r.position] == '}')
    ensures r.Aborted? && r.reason == ExpectedCloseBrace ==>
              value[r.position - 1] == '{' && '}' !in value[r.position..]
    ensures r.Aborted? ==> exists current: nat, cs :: AbortsAfter(value, current, cs, r.reason, r.position)
  {
    r := Scan(value);
  }

  /** The message an aborted parse raises. */
  function AbortMessage(reason: ParseError, position: nat, template: string): (m: string)
    ensures |Values.CONFIG_ERROR| < |m|
    ensures m[..|Values.CONFIG_ERROR|] == Values.CONFIG_ERROR
  {
    var error := match reason
      case ExpectedOpenBrace => "expected '{'"
      case ExpectedVariableName => "expected variable name"
      case ExpectedCloseBrace => "expected '}'";
    Values.CONFIG_ERROR + error + " at position " + Strings.NatToString(position)
    + " while parsing a flag containing '" + template + "'"
  }

  // ---------------------------------------------------------------------------
  // The documented examples

  /** Printing one more chunk in front. */
  lemma PrintCons(c: Chunk, cs: seq<Chunk>)
    ensures Print([c] + cs) == PrintChunk(c) + Print(cs)
  {
    assert ([c] + cs)[1..] == cs;
  }

  /** The chunks of the documented example "-f %{var1}/%{var2}". */
  function DocumentedChunks(): seq<Chunk> {
    [Literal("-f "), Variable("var1"), Literal("/"), Variable("var2")]
  }

  /** Printing a non-empty list: its first chunk's form, then the rest's. */
  lemma PrintStep(cs: seq<Chunk>, head: string, rest: string)
    requires |cs| > 0 && PrintChunk(cs[0]) == head && Print(cs[1..]) == rest
    ensures Print(cs) == head + rest
  {
  }

  /** The pieces of the documented template, joined back to back. */
  lemma DocumentedTemplateJoins()
    ensures "%{" + "var1" + "}" == "%{var1}" && "%{" + "var2" + "}" == "%{var2}"
    ensures "%{var2}" + "" == "%{var2}"
    ensures "/" + "%{var2}" == "/%{var2}"
    ensures "%{var1}" + "/%{var2}" == "%{var1}/%{var2}"
    ensures "-f " + "%{var1}/%{var2}" == "-f %{var1}/%{var2}"
  {
  }

  lemma DocumentedChunksPrint()
    ensures Print(DocumentedChunks()) == "-f %{var1}/%{var2}"
  {
    var cs := DocumentedChunks();
    DocumentedTemplateJoins();
    assert '%' !in "-f " && '%' !in "/";
    assert |cs[4..]| == 0;
    PrintStep(cs[3..], "%{var2}", "");
    PrintStep(cs[2..], "/", "%{var2}");
    PrintStep(cs[1..], "%{var1}", "/%{var2}");
    PrintStep(cs, "-f ", "%{var1}/%{var2}");
  }

  lemma DocumentedChunksNames()
    ensures VariableNames(DocumentedChunks()) == {"var1", "var2"}
  {
    var cs := DocumentedChunks();
    assert cs[1].name == "var1" && cs[3].name == "var2";
  }

  lemma DocumentedChunksCanonical()
    ensures Canonical(DocumentedChunks())
  {
    var cs := DocumentedChunks();
    assert CanonicalChunk(cs[0]) && CanonicalChunk(cs[2]);
  }

  /** "-f %{var1}/%{var2}" is "-f ", var1, "/", var2. */
  lemma DocumentedExample()
    ensures var cs := [Literal("-f "), Variable("var1"), Literal("/"), Variable("var2")];
            Canonical(cs) && Print(cs) == "-f %{var1}/%{var2}" && VariableNames(cs) == {"var1", "var2"}
  {
    DocumentedChunksCanonical();
    DocumentedChunksPrint();
    DocumentedChunksNames();
  }

  /** The pieces of "abc%%def", joined back to back. */
  lemma EscapedTemplateJoins()
    ensures "%" + "%def" == "%%def"
    ensures "%%def" + "" == "%%def"
    ensures "abc" + "%%def" == "abc%%def"
  {
  }

  /** "abc" prints as itself. */
  lemma PlainChunkForm()
    ensures PrintChunk(Literal("abc")) == "abc"
  {
    assert '%' !in "abc";
  }

  /** "%def" prints with its '%' doubled. */
  lemma EscapedChunkForm()
    ensures PrintChunk(Literal("%def")) == "%%def"
  {
    var t := "%def";
    assert t[1] == 'd' && t[2] == 'e' && t[3] == 'f';
    assert '%' !in t[1..] by {
      forall i | 0 <= i < |t[1..]| ensures t[1..][i] != '%' {
        assert t[1..][i] == t[i + 1];
      }
    }
    EscapeLeadingPercent(t);
    EscapedTemplateJoins();
  }

  /** A text with '%' only first escapes to one more '%' in front. */
  lemma EscapeLeadingPercent(t: string)
    requires |t| > 0 && t[0] == '%' && '%' !in t[1..]
    ensures Escape(t) == "%" + t
  {
    DoubledFirst(t);
  }

  lemma EscapedLiteralPrint()
    ensures Print([Literal("abc"), Literal("%def")]) == "abc%%def"
  {
    var cs := [Literal("abc"), Literal("%def")];
    PlainChunkForm();
    EscapedChunkForm();
    EscapedTemplateJoins();
    assert |cs[2..]| == 0;
    PrintStep(cs[1..], "%%def", "");
    PrintStep(cs, "abc", "%%def");
  }

  lemma EscapedLiteralCanonical()
    ensures Canonical([Literal("abc"), Literal("%def")])
  {
    var t := "%def";
    assert t[1] == 'd' && t[2] == 'e' && t[3] == 'f';
    assert CanonicalChunk(Literal(t));
    assert CanonicalChunk(Literal("abc"));
  }

  /** "abc%%def" is the two literals "abc" and "%def". */
  lemma EscapeSplitsLiterals()
    ensures var cs := [Literal("abc"), Literal("%def")];
            Canonical(cs) && Print(cs) == "abc%%def"
  {
    EscapedLiteralCanonical();
    EscapedLiteralPrint();
  }

  /** The pieces of "100%%", joined back to back. */
  lemma TrailingTemplateJoins()
    ensures "%%" + "" == "%%"
    ensures "100" + "%%" == "100%%"
  {
  }

  /** "100" prints as itself, "%" doubled. */
  lemma TrailingChunkForms()
    ensures PrintChunk(Literal("100")) == "100" && PrintChunk(Literal("%")) == "%%"
  {
    assert Escape("%") == "%%";
    assert '%' !in "100";
  }

  lemma TrailingEscapePrint()
    ensures Print([Literal("100"), Literal("%")]) == "100%%"
  {
    var cs := [Literal("100"), Literal("%")];
    TrailingChunkForms();
    TrailingTemplateJoins();
    assert |cs[2..]| == 0;
    PrintStep(cs[1..], "%%", "");
    PrintStep(cs, "100", "%%");
  }

  /** "100%%" is "100" and "%". */
  lemma TrailingEscape()
    ensures var cs := [Literal("100"), Literal("%")];
            Canonical(cs) && Print(cs) == "100%%"
  {
    assert CanonicalChunk(Literal("100")) && CanonicalChunk(Literal("%"));
    TrailingEscapePrint();
  }
}
