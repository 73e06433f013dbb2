/** The lines that a whole-corpus process prints, and how they are read back. */
module CorpusStream {
  import opened Options

  const CASE_RESULT_PREFIX := "BS_CASE_RESULT "
  const CASE_GUARD_PREFIX := "BS_CASE_RAN "
  const CORPUS_PLAN_PREFIX := "BS_CORPUS_PLAN "
  const CORPUS_COMPLETE_PREFIX := "BS_CORPUS_COMPLETE "

  /** A decoded document.  Anything of another shape is `OtherJson`; what is not
      JSON at all raises. */
  datatype Json =
    | NotJson
    | NullJson
    | OtherJson
    | Plan(planned: int, order: string, root: string, shard: int, shards: int, total: int, start: int)
    | Completion(planned: int, completed: int, shard: int, shards: int)

  type Decoder = string -> Json

  /** A guarded case: its name and its result payload. */
  type Pair = (string, string)

  datatype Stream = Stream(plan: Option<Json>, completion: Option<Json>, pairs: seq<Pair>, pending: Option<string>)

  /** A null document is as good as none. */
  function Document(j: Json): Option<Json> {
    if j.NullJson? then None else Some(j)
  }

  const EMPTY := Stream(None, None, [], None)

  /** One line: what is known so far afterwards, or none if the line is refused. */
  function ReadLine(decode: Decoder, s: Stream, line: string): Option<Stream> {
    if CASE_RESULT_PREFIX <= line then
      if s.pending.Some? then None else Some(s.(pending := Some(line[|CASE_RESULT_PREFIX|..])))
    else if CASE_GUARD_PREFIX <= line then
      if s.pending.None? then None
      else Some(s.(pairs := s.pairs + [(line[|CASE_GUARD_PREFIX|..], s.pending.value)], pending := None))
    else if CORPUS_PLAN_PREFIX <= line then
      if s.plan.Some? || decode(line[|CORPUS_PLAN_PREFIX|..]).NotJson? then None
      else Some(s.(plan := Document(decode(line[|CORPUS_PLAN_PREFIX|..]))))
    else if CORPUS_COMPLETE_PREFIX <= line then
      if s.completion.Some? || decode(line[|CORPUS_COMPLETE_PREFIX|..]).NotJson? then None
      else Some(s.(completion := Document(decode(line[|CORPUS_COMPLETE_PREFIX|..]))))
    else Some(s)
  }

  function ReadLines(decode: Decoder, lines: seq<string>): Option<Stream> {
    if lines == [] then Some(EMPTY)
    else
      var before := ReadLines(decode, lines[..|lines| - 1]);
      if before.None? then None else ReadLine(decode, before.value, lines[|lines| - 1])
  }

  function ParsedStream(decode: Decoder, lines: seq<string>): Option<Stream> {
    var read := ReadLines(decode, lines);
    if read.None? || read.value.pending.Some? then None else read
  }

  lemma {:induction false} RefusedForGood(decode: Decoder, lines: seq<string>, i: nat)
    requires i <= |lines| && ReadLines(decode, lines[..i]).None?
    ensures ReadLines(decode, lines).None?
    decreases |lines| - i
  {
    if i < |lines| {
      assert lines[..i + 1][..i] == lines[..i];
      RefusedForGood(decode, lines, i + 1);
    } else {
      assert lines[..i] == lines;
    }
  }

  method ParseWholeCorpusStream(decode: Decoder, lines: seq<string>) returns (r: Option<Stream>)
    ensures r == ParsedStream(decode, lines)
  {
    var plan: Option<Json>, completion: Option<Json>, pending: Option<string> := None, None, None;
    var pairs: seq<Pair> := [];
    for i := 0 to |lines|
      invariant ReadLines(decode, lines[..i]) == Some(Stream(plan, completion, pairs, pending))
    {
      var line := lines[i];
      assert lines[..i + 1][..i] == lines[..i];
      if ReadLines(decode, lines[..i + 1]).None? { RefusedForGood(decode, lines, i + 1); }
      if CASE_RESULT_PREFIX <= line {
        if pending.Some? { return None; }
        pending := Some(line[|CASE_RESULT_PREFIX|..]);
      } else if CASE_GUARD_PREFIX <= line {
        if pending.None? { return None; }
        pairs := pairs + [(line[|CASE_GUARD_PREFIX|..], pending.value)];
        pending := None;
      } else if CORPUS_PLAN_PREFIX <= line {
        if plan.Some? { return None; }
        var document := decode(line[|CORPUS_PLAN_PREFIX|..]);
        if document.NotJson? { return None; }
        plan := Document(document);
      } else if CORPUS_COMPLETE_PREFIX <= line {
        if completion.Some? { return None; }
        var document := decode(line[|CORPUS_COMPLETE_PREFIX|..]);
        if document.NotJson? { return None; }
        completion := Document(document);
      }
    }
    assert lines[..|lines|] == lines;
    if pending.Some? { return None; }
    return Some(Stream(plan, completion, pairs, pending));
  }

  // ---------------------------------------------------------------- what is accepted

  predicate IsCaseLine(line: string) {
    CASE_RESULT_PREFIX <= line || CASE_GUARD_PREFIX <= line
  }

  predicate IsPlanLine(line: string) {
    !IsCaseLine(line) && CORPUS_PLAN_PREFIX <= line
  }

  predicate IsCompletionLine(line: string) {
    !IsCaseLine(line) && !IsPlanLine(line) && CORPUS_COMPLETE_PREFIX <= line
  }

  function Keep(f: string -> bool, lines: seq<string>): seq<string> {
    if lines == [] then []
    else
      var front := Keep(f, lines[..|lines| - 1]);
      if f(lines[|lines| - 1]) then front + [lines[|lines| - 1]] else front
  }

  /** What a process prints for the cases it evaluated. */
  function Emitted(pairs: seq<Pair>): seq<string> {
    if pairs == [] then []
    else
      var last := pairs[|pairs| - 1];
      Emitted(pairs[..|pairs| - 1]) + [CASE_RESULT_PREFIX + last.1, CASE_GUARD_PREFIX + last.0]
  }

  function Pending(pending: Option<string>): seq<string> {
    if pending.None? then [] else [CASE_RESULT_PREFIX + pending.value]
  }

  /** All documents are JSON, and only the last one may not be null. */
  predicate OneDocument(decode: Decoder, prefix: string, lines: seq<string>, document: Option<Json>) {
    && (forall i :: 0 <= i < |lines| ==> prefix <= lines[i] && !decode(lines[i][|prefix|..]).NotJson?)
    && (forall i :: 0 <= i < |lines| - 1 ==> decode(lines[i][|prefix|..]).NullJson?)
    && document == if lines == [] then None else Document(decode(lines[|lines| - 1][|prefix|..]))
  }

  predicate Explains(decode: Decoder, lines: seq<string>, s: Stream) {
    && Keep(IsCaseLine, lines) == Emitted(s.pairs) + Pending(s.pending)
    && OneDocument(decode, CORPUS_PLAN_PREFIX, Keep(IsPlanLine, lines), s.plan)
    && OneDocument(decode, CORPUS_COMPLETE_PREFIX, Keep(IsCompletionLine, lines), s.completion)
  }

  lemma DifferAt(p: string, q: string, line: string, i: nat)
    requires i < |p| && i < |q| && p[i] != q[i]
    ensures !(p <= line && q <= line)
  {
    assert p <= line ==> i < |line| && line[i] == p[i];
  }

  lemma PrefixesDiffer(line: string)
    ensures !(CASE_RESULT_PREFIX <= line && CASE_GUARD_PREFIX <= line)
  {
    DifferAt(CASE_RESULT_PREFIX, CASE_GUARD_PREFIX, line, 9);
  }

  /** A line is its prefix and what is behind it. */
  lemma Cut(prefix: string, line: string)
    requires prefix <= line
    ensures prefix + line[|prefix|..] == line
  {
  }

  lemma Joined(prefix: string, text: string)
    ensures prefix <= prefix + text && (prefix + text)[|prefix|..] == text
  {
  }

  lemma LastOf(a: seq<string>, x: string, b: seq<string>, y: string)
    ensures a + [x] == b + [y] <==> a == b && x == y
  {
    if a + [x] == b + [y] {
      assert (a + [x])[|a|] == x && (b + [y])[|b|] == y;
      assert (a + [x])[..|a|] == a && (b + [y])[..|b|] == b;
    }
  }

  lemma ResultLineRead(decode: Decoder, front: seq<string>, line: string, s: Stream)
    requires CASE_RESULT_PREFIX <= line
    ensures Explains(decode, front + [line], s) <==>
            s.pending == Some(line[|CASE_RESULT_PREFIX|..]) && Explains(decode, front, s.(pending := None))
  {
    var lines := front + [line];
    assert lines[..|lines| - 1] == front && lines[|lines| - 1] == line;
    PrefixesDiffer(line);
    Cut(CASE_RESULT_PREFIX, line);
    var kept := Keep(IsCaseLine, front);
    if s.pending.Some? {
      Joined(CASE_RESULT_PREFIX, s.pending.value);
      LastOf(kept, line, Emitted(s.pairs), CASE_RESULT_PREFIX + s.pending.value);
      assert Emitted(s.pairs) + [] == Emitted(s.pairs);
    } else if Explains(decode, lines, s) {
      assert kept + [line] == Emitted(s.pairs);
      EndsWithGuard(s.pairs);
    }
  }

  lemma EndsWithGuard(pairs: seq<Pair>)
    ensures pairs != [] ==> Emitted(pairs) != [] && CASE_GUARD_PREFIX <= Emitted(pairs)[|Emitted(pairs)| - 1]
    ensures pairs == [] ==> Emitted(pairs) == []
  {
    if pairs != [] {
      Joined(CASE_GUARD_PREFIX, pairs[|pairs| - 1].0);
    }
  }

  lemma GuardLineRead(decode: Decoder, front: seq<string>, line: string, s: Stream)
    requires CASE_GUARD_PREFIX <= line
    ensures Explains(decode, front + [line], s) <==>
            && s.pending.None? && s.pairs != [] && s.pairs[|s.pairs| - 1].0 == line[|CASE_GUARD_PREFIX|..]
            && Explains(decode, front, s.(pairs := s.pairs[..|s.pairs| - 1], pending := Some(s.pairs[|s.pairs| - 1].1)))
  {
    var lines := front + [line];
    assert lines[..|lines| - 1] == front && lines[|lines| - 1] == line;
    PrefixesDiffer(line);
    Cut(CASE_GUARD_PREFIX, line);
    var kept := Keep(IsCaseLine, front);
    if s.pending.Some? {
      PrefixesDiffer(CASE_RESULT_PREFIX + s.pending.value);
      Joined(CASE_RESULT_PREFIX, s.pending.value);
      LastOf(kept, line, Emitted(s.pairs), CASE_RESULT_PREFIX + s.pending.value);
    } else if s.pairs != [] {
      var n := |s.pairs| - 1;
      var result, guard := CASE_RESULT_PREFIX + s.pairs[n].1, CASE_GUARD_PREFIX + s.pairs[n].0;
      Joined(CASE_GUARD_PREFIX, s.pairs[n].0);
      assert Emitted(s.pairs) + [] == (Emitted(s.pairs[..n]) + [result]) + [guard];
      LastOf(kept, line, Emitted(s.pairs[..n]) + [result], guard);
    }
  }

  lemma OneMore(decode: Decoder, prefix: string, front: seq<string>, line: string, document: Option<Json>)
    requires prefix <= line
    ensures OneDocument(decode, prefix, front + [line], document) <==>
            && !decode(line[|prefix|..]).NotJson? && document == Document(decode(line[|prefix|..]))
            && OneDocument(decode, prefix, front, None)
  {
    var lines := front + [line];
    assert forall i :: 0 <= i < |front| ==> lines[i] == front[i];
    assert lines[|front|] == line;
  }

  lemma CompletionLineRead(decode: Decoder, front: seq<string>, line: string, s: Stream)
    requires IsCompletionLine(line)
    ensures Explains(decode, front + [line], s) <==>
            && !decode(line[|CORPUS_COMPLETE_PREFIX|..]).NotJson?
            && s.completion == Document(decode(line[|CORPUS_COMPLETE_PREFIX|..]))
            && Explains(decode, front, s.(completion := None))
  {
    var lines := front + [line];
    assert lines[..|lines| - 1] == front && lines[|lines| - 1] == line;
    OneMore(decode, CORPUS_COMPLETE_PREFIX, Keep(IsCompletionLine, front), line, s.completion);
  }

  lemma PlanLineRead(decode: Decoder, front: seq<string>, line: string, s: Stream)
    requires IsPlanLine(line)
    ensures Explains(decode, front + [line], s) <==>
            && !decode(line[|CORPUS_PLAN_PREFIX|..]).NotJson?
            && s.plan == Document(decode(line[|CORPUS_PLAN_PREFIX|..]))
            && Explains(decode, front, s.(plan := None))
  {
    var lines := front + [line];
    assert lines[..|lines| - 1] == front && lines[|lines| - 1] == line;
    OneMore(decode, CORPUS_PLAN_PREFIX, Keep(IsPlanLine, front), line, s.plan);
  }

  /** The stream before a guard line. */
  function BeforeGuard(s: Stream): Stream
    requires s.pairs != []
  {
    s.(pairs := s.pairs[..|s.pairs| - 1], pending := Some(s.pairs[|s.pairs| - 1].1))
  }

  lemma GuardStep(decode: Decoder, before: Stream, line: string, s: Stream)
    requires CASE_GUARD_PREFIX <= line
    ensures ReadLine(decode, before, line) == Some(s) <==>
            && s.pending.None? && s.pairs != [] && s.pairs[|s.pairs| - 1].0 == line[|CASE_GUARD_PREFIX|..]
            && before == BeforeGuard(s)
  {
    PrefixesDiffer(line);
    if before.pending.Some? {
      var last := (line[|CASE_GUARD_PREFIX|..], before.pending.value);
      assert (before.pairs + [last])[..|before.pairs|] == before.pairs;
    }
    if s.pairs != [] {
      assert s.pairs == s.pairs[..|s.pairs| - 1] + [s.pairs[|s.pairs| - 1]];
    }
  }

  lemma LinesBefore(decode: Decoder, front: seq<string>, line: string)
    ensures ReadLines(decode, front + [line]) ==
            var before := ReadLines(decode, front); if before.None? then None else ReadLine(decode, before.value, line)
  {
    assert (front + [line])[..|front|] == front;
  }

  /** What is read is exactly what was printed, through any other lines. */
  lemma {:induction false} ReadIffPrinted(decode: Decoder, lines: seq<string>, s: Stream)
    ensures ReadLines(decode, lines) == Some(s) <==> Explains(decode, lines, s)
    decreases |lines|
  {
    if lines == [] {
      EndsWithGuard(s.pairs);
      assert Emitted([]) + Pending(None) == [];
    } else {
      var front, line := lines[..|lines| - 1], lines[|lines| - 1];
      assert lines == front + [line];
      LinesBefore(decode, front, line);
      if CASE_RESULT_PREFIX <= line {
        ResultLineRead(decode, front, line, s);
        ReadIffPrinted(decode, front, s.(pending := None));
      } else if CASE_GUARD_PREFIX <= line {
        GuardLineRead(decode, front, line, s);
        if s.pairs != [] { ReadIffPrinted(decode, front, BeforeGuard(s)); }
        var before := ReadLines(decode, front);
        if before.Some? { GuardStep(decode, before.value, line, s); }
      } else if CORPUS_PLAN_PREFIX <= line {
        PlanLineRead(decode, front, line, s);
        ReadIffPrinted(decode, front, s.(plan := None));
      } else if CORPUS_COMPLETE_PREFIX <= line {
        CompletionLineRead(decode, front, line, s);
        ReadIffPrinted(decode, front, s.(completion := None));
      } else {
        ReadIffPrinted(decode, front, s);
      }
    }
  }

  /** A stream is accepted exactly if its case lines are guarded results and
      nothing else, and at most the last plan and the last completion are not
      null. */
  lemma StreamIsReadBack(decode: Decoder, lines: seq<string>, s: Stream)
    ensures ParsedStream(decode, lines) == Some(s) <==>
      && s.pending == None
      && Keep(IsCaseLine, lines) == Emitted(s.pairs)
      && OneDocument(decode, CORPUS_PLAN_PREFIX, Keep(IsPlanLine, lines), s.plan)
      && OneDocument(decode, CORPUS_COMPLETE_PREFIX, Keep(IsCompletionLine, lines), s.completion)
  {
    ReadIffPrinted(decode, lines, s);
    assert Emitted(s.pairs) + [] == Emitted(s.pairs);
  }
}
