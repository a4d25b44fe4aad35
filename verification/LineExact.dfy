/**
  What the line stream delivers, said of the bytes of the body alone: which lines it has, what
  is trimmed off them, what the parser is shown and what becomes of its answers.
 */
module LineExact {
  import opened Proto
  import opened LineStream
  import opened LineTheorems

  // ----- trimming -----

  /** `t` is `line` without its trailing CRs, all of them and nothing else. */
  predicate IsTrim(line: Bytes, t: Bytes) {
    && |t| <= |line| && (forall i :: 0 <= i < |t| ==> t[i] == line[i])
    && (forall i :: |t| <= i < |line| ==> line[i] == CR)
    && (t != [] ==> t[|t| - 1] != CR)
  }

  lemma {:induction false} TrimIsExact(line: Bytes, t: Bytes)
    ensures TrimCr(line) == t <==> IsTrim(line, t)
    decreases |line|
  {
    if line != [] && line[|line| - 1] == CR {
      TrimIsExact(line[..|line| - 1], t);
      if IsTrim(line, t) {
        assert |t| < |line|;
      }
    } else if IsTrim(line, t) {
      assert |t| == |line|;
      assert t == line;
    }
  }

  // ----- splitting -----

  /** The body with these lines and this remainder. */
  function Unsplit(lines: seq<Bytes>, rest: Bytes): Bytes {
    if lines == [] then rest else lines[0] + [LF] + Unsplit(lines[1..], rest)
  }

  predicate NoLf(b: Bytes) {
    forall i :: 0 <= i < |b| ==> b[i] != LF
  }

  predicate NoneHasLf(lines: seq<Bytes>) {
    forall i :: 0 <= i < |lines| ==> NoLf(lines[i])
  }

  lemma IndexIsLength(b: Bytes)
    ensures IndexOfLf(b) == |b| <==> NoLf(b)
  {
    IndexOfLfSpec(b);
  }

  lemma FirstLine(line: Bytes, after: Bytes)
    requires NoLf(line)
    ensures var b := line + [LF] + after;
            IndexOfLf(b) == |line| < |b| && b[..|line|] == line && b[|line| + 1..] == after
  {
    hide IndexOfLf;
    var b := line + [LF] + after;
    IndexOfLfSpec(b);
    assert b[|line|] == LF;
    assert forall i :: 0 <= i < |line| ==> b[i] == line[i];
  }

  /** Splitting is undone by joining, and is the only splitting that is: no byte is lost, moved or invented. */
  lemma {:induction false} SplitIsExact(buf: Bytes, lines: seq<Bytes>, rest: Bytes)
    ensures Complete(buf) == lines && Rest(buf) == rest <==>
            Unsplit(lines, rest) == buf && NoneHasLf(lines) && NoLf(rest)
    decreases |buf| + |lines|
  {
    hide Complete, Rest, IndexOfLf, NoLf;
    CompleteStep(buf);
    IndexIsLength(buf);
    if Unsplit(lines, rest) == buf && NoneHasLf(lines) && NoLf(rest) {
      if lines != [] {
        FirstLine(lines[0], Unsplit(lines[1..], rest));
        SplitIsExact(Unsplit(lines[1..], rest), lines[1..], rest);
        assert lines == [lines[0]] + lines[1..];
      }
    }
    if Complete(buf) == lines && Rest(buf) == rest && IndexOfLf(buf) < |buf| {
      var i := IndexOfLf(buf);
      SplitIsExact(buf[i + 1..], lines[1..], rest);
      FrontHasNoLf(buf);
      assert buf == buf[..i] + [LF] + buf[i + 1..];
      assert forall k :: 1 <= k < |lines| ==> lines[k] == lines[1..][k - 1];
    }
  }

  lemma FrontHasNoLf(buf: Bytes)
    requires IndexOfLf(buf) < |buf|
    ensures NoLf(buf[..IndexOfLf(buf)]) && buf[IndexOfLf(buf)] == LF
  {
    IndexOfLfSpec(buf);
  }

  // ----- what the parser makes of the lines -----

  /** The parser's state before line `i`. */
  function StateAt<S, D, E>(cfg: Config<S, D, E>, s: S, lines: seq<Bytes>, i: nat): S
    requires i <= |lines|
  {
    if i == 0 then s else cfg.parse(StateAt(cfg, s, lines, i - 1), lines[i - 1]).0
  }

  /** The parser's answer to line `i`. */
  function AnswerTo<S, D, E>(cfg: Config<S, D, E>, s: S, lines: seq<Bytes>, i: nat): Parsed<D, E>
    requires i < |lines|
  {
    cfg.parse(StateAt(cfg, s, lines, i), lines[i]).1
  }

  predicate Ends<D(==), E(==)>(p: Parsed<D, E>) {
    p.ParseFailed? || p.event.Stop?
  }

  predicate IsDelta<D, E>(p: Parsed<D, E>) {
    p.Event? && p.event.Delta?
  }

  /** What the parser does up to a line depends on nothing after it. */
  lemma {:induction false} StateOfPrefix<S, D, E>(cfg: Config<S, D, E>, s: S, lines: seq<Bytes>, k: nat, i: nat)
    requires i <= k <= |lines|
    ensures StateAt(cfg, s, lines[..k], i) == StateAt(cfg, s, lines, i)
  {
    if i > 0 {
      StateOfPrefix(cfg, s, lines, k, i - 1);
    }
  }

  lemma AnswersOfPrefix<S, D, E>(cfg: Config<S, D, E>, s: S, lines: seq<Bytes>, k: nat)
    requires k <= |lines|
    ensures forall i :: 0 <= i < k ==> AnswerTo(cfg, s, lines[..k], i) == AnswerTo(cfg, s, lines, i)
  {
    forall i | 0 <= i < k
      ensures AnswerTo(cfg, s, lines[..k], i) == AnswerTo(cfg, s, lines, i)
    {
      StateOfPrefix(cfg, s, lines, k, i);
    }
  }

  /** The feeding ran over `n` lines: none of them ends it, and the next one, if any, does. */
  ghost predicate RanOver<S, D, E>(cfg: Config<S, D, E>, s: S, lines: seq<Bytes>, n: nat) {
    && n <= |lines|
    && (forall i :: 0 <= i < n ==> !Ends(AnswerTo(cfg, s, lines, i)))
    && (n < |lines| ==> Ends(AnswerTo(cfg, s, lines, n)))
  }

  /** The items are the deltas of those `n` lines, found at positions `at`, in order, then the parser's failure if that ended it. */
  ghost predicate Delivers<S, D, E>(cfg: Config<S, D, E>, s: S, lines: seq<Bytes>, n: nat, at: seq<nat>,
                                    items: seq<StreamItem<D, E>>)
    requires n <= |lines|
  {
    var failed := n < |lines| && AnswerTo(cfg, s, lines, n).ParseFailed?;
    && (forall j, k :: 0 <= j < k < |at| ==> at[j] < at[k])
    && (forall i :: i in at <==> 0 <= i < n && IsDelta(AnswerTo(cfg, s, lines, i)))
    && |items| == |at| + (if failed then 1 else 0)
    && (forall k :: 0 <= k < |at| ==>
          at[k] < n && IsDelta(AnswerTo(cfg, s, lines, at[k])) && items[k] == Ok(AnswerTo(cfg, s, lines, at[k]).event.text))
    && (failed ==> items[|at|] == Err(Parser(AnswerTo(cfg, s, lines, n).error)))
  }

  /**
    Feeding, exactly: lines are shown to the parser in order until one stops it or fails; every
    delta before that comes out once and in order, nothing of a skipped line, the failure last.
   */
  lemma {:induction false} FeedIsExact<S, D, E>(cfg: Config<S, D, E>, s: S, lines: seq<Bytes>)
      returns (n: nat, at: seq<nat>)
    ensures RanOver(cfg, s, lines, n) && Delivers(cfg, s, lines, n, at, Feed(cfg, s, lines).items)
    ensures Feed(cfg, s, lines).going <==> n == |lines|
    ensures n == |lines| ==> Feed(cfg, s, lines).state == StateAt(cfg, s, lines, n)
    decreases |lines|
  {
    hide Feed, AnswerTo, StateAt;
    if lines == [] {
      n, at := 0, [];
      FeedNothing(cfg, s);
      NoState(cfg, s);
    } else {
      var k := |lines| - 1;
      n, at := FeedIsExact(cfg, s, lines[..k]);
      AnswersOfPrefix(cfg, s, lines, k);
      StateOfPrefix(cfg, s, lines, k, k);
      FeedOneMore(cfg, s, lines);
      if n == k && !Ends(AnswerTo(cfg, s, lines, k)) {
        n := |lines|;
        if IsDelta(AnswerTo(cfg, s, lines, k)) {
          at := at + [k];
        }
      }
    }
  }

  lemma NoState<S, D, E>(cfg: Config<S, D, E>, s: S)
    ensures StateAt(cfg, s, [], 0) == s
  {
  }

  /** One line more, if the lines before it left the stream going. */
  lemma FeedOneMore<S, D, E>(cfg: Config<S, D, E>, s: S, lines: seq<Bytes>)
    requires lines != []
    requires var f := Feed(cfg, s, lines[..|lines| - 1]);
             f.going ==> f.state == StateAt(cfg, s, lines, |lines| - 1)
    ensures var k, f, g := |lines| - 1, Feed(cfg, s, lines[..|lines| - 1]), Feed(cfg, s, lines);
            var answer := AnswerTo(cfg, s, lines, k);
            if !f.going then g == f
            else
              && g.going == !Ends(answer)
              && g.state == StateAt(cfg, s, lines, k + 1)
              && g.items == f.items + (if IsDelta(answer) then [Ok(answer.event.text)]
                                       else if answer.ParseFailed? then [Err(Parser(answer.error))] else [])
  {
    var k := |lines| - 1;
    assert lines == lines[..k] + [lines[k]];
    FeedAppend(cfg, s, lines[..k], [lines[k]]);
    var f := Feed(cfg, s, lines[..k]);
    if f.going {
      FeedSingle(cfg, f.state, lines[k]);
    }
  }

  lemma FeedSingle<S, D, E>(cfg: Config<S, D, E>, s: S, line: Bytes)
    ensures var (s', answer) := cfg.parse(s, line);
            Feed(cfg, s, [line]) ==
              Fed(if IsDelta(answer) then [Ok(answer.event.text)]
                  else if answer.ParseFailed? then [Err(Parser(answer.error))] else [], s', !Ends(answer))
  {
    assert [line][1..] == [];
    FeedNothing(cfg, cfg.parse(s, line).0);
  }

  // ----- whole bodies -----

  /** The raw lines of a body: those its LFs end, and a last one if bytes remain. */
  predicate LinesOf(body: Bytes, raw: seq<Bytes>, rest: Bytes) {
    Unsplit(raw, rest) == body && NoneHasLf(raw) && NoLf(rest)
  }

  /** `seen` is what is left of the raw lines once trimmed, the remainder included unless it is empty. */
  predicate SeenOf(raw: seq<Bytes>, rest: Bytes, seen: seq<Bytes>) {
    && |seen| == |raw| + (if rest == [] then 0 else 1)
    && (forall i :: 0 <= i < |raw| ==> IsTrim(raw[i], seen[i]))
    && (rest != [] ==> IsTrim(rest, seen[|raw|]))
  }

  /** Every line, the remainder included, is within the cap. */
  predicate Within(maxLine: nat, raw: seq<Bytes>, rest: Bytes) {
    (forall i :: 0 <= i < |raw| ==> |raw[i]| <= maxLine) && |rest| <= maxLine
  }

  lemma SeenIsTrimmed(raw: seq<Bytes>, rest: Bytes, seen: seq<Bytes>)
    requires SeenOf(raw, rest, seen)
    ensures seen == Trimmed(raw) + (if rest == [] then [] else [TrimCr(rest)])
  {
    hide IsTrim;
    forall i | 0 <= i < |raw|
      ensures seen[i] == TrimCr(raw[i])
    {
      TrimIsExact(raw[i], seen[i]);
    }
    if rest != [] {
      TrimIsExact(rest, seen[|raw|]);
    }
    assert seen == Trimmed(raw) + (if rest == [] then [] else [TrimCr(rest)]);
  }

  lemma MeaningIsFeeding<S, D, E>(cfg: Config<S, D, E>, s: S, body: Bytes, raw: seq<Bytes>, rest: Bytes, seen: seq<Bytes>)
    requires LinesOf(body, raw, rest) && SeenOf(raw, rest, seen)
    ensures rest == [] || cfg.utf8(seen[|raw|]) ==> Meaning(cfg, s, body) == Feed(cfg, s, seen).items
    ensures rest != [] && !cfg.utf8(seen[|raw|]) ==>
              Meaning(cfg, s, body) == Then(Feed(cfg, s, seen[..|raw|]), [Err(NotUtf8)])
  {
    hide Complete, Rest, Feed, IsTrim, Unsplit, TrimCr, Trimmed;
    SplitIsExact(body, raw, rest);
    SeenIsTrimmed(raw, rest, seen);
    var fed := Feed(cfg, s, Trimmed(raw));
    if rest == [] {
      assert seen == Trimmed(raw);
      assert fed.items + [] == fed.items;
    } else {
      assert seen[|raw|] == TrimCr(rest);
      assert seen[..|raw|] == Trimmed(raw);
      FeedAppend(cfg, s, Trimmed(raw), [TrimCr(rest)]);
    }
  }

  /**
    For every split of a body whose lines are within the cap and UTF-8 once trimmed: the
    stream is exactly what feeding the parser the trimmed lines gives, a last line without LF
    included. A last line that is not UTF-8 is an error after whatever came before it.
   */
  lemma StreamShowsTheLines<S, D, E>(cfg: Config<S, D, E>, s: S, chunks: seq<Chunk>,
                                     raw: seq<Bytes>, rest: Bytes, seen: seq<Bytes>)
    requires AllData(chunks) && LinesOf(Concat(chunks), raw, rest) && SeenOf(raw, rest, seen)
    requires Within(cfg.maxLine, raw, rest)
    requires forall i :: 0 <= i < |raw| ==> cfg.utf8(seen[i])
    ensures rest == [] || cfg.utf8(seen[|raw|]) ==> Stream(cfg, s, [], chunks) == Feed(cfg, s, seen).items
    ensures rest != [] && !cfg.utf8(seen[|raw|]) ==>
              Stream(cfg, s, [], chunks) == Then(Feed(cfg, s, seen[..|raw|]), [Err(NotUtf8)])
  {
    hide Complete, Rest, Feed, IsTrim, Unsplit, TrimCr, Stream, Meaning;
    var body := Concat(chunks);
    SplitIsExact(body, raw, rest);
    SeenIsTrimmed(raw, rest, seen);
    assert [] + body == body;
    ChunkInvariance(cfg, s, [], chunks);
    MeaningIsFeeding(cfg, s, body, raw, rest, seen);
  }

  /** A chunk with a complete line that is not UTF-8 once trimmed ends the stream with that error, before any of its lines. */
  lemma BadLineEndsIt<S, D, E>(cfg: Config<S, D, E>, s: S, buf: Bytes, bytes: Bytes, more: seq<Chunk>,
                               raw: seq<Bytes>, rest: Bytes, k: nat, t: Bytes)
    requires LinesOf(buf + bytes, raw, rest) && k < |raw| && IsTrim(raw[k], t) && !cfg.utf8(t)
    ensures Stream(cfg, s, buf, [Data(bytes)] + more) == [Err(NotUtf8)]
  {
    hide Complete, Rest, IsTrim, Unsplit, TrimCr;
    SplitIsExact(buf + bytes, raw, rest);
    TrimIsExact(raw[k], t);
    assert !Valid(cfg.utf8, Complete(buf + bytes)[k]);
    assert ([Data(bytes)] + more)[0] == Data(bytes);
  }

  /** Otherwise a remainder beyond the cap ends it, and only the remainder is measured. */
  lemma LongRemainderEndsIt<S, D, E>(cfg: Config<S, D, E>, s: S, buf: Bytes, bytes: Bytes, more: seq<Chunk>,
                                     raw: seq<Bytes>, rest: Bytes, seen: seq<Bytes>)
    requires LinesOf(buf + bytes, raw, rest) && SeenOf(raw, rest, seen)
    requires forall i :: 0 <= i < |raw| ==> cfg.utf8(seen[i])
    requires |rest| > cfg.maxLine
    ensures Stream(cfg, s, buf, [Data(bytes)] + more) == [Err(LineTooLong)]
  {
    hide Complete, Rest, IsTrim, Unsplit, TrimCr;
    SplitIsExact(buf + bytes, raw, rest);
    SeenIsTrimmed(raw, rest, seen);
    assert AllValid(cfg.utf8, Complete(buf + bytes));
    assert ([Data(bytes)] + more)[0] == Data(bytes);
  }

  /** A transport that breaks after a good beginning: what its complete lines give, then the error, then nothing. */
  lemma {:induction false} BrokenTransport<S, D, E>(cfg: Config<S, D, E>, s: S, buf: Bytes, chunks: seq<Chunk>, more: seq<Chunk>)
    requires AllData(chunks) && IndexOfLf(buf) == |buf|
    requires Good(cfg.utf8, cfg.maxLine, buf + Concat(chunks))
    ensures Stream(cfg, s, buf, chunks + [Broken] + more)
         == Then(Feed(cfg, s, Trimmed(Complete(buf + Concat(chunks)))), [Err(Transport)])
    decreases |chunks|
  {
    hide Complete, Rest, IndexOfLf, Feed, Tail, Drain, Good;
    var all := chunks + [Broken] + more;
    if chunks == [] {
      assert buf + [] == buf;
      assert all[0] == Broken;
      CompleteStep(buf);
      assert Trimmed([]) == [];
      FeedNothing(cfg, s);
    } else {
      var a, b := buf + chunks[0].bytes, Concat(chunks[1..]);
      assert all[0] == chunks[0] && all[1..] == chunks[1..] + [Broken] + more;
      assert buf + Concat(chunks) == a + b;
      GoodParts(cfg.utf8, cfg.maxLine, a, b);
      RestHasNoLf(a);
      SplitAppend(a, b);
      var xs, ys := Trimmed(Complete(a)), Trimmed(Complete(Rest(a) + b));
      assert Trimmed(Complete(a + b)) == xs + ys;
      FeedAppend(cfg, s, xs, ys);
      var fed := Feed(cfg, s, xs);
      if fed.going {
        BrokenTransport(cfg, fed.state, Rest(a), chunks[1..], more);
        var g := Feed(cfg, fed.state, ys);
        assert fed.items + (g.items + [Err(Transport)]) == (fed.items + g.items) + [Err(Transport)];
      }
    }
  }
}
