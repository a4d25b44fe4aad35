/** What holds of the line stream over every way a body can be cut into chunks. */
module LineTheorems {
  import opened Proto
  import opened LineStream

  // ----- splitting composes -----

  lemma {:induction false} IndexAppend(a: Bytes, b: Bytes)
    ensures IndexOfLf(a) < |a| ==> IndexOfLf(a + b) == IndexOfLf(a)
    ensures IndexOfLf(a) == |a| ==> IndexOfLf(a + b) == |a| + IndexOfLf(b)
  {
    if a == [] {
      assert a + b == b;
    } else if a[0] != LF {
      assert (a + b)[1..] == a[1..] + b;
      IndexAppend(a[1..], b);
    }
  }

  /** Splitting a longer buffer is splitting its front, then the remainder with what follows. */
  lemma {:induction false} SplitAppend(a: Bytes, b: Bytes)
    ensures Complete(a + b) == Complete(a) + Complete(Rest(a) + b)
    ensures Rest(a + b) == Rest(Rest(a) + b)
    decreases |a|
  {
    hide Complete, Rest, IndexOfLf;
    var i := IndexOfLf(a);
    CompleteStep(a);
    if i < |a| {
      IndexAppend(a, b);
      CompleteStep(a + b);
      assert (a + b)[i + 1..] == a[i + 1..] + b;
      assert (a + b)[..i] == a[..i];
      SplitAppend(a[i + 1..], b);
      var rest := Rest(a) + b;
      assert [a[..i]] + (Complete(a[i + 1..]) + Complete(rest)) == ([a[..i]] + Complete(a[i + 1..])) + Complete(rest);
    } else {
      assert [] + Complete(a + b) == Complete(a + b);
    }
  }

  lemma {:induction false} RestHasNoLf(a: Bytes)
    ensures IndexOfLf(Rest(a)) == |Rest(a)|
    decreases |a|
  {
    hide Complete, Rest, IndexOfLf;
    CompleteStep(a);
    if IndexOfLf(a) < |a| {
      RestHasNoLf(a[IndexOfLf(a) + 1..]);
    }
  }

  function Concat(chunks: seq<Chunk>): Bytes {
    if chunks == [] then []
    else (if chunks[0].Data? then chunks[0].bytes else []) + Concat(chunks[1..])
  }

  /** The body arrived whole: no chunk of it broke. */
  predicate AllData(chunks: seq<Chunk>) {
    forall i :: 0 <= i < |chunks| ==> chunks[i].Data?
  }

  // ----- feeding composes -----

  lemma {:induction false} FeedAppend<S, D, E>(cfg: Config<S, D, E>, s: S, xs: seq<Bytes>, ys: seq<Bytes>)
    ensures var f := Feed(cfg, s, xs);
            Feed(cfg, s, xs + ys) ==
              if !f.going then f
              else var g := Feed(cfg, f.state, ys); g.(items := f.items + g.items)
  {
    if xs == [] {
      assert xs + ys == ys;
    } else {
      assert (xs + ys)[1..] == xs[1..] + ys && (xs + ys)[0] == xs[0];
      var (s', parsed) := cfg.parse(s, xs[0]);
      FeedAppend(cfg, s', xs[1..], ys);
    }
  }

  // ----- chunk invariance -----

  predicate AllShort(maxLine: nat, lines: seq<Bytes>) {
    forall i :: 0 <= i < |lines| ==> |lines[i]| <= maxLine
  }

  /** Every complete line is UTF-8 and within the cap, and so long is the remainder. */
  predicate Good(utf8: Bytes -> bool, maxLine: nat, body: Bytes) {
    AllValid(utf8, Complete(body)) && AllShort(maxLine, Complete(body)) && |Rest(body)| <= maxLine
  }

  /** The remainder of a prefix is the beginning of a line of the whole. */
  lemma RemainderIsShort(a: Bytes, b: Bytes, maxLine: nat)
    requires AllShort(maxLine, Complete(a + b)) && |Rest(a + b)| <= maxLine
    ensures |Rest(a)| <= maxLine
  {
    hide Complete, Rest, IndexOfLf;
    SplitAppend(a, b);
    RestHasNoLf(a);
    var r := Rest(a);
    IndexAppend(r, b);
    CompleteStep(r + b);
    if IndexOfLf(r + b) < |r + b| {
      assert Complete(a + b)[|Complete(a)|] == (r + b)[..IndexOfLf(r + b)];
    }
  }

  lemma GoodParts(utf8: Bytes -> bool, maxLine: nat, a: Bytes, b: Bytes)
    requires Good(utf8, maxLine, a + b)
    ensures Drain(utf8, maxLine, a) == Lines(Trimmed(Complete(a)), Rest(a))
    ensures Good(utf8, maxLine, Rest(a) + b)
  {
    hide Complete, Rest, IndexOfLf, Valid;
    SplitAppend(a, b);
    RemainderIsShort(a, b, maxLine);
    PartsInherit(utf8, maxLine, Complete(a), Complete(Rest(a) + b));
  }

  lemma PartsInherit(utf8: Bytes -> bool, maxLine: nat, c: seq<Bytes>, d: seq<Bytes>)
    requires AllValid(utf8, c + d) && AllShort(maxLine, c + d)
    ensures AllValid(utf8, c) && AllValid(utf8, d) && AllShort(maxLine, d)
  {
    hide Valid;
    forall i | 0 <= i < |c|
      ensures Valid(utf8, c[i])
    {
      assert c[i] == (c + d)[i];
    }
    forall i | 0 <= i < |d|
      ensures Valid(utf8, d[i]) && |d[i]| <= maxLine
    {
      assert d[i] == (c + d)[|c| + i];
    }
  }

  lemma MeaningAppend<S, D, E>(cfg: Config<S, D, E>, s: S, a: Bytes, b: Bytes)
    ensures var fed := Feed(cfg, s, Trimmed(Complete(a)));
            Meaning(cfg, s, a + b) == Then(fed, if fed.going then Meaning(cfg, fed.state, Rest(a) + b) else [])
  {
    hide Complete, Rest, Feed, Tail;
    SplitAppend(a, b);
    var xs, ys := Trimmed(Complete(a)), Trimmed(Complete(Rest(a) + b));
    assert Trimmed(Complete(a + b)) == xs + ys;
    FeedAppend(cfg, s, xs, ys);
    var f := Feed(cfg, s, xs);
    if f.going {
      var g := Feed(cfg, f.state, ys);
      assert f.items + (g.items + Tail(cfg, g.state, Rest(a + b))) == (f.items + g.items) + Tail(cfg, g.state, Rest(a + b));
    }
  }

  lemma MeaningOfRemainder<S, D, E>(cfg: Config<S, D, E>, s: S, buf: Bytes)
    requires IndexOfLf(buf) == |buf|
    ensures Meaning(cfg, s, buf) == Tail(cfg, s, buf)
  {
    hide Complete, Rest, IndexOfLf, Tail, Feed, TrimCr, Trimmed;
    CompleteStep(buf);
    TrimmedNothing();
    FeedNothing(cfg, s);
  }

  lemma TrimmedNothing()
    ensures Trimmed([]) == []
  {
  }

  lemma FeedNothing<S, D, E>(cfg: Config<S, D, E>, s: S)
    ensures Feed(cfg, s, []) == Fed([], s, true)
  {
  }

  /**
    Chunk invariance: for every split of a body whose lines are all UTF-8 and within the cap,
    the stream delivers what the whole body means.
   */
  lemma {:induction false} ChunkInvariance<S, D, E>(cfg: Config<S, D, E>, s: S, buf: Bytes, chunks: seq<Chunk>)
    requires AllData(chunks) && IndexOfLf(buf) == |buf|
    requires Good(cfg.utf8, cfg.maxLine, buf + Concat(chunks))
    ensures Stream(cfg, s, buf, chunks) == Meaning(cfg, s, buf + Concat(chunks))
    decreases |chunks|
  {
    hide Complete, Rest, IndexOfLf, Feed, Tail, Drain, Good, Meaning;
    if chunks == [] {
      assert buf + [] == buf;
      MeaningOfRemainder(cfg, s, buf);
    } else {
      var a, b := buf + chunks[0].bytes, Concat(chunks[1..]);
      assert buf + Concat(chunks) == a + b;
      GoodParts(cfg.utf8, cfg.maxLine, a, b);
      MeaningAppend(cfg, s, a, b);
      RestHasNoLf(a);
      var fed := Feed(cfg, s, Trimmed(Complete(a)));
      if fed.going {
        ChunkInvariance(cfg, fed.state, Rest(a), chunks[1..]);
      }
    }
  }

  // ----- errors come last -----

  predicate OnlyLastMayFail<D(==), E(==)>(items: seq<StreamItem<D, E>>) {
    forall i :: 0 <= i < |items| - 1 ==> items[i].Ok?
  }

  predicate NoneFails<D(==), E(==)>(items: seq<StreamItem<D, E>>) {
    forall i :: 0 <= i < |items| ==> items[i].Ok?
  }

  lemma {:induction false} FeedFailsLast<S, D, E>(cfg: Config<S, D, E>, s: S, lines: seq<Bytes>)
    ensures OnlyLastMayFail(Feed(cfg, s, lines).items)
    ensures Feed(cfg, s, lines).going ==> NoneFails(Feed(cfg, s, lines).items)
  {
    if lines != [] {
      var (s', parsed) := cfg.parse(s, lines[0]);
      FeedFailsLast(cfg, s', lines[1..]);
    }
  }

  /** Any error, of the transport, the cap, UTF-8 or the parser, is the last item, over every body. */
  lemma {:induction false} ErrorIsLast<S, D, E>(cfg: Config<S, D, E>, s: S, buf: Bytes, chunks: seq<Chunk>)
    ensures OnlyLastMayFail(Stream(cfg, s, buf, chunks))
    decreases |chunks|
  {
    hide Drain, Feed, Valid, TrimCr;
    if chunks == [] {
      FeedFailsLast(cfg, s, [TrimCr(buf)]);
    } else if chunks[0].Data? {
      var d := Drain(cfg.utf8, cfg.maxLine, buf + chunks[0].bytes);
      if d.Lines? {
        FeedFailsLast(cfg, s, d.lines);
        ErrorIsLast(cfg, Feed(cfg, s, d.lines).state, d.rest, chunks[1..]);
      }
    }
  }

  // ----- exactly which bodies are insensitive to their chunking -----

  /** The parser that shows every line it is given. */
  function Echo(utf8: Bytes -> bool, maxLine: nat): Config<(), Bytes, ()> {
    Config(utf8, (s: (), line: Bytes) => (s, Event(Delta(line))), maxLine)
  }

  /** However the body is cut, every line shown and every error come out the same. */
  ghost predicate Insensitive(utf8: Bytes -> bool, maxLine: nat, body: Bytes) {
    forall chunks | AllData(chunks) && Concat(chunks) == body ::
      Stream(Echo(utf8, maxLine), (), [], chunks) == Stream(Echo(utf8, maxLine), (), [], [Data(body)])
  }

  /** No complete line at all; or all lines good; or the very first one bad but within the cap. */
  predicate CutSafely(utf8: Bytes -> bool, maxLine: nat, body: Bytes) {
    var lines := Complete(body);
    lines == [] || Good(utf8, maxLine, body) || (!Valid(utf8, lines[0]) && |lines[0]| <= maxLine)
  }

  lemma ConcatOne(body: Bytes)
    ensures Concat([Data(body)]) == body && AllData([Data(body)])
  {
    assert Concat([Data(body)][1..]) == [];
  }

  lemma ConcatTwo(a: Bytes, b: Bytes)
    ensures Concat([Data(a), Data(b)]) == a + b && AllData([Data(a), Data(b)])
  {
    assert [Data(a), Data(b)][1..] == [Data(b)];
    ConcatOne(b);
  }

  /** Until its first LF a body is only buffered; without one it fails exactly when it outgrows the cap. */
  lemma {:induction false} WithoutLf<S, D, E>(cfg: Config<S, D, E>, s: S, buf: Bytes, chunks: seq<Chunk>)
    requires AllData(chunks)
    requires IndexOfLf(buf + Concat(chunks)) == |buf + Concat(chunks)| && |buf| <= cfg.maxLine
    ensures Stream(cfg, s, buf, chunks) ==
            if |buf + Concat(chunks)| > cfg.maxLine then [Err(LineTooLong)] else Tail(cfg, s, buf + Concat(chunks))
    decreases |chunks|
  {
    hide Complete, Rest, IndexOfLf, Tail;
    if chunks == [] {
      assert buf + [] == buf;
    } else {
      var a, b := buf + chunks[0].bytes, Concat(chunks[1..]);
      assert buf + Concat(chunks) == a + b;
      IndexAppend(a, b);
      CompleteStep(a);
      assert Trimmed([]) == [];
      if |a| <= cfg.maxLine {
        WithoutLf(cfg, s, a, chunks[1..]);
      }
    }
  }

  /** A first line that is not UTF-8 but within the cap is the stream's one error, however it is cut. */
  lemma {:induction false} FirstLineBad<S, D, E>(cfg: Config<S, D, E>, s: S, buf: Bytes, chunks: seq<Chunk>)
    requires AllData(chunks) && IndexOfLf(buf) == |buf|
    requires Complete(buf + Concat(chunks)) != []
    requires !Valid(cfg.utf8, Complete(buf + Concat(chunks))[0])
    requires |Complete(buf + Concat(chunks))[0]| <= cfg.maxLine
    ensures Stream(cfg, s, buf, chunks) == [Err(NotUtf8)]
    decreases |chunks|
  {
    hide Complete, Rest, IndexOfLf, Tail, Valid;
    var body := buf + Concat(chunks);
    assert chunks == [] ==> body == buf;
    CompleteStep(buf);
    if chunks != [] {
      var a, b := buf + chunks[0].bytes, Concat(chunks[1..]);
      assert body == a + b;
      IndexAppend(a, b);
      CompleteStep(a);
      CompleteStep(a + b);
      if IndexOfLf(a) == |a| {
        assert Trimmed([]) == [];
        FirstLineBad(cfg, s, a, chunks[1..]);
      } else {
        assert (a + b)[..IndexOfLf(a)] == a[..IndexOfLf(a)];
        assert Complete(a)[0] == Complete(a + b)[0];
      }
    }
  }

  lemma SafeMeansInsensitive(utf8: Bytes -> bool, maxLine: nat, body: Bytes)
    requires CutSafely(utf8, maxLine, body)
    ensures Insensitive(utf8, maxLine, body)
  {
    hide Complete, Rest, Stream, Meaning, Concat;
    var cfg := Echo(utf8, maxLine);
    forall chunks | AllData(chunks) && Concat(chunks) == body
      ensures Stream(cfg, (), [], chunks) == Stream(cfg, (), [], [Data(body)])
    {
      ConcatOne(body);
      assert [] + body == body;
      CompleteStep(body);
      if Complete(body) == [] {
        WithoutLf(cfg, (), [], chunks);
        WithoutLf(cfg, (), [], [Data(body)]);
      } else if Good(utf8, maxLine, body) {
        ChunkInvariance(cfg, (), [], chunks);
        ChunkInvariance(cfg, (), [], [Data(body)]);
      } else {
        FirstLineBad(cfg, (), [], chunks);
        FirstLineBad(cfg, (), [], [Data(body)]);
      }
    }
  }

  // ----- and the bodies that are sensitive -----

  lemma WholeBody(utf8: Bytes -> bool, maxLine: nat, body: Bytes)
    ensures var items := Stream(Echo(utf8, maxLine), (), [], [Data(body)]);
            match Drain(utf8, maxLine, body)
            case BadLine => items == [Err(NotUtf8)]
            case TooLong => items == [Err(LineTooLong)]
            case Lines(lines, _) => lines != [] ==> items != [] && items[0] == Ok(lines[0])
  {
    hide Drain, Tail;
    assert [] + body == body;
    FrontChunk(utf8, maxLine, body, []);
  }

  /** What the first chunk alone decides about the first item. */
  lemma FrontChunk(utf8: Bytes -> bool, maxLine: nat, a: Bytes, more: seq<Chunk>)
    ensures var items := Stream(Echo(utf8, maxLine), (), [], [Data(a)] + more);
            match Drain(utf8, maxLine, a)
            case BadLine => items == [Err(NotUtf8)]
            case TooLong => items == [Err(LineTooLong)]
            case Lines(lines, _) => lines != [] ==> items != [] && items[0] == Ok(lines[0])
  {
    hide Drain, Tail;
    assert [] + a == a;
    assert ([Data(a)] + more)[0] == Data(a);
  }

  /** Cutting right after a good first line delivers it first. */
  lemma CutAfterFirstLine(utf8: Bytes -> bool, maxLine: nat, body: Bytes) returns (chunks: seq<Chunk>)
    requires Complete(body) != [] && Valid(utf8, Complete(body)[0])
    ensures AllData(chunks) && Concat(chunks) == body
    ensures Stream(Echo(utf8, maxLine), (), [], chunks) != []
    ensures Stream(Echo(utf8, maxLine), (), [], chunks)[0].Ok?
  {
    hide Complete, Rest, IndexOfLf, Valid, Stream, Concat, TrimCr;
    CompleteStep(body);
    var i := IndexOfLf(body);
    var a, b := body[..i + 1], body[i + 1..];
    assert body == a + b;
    FirstLineAlone(body);
    chunks := [Data(a)] + [Data(b)];
    assert chunks == [Data(a), Data(b)];
    ConcatTwo(a, b);
    FrontChunk(utf8, maxLine, a, [Data(b)]);
  }

  lemma FirstLineAlone(body: Bytes)
    requires IndexOfLf(body) < |body|
    ensures Complete(body[..IndexOfLf(body) + 1]) == [body[..IndexOfLf(body)]]
    ensures Rest(body[..IndexOfLf(body) + 1]) == []
  {
    hide Complete, Rest;
    var i := IndexOfLf(body);
    var a := body[..i + 1];
    IndexOfLfSpec(body);
    IndexOfLfSpec(a);
    assert a[i] == LF;
    assert IndexOfLf(a) == i;
    CompleteStep(a);
    assert a[i + 1..] == [] && a[..i] == body[..i];
    CompleteStep([]);
  }

  /** Cutting inside a line beyond the cap fails, even if the line is complete in the body. */
  lemma {:induction false} CutInsideLongLine(utf8: Bytes -> bool, maxLine: nat, body: Bytes, k: nat) returns (a: Bytes)
    requires k < |Complete(body)| && |Complete(body)[k]| > maxLine
    requires forall j :: 0 <= j < k ==> Valid(utf8, Complete(body)[j])
    ensures a <= body && Drain(utf8, maxLine, a) == TooLong
    decreases |body|
  {
    hide Complete, Rest, IndexOfLf, Valid;
    CompleteStep(body);
    var i := IndexOfLf(body);
    if k == 0 {
      a := body[..maxLine + 1];
      PrefixWithoutLf(body, maxLine + 1);
      CompleteStep(a);
    } else {
      var first, rest := body[..i + 1], body[i + 1..];
      assert forall j :: 0 <= j < k - 1 ==> Complete(rest)[j] == Complete(body)[j + 1];
      var a' := CutInsideLongLine(utf8, maxLine, rest, k - 1);
      a := first + a';
      assert body == first + rest;
      FirstLineAlone(body);
      SplitAppend(first, a');
      assert [] + a' == a';
      assert Complete(body)[0] == body[..i];
    }
  }

  lemma PrefixWithoutLf(body: Bytes, n: nat)
    requires n <= IndexOfLf(body)
    ensures IndexOfLf(body[..n]) == n
  {
    IndexOfLfSpec(body);
    IndexOfLfSpec(body[..n]);
  }

  lemma SensitiveTo(utf8: Bytes -> bool, maxLine: nat, body: Bytes, c: seq<Chunk>, d: seq<Chunk>)
    requires AllData(c) && Concat(c) == body && AllData(d) && Concat(d) == body
    requires Stream(Echo(utf8, maxLine), (), [], c) != Stream(Echo(utf8, maxLine), (), [], d)
    ensures !Insensitive(utf8, maxLine, body)
  {
    hide Stream, Concat;
  }

  lemma CutAt(utf8: Bytes -> bool, maxLine: nat, body: Bytes, a: Bytes) returns (chunks: seq<Chunk>)
    requires a <= body && Drain(utf8, maxLine, a) == TooLong
    ensures AllData(chunks) && Concat(chunks) == body
    ensures Stream(Echo(utf8, maxLine), (), [], chunks) == [Err(LineTooLong)]
  {
    hide Drain, Stream, Concat;
    var b := body[|a|..];
    assert body == a + b;
    ConcatTwo(a, b);
    chunks := [Data(a)] + [Data(b)];
    assert chunks == [Data(a), Data(b)];
    FrontChunk(utf8, maxLine, a, [Data(b)]);
  }

  lemma UnsafeMeansSensitive(utf8: Bytes -> bool, maxLine: nat, body: Bytes)
    requires !CutSafely(utf8, maxLine, body)
    ensures !Insensitive(utf8, maxLine, body)
  {
    hide Complete, Rest, IndexOfLf, Valid, Stream, Concat, Insensitive;
    var lines, whole := Complete(body), [Data(body)];
    ConcatOne(body);
    WholeBody(utf8, maxLine, body);
    if !Valid(utf8, lines[0]) {
      var a := CutInsideLongLine(utf8, maxLine, body, 0);
      var cut := CutAt(utf8, maxLine, body, a);
      SensitiveTo(utf8, maxLine, body, cut, whole);
    } else if AllValid(utf8, lines) && |Rest(body)| <= maxLine {
      var k := FirstLong(maxLine, lines);
      var a := CutInsideLongLine(utf8, maxLine, body, k);
      var cut := CutAt(utf8, maxLine, body, a);
      SensitiveTo(utf8, maxLine, body, cut, whole);
    } else {
      var cut := CutAfterFirstLine(utf8, maxLine, body);
      SensitiveTo(utf8, maxLine, body, cut, whole);
    }
  }

  lemma FirstLong(maxLine: nat, lines: seq<Bytes>) returns (k: nat)
    requires !AllShort(maxLine, lines)
    ensures k < |lines| && |lines[k]| > maxLine
  {
    k :| 0 <= k < |lines| && |lines[k]| > maxLine;
  }

  /**
    Exactly when chunking cannot be seen: a body comes out the same however it is cut if and
    only if it has no complete line, or every line is UTF-8 and within the cap, or its very
    first line is not UTF-8 and within the cap.
   */
  lemma InsensitiveIffCutSafely(utf8: Bytes -> bool, maxLine: nat, body: Bytes)
    ensures Insensitive(utf8, maxLine, body) <==> CutSafely(utf8, maxLine, body)
  {
    hide Insensitive, CutSafely;
    if CutSafely(utf8, maxLine, body) {
      SafeMeansInsensitive(utf8, maxLine, body);
    } else {
      UnsafeMeansSensitive(utf8, maxLine, body);
    }
  }
}
