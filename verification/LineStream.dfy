/**
  The line stream over a chunked body: bytes are buffered, split on LF, each complete line is
  trimmed and parsed, and what is left at the end is one last line. UTF-8 validity and the
  line parser (with its own state) are parameters.
 */
module LineStream {
  import opened Proto

  const LF: Byte := 10
  const CR: Byte := 13

  datatype WireEvent<+D> = Delta(text: D) | Skip | Stop

  datatype Parsed<+D, +E> = Event(event: WireEvent<D>) | ParseFailed(error: E)

  datatype Failure<+E> = NotUtf8 | LineTooLong | Transport | Parser(error: E)

  datatype StreamItem<+D, +E> = Ok(text: D) | Err(failure: Failure<E>)

  datatype Chunk = Data(bytes: Bytes) | Broken

  /** `maxLine` is one mebibyte in the client; everything here holds for any. */
  datatype Config<!S, +D, +E> = Config(
    utf8: Bytes -> bool,
    parse: (S, Bytes) -> (S, Parsed<D, E>),
    maxLine: nat)

  // ----- splitting, as values -----

  /** The position of the first LF, or the length if there is none. */
  function IndexOfLf(buf: Bytes): (i: nat)
    ensures i <= |buf|
  {
    if buf == [] || buf[0] == LF then 0 else 1 + IndexOfLf(buf[1..])
  }

  lemma {:induction false} IndexOfLfSpec(buf: Bytes)
    ensures forall j :: 0 <= j < IndexOfLf(buf) ==> buf[j] != LF
    ensures IndexOfLf(buf) < |buf| ==> buf[IndexOfLf(buf)] == LF
  {
    if buf != [] && buf[0] != LF {
      IndexOfLfSpec(buf[1..]);
      forall j | 0 <= j < IndexOfLf(buf)
        ensures buf[j] != LF
      {
        if j > 0 {
          assert buf[j] == buf[1..][j - 1];
        }
      }
    }
  }

  /** The complete lines of a buffer, without their LF. */
  function Complete(buf: Bytes): seq<Bytes> {
    var i := IndexOfLf(buf);
    if i == |buf| then [] else [buf[..i]] + Complete(buf[i + 1..])
  }

  /** What follows the last LF. */
  function Rest(buf: Bytes): Bytes {
    var i := IndexOfLf(buf);
    if i == |buf| then buf else Rest(buf[i + 1..])
  }

  /** All trailing CRs trimmed. */
  function TrimCr(line: Bytes): Bytes {
    if line != [] && line[|line| - 1] == CR then TrimCr(line[..|line| - 1]) else line
  }

  function Trimmed(lines: seq<Bytes>): (r: seq<Bytes>)
    ensures |r| == |lines|
    ensures forall i :: 0 <= i < |lines| ==> r[i] == TrimCr(lines[i])
  {
    seq(|lines|, i requires 0 <= i < |lines| => TrimCr(lines[i]))
  }

  predicate Valid(utf8: Bytes -> bool, line: Bytes) {
    utf8(TrimCr(line))
  }

  predicate AllValid(utf8: Bytes -> bool, lines: seq<Bytes>) {
    forall i :: 0 <= i < |lines| ==> Valid(utf8, lines[i])
  }

  datatype Drained = Lines(lines: seq<Bytes>, rest: Bytes) | BadLine | TooLong

  /** One chunk's worth of draining: a bad line fails the whole chunk; only the remainder is measured. */
  function Drain(utf8: Bytes -> bool, maxLine: nat, buf: Bytes): Drained {
    if !AllValid(utf8, Complete(buf)) then BadLine
    else if |Rest(buf)| > maxLine then TooLong
    else Lines(Trimmed(Complete(buf)), Rest(buf))
  }

  // ----- the loops of drain_lines and into_line -----

  method IntoLine(utf8: Bytes -> bool, raw: Bytes) returns (line: Option<Bytes>)
    ensures line == if Valid(utf8, raw) then Some(TrimCr(raw)) else None
  {
    var l := raw;
    while l != [] && l[|l| - 1] == CR
      invariant TrimCr(l) == TrimCr(raw)
      decreases |l|
    {
      l := l[..|l| - 1];
    }
    line := if utf8(l) then Some(l) else None;
  }

  method FindLf(buf: Bytes) returns (pos: nat)
    ensures pos == IndexOfLf(buf)
  {
    pos := 0;
    while pos < |buf| && buf[pos] != LF
      invariant 0 <= pos <= |buf|
      invariant IndexOfLf(buf) == pos + IndexOfLf(buf[pos..])
    {
      assert buf[pos..][1..] == buf[pos + 1..];
      pos := pos + 1;
    }
  }

  lemma NoLine(buf: Bytes)
    requires IndexOfLf(buf) == |buf|
    ensures Complete(buf) == [] && Rest(buf) == buf
  {
  }

  lemma OneLine(buf: Bytes)
    requires IndexOfLf(buf) < |buf|
    ensures Complete(buf) == [buf[..IndexOfLf(buf)]] + Complete(buf[IndexOfLf(buf) + 1..])
  {
    hide IndexOfLf, Rest;
  }

  lemma OneLineRest(buf: Bytes)
    requires IndexOfLf(buf) < |buf|
    ensures Rest(buf) == Rest(buf[IndexOfLf(buf) + 1..])
  {
    hide IndexOfLf, Complete;
  }

  /** A buffer without LF is all remainder; otherwise its first line is in front. */
  lemma CompleteStep(buf: Bytes)
    ensures IndexOfLf(buf) == |buf| ==> Complete(buf) == [] && Rest(buf) == buf
    ensures IndexOfLf(buf) < |buf| ==>
              && Complete(buf) == [buf[..IndexOfLf(buf)]] + Complete(buf[IndexOfLf(buf) + 1..])
              && Rest(buf) == Rest(buf[IndexOfLf(buf) + 1..])
  {
    hide IndexOfLf, Complete, Rest;
    if IndexOfLf(buf) == |buf| {
      NoLine(buf);
    } else {
      OneLine(buf);
      OneLineRest(buf);
    }
  }

  method DrainLines(utf8: Bytes -> bool, maxLine: nat, buf: Bytes, ready: seq<Bytes>)
    returns (failed: Option<Drained>, buf': Bytes, ready': seq<Bytes>)
    ensures match Drain(utf8, maxLine, buf)
            case Lines(lines, rest) => failed.None? && ready' == ready + lines && buf' == rest
            case bad => failed == Some(bad)
  {
    hide Complete, Rest, Valid, IndexOfLf, TrimCr;
    buf', ready' := buf, ready;
    ghost var done: seq<Bytes> := [];
    assert Trimmed(done) == [];
    while true
      invariant Complete(buf) == done + Complete(buf')
      invariant Rest(buf) == Rest(buf')
      invariant AllValid(utf8, done)
      invariant ready' == ready + Trimmed(done)
      decreases |buf'|
    {
      CompleteStep(buf');
      var pos := FindLf(buf');
      if pos == |buf'| {
        break;
      }
      var raw := buf'[..pos];
      var line := IntoLine(utf8, raw);
      assert Complete(buf)[|done|] == raw;
      if line.None? {
        assert !AllValid(utf8, Complete(buf));
        return Some(BadLine), buf', ready';
      }
      assert done + ([raw] + Complete(buf'[pos + 1..])) == (done + [raw]) + Complete(buf'[pos + 1..]);
      assert Trimmed(done + [raw]) == Trimmed(done) + [TrimCr(raw)];
      buf' := buf'[pos + 1..];
      ready' := ready' + [line.value];
      done := done + [raw];
    }
    CompleteStep(buf');
    assert Complete(buf) == done;
    failed := if |buf'| > maxLine then Some(TooLong) else None;
  }

  // ----- feeding lines to the parser -----

  /** What came out of some lines, the parser's state after them, and whether the stream goes on. */
  datatype Fed<+S, +D, +E> = Fed(items: seq<StreamItem<D, E>>, state: S, going: bool)

  function Feed<S, D, E>(cfg: Config<S, D, E>, s: S, lines: seq<Bytes>): Fed<S, D, E> {
    if lines == [] then Fed([], s, true)
    else
      var (s', parsed) := cfg.parse(s, lines[0]);
      match parsed
      case ParseFailed(e) => Fed([Err(Parser(e))], s', false)
      case Event(Stop) => Fed([], s', false)
      case Event(Skip) => Feed(cfg, s', lines[1..])
      case Event(Delta(t)) =>
        var rest := Feed(cfg, s', lines[1..]);
        rest.(items := [Ok(t)] + rest.items)
  }

  /** Whatever comes after some lines, if the stream goes on after them. */
  function Then<S, D, E>(fed: Fed<S, D, E>, after: seq<StreamItem<D, E>>): seq<StreamItem<D, E>> {
    if fed.going then fed.items + after else fed.items
  }

  /** The remainder at the end of the body is one last line, unless it is empty. */
  function Tail<S, D, E>(cfg: Config<S, D, E>, s: S, rest: Bytes): seq<StreamItem<D, E>> {
    if rest == [] then []
    else if Valid(cfg.utf8, rest) then Feed(cfg, s, [TrimCr(rest)]).items
    else [Err(NotUtf8)]
  }

  /** The items of the stream over these chunks, with `buf` left over from before. */
  function Stream<S, D, E>(cfg: Config<S, D, E>, s: S, buf: Bytes, chunks: seq<Chunk>): seq<StreamItem<D, E>>
    decreases |chunks|
  {
    if chunks == [] then Tail(cfg, s, buf)
    else
      match chunks[0]
      case Broken => [Err(Transport)]
      case Data(bytes) =>
        match Drain(cfg.utf8, cfg.maxLine, buf + bytes)
        case BadLine => [Err(NotUtf8)]
        case TooLong => [Err(LineTooLong)]
        case Lines(lines, rest) =>
          var fed := Feed(cfg, s, lines);
          Then(fed, if fed.going then Stream(cfg, fed.state, rest, chunks[1..]) else [])
  }

  /** The items the whole body means, however it arrives. */
  function Meaning<S, D, E>(cfg: Config<S, D, E>, s: S, body: Bytes): seq<StreamItem<D, E>> {
    var fed := Feed(cfg, s, Trimmed(Complete(body)));
    Then(fed, Tail(cfg, fed.state, Rest(body)))
  }

  // ----- the stream object -----

  /** All items still to come, by the fields of the stream's state. */
  function ToCome<S, D, E>(cfg: Config<S, D, E>, s: S, ready: seq<Bytes>, eof: bool, buf: Bytes, body: seq<Chunk>):
      seq<StreamItem<D, E>>
  {
    var fed := Feed(cfg, s, ready);
    Then(fed, if eof then [] else Stream(cfg, fed.state, buf, body))
  }

  lemma ToComeLine<S, D, E>(cfg: Config<S, D, E>, s: S, ready: seq<Bytes>, eof: bool, buf: Bytes, body: seq<Chunk>)
    requires ready != []
    ensures var (s', parsed) := cfg.parse(s, ready[0]);
            ToCome(cfg, s, ready, eof, buf, body) ==
              match parsed
              case ParseFailed(e) => [Err(Parser(e))]
              case Event(Stop) => []
              case Event(Skip) => ToCome(cfg, s', ready[1..], eof, buf, body)
              case Event(Delta(t)) => [Ok(t)] + ToCome(cfg, s', ready[1..], eof, buf, body)
  {
    hide Stream;
  }

  lemma ToComeIdle<S, D, E>(cfg: Config<S, D, E>, s: S, eof: bool, buf: Bytes, body: seq<Chunk>)
    ensures ToCome(cfg, s, [], eof, buf, body) == if eof then [] else Stream(cfg, s, buf, body)
  {
    hide Stream;
  }

  lemma ToComeTail<S, D, E>(cfg: Config<S, D, E>, s: S, buf: Bytes)
    ensures Valid(cfg.utf8, buf) && buf != [] ==>
              Stream(cfg, s, buf, []) == ToCome(cfg, s, [TrimCr(buf)], true, [], [])
    ensures !Valid(cfg.utf8, buf) && buf != [] ==> Stream(cfg, s, buf, []) == [Err(NotUtf8)]
    ensures buf == [] ==> Stream(cfg, s, buf, []) == []
  {
    hide TrimCr, Feed;
  }

  lemma ToComeChunk<S, D, E>(cfg: Config<S, D, E>, s: S, buf: Bytes, body: seq<Chunk>)
    requires body != []
    ensures Stream(cfg, s, buf, body) ==
            match body[0]
            case Broken => [Err(Transport)]
            case Data(bytes) =>
              match Drain(cfg.utf8, cfg.maxLine, buf + bytes)
              case BadLine => [Err(NotUtf8)]
              case TooLong => [Err(LineTooLong)]
              case Lines(lines, rest) => ToCome(cfg, s, lines, false, rest, body[1..])
  {
    hide Feed, Drain;
  }

  class LineState<S, D, E> {
    const cfg: Config<S, D, E>
    var state: S
    var body: seq<Chunk>
    var buf: Bytes
    var ready: seq<Bytes>
    var eof: bool
    var stopped: bool
    var over: bool // the stream has answered its end

    constructor (cfg: Config<S, D, E>, s: S, body: seq<Chunk>)
      ensures Remaining() == Stream(cfg, s, [], body)
    {
      this.cfg, state, this.body := cfg, s, body;
      buf, ready, eof, stopped, over := [], [], false, false, false;
      new;
      hide Stream, Feed, ToCome;
      ToComeIdle(cfg, s, false, [], body);
    }

    /** All items still to come. */
    ghost function Remaining(): seq<StreamItem<D, E>>
      reads this
    {
      if stopped || over then [] else ToCome(cfg, state, ready, eof, buf, body)
    }

    /** The next item of the stream, or its end. */
    method Next() returns (item: Option<StreamItem<D, E>>)
      modifies this
      ensures item.None? ==> old(Remaining()) == [] && Remaining() == []
      ensures item.Some? ==> old(Remaining()) == [item.value] + Remaining()
    {
      hide Drain, Stream, Feed, ToCome, Valid, TrimCr;
      while true
        invariant Remaining() == old(Remaining())
        decreases !eof, |body|, |ready|
      {
        if stopped || over {
          return None;
        }
        if ready != [] {
          ToComeLine(cfg, state, ready, eof, buf, body);
          var line := ready[0];
          var (s', parsed) := cfg.parse(state, line);
          state, ready := s', ready[1..];
          match parsed {
            case ParseFailed(e) =>
              stopped := true;
              return Some(Err(Parser(e)));
            case Event(Stop) =>
              over := true;
              return None;
            case Event(Skip) =>
            case Event(Delta(t)) =>
              return Some(Ok(t));
          }
        } else if eof {
          ToComeIdle(cfg, state, eof, buf, body);
          over := true;
          return None;
        } else if body == [] {
          ToComeIdle(cfg, state, false, buf, body);
          ToComeTail(cfg, state, buf);
          eof := true;
          if buf != [] {
            var tail := buf;
            buf := [];
            var line := IntoLine(cfg.utf8, tail);
            if line.None? {
              stopped := true;
              return Some(Err(NotUtf8));
            }
            ready := [line.value];
          } else {
            ToComeIdle(cfg, state, true, buf, body);
          }
        } else {
          ToComeIdle(cfg, state, false, buf, body);
          ToComeChunk(cfg, state, buf, body);
          var chunk := body[0];
          body := body[1..];
          if chunk.Broken? {
            stopped := true;
            return Some(Err(Transport));
          }
          var failed, rest, lines := DrainLines(cfg.utf8, cfg.maxLine, buf + chunk.bytes, ready);
          assert failed.None? ==> lines == Drain(cfg.utf8, cfg.maxLine, buf + chunk.bytes).lines;
          buf, ready := rest, lines;
          if failed.Some? {
            stopped := true;
            return Some(Err(if failed.value.BadLine? then NotUtf8 else LineTooLong));
          }
        }
      }
    }
  }
}
