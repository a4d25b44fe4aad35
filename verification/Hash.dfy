/** Digests of chunked contents, computed under the token, and their independence of the chunking. */
module Hash {
  import opened Proto
  import opened Vfs

  /** A streaming hasher, by its contract: what it has absorbed so far. */
  datatype Hasher = Hasher(absorbed: Bytes) {
    function Update(bytes: Bytes): Hasher {
      Hasher(absorbed + bytes)
    }

    function Finalize(digest: Bytes -> Bytes): Bytes {
      digest(absorbed)
    }
  }

  datatype HashResult = Digest(digest: Bytes) | ReadBroke | HashCancelled

  /** The concatenated content of a run of chunks, or nothing if one of them broke. */
  function ConcatChunks(chunks: seq<Chunk>): Option<Bytes> {
    if chunks == [] then Some([])
    else
      var n := |chunks| - 1;
      match (ConcatChunks(chunks[..n]), chunks[n])
      case (Some(before), Data(bytes)) => Some(before + bytes)
      case _ => None
  }

  function Content(r: Reading): Option<Bytes> {
    match r
    case Unopenable => None
    case Chunks(chunks) => ConcatChunks(chunks)
  }

  lemma {:induction false} BrokenStaysBroken(chunks: seq<Chunk>, n: nat)
    requires n <= |chunks|
    requires ConcatChunks(chunks[..n]).None?
    ensures ConcatChunks(chunks).None?
  {
    if n == |chunks| {
      assert chunks[..n] == chunks;
    } else {
      assert chunks[..|chunks| - 1][..n] == chunks[..n];
      BrokenStaysBroken(chunks[..|chunks| - 1], n);
    }
  }

  /**
    The loop over the byte stream. Unless the token ended it, the digest is that of the whole
    concatenated content, or a broken read if any chunk broke.
   */
  method FoldDigest(digest: Bytes -> Bytes, chunks: seq<Chunk>, token: Token) returns (r: HashResult)
    modifies token
    ensures old(token.Fired()) ==> token.Fired()
    ensures r == HashCancelled ==> token.Fired()
    ensures r != HashCancelled ==>
              r == match ConcatChunks(chunks)
                   case None => ReadBroke
                   case Some(content) => Digest(digest(content))
  {
    var hasher := Hasher([]);
    var i := 0;
    while i < |chunks|
      invariant 0 <= i <= |chunks|
      invariant old(token.Fired()) ==> token.Fired()
      invariant ConcatChunks(chunks[..i]) == Some(hasher.absorbed)
    {
      assert chunks[..i + 1][..i] == chunks[..i];
      var cancelled := token.IsCancelled();
      if cancelled {
        return HashCancelled;
      }
      match chunks[i] {
        case BrokenChunk =>
          BrokenStaysBroken(chunks, i + 1);
          return ReadBroke;
        case Data(bytes) =>
          hasher := hasher.Update(bytes);
      }
      i := i + 1;
    }
    assert chunks[..i] == chunks;
    r := Digest(hasher.Finalize(digest));
  }

  method Sha256Of(digest: Bytes -> Bytes, p: Provider, path: VPath, token: Token) returns (r: HashResult)
    modifies token
    ensures old(token.Fired()) ==> token.Fired()
    ensures r == HashCancelled ==> token.Fired()
    ensures r != HashCancelled ==>
              r == match Content(p.read(path))
                   case None => ReadBroke
                   case Some(content) => Digest(digest(content))
  {
    var cancelled := token.IsCancelled();
    if cancelled {
      return HashCancelled;
    }
    match p.read(path) {
      case Unopenable => r := ReadBroke;
      case Chunks(chunks) => r := FoldDigest(digest, chunks, token);
    }
  }

  /** Splitting one chunk in two changes no content: the digest is of the bytes, not of how they came. */
  lemma {:induction false} ChunkingIsInvisible(before: seq<Chunk>, a: Bytes, b: Bytes, after: seq<Chunk>)
    ensures ConcatChunks(before + [Data(a + b)] + after) == ConcatChunks(before + [Data(a), Data(b)] + after)
    decreases |after|
  {
    var whole, split := before + [Data(a + b)] + after, before + [Data(a), Data(b)] + after;
    if after == [] {
      assert whole[..|whole| - 1] == before;
      assert split[..|split| - 1] == before + [Data(a)];
      assert split[..|split| - 1][..|before|] == before;
      if ConcatChunks(before).Some? {
        var c := ConcatChunks(before).value;
        assert (c + a) + b == c + (a + b);
      }
    } else {
      var rest := after[..|after| - 1];
      assert whole[..|whole| - 1] == before + [Data(a + b)] + rest;
      assert split[..|split| - 1] == before + [Data(a), Data(b)] + rest;
      ChunkingIsInvisible(before, a, b, rest);
    }
  }

  /** The content of a run of chunks is that of its two parts, one after the other; a break anywhere breaks it. */
  lemma {:induction false} ConcatAppends(a: seq<Chunk>, b: seq<Chunk>)
    ensures ConcatChunks(a + b) ==
            match (ConcatChunks(a), ConcatChunks(b))
            case (Some(x), Some(y)) => Some(x + y)
            case _ => None
    decreases |b|
  {
    if b == [] {
      assert a + b == a;
      if ConcatChunks(a).Some? {
        assert ConcatChunks(a).value + [] == ConcatChunks(a).value;
      }
    } else {
      var n := |b| - 1;
      ConcatAppends(a, b[..n]);
      assert (a + b)[..|a + b| - 1] == a + b[..n];
      assert (a + b)[|a + b| - 1] == b[n];
      if ConcatChunks(a).Some? && ConcatChunks(b).Some? {
        var x, y := ConcatChunks(a).value, ConcatChunks(b[..n]).value;
        assert (x + y) + b[n].bytes == x + (y + b[n].bytes);
      }
    }
  }

  lemma ConcatOfOne(c: Chunk)
    ensures ConcatChunks([c]) == if c.Data? then Some(c.bytes) else None
  {
    assert [c][..0] == [];
    assert ConcatChunks([]) == Some([]);
    if c.Data? {
      assert [] + c.bytes == c.bytes;
    }
  }

  /** A file has a content if and only if it opens and no chunk of it breaks. */
  lemma {:induction false} ContentIffUnbroken(chunks: seq<Chunk>)
    ensures ConcatChunks(chunks).Some? <==> forall i :: 0 <= i < |chunks| ==> chunks[i].Data?
  {
    if chunks != [] {
      var n := |chunks| - 1;
      ContentIffUnbroken(chunks[..n]);
      assert chunks == chunks[..n] + [chunks[n]];
    }
  }

  /** Where chunk `k` lies in the content: after all bytes of the chunks before it, whole and unchanged. */
  lemma ChunkInPlace(chunks: seq<Chunk>, k: nat)
    requires ConcatChunks(chunks).Some? && k < |chunks|
    ensures chunks[k].Data? && ConcatChunks(chunks[..k]).Some? && ConcatChunks(chunks[k + 1..]).Some?
    ensures ConcatChunks(chunks).value
         == ConcatChunks(chunks[..k]).value + chunks[k].bytes + ConcatChunks(chunks[k + 1..]).value
  {
    hide ConcatChunks;
    assert chunks == chunks[..k] + [chunks[k]] + chunks[k + 1..];
    ConcatAppends(chunks[..k] + [chunks[k]], chunks[k + 1..]);
    ConcatAppends(chunks[..k], [chunks[k]]);
    ConcatOfOne(chunks[k]);
  }

  /** A file is unreadable exactly if it does not open or some chunk of it breaks. */
  lemma ContentIsExact(r: Reading)
    ensures Content(r).Some? <==> r.Chunks? && forall i :: 0 <= i < |r.chunks| ==> r.chunks[i].Data?
    ensures r.Chunks? ==> Content(r) == ConcatChunks(r.chunks)
  {
    if r.Chunks? {
      ContentIffUnbroken(r.chunks);
    }
  }
}
