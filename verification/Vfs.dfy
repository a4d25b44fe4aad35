/**
  What the engine may ask of a storage provider, and the token that may end the walk. A
  provider is a bundle of answers: one function of the path per call. Nothing is assumed
  about the answers: a listing may break, lie about paths, or never end.
 */
module Vfs {
  import opened Proto
  import Key

  datatype Item = Listed(entry: Entry) | BrokenItem

  /** A listing is a lazy stream: `at(i)` is its `i`-th item, `None` its end. */
  datatype Listing = Unlistable | Stream(at: nat -> Option<Item>)

  datatype Chunk = Data(bytes: Bytes) | BrokenChunk

  datatype Reading = Unopenable | Chunks(chunks: seq<Chunk>)

  datatype Provider = Provider(
    list: VPath -> Listing,
    stat: VPath -> Option<Entry>,
    read: VPath -> Reading,
    readLink: VPath -> Option<Bytes>,
    capabilitiesAt: VPath -> Option<Key.Capabilities>)

  /**
    The cancellation token. When it fires is not the engine's to decide: the `i`-th look finds
    it fired if `schedule` says so of that look or of an earlier one, and `schedule` is any
    function at all. Firing between two looks is firing at the second one.
   */
  class Token {
    const schedule: nat -> bool
    var looks: nat

    constructor (schedule: nat -> bool)
      ensures this.schedule == schedule && looks == 0 && !Fired()
    {
      this.schedule := schedule;
      looks := 0;
    }

    /** Some look so far found it fired. */
    ghost predicate Fired()
      reads this
    {
      exists i :: 0 <= i < looks && schedule(i)
    }

    method IsCancelled() returns (b: bool)
      modifies this
      ensures looks == old(looks) + 1
      ensures b == Fired()
      ensures old(Fired()) ==> Fired()
    {
      looks := looks + 1;
      b := exists i :: 0 <= i < looks && schedule(i);
    }
  }
}
