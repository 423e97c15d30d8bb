/**
 * The boxed duplex stream the engine reads from and writes to. The source
 * boxes one of two concrete types behind a trait object and downcasts to tell
 * them apart; here the variant is an explicit tag. The peer's side is modelled
 * as the segments in which its bytes arrive: one read returns at most the rest
 * of the current segment, so every pattern of short reads a socket can produce
 * is the behaviour of some segmentation.
 */
module Streams {
  import opened Base

  /** The two concrete stream types that are ever boxed: a TCP socket, or TLS over one. */
  datatype Kind = Plain | Tls

  /** No segment is empty: an empty read means the peer has nothing more to send. */
  predicate Segmented(segments: seq<Bytes>) {
    forall i :: 0 <= i < |segments| ==> segments[i] != []
  }

  /** What a read into a buffer of `max` bytes returns. */
  function NextRead(segments: seq<Bytes>, max: nat): Bytes {
    if segments == [] || max == 0 then []
    else if |segments[0]| <= max then segments[0]
    else segments[0][..max]
  }

  /** The segments still pending after that read. */
  function AfterRead(segments: seq<Bytes>, max: nat): seq<Bytes> {
    if segments == [] || max == 0 then segments
    else if |segments[0]| <= max then segments[1..]
    else [segments[0][max..]] + segments[1..]
  }

  /**
   * A read takes a prefix of the unread bytes, at most `max` of them, and is
   * empty only at end of stream (or for an empty buffer).
   */
  lemma ReadTakesPrefix(segments: seq<Bytes>, max: nat)
    requires Segmented(segments)
    ensures Segmented(AfterRead(segments, max))
    ensures Flatten(segments) == NextRead(segments, max) + Flatten(AfterRead(segments, max))
    ensures |NextRead(segments, max)| <= max
    ensures NextRead(segments, max) == [] <==> max == 0 || Flatten(segments) == []
  {
    if segments != [] && max > 0 && |segments[0]| > max {
      var rest := [segments[0][max..]] + segments[1..];
      assert rest[1..] == segments[1..];
      assert segments[0] == segments[0][..max] + segments[0][max..];
    }
  }

  class Stream {
    const kind: Kind
    /** The bytes the peer has sent that nobody has read yet, as they arrive. */
    var pending: seq<Bytes>
    /** Every byte written to the stream so far. */
    var written: Bytes

    ghost predicate Valid()
      reads this`pending
    {
      Segmented(pending)
    }

    /** The unread bytes, in order. */
    ghost function Unread(): Bytes
      reads this`pending
    {
      Flatten(pending)
    }

    constructor (kind: Kind, incoming: seq<Bytes>)
      requires Segmented(incoming)
      ensures Valid()
      ensures this.kind == kind && pending == incoming && written == []
    {
      this.kind := kind;
      pending := incoming;
      written := [];
    }

    /** `read` into a buffer of `max` bytes. */
    method Read(max: nat) returns (chunk: Bytes)
      requires Valid()
      modifies this`pending
      ensures Valid()
      ensures chunk == NextRead(old(pending), max) && pending == AfterRead(old(pending), max)
      ensures old(Unread()) == chunk + Unread()
      ensures |chunk| <= max && (chunk == [] <==> max == 0 || old(Unread()) == [])
    {
      ReadTakesPrefix(pending, max);
      chunk := NextRead(pending, max);
      pending := AfterRead(pending, max);
    }

    /** `write_all`: every byte is written, in order. */
    method WriteAll(data: Bytes)
      modifies this`written
      ensures written == old(written) + data
    {
      written := written + data;
    }
  }
}
