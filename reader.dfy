/**
 * `read_until` of `client.rs`: read a stream one byte at a time until what
 * has been read ends with a delimiter, or the stream ends.
 */
module Reader {
  import opened Base
  import opened Streams

  /**
   * How many bytes of `data` a read up to `delim` takes: none for an empty
   * delimiter; otherwise the shortest prefix that ends with the delimiter,
   * or all of `data` when no prefix does.
   */
  function UntilLength(data: Bytes, delim: Bytes): (n: nat)
    ensures n <= |data|
    ensures delim == [] ==> n == 0
    ensures delim != [] ==> n == |data| || EndsWith(data[..n], delim)
    ensures delim != [] ==> forall j :: 0 <= j < n ==> !EndsWith(data[..j], delim)
  {
    if delim == [] then 0 else ScanFrom(data, delim, 0)
  }

  /** The search behind `UntilLength`, from prefix length `k` on. */
  function ScanFrom(data: Bytes, delim: Bytes, k: nat): (n: nat)
    requires delim != [] && k <= |data|
    requires forall j :: 0 <= j < k ==> !EndsWith(data[..j], delim)
    ensures k <= n <= |data|
    ensures n == |data| || EndsWith(data[..n], delim)
    ensures forall j :: 0 <= j < n ==> !EndsWith(data[..j], delim)
    decreases |data| - k
  {
    if k == |data| || EndsWith(data[..k], delim) then k
    else ScanFrom(data, delim, k + 1)
  }

  /** The properties of `UntilLength` pin it down: any length that has them is it. */
  lemma UntilLengthUnique(data: Bytes, delim: Bytes, n: nat)
    requires delim != [] && n <= |data|
    requires n == |data| || EndsWith(data[..n], delim)
    requires forall j :: 0 <= j < n ==> !EndsWith(data[..j], delim)
    ensures UntilLength(data, delim) == n
  {
  }

  /**
   * Reads from `stream` until the bytes read end with `delim`, or the stream
   * ends. The result is exactly the bytes taken off the stream, and it is the
   * shortest prefix of the unread bytes that ends with the delimiter, or all of
   * them.
   */
  method ReadUntil(stream: Stream, delim: Bytes) returns (buf: Bytes)
    requires stream.Valid()
    modifies stream`pending
    ensures stream.Valid()
    ensures buf == old(stream.Unread())[..UntilLength(old(stream.Unread()), delim)]
    ensures old(stream.Unread()) == buf + stream.Unread()
  {
    buf := [];
    if delim == [] {
      return;
    }
    ghost var data := stream.Unread();
    var done := false;
    while !done
      invariant stream.Valid()
      invariant data == buf + stream.Unread()
      invariant forall j :: 0 <= j < |buf| ==> !EndsWith(data[..j], delim)
      invariant !done ==> !EndsWith(buf, delim)
      invariant done ==> stream.Unread() == [] || EndsWith(buf, delim)
      decreases if done then 0 else |stream.Unread()| + 1
    {
      var oneByte := stream.Read(1);
      if oneByte == [] {
        done := true;
      } else {
        assert data[..|buf|] == buf;
        AppendAssoc(buf, oneByte, stream.Unread());
        buf := buf + oneByte;
        if EndsWith(buf, delim) {
          done := true;
        }
      }
    }
    assert data[..|buf|] == buf;
    UntilLengthUnique(data, delim, |buf|);
  }

  /**
   * Where the delimiter first completes at the end of `head`, the reader
   * returns `head` and leaves everything after it on the stream.
   */
  lemma {:induction false} StopsAtFirstDelimiter(head: Bytes, tail: Bytes, delim: Bytes)
    requires delim != [] && EndsWith(head, delim)
    requires forall j :: 0 <= j < |head| ==> !EndsWith(head[..j], delim)
    ensures UntilLength(head + tail, delim) == |head|
  {
    var data := head + tail;
    assert data[..|head|] == head;
    forall j | 0 <= j < |head|
      ensures !EndsWith(data[..j], delim)
    {
      assert data[..j] == head[..j];
    }
    UntilLengthUnique(data, delim, |head|);
  }
}
