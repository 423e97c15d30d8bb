/**
 * The two connection pools of `client.rs`, one for plain TCP and one for TLS:
 * each maps a socket address to a stack of idle streams. A stream is pushed
 * when a response whose body was read is released, and the most recent one
 * is popped when a connection to that address is wanted.
 */
module Pool {
  import opened Base
  import opened Streams
  import opened Misc

  /**
   * A stream is pushed only while its bucket holds at most this many, so a
   * bucket can grow to one more than this.
   */
  const PUSH_LIMIT: nat := 30

  type Buckets = map<SocketAddr, seq<Stream>>

  /** Every bucket holds at most `PUSH_LIMIT + 1` streams. */
  predicate Bounded(m: Buckets) {
    forall a :: a in m ==> |m[a]| <= PUSH_LIMIT + 1
  }

  /**
   * The pool after `stream` is released to `addr`: a new bucket holding just
   * that stream when there is none, the stream on top of the bucket when it
   * holds at most `PUSH_LIMIT`, and otherwise no change (the stream is dropped).
   */
  function Released(m: Buckets, addr: SocketAddr, stream: Stream): (r: Buckets)
    ensures r.Keys == m.Keys + {addr}
    ensures forall a :: a in m && a != addr ==> r[a] == m[a]
    ensures addr in m ==> |m[addr]| <= |r[addr]| <= |m[addr]| + 1 && r[addr][..|m[addr]|] == m[addr]
  {
    if addr !in m then m[addr := [stream]]
    else if |m[addr]| <= PUSH_LIMIT then m[addr := m[addr] + [stream]]
    else m
  }

  /**
   * The pool after popping `addr`, and what the pop yields: the most recently
   * pushed stream, or nothing when the bucket is missing or empty. An emptied
   * bucket stays in the map.
   */
  function Popped(m: Buckets, addr: SocketAddr): (r: (Option<Stream>, Buckets))
    ensures r.1.Keys == m.Keys
    ensures forall a :: a in m && a != addr ==> r.1[a] == m[a]
    ensures r.0.Some? <==> addr in m && m[addr] != []
    ensures r.0.Some? ==> m[addr] == r.1[addr] + [r.0.value]
    ensures r.0.None? ==> r.1 == m
  {
    if addr in m && m[addr] != [] then
      var bucket := m[addr];
      (Some(bucket[|bucket| - 1]), m[addr := bucket[..|bucket| - 1]])
    else (None, m)
  }

  /** Releasing keeps every bucket within `PUSH_LIMIT + 1`. */
  lemma ReleaseKeepsBound(m: Buckets, addr: SocketAddr, stream: Stream)
    requires Bounded(m)
    ensures Bounded(Released(m, addr, stream))
  {
  }

  /**
   * A bucket reaches exactly `PUSH_LIMIT + 1`: releasing to a bucket of that
   * size drops the stream, and releasing to one of `PUSH_LIMIT` fills it to
   * that size.
   */
  lemma {:induction false} ReleaseToFullBucket(m: Buckets, addr: SocketAddr, stream: Stream)
    requires addr in m && |m[addr]| >= PUSH_LIMIT
    ensures |m[addr]| == PUSH_LIMIT ==> |Released(m, addr, stream)[addr]| == PUSH_LIMIT + 1
    ensures |m[addr]| > PUSH_LIMIT ==> Released(m, addr, stream) == m
  {
  }

  /** `n` releases to one address, starting from no bucket. */
  function ReleaseAll(m: Buckets, addr: SocketAddr, streams: seq<Stream>): (r: Buckets)
    ensures m.Keys <= r.Keys && (streams != [] ==> addr in r)
    decreases |streams|
  {
    if streams == [] then m
    else ReleaseAll(Released(m, addr, streams[0]), addr, streams[1..])
  }

  /**
   * However many streams are released to a fresh address, its bucket ends up
   * with the first `PUSH_LIMIT + 1` of them, in order; the rest are dropped.
   */
  lemma {:induction false} ReleaseAllFills(m: Buckets, addr: SocketAddr, streams: seq<Stream>, kept: seq<Stream>)
    requires addr in m && m[addr] == kept && 0 < |kept| <= PUSH_LIMIT + 1
    ensures var n := if |kept| + |streams| <= PUSH_LIMIT + 1 then |streams| else PUSH_LIMIT + 1 - |kept|;
      ReleaseAll(m, addr, streams)[addr] == kept + streams[..n]
    decreases |streams|
  {
    if streams == [] {
      assert kept + streams[..0] == kept;
    } else {
      var next := Released(m, addr, streams[0]);
      if |kept| <= PUSH_LIMIT {
        ReleaseAllFills(next, addr, streams[1..], kept + [streams[0]]);
        var n := if |kept| + |streams| <= PUSH_LIMIT + 1 then |streams| else PUSH_LIMIT + 1 - |kept|;
        assert kept + [streams[0]] + streams[1..][..n - 1] == kept + streams[..n];
      } else {
        assert next == m;
        ReleaseAllFills(next, addr, streams[1..], kept);
      }
    }
  }

  /** The same, from an address with no bucket yet. */
  lemma ReleaseAllFresh(m: Buckets, addr: SocketAddr, streams: seq<Stream>)
    requires addr !in m && streams != []
    ensures var n := if |streams| <= PUSH_LIMIT + 1 then |streams| else PUSH_LIMIT + 1;
      ReleaseAll(m, addr, streams)[addr] == streams[..n]
  {
    var next := Released(m, addr, streams[0]);
    ReleaseAllFills(next, addr, streams[1..], [streams[0]]);
    var n := if |streams| <= PUSH_LIMIT + 1 then |streams| else PUSH_LIMIT + 1;
    assert [streams[0]] + streams[1..][..n - 1] == streams[..n];
  }

  /**
   * Last in, first out: popping right after a release that pushed yields the
   * released stream and leaves the bucket as it was.
   */
  lemma PopAfterRelease(m: Buckets, addr: SocketAddr, stream: Stream)
    requires addr in m ==> |m[addr]| <= PUSH_LIMIT
    ensures Popped(Released(m, addr, stream), addr).0 == Some(stream)
    ensures addr in m ==> Popped(Released(m, addr, stream), addr).1 == m
    ensures addr !in m ==> Popped(Released(m, addr, stream), addr).1 == m[addr := []]
  {
    var r := Released(m, addr, stream);
    if addr in m {
      assert (m[addr] + [stream])[..|m[addr]|] == m[addr];
    }
  }

  /** The pools themselves: two maps updated in place. */
  class Pools {
    var tcp: Buckets
    var tls: Buckets

    ghost predicate Valid()
      reads this
    {
      Bounded(tcp) && Bounded(tls)
    }

    constructor ()
      ensures Valid() && tcp == map[] && tls == map[]
    {
      tcp := map[];
      tls := map[];
    }

    /** Pushes `stream` onto the TLS or the TCP bucket of `addr`, as `Released` says. */
    method Release(isTls: bool, addr: SocketAddr, stream: Stream)
      requires Valid()
      modifies this
      ensures Valid()
      ensures isTls ==> tls == Released(old(tls), addr, stream) && tcp == old(tcp)
      ensures !isTls ==> tcp == Released(old(tcp), addr, stream) && tls == old(tls)
    {
      if isTls {
        ReleaseKeepsBound(tls, addr, stream);
        if addr in tls {
          var bucket := tls[addr];
          if |bucket| <= PUSH_LIMIT {
            tls := tls[addr := bucket + [stream]];
          }
        } else {
          tls := tls[addr := [stream]];
        }
      } else {
        ReleaseKeepsBound(tcp, addr, stream);
        if addr in tcp {
          var bucket := tcp[addr];
          if |bucket| <= PUSH_LIMIT {
            tcp := tcp[addr := bucket + [stream]];
          }
        } else {
          tcp := tcp[addr := [stream]];
        }
      }
    }

    /** Pops the most recent stream of the TLS or TCP bucket of `addr`, as `Popped` says. */
    method Pop(isTls: bool, addr: SocketAddr) returns (s: Option<Stream>)
      requires Valid()
      modifies this
      ensures Valid()
      ensures isTls ==> (s, tls) == Popped(old(tls), addr) && tcp == old(tcp)
      ensures !isTls ==> (s, tcp) == Popped(old(tcp), addr) && tls == old(tls)
    {
      var m := if isTls then tls else tcp;
      s := None;
      if addr in m {
        var bucket := m[addr];
        if bucket != [] {
          s := Some(bucket[|bucket| - 1]);
          m := m[addr := bucket[..|bucket| - 1]];
        }
      }
      if isTls {
        tls := m;
      } else {
        tcp := m;
      }
    }
  }
}
