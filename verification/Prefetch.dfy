/** The prefetcher that hands out random bytes for nonces and file IDs (internal/cryptocore/randprefetch.go). */
module Prefetch {
  import opened Bytes

  const PREFETCH: nat := 512

  /** bytes.Buffer as far as it is used here. */
  class Buffer {
    var unread: bytes

    constructor ()
      ensures unread == []
    {
      unread := [];
    }

    method Reset()
      modifies this
      ensures unread == []
    {
      unread := [];
    }

    method Write(data: bytes)
      modifies this
      ensures unread == old(unread) + data
    {
      unread := unread + data;
    }

    /** Fills as much of out as there is. Nothing to give to someone who wants something is end of file. */
    method Read(out: array<byte>) returns (n: nat, eof: bool)
      modifies this, out
      ensures n == Min(out.Length, |old(unread)|)
      ensures eof <==> old(unread) == [] && 0 < out.Length
      ensures out[..n] == old(unread)[..n] && unread == old(unread)[n..]
    {
      eof := |unread| == 0 && 0 < out.Length;
      n := Min(out.Length, |unread|);
      forall i | 0 <= i < n {
        out[i] := unread[i];
      }
      unread := unread[n..];
    }
  }

  /** Bytes from up to to of one refill. */
  datatype Slice = Slice(refill: nat, from: nat, to: nat)

  ghost predicate Within(s: Slice) { s.from <= s.to <= PREFETCH }

  ghost predicate Before(a: Slice, b: Slice) { a.refill < b.refill || (a.refill == b.refill && a.to <= b.from) }

  ghost predicate Has(s: Slice, refill: nat, pos: nat) { s.refill == refill && s.from <= pos < s.to }

  ghost predicate InOrder(log: seq<Slice>) {
    && (forall s | s in log :: Within(s))
    && (forall i, j | 0 <= i < j < |log| :: Before(log[i], log[j]))
  }

  /** Everything handed out lies before s. */
  ghost predicate AllBefore(log: seq<Slice>, s: Slice) { forall x | x in log :: Before(x, s) }

  /** Handing out one more part, with nothing handed out from a on; next is what is left after it. */
  lemma Advance(log: seq<Slice>, a: Slice, s: Slice, next: Slice)
    requires InOrder(log) && AllBefore(log, a) && Within(s)
    requires a.refill < s.refill || (a.refill == s.refill && a.from <= s.from)
    requires next.refill == s.refill && s.to <= next.from
    ensures InOrder(log + [s]) && AllBefore(log + [s], next)
  {
    var more := log + [s];
    forall i, j | 0 <= i < j < |more| ensures Before(more[i], more[j]) {
      assert more[i] in log;
    }
  }

  /** Parts in order share no position of any refill. */
  lemma HandedOutOnce(log: seq<Slice>, i: nat, j: nat, refill: nat, pos: nat)
    requires InOrder(log) && i < j < |log|
    ensures !(Has(log[i], refill, pos) && Has(log[j], refill, pos))
  {
    assert Before(log[i], log[j]);
  }

  ghost predicate Refills(stream: nat -> bytes) { forall k :: |stream(k)| == PREFETCH }

  /** out is this part of the stream, cut from a single refill. */
  ghost predicate IsPart(stream: nat -> bytes, s: Slice, out: bytes) {
    Within(s) && s.to <= |stream(s.refill)| && out == stream(s.refill)[s.from..s.to]
  }

  /** Taking the first bytes of what is left of a refill. */
  lemma Consume(stream: nat -> bytes, s: Slice, left: bytes, out: bytes, rest: bytes)
    requires Refills(stream) && Within(s)
    requires left == stream(s.refill)[s.from..] || (left == [] && s.from == s.to)
    requires s.to - s.from <= |left| && out == left[..s.to - s.from] && rest == left[s.to - s.from..]
    ensures IsPart(stream, s, out)
    ensures left != [] ==> rest == stream(s.refill)[s.to..]
  {
  }

  lemma RefillSize(stream: nat -> bytes, k: nat)
    requires Refills(stream)
    ensures |stream(k)| == PREFETCH
  {
  }

  class RandPrefetcher {
    /** What the worker puts into the channel. */
    const stream: nat -> bytes
    const buf: Buffer
    var taken: nat
    /** What has been handed out, in order. */
    ghost var log: seq<Slice>

    constructor (stream: nat -> bytes)
      requires Refills(stream)
      ensures Valid() && this.stream == stream && log == [] && fresh(buf)
    {
      this.stream, taken, log := stream, 0, [];
      buf := new Buffer();
    }

    /** What the buffer still holds. */
    ghost function Next(): Slice
      reads this, buf
      requires |buf.unread| <= PREFETCH
    {
      if taken == 0 then Slice(0, 0, 0) else Slice(taken - 1, PREFETCH - |buf.unread|, PREFETCH)
    }

    /** The buffer holds the rest of the last refill, and nothing of it has been handed out. */
    ghost predicate Valid()
      reads this, buf
    {
      && Refills(stream) && |buf.unread| <= PREFETCH
      && buf.unread == (if taken == 0 then [] else stream(taken - 1)[PREFETCH - |buf.unread|..])
      && InOrder(log) && AllBefore(log, Next())
    }

    /** A read panics exactly when it wants more than a refill; else it gets a fresh part of a single refill. */
    method Read(want: nat) returns (out: array<byte>, panicked: bool, ghost s: Slice)
      requires Valid()
      modifies this`taken, this`log, buf
      ensures panicked <==> 512 < want
      ensures !panicked ==> Valid() && log == old(log) + [s]
      ensures fresh(out) && out.Length == want
      ensures !panicked ==> IsPart(stream, s, out[..])
    {
      hide InOrder, AllBefore, Has, Before, Refills, IsPart;
      out := new byte[want];
      panicked, s := false, Slice(0, 0, 0);
      ghost var next := Next();
      RefillSize(stream, next.refill);
      RefillSize(stream, taken);
      ghost var u := buf.unread;
      var have, eof := buf.Read(out);
      if have == want && !eof {
        s := Slice(next.refill, next.from, next.from + want);
        assert out[..] == u[..want];
        Consume(stream, s, u, out[..], buf.unread);
        Advance(log, next, s, Next());
        log := log + [s];
        return;
      }
      panicked, s := ReadRefill(out, next);
    }

    /** What is left of the last refill is dropped, and the value cut from the next one. */
    method ReadRefill(out: array<byte>, ghost next: Slice) returns (panicked: bool, ghost s: Slice)
      requires Refills(stream) && |buf.unread| <= PREFETCH && InOrder(log) && AllBefore(log, next)
      requires next == Slice(0, 0, 0) || next.refill < taken
      modifies this`taken, this`log, buf, out
      ensures panicked <==> PREFETCH < out.Length
      ensures !panicked ==> Valid() && log == old(log) + [s] && IsPart(stream, s, out[..])
    {
      hide InOrder, AllBefore, Has, Before, Refills, IsPart;
      panicked, s := false, Slice(taken, 0, out.Length);
      var refill := stream(taken);
      RefillSize(stream, taken);
      taken := taken + 1;
      buf.Reset();
      buf.Write(refill);
      assert buf.unread == refill;
      var have, eof := buf.Read(out);
      if have != out.Length || eof {
        panicked := true;
        return;
      }
      assert out[..] == refill[..out.Length];
      Consume(stream, s, refill, out[..], buf.unread);
      Advance(log, next, s, Next());
      log := log + [s];
    }

    /** Any run of reads of at most a refill each: every value is part of one refill, and no byte is given twice. */
    method Run(wants: seq<nat>) returns (outs: seq<bytes>, ghost parts: seq<Slice>)
      requires Valid() && forall w | w in wants :: w <= 512
      modifies this`taken, this`log, buf
      ensures Valid() && log == old(log) + parts && |outs| == |parts| == |wants|
      ensures forall i | 0 <= i < |wants| :: |outs[i]| == wants[i] && IsPart(stream, parts[i], outs[i])
      ensures forall i, j, k, p | 0 <= i < j < |parts| && 0 <= k && 0 <= p ::
        !(Has(parts[i], k, p) && Has(parts[j], k, p))
    {
      hide InOrder, AllBefore, Has, Before, Refills, IsPart;
      outs, parts := [], [];
      for i := 0 to |wants|
        invariant Valid() && log == old(log) + parts && |outs| == |parts| == i
        invariant forall k | 0 <= k < i :: |outs[k]| == wants[k] && IsPart(stream, parts[k], outs[k])
      {
        assert wants[i] in wants;
        var out, panicked, s := Read(wants[i]);
        outs, parts := outs + [out[..]], parts + [s];
      }
      forall i, j, k, p | 0 <= i < j < |parts| && 0 <= k && 0 <= p
        ensures !(Has(parts[i], k, p) && Has(parts[j], k, p))
      {
        HandedOutOnce(log, |old(log)| + i, |old(log)| + j, k, p);
      }
    }
  }
}
