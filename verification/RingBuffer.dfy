/**
 The ring buffer of application tracing: it hands out contiguous chunks, and gives up the end of its storage for a
 while when a chunk only fits at the start (app_trace_util.c).
 */
module RingBuffer {
  import opened Bytes
  import opened Options

  const WORD := 0x1_0000_0000

  /** The control block: size and current size of the storage, read and write offset. */
  datatype Ring = Ring(size: nat, cur: nat, rd: nat, wr: nat)
  {
    /** Between reads and writes: either nothing has wrapped and the whole storage is in use, or the reader is ahead. */
    predicate Valid() {
      && size < WORD
      && if rd <= wr then cur == size && (wr < size || (size == 0 && wr == 0)) else rd < cur <= size
    }

    /** The offsets of the queued bytes, oldest first. */
    function Queue(): seq<nat>
      requires Valid()
    {
      if rd <= wr then Range(rd, wr) else Range(rd, cur) + Range(0, wr)
    }

    /** esp_apptrace_rb_produce: the new control block, and where the chunk of `n` bytes starts. */
    function Produce(n: nat): (r: (Ring, Option<nat>))
      requires Valid() && n < WORD
    {
      var sum := (wr + n) % WORD;
      if rd <= wr then
        if sum >= size then
          if rd == 0 then (this, None)
          else if sum == size then (this.(wr := 0), Some(wr))
          else if n > rd - 1 then (this, None)
          else if rd == wr then (Ring(size, size, 0, n), Some(0))
          else (Ring(size, wr, rd, n), Some(0))
        else (this.(wr := sum), Some(wr))
      else if n > rd - wr - 1 then (this, None)
      else (this.(wr := wr + n), Some(wr))
    }

    /** esp_apptrace_rb_consume. */
    function Consume(n: nat): (r: (Ring, Option<nat>))
      requires Valid() && n < WORD
    {
      var sum := (rd + n) % WORD;
      if rd <= wr then
        if sum > wr then (this, None) else (this.(rd := sum), Some(rd))
      else if sum > cur then (this, None)
      else if sum == cur then (Ring(size, size, 0, wr), Some(rd))
      else (this.(rd := sum), Some(rd))
    }

    /** esp_apptrace_rb_read_size_get. */
    function ReadSize(): nat
      requires Valid()
    {
      if rd <= wr then wr - rd else cur - rd
    }

    /** esp_apptrace_rb_write_size_get. */
    function WriteSize(): nat
      requires Valid()
    {
      if rd <= wr then
        if size - wr > 0 && rd == 0 then size - wr - 1 else size - wr
      else rd - wr - 1
    }
  }

  /** The offsets a..b. */
  function Range(a: nat, b: nat): (r: seq<nat>)
    requires a <= b
    ensures |r| == b - a
  {
    seq(b - a, i requires 0 <= i < b - a => a + i)
  }

  /** No offset is queued twice, and all lie in the storage. */
  lemma QueueIsApart(r: Ring)
    requires r.Valid()
    ensures forall i, j :: 0 <= i < j < |r.Queue()| ==> r.Queue()[i] != r.Queue()[j]
    ensures Within(r.Queue(), r.size) && |r.Queue()| <= r.size
  {
  }

  lemma Joined(a: nat, b: nat, c: nat)
    requires a <= b <= c
    ensures Range(a, c) == Range(a, b) + Range(b, c)
  {
  }

  /** A granted chunk is put behind everything queued, and shares no offset with it. */
  lemma ProduceAppends(r: Ring, n: nat)
    requires r.Valid() && n < WORD && (r.wr + n < WORD || r.rd > r.wr)
    ensures var (s, p) := r.Produce(n);
            && s.Valid() && s.size == r.size
            && (p.None? ==> s == r)
            && (p.Some? ==> p.value + n <= r.size && s.Queue() == r.Queue() + Range(p.value, p.value + n))
  {
    if r.rd > r.wr {
      AppendsBehindReader(r, n);
    } else if r.wr + n < r.size {
      AppendsAtWriter(r, n);
    } else {
      AppendsAtTheStart(r, n);
    }
  }

  lemma AppendsBehindReader(r: Ring, n: nat)
    requires r.Valid() && n < WORD && r.rd > r.wr
    ensures var (s, p) := r.Produce(n);
            && s.Valid() && s.size == r.size
            && (p.None? ==> s == r)
            && (p.Some? ==> p.value + n <= r.size && s.Queue() == r.Queue() + Range(p.value, p.value + n))
  {
    if n <= r.rd - r.wr - 1 { Joined(0, r.wr, r.wr + n); }
    hide Range;
  }

  lemma AppendsAtWriter(r: Ring, n: nat)
    requires r.Valid() && r.rd <= r.wr && r.wr + n < r.size
    ensures r.wr + n < WORD
    ensures var s := r.(wr := r.wr + n);
            r.Produce(n) == (s, Some(r.wr)) && s.Valid() && s.Queue() == r.Queue() + Range(r.wr, r.wr + n)
  {
    assert (r.wr + n) % WORD == r.wr + n;
    Joined(r.rd, r.wr, r.wr + n);
    hide Range;
  }

  /** The chunk ends with the storage, or does not fit there and goes to its start. */
  lemma AppendsAtTheStart(r: Ring, n: nat)
    requires r.Valid() && n < WORD && r.rd <= r.wr && r.size <= r.wr + n < WORD
    ensures var (s, p) := r.Produce(n);
            && s.Valid() && s.size == r.size
            && (p.None? ==> s == r)
            && (p.Some? ==> p.value + n <= r.size && s.Queue() == r.Queue() + Range(p.value, p.value + n))
  {
    assert (r.wr + n) % WORD == r.wr + n;
    Joined(r.rd, r.wr, r.wr + n);
    NoOffsets();
    hide Range;
  }

  lemma NoOffsets()
    ensures forall a: nat :: Range(a, a) == []
  {
  }

  /**
   With 32-bit sums that wrap round, a request is served as it should be (refused, or with a chunk of its size inside
   the storage) if and only if the sum does not wrap, or the branch taken does not form it.
   */
  lemma ProduceIsRightIff(r: Ring, n: nat)
    requires r.Valid() && n < WORD
    ensures var p := r.Produce(n).1; (p.None? || p.value + n <= r.size) <==> r.wr + n < WORD || r.rd > r.wr
    ensures r.Produce(n).0.Valid() && r.Produce(n).0.size == r.size
  {
    if r.wr + n >= WORD {
      assert (r.wr + n) % WORD == r.wr + n - WORD;
    } else {
      ProduceAppends(r, n);
    }
  }

  /** A chunk of `n` bytes may start at `p`: where the writer is or at the start of the storage, inside the storage, on
      no queued byte, and ending neither on the reader from below nor, wrapped round, on a reader at the start. */
  ghost predicate MayStart(r: Ring, n: nat, p: nat)
    requires r.Valid()
  {
    && (p == r.wr || p == 0) && p + n <= r.size
    && (forall i :: p <= i < p + n ==> i !in r.Queue())
    && (p < r.rd ==> p + n < r.rd)
    && (p + n == r.size ==> r.rd != 0)
  }

  /** A request is granted exactly if there is such a place, and then at one. */
  lemma GrantedIffRoom(r: Ring, n: nat)
    requires r.Valid() && (r.wr + n < WORD || r.rd > r.wr) && n < WORD
    ensures r.Produce(n).1.Some? <==> MayStart(r, n, r.wr) || MayStart(r, n, 0)
    ensures r.Produce(n).1.Some? ==> MayStart(r, n, r.Produce(n).1.value)
  {
    forall i ensures i in r.Queue() <==> if r.rd <= r.wr then r.rd <= i < r.wr else r.rd <= i < r.cur || 0 <= i < r.wr {
      InQueue(r, i);
    }
    if r.rd == 0 < r.wr && n > 0 {
      assert 0 in r.Queue();
    }
    if r.rd > r.wr > 0 && n > 0 {
      assert 0 in r.Queue();
    }
  }

  lemma InQueue(r: Ring, i: int)
    requires r.Valid()
    ensures i in r.Queue() <==> if r.rd <= r.wr then r.rd <= i < r.wr else r.rd <= i < r.cur || 0 <= i < r.wr
  {
    if r.rd <= r.wr {
      InRange(r.rd, r.wr, i);
    } else {
      InRange(r.rd, r.cur, i);
      InRange(0, r.wr, i);
    }
  }

  lemma InRange(a: nat, b: nat, i: int)
    requires a <= b
    ensures i in Range(a, b) <==> a <= i < b
  {
    if a <= i < b {
      assert Range(a, b)[i - a] == i;
    }
  }

  /** Consuming is right if and only if its sum does not wrap; no branch refuses a sum that did. */
  lemma ConsumeIsRightIff(r: Ring, n: nat)
    requires r.Valid() && n < WORD
    ensures var p := r.Consume(n).1; (p.None? || p.value + n <= r.size) <==> r.rd + n < WORD
  {
    if r.rd + n >= WORD {
      assert (r.rd + n) % WORD == r.rd + n - WORD;
    } else {
      assert (r.rd + n) % WORD == r.rd + n;
    }
  }

  /** A request that makes the sum wrap is granted although it is larger than the whole storage. */
  lemma HugeRequestIsGranted()
    ensures var r := Ring(100, 100, 0, 10);
      r.Valid() && r.Produce(0xFFFF_FFF6) == (Ring(100, 100, 0, 0), Some(10))
  {
  }

  /** A consumed chunk is the oldest part of the queue. */
  lemma ConsumeTakesOldest(r: Ring, n: nat)
    requires r.Valid() && r.rd + n < WORD
    ensures var (s, p) := r.Consume(n);
      && s.Valid() && s.size == r.size
      && (p.None? ==> s == r)
      && (p.Some? ==> n <= |r.Queue()| && p.value + n <= r.size && r.Queue() == Range(p.value, p.value + n) + s.Queue())
  {
    assert (r.rd + n) % WORD == r.rd + n;
    if r.rd <= r.wr {
      if r.rd + n <= r.wr { Joined(r.rd, r.rd + n, r.wr); }
    } else if r.rd + n <= r.cur {
      Joined(r.rd, r.rd + n, r.cur);
      NoOffsets();
    }
    hide Range;
  }

  /** What the size functions report can be had in one piece. */
  lemma ReportedSizesAreGranted(r: Ring)
    requires r.Valid()
    ensures r.Consume(r.ReadSize()).1.Some?
    ensures r.WriteSize() > 0 ==> r.Produce(r.WriteSize()).1.Some?
    ensures r.ReadSize() == 0 <==> r.Queue() == []
    ensures r.ReadSize() <= |r.Queue()| && r.WriteSize() <= r.size
  {
  }

  lemma UpToReadSize(r: Ring, n: nat)
    requires r.Valid() && n <= r.ReadSize()
    ensures r.rd + n < WORD && r.Consume(n).1.Some?
  {
  }

  lemma UpToWriteSize(r: Ring, n: nat)
    requires r.Valid() && 0 < n <= r.WriteSize()
    ensures r.wr + n < WORD && r.Produce(n).1.Some?
  {
  }

  /** Two reads of the reported size empty the ring, in whatever way it has wrapped or shrunk. */
  lemma TwoReadsEmpty(r: Ring)
    requires r.Valid()
    ensures var s := r.Consume(r.ReadSize()).0;
      s.Valid() && s.Consume(s.ReadSize()).0.Queue() == []
  {
    UpToReadSize(r, r.ReadSize());
    ConsumeTakesOldest(r, r.ReadSize());
    var s := r.Consume(r.ReadSize()).0;
    assert s.rd <= s.wr;
    ConsumeTakesOldest(s, s.ReadSize());
    NoOffsets();
    hide Range;
  }

  /** With nothing more to write in one piece, the ring holds all but at most what one wrapped-over end can waste. */
  lemma FullMeansFull(r: Ring)
    requires r.Valid() && r.WriteSize() == 0 && r.size > 0
    ensures |r.Queue()| + 1 == r.cur
  {
  }

  class RingBuf {
    const data: array<byte>
    var ring: Ring

    ghost predicate Valid()
      reads this
      ensures Valid() ==> ring.Valid() && ring.size == data.Length
    {
      ring.Valid() && ring.size == data.Length
    }

    /** The queued bytes. */
    ghost function Contents(): (c: seq<byte>)
      reads this, data
      requires Valid()
    {
      QueueIsApart(ring);
      At(data[..], ring.Queue())
    }

    /** esp_apptrace_rb_init. */
    constructor (data: array<byte>)
      requires data.Length < WORD
      ensures Valid() && this.data == data && Contents() == []
    {
      this.data := data;
      ring := Ring(data.Length, data.Length, 0, 0);
    }

    /** The request is one rb_produce serves as it should. */
    predicate Right(n: nat)
      reads this
    {
      ring.wr + n < WORD || ring.rd > ring.wr
    }

    /** A chunk of `n` bytes behind the queued ones, which stay as they are. */
    method Produce(n: nat) returns (p: Option<nat>)
      requires Valid() && n < WORD
      modifies this
      ensures Valid() && (ring, p) == old(ring).Produce(n)
      ensures old(Right(n)) && p.None? ==> Contents() == old(Contents())
      ensures old(Right(n)) && p.Some? ==>
                p.value + n <= data.Length && Contents() == old(Contents()) + data[p.value..p.value + n]
                    && Chunk(p.value, n)
    {
      hide Ring.Produce, Ring.Queue, Range;
      ghost var before := ring;
      ProduceIsRightIff(ring, n);
      QueueIsApart(ring);
      var (next, at) := ring.Produce(n);
      ring, p := next, at;
      if before.wr + n < WORD || before.rd > before.wr { ProduceAppends(before, n); }
      if p.Some? && (before.wr + n < WORD || before.rd > before.wr) {
        AtAppend(data[..], before.Queue(), p.value, n);
        ChunkLast(before, n);
      }
    }

    /** `p`..`p + n` is the last chunk produced, still to be filled. */
    ghost predicate Chunk(p: nat, n: nat)
      reads this
      requires Valid()
    {
      && p + n <= ring.size && n <= |ring.Queue()|
      && ring.Queue()[|ring.Queue()| - n..] == Range(p, p + n)
    }

    /** The user of a chunk writes its bytes. */
    method Fill(p: nat, bytes: seq<byte>)
      requires Valid() && Chunk(p, |bytes|)
      modifies data
      ensures Valid() && Contents() == old(Contents())[..|old(Contents())| - |bytes|] + bytes
    {
      QueueIsApart(ring);
      ghost var before := data[..];
      forall i | p <= i < p + |bytes| {
        data[i] := bytes[i - p];
      }
      FillQueue(before, data[..], ring, p, bytes);
    }

    /** Producing a chunk and copying `bytes` into it. */
    method Put(bytes: seq<byte>) returns (p: Option<nat>)
      requires Valid() && ring.wr + |bytes| < WORD
      modifies this, data
      ensures Valid() && (ring, p) == old(ring).Produce(|bytes|)
      ensures Contents() == if p.Some? then old(Contents()) + bytes else old(Contents())
    {
      hide Contents, Ring.Produce;
      p := Produce(|bytes|);
      if p.Some? {
        ghost var before := old(Contents());
        assert Contents()[..|Contents()| - |bytes|] == before;
        Fill(p.value, bytes);
      }
    }

    /** Consuming a chunk and copying it out. */
    method Take(n: nat) returns (bytes: seq<byte>)
      requires Valid() && n <= ring.ReadSize()
      modifies this
      ensures Valid() && ring == old(ring).Consume(n).0 && |bytes| == n
      ensures old(Contents()) == bytes + Contents()
    {
      UpToReadSize(ring, n);
      var p := Consume(n);
      bytes := data[p.value..p.value + n];
    }

    method Consume(n: nat) returns (p: Option<nat>)
      requires Valid() && n < WORD
      modifies this
      ensures (ring, p) == old(ring).Consume(n)
      ensures old(ring.rd) + n < WORD ==>
                && Valid()
                && (p.None? ==> Contents() == old(Contents()))
                && (p.Some? ==>
                      && p.value + n <= data.Length
                      && old(Contents()) == data[p.value..p.value + n] + Contents())
    {
      hide Ring.Consume, Ring.Queue, Range;
      ghost var before := ring;
      var (next, at) := ring.Consume(n);
      ring, p := next, at;
      if before.rd + n < WORD { ConsumeTakesOldest(before, n); }
      if p.Some? && before.rd + n < WORD {
        QueueIsApart(before);
        QueueIsApart(ring);
        AtPrepend(data[..], p.value, n, ring.Queue());
      }
    }
  }

  /** All offsets are below `n`. */
  ghost predicate Within(q: seq<nat>, n: nat) {
    forall i :: 0 <= i < |q| ==> q[i] < n
  }

  /** The bytes at the given offsets. */
  ghost function At(data: seq<byte>, q: seq<nat>): (r: seq<byte>)
    requires Within(q, |data|)
    ensures |r| == |q|
  {
    seq(|q|, i requires 0 <= i < |q| => data[q[i]])
  }

  lemma AtAppend(data: seq<byte>, q: seq<nat>, p: nat, n: nat)
    requires Within(q, |data|) && p + n <= |data|
    ensures Within(q + Range(p, p + n), |data|)
    ensures At(data, q + Range(p, p + n)) == At(data, q) + data[p..p + n]
  {
    var w := q + Range(p, p + n);
    forall i | 0 <= i < |w| ensures w[i] == if i < |q| then q[i] else p + (i - |q|) {
    }
  }

  lemma AtPrepend(data: seq<byte>, p: nat, n: nat, q: seq<nat>)
    requires Within(q, |data|) && p + n <= |data|
    ensures Within(Range(p, p + n) + q, |data|)
    ensures At(data, Range(p, p + n) + q) == data[p..p + n] + At(data, q)
  {
    var w := Range(p, p + n) + q;
    forall i | 0 <= i < |w| ensures w[i] == if i < n then p + i else q[i - n] {
    }
  }

  lemma ChunkLast(r: Ring, n: nat)
    requires r.Valid() && n < WORD && (r.wr + n < WORD || r.rd > r.wr) && r.Produce(n).1.Some?
    ensures var (s, p) := r.Produce(n);
          && s.Valid() && n <= |s.Queue()|
          && s.Queue()[|s.Queue()| - n..] == Range(p.value, p.value + n)
  {
    ProduceAppends(r, n);
  }

  lemma FillQueue(was: seq<byte>, now: seq<byte>, r: Ring, p: nat, bytes: seq<byte>)
    requires r.Valid() && |was| == |now| == r.size && p + |bytes| <= r.size && |bytes| <= |r.Queue()|
    requires r.Queue()[|r.Queue()| - |bytes|..] == Range(p, p + |bytes|)
    requires forall i :: 0 <= i < r.size ==> now[i] == if p <= i < p + |bytes| then bytes[i - p] else was[i]
    ensures Within(r.Queue(), r.size)
    ensures At(now, r.Queue()) == At(was, r.Queue())[..|r.Queue()| - |bytes|] + bytes
  {
    QueueIsApart(r);
    var q, m := r.Queue(), |r.Queue()| - |bytes|;
    forall i | 0 <= i < |q| ensures now[q[i]] == if i < m then was[q[i]] else bytes[i - m] {
      if i >= m {
        LastOffset(r, p, |bytes|, i);
      } else {
        OtherOffset(r, p, |bytes|, i);
      }
    }
  }

  lemma LastOffset(r: Ring, p: nat, n: nat, i: nat)
    requires r.Valid() && n <= |r.Queue()| && r.Queue()[|r.Queue()| - n..] == Range(p, p + n)
    requires |r.Queue()| - n <= i < |r.Queue()|
    ensures r.Queue()[i] == p + (i - (|r.Queue()| - n))
  {
    var m := |r.Queue()| - n;
    assert r.Queue()[i] == r.Queue()[m..][i - m];
  }

  lemma OtherOffset(r: Ring, p: nat, n: nat, i: nat)
    requires r.Valid() && n <= |r.Queue()| && r.Queue()[|r.Queue()| - n..] == Range(p, p + n)
    requires i < |r.Queue()| - n
    ensures !(p <= r.Queue()[i] < p + n)
  {
    QueueIsApart(r);
    var t := r.Queue()[i];
    if p <= t < p + n {
      LastOffset(r, p, n, |r.Queue()| - n + (t - p));
    }
  }
}
