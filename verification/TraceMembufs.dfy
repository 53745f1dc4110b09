/**
 The two-block trace protocol: the program fills one memory block while the host reads the other, what does not fit
 waits in a ring buffer, and data from the host comes in through the block that is taken back
 (app_trace_membufs_proto.c).
 */
module TraceMembufs {
  import opened Bytes
  import opened Options
  import opened RingBuffer
  import opened TraceHost

  /** sizeof(esp_tracedata_hdr_t) */
  const HDR := 4

  /** What the hardware and the host make of one attempt to swap blocks: it may fail; the block taken back starts with
      `incoming`. */
  datatype Attempt = Attempt(ok: bool, hostPending: bool, incoming: seq<byte>)

  /** A look at the hardware while waiting for data from the host: some to be fetched by a swap, or none. */
  datatype Poll = HostReady(tries: seq<Attempt>) | Quiet

  /** ESP_APPTRACE_USR_BLOCK_CORE(core) | size, as stored in 16 bits. */
  function BlockSize(core: nat, size: nat): nat {
    size % 0x8000 + if core % 2 == 1 || size / 0x8000 % 2 == 1 then 0x8000 else 0
  }

  /** A packet as the host sees it once it has been put: both sizes in the header agree. */
  function Packet(core: nat, payload: seq<byte>): (r: seq<byte>)
    ensures |r| == HDR + |payload|
  {
    var bs := BlockSize(core, |payload|);
    [Byte(bs, 0), Byte(bs, 1), Byte(bs, 0), Byte(bs, 1)] + payload
  }

  lemma SizesAgree(core: nat, size: nat)
    ensures BlockSize(core, size) < 0x1_0000 && BlockSize(core, size) % 0x8000 == size % 0x8000
    ensures size < 0x8000 ==> BlockSize(core, size) / 0x8000 == core % 2
    ensures Byte(BlockSize(core, size), 0) + 256 * Byte(BlockSize(core, size), 1) == BlockSize(core, size)
  {
  }

  /** The host gets a packet back, with the core's lowest bit, exactly if the payload's length leaves bit 15 free. */
  lemma HostReadsPacket(core: nat, payload: seq<byte>)
    ensures HostReads(Packet(core, payload)) == Some([(core % 2, payload)]) <==> |payload| < 0x8000
  {
    hide BlockSize, Byte;
    var p := Packet(core, payload);
    var bs := BlockSize(core, |payload|);
    SizesAgree(core, |payload|);
    OnePacket(p);
    if |payload| < 0x8000 {
      assert p[4..] == payload;
    }
  }

  /** Of a longer one that its 16 bits can still count, the host gets the first part alone, as from core 1. */
  lemma LongPacketIsCut(core: nat, payload: seq<byte>)
    requires 0x8000 <= |payload| < 0x1_0000
    ensures var end := |payload| - 0x8000;
        HostReads(Packet(core, payload)[..4 + end]) == Some([(1, payload[..end])])
  {
    var end := |payload| - 0x8000;
    var p := Packet(core, payload)[..4 + end];
    hide Byte;
    SizesAgree(core, |payload|);
    assert BlockSize(core, |payload|) / 0x8000 == 1;
    hide BlockSize;
    OnePacket(p);
    assert p[4..] == payload[..end];
  }

  /** The test of wait4buf: a block of `len` bytes, filled up to `marker`, has room for
      a packet of `need` bytes, whose size comes in as uint16_t. */
  predicate Grants(marker: nat, len: nat, need: nat) {
    marker + need % 0x1_0000 <= len
  }

  /** Whatever the block holds already, a packet that would fit an empty one is granted
      only where it fits, exactly if its size fits 16 bits. */
  lemma SizeFitsIff(len: nat, need: nat)
    requires need <= len
    ensures (forall marker: nat :: marker <= len && Grants(marker, len, need) ==> marker + need <= len)
        <==> need < 0x1_0000
  {
    if need >= 0x1_0000 {
      assert Grants(len - need % 0x1_0000, len, need);
    }
  }

  lemma Regrouped(a: seq<byte>, b: seq<byte>, c: seq<byte>, d: seq<byte>)
    ensures a + b + (c + d) == (a + b) + c + d
  {
  }

  lemma Onward(was: seq<byte>, data: seq<byte>, k: nat, n: nat)
    requires k + n <= |data|
    ensures was + data[..k] + data[k..k + n] == was + data[..k + n]
  {
    assert data[..k] + data[k..k + n] == data[..k + n];
  }

  /** A host that can read the old stream reads it in the new one too, and then `more`. */
  ghost predicate HostGets(was: seq<byte>, now: seq<byte>, more: seq<(nat, seq<byte>)>) {
    HostReads(was).Some? ==> HostReads(now) == Some(HostReads(was).value + more)
  }

  class Membufs {
    const blocks: seq<array<byte>>
    var markers: seq<nat>
    var inBlock: nat
    const pend: RingBuf
    const down: RingBuf
    ghost var released: seq<byte>  // what has been handed to the host, in order
    ghost var received: seq<byte>  // what has been accepted from the host
    ghost var consumed: seq<byte>  // what the program has taken of that

    ghost predicate Valid()
      reads this, pend, down
    {
      && |blocks| == 2 && |markers| == 2
      && (forall b :: 0 <= b < 2 ==> HDR <= blocks[b].Length < 0x1_0000 && markers[b] <= blocks[b].Length)
      && pend.Valid() && down.Valid() && pend.data.Length < 0x8000_0000 && down.data.Length < 0x8000_0000
      && pend != down && blocks[0] != blocks[1]
      && pend.data != down.data && pend.data !in blocks && down.data !in blocks
    }

    function Cur(): nat
      reads this
    {
      inBlock % 2
    }

    /** The filled part of the current block. */
    ghost function Block(): seq<byte>
      reads this, pend, down, blocks
      requires Valid()
    {
      blocks[Cur()][..markers[Cur()]]
    }

    /** Everything traced so far, in order: given to the host, waiting in the block, waiting in the ring. */
    ghost function Stream(): seq<byte>
      reads this, pend, down, blocks, pend.data
      requires Valid()
    {
      released + Block() + pend.Contents()
    }

    /** Everything that has come from the host and was accepted. */
    ghost predicate DownOk()
      reads this, pend, down, down.data
      requires Valid()
    {
      received == consumed + down.Contents()
    }

    /** The ring holds data only while the block does. */
    ghost predicate NoStall()
      reads this, pend, down
      requires Valid()
    {
      pend.ring.ReadSize() > 0 ==> markers[Cur()] > 0
    }

    /** esp_apptrace_membufs_init and esp_apptrace_membufs_down_buffer_config. */
    constructor (b0: array<byte>, b1: array<byte>, p: array<byte>, d: array<byte>)
      requires HDR <= b0.Length < 0x1_0000 && HDR <= b1.Length < 0x1_0000 && p.Length < 0x8000_0000
          && d.Length < 0x8000_0000
      requires b0 != b1 && p != d && p != b0 && p != b1 && d != b0 && d != b1
      ensures Valid() && Stream() == [] && DownOk() && NoStall() && markers == [0, 0] && inBlock == 0
      ensures fresh(pend) && fresh(down) && blocks == [b0, b1] && pend.data == p && down.data == d
    {
      blocks := [b0, b1];
      markers := [0, 0];
      inBlock := 0;
      var rp := new RingBuf(p);
      var rd := new RingBuf(d);
      pend := rp;
      down := rd;
      released, received, consumed := [], [], [];
    }

    /** esp_apptrace_membufs_down_buffer_write_nolock: a first part of `data` goes into the ring, all of it unless the
        ring is full. */
    method DownWrite(data: seq<byte>) returns (total: nat)
      requires Valid()
      modifies down, down.data
      ensures Valid() && total <= |data|
      ensures down.Contents() == old(down.Contents()) + data[..total]
      ensures total < |data| ==> down.ring.WriteSize() == 0
    {
      hide RingBuf.Contents, RingBuf.Valid, Ring.Produce, Ring.Valid, Ring.WriteSize, Ring.ReadSize;
      total := 0;
      while total < |data|
        invariant Valid() && total <= |data|
        invariant down.Contents() == old(down.Contents()) + data[..total]
      {
        ReportedSizesAreGranted(down.ring);
        var wr := down.ring.WriteSize();
        if wr == 0 {
          break;
        }
        if wr > |data| - total {
          wr := |data| - total;
        }
        UpToWriteSize(down.ring, wr);
        var _ := down.Put(data[total..total + wr]);
        Onward(old(down.Contents()), data, total, wr);
        total := total + wr;
      }
    }

    /** memcpy to the end of the current block, and its marker moved. */
    method BlockAppend(bytes: seq<byte>)
      requires Valid() && markers[Cur()] + |bytes| <= blocks[Cur()].Length
      modifies this`markers, blocks[Cur()]
      ensures Valid() && Block() == old(Block()) + bytes
      ensures markers[Cur()] == old(markers[Cur()]) + |bytes| && markers[1 - Cur()] == old(markers[1 - Cur()])
    {
      var blk, m := blocks[Cur()], markers[Cur()];
      forall i | m <= i < m + |bytes| {
        blk[i] := bytes[i - m];
      }
      markers := markers[Cur() := m + |bytes|];
      assert blk[..m + |bytes|] == old(blk[..m]) + bytes;
    }

    /** The pump loop of a swap: pending data moves into the block until one of the two is exhausted. */
    method Pump()
      requires Valid()
      modifies this`markers, pend, blocks[Cur()]
      ensures Valid() && Block() + pend.Contents() == old(Block() + pend.Contents())
      ensures markers[Cur()] == blocks[Cur()].Length || pend.ring.ReadSize() == 0
      ensures markers[1 - Cur()] == old(markers[1 - Cur()])
      ensures old(markers[Cur()]) < blocks[Cur()].Length && old(pend.ring.ReadSize()) > 0 ==>
          markers[Cur()] > old(markers[Cur()])
      ensures old(pend.ring.ReadSize()) == 0 ==> pend.ring == old(pend.ring)
    {
      hide RingBuf.Contents, RingBuf.Valid, Ring.Consume, Ring.Valid, Ring.ReadSize;
      while markers[Cur()] < blocks[Cur()].Length
        invariant Valid() && Block() + pend.Contents() == old(Block() + pend.Contents())
        invariant markers[1 - Cur()] == old(markers[1 - Cur()]) && markers[Cur()] >= old(markers[Cur()])
        invariant markers[Cur()] > old(markers[Cur()]) || pend.ring == old(pend.ring)
        invariant old(pend.ring.ReadSize()) == 0 ==> pend.ring == old(pend.ring)
        decreases blocks[Cur()].Length - markers[Cur()]
      {
        var read := pend.ring.ReadSize();
        if read == 0 {
          break;
        }
        if read > blocks[Cur()].Length - markers[Cur()] {
          read := blocks[Cur()].Length - markers[Cur()];
        }
        ghost var block, queued := Block(), pend.Contents();
        var bytes := pend.Take(read);
        BlockAppend(bytes);
        assert block + (bytes + pend.Contents()) == (block + bytes) + pend.Contents();
      }
    }

    /** The other block comes back from the host with `incoming` in it, and is made the current one. */
    method TakeBack(incoming: seq<byte>)
      requires Valid() && |incoming| == blocks[1 - Cur()].Length
      modifies this`markers, this`inBlock, blocks[1 - Cur()]
      ensures Valid() && inBlock == old(inBlock) + 1 && Cur() == 1 - old(Cur())
      ensures markers[Cur()] == 0 && markers[1 - Cur()] == old(markers[Cur()])
      ensures blocks[Cur()][..] == incoming
    {
      var fresh_ := 1 - Cur();
      markers := markers[fresh_ := 0];
      inBlock := inBlock + 1;
      var blk := blocks[fresh_];
      forall i | 0 <= i < blk.Length {
        blk[i] := incoming[i];
      }
      assert blk[..] == incoming;
    }

    /** Data that the host has left in the block goes to the program, as far as there is room for it. */
    method HostData(pending: bool) returns (taken: nat)
      requires Valid() && DownOk() && (pending ==> 2 + LdWord(blocks[Cur()][..], 0) <= blocks[Cur()].Length)
      modifies this`received, down, down.data, blocks[Cur()]
      ensures Valid() && DownOk()
      ensures blocks[Cur()][..] == var b := old(blocks[Cur()][..]);
        if pending && LdWord(b, 0) > 0 then b[0 := 0][1 := 0] else b
      ensures var sent := HostPart(pending, old(blocks[Cur()][..]));
        taken <= |sent| && received == old(received) + sent[..taken] && (taken < |sent| ==> down.ring.WriteSize() == 0)
    {
      hide RingBuf.Contents, RingBuf.Valid, Ring.Valid, Ring.WriteSize;
      var blk := blocks[Cur()];
      ghost var before := blk[..];
      var n := LdWord(blk[..], 0);
      taken := 0;
      if pending && n > 0 {
        taken := DownWrite(blk[2..2 + n]);
        received := received + before[2..2 + n][..taken];
        blk[0], blk[1] := 0, 0;
      }
    }

    /** The host fills blocks, and its length field stays inside them. */
    ghost predicate Sane(a: Attempt)
    {
      |blocks| == 2 && blocks[0].Length >= 2 && blocks[1].Length >= 2 &&
      forall b :: 0 <= b < 2 ==>
            && |a.incoming| >= blocks[b].Length
            && (a.hostPending ==> 2 + LdWord(a.incoming, 0) <= blocks[b].Length)
    }

    /** esp_apptrace_membufs_swap. */
    method Swap(a: Attempt) returns (ok: bool)
      requires Valid() && DownOk() && Sane(a)
      modifies this`markers, this`inBlock, this`released, this`received, pend, down, down.data, blocks[0], blocks[1]
      ensures Valid() && DownOk() && ok == a.ok && Stream() == old(Stream())
      ensures !ok ==> inBlock == old(inBlock) && markers == old(markers) && pend.ring == old(pend.ring)
      ensures !ok ==> released == old(released) && received == old(received)
      ensures !ok ==> pend.Contents() == old(pend.Contents()) && Block() == old(Block())
      ensures ok ==> inBlock == old(inBlock) + 1 && released == old(released) + old(Block())
      ensures ok ==> Pumped(old(pend.ring.ReadSize()) > 0)
      ensures old(pend.ring.ReadSize()) == 0 ==> pend.ring == old(pend.ring)
      ensures old(NoStall()) ==> NoStall()
      ensures ok ==> markers[Cur()] + |pend.Contents()| == |old(pend.Contents())|
      ensures ok ==> var sent, was := HostPart(a.hostPending, a.incoming), old(received);
        was <= received && received[|was|..] <= sent && (received[|was|..] != sent ==> down.ring.WriteSize() == 0)
    {
      hide RingBuf.Contents, RingBuf.Valid, Ring.Valid, Ring.ReadSize, HostPart, Sane;
      if !a.ok {
        return false;
      }
      ghost var block, queued := Block(), pend.Contents();
      Reclaim(a);
      Pump();
      assert Block() + pend.Contents() == queued;
      Regrouped(released, block, Block(), pend.Contents());
      released := released + blocks[1 - Cur()][..markers[1 - Cur()]];
      ok := true;
    }

    /** The first half of a swap: the other block is taken back, and the host's data out of it. */
    method Reclaim(a: Attempt)
      requires Valid() && DownOk() && Sane(a)
      modifies this`markers, this`inBlock, this`received, down, down.data, blocks[1 - Cur()]
      ensures Valid() && DownOk() && inBlock == old(inBlock) + 1 && Block() == []
          && pend.Contents() == old(pend.Contents())
      ensures blocks[1 - Cur()][..markers[1 - Cur()]] == old(Block())
      ensures var sent, was := HostPart(a.hostPending, a.incoming), old(received);
        was <= received && received[|was|..] <= sent && (received[|was|..] != sent ==> down.ring.WriteSize() == 0)
    {
      hide RingBuf.Contents, RingBuf.Valid, Ring.Valid, Ring.ReadSize, HostPart;
      TakeBack(a.incoming[..blocks[1 - Cur()].Length]);
      SamePart(a.hostPending, a.incoming, blocks[Cur()].Length);
      var _ := HostData(a.hostPending);
    }

    /** After a swap the ring holds data only behind a full block, and the block is not left empty if there was any. */
    ghost predicate Pumped(some: bool)
      reads this, pend, down
      requires Valid()
    {
      && (markers[Cur()] == blocks[Cur()].Length || pend.ring.ReadSize() == 0)
      && (some ==> markers[Cur()] > 0)
    }

    ghost predicate AllSane(tries: seq<Attempt>)
    {
      forall i :: 0 <= i < |tries| ==> Sane(tries[i])
    }

    /**
     esp_apptrace_membufs_swap_waitus: attempts until one succeeds. `tries` says how each attempt will go and ends where
     the time is up; what is left of it is returned.
     */
    method SwapWait(tries: seq<Attempt>) returns (ok: bool, rest: seq<Attempt>)
      requires Valid() && DownOk() && AllSane(tries)
      modifies this`markers, this`inBlock, this`released, this`received, pend, down, down.data, blocks[0], blocks[1]
      ensures Valid() && DownOk() && Stream() == old(Stream()) && AllSane(rest)
      ensures ok <==> SomeOk(tries)
      ensures ok ==> |rest| < |tries| && rest == tries[|tries| - |rest|..]
      ensures !ok ==>
            && inBlock == old(inBlock) && markers == old(markers) && pend.ring == old(pend.ring)
            && released == old(released)
      ensures ok ==> inBlock == old(inBlock) + 1 && released == old(released) + old(Block())
      ensures ok ==> Pumped(old(pend.ring.ReadSize()) > 0)
      ensures old(pend.ring.ReadSize()) == 0 ==> pend.ring == old(pend.ring)
      ensures ok ==> markers[Cur()] + |pend.Contents()| == |old(pend.Contents())|
      ensures tries != [] && tries[0].ok ==> rest == tries[1..]
    {
      hide RingBuf.Contents, RingBuf.Valid, Ring.Valid, Ring.ReadSize, HostPart, Sane, Block;
      var i := 0;
      ok := false;
      while i < |tries|
        invariant Valid() && DownOk() && Stream() == old(Stream()) && i <= |tries| && !ok
        invariant inBlock == old(inBlock) && markers == old(markers) && pend.ring == old(pend.ring)
            && released == old(released)
        invariant pend.Contents() == old(pend.Contents()) && Block() == old(Block())
        invariant forall j :: 0 <= j < i ==> !tries[j].ok
      {
        ok := Swap(tries[i]);
        i := i + 1;
        if ok {
          return ok, tries[i..];
        }
      }
      rest := [];
    }

    /** A packet goes into the ring of pending data, if that can take it in one piece. */
    method PutPending(pkt: seq<byte>) returns (granted: bool)
      requires Valid() && DownOk() && |pkt| < 0x1_0000
      modifies pend, pend.data
      ensures Valid() && DownOk() && Stream() == old(Stream()) + (if granted then pkt else [])
      ensures granted <==> old(pend.ring).Produce(|pkt|).1.Some?
      ensures !granted ==> pend.ring == old(pend.ring)
    {
      hide RingBuf.Contents, RingBuf.Valid, Ring.ReadSize, Ring.Produce;
      RingBounds(pend.ring);
      ProduceAppends(pend.ring, |pkt|);
      var p := pend.Put(pkt);
      granted := p.Some?;
      if granted {
        assert released + Block() + (old(pend.Contents()) + pkt) == released + Block() + old(pend.Contents()) + pkt;
      }
    }

    /** A packet goes behind what is in the block; nothing may be pending then. */
    method PutInBlock(pkt: seq<byte>)
      requires Valid() && DownOk() && markers[Cur()] + |pkt| <= blocks[Cur()].Length && pend.ring.ReadSize() == 0
      modifies this`markers, blocks[Cur()]
      ensures Valid() && DownOk() && Stream() == old(Stream()) + pkt
      ensures markers[Cur()] == old(markers[Cur()]) + |pkt|
    {
      hide RingBuf.Contents, RingBuf.Valid;
      ReportedSizesAreGranted(pend.ring);
      NothingQueued(pend);
      BlockAppend(pkt);
      assert released + (old(Block()) + pkt) + [] == released + old(Block()) + [] + pkt;
    }

    /** The block has no room for a packet, or data is pending that goes first. */
    ghost predicate NoRoom(n: nat)
      reads this, pend, down
      requires Valid()
    {
      pend.ring.ReadSize() > 0 || markers[Cur()] + n > blocks[Cur()].Length
    }

    /** esp_apptrace_membufs_wait4buf, and the packet put where it says. */
    method Wait4Buf(pkt: seq<byte>, tries: seq<Attempt>) returns (granted: bool)
      requires Valid() && DownOk() && AllSane(tries) && 0 < |pkt| < 0x1_0000
      requires pend.ring.Produce(|pkt|).1.None?
      modifies this`markers, this`inBlock, this`released, this`received, pend, pend.data, down, down.data, blocks[0],
          blocks[1]
      ensures Valid() && DownOk() && Stream() == old(Stream()) + (if granted then pkt else [])
      ensures !granted ==> pend.ring.Produce(|pkt|).1.None?
      ensures !granted && SomeOk(tries) ==> inBlock > old(inBlock) && NoRoom(|pkt|)
      ensures old(inBlock) <= inBlock <= old(inBlock) + 1
      ensures old(NoStall()) ==> NoStall()
    {
      hide RingBuf.Contents, RingBuf.Valid, Ring.ReadSize, Ring.Produce, Stream, Block, DownOk, AllSane, Ring.Valid;
      var ok, _ := SwapWait(tries);
      if !ok {
        return false;
      }
      if pend.ring.ReadSize() > 0 {
        granted := PutPending(pkt);
      } else if !Grants(markers[Cur()], blocks[Cur()].Length, |pkt|) {
        granted := PutPending(pkt);
      } else {
        PutInBlock(pkt);
        granted := true;
      }
    }

    /**
     A packet is traced: esp_apptrace_membufs_up_buffer_get, the user filling the chunk, and
     esp_apptrace_membufs_up_buffer_put. It then comes last in the stream, whole; or the stream is as before,
     and then no swap succeeded, or there was no room behind one either.
     */
    method WritePacket(core: nat, payload: seq<byte>, first: Attempt, tries: seq<Attempt>) returns (granted: bool)
      requires Valid() && DownOk() && Sane(first) && AllSane(tries)
      modifies this`markers, this`inBlock, this`released, this`received, pend, pend.data, down, down.data, blocks[0],
          blocks[1]
      ensures Valid() && DownOk()
      ensures Stream() == old(Stream()) + (if granted then Packet(core, payload) else [])
      ensures |payload| > old(blocks[Cur()].Length) - HDR ==> !granted && released == old(released)
      ensures old(pend.ring.ReadSize() == 0 && markers[Cur()] + HDR + |payload| <= blocks[Cur()].Length) ==> granted
      ensures !granted && |payload| <= old(blocks[Cur()].Length) - HDR ==> pend.ring.Produce(HDR + |payload|).1.None?
      ensures !granted && |payload| <= old(blocks[Cur()].Length) - HDR && SomeOk(tries) ==>
        inBlock > old(inBlock + if pend.ring.ReadSize() > 0 && first.ok then 1 else 0) && NoRoom(HDR + |payload|)
      ensures old(NoStall()) ==> NoStall()
    {
      hide RingBuf.Contents, RingBuf.Valid, Ring.ReadSize, Ring.Produce, Stream, Block, DownOk, AllSane, Sane,
          Ring.Valid, Packet;
      if |payload| > blocks[Cur()].Length - HDR {
        return false;
      }
      var pkt := Packet(core, payload);
      if pend.ring.ReadSize() > 0 {
        var _ := Swap(first);
      }
      if pend.ring.ReadSize() > 0 {
        granted := PutPending(pkt);
        if !granted {
          granted := Wait4Buf(pkt, tries);
        }
      } else if markers[Cur()] + |pkt| > blocks[Cur()].Length {
        granted := PutPending(pkt);
        if !granted {
          granted := Wait4Buf(pkt, tries);
        }
      } else {
        PutInBlock(pkt);
        granted := true;
      }
    }

    /**
     esp_apptrace_membufs_flush_nolock. With `minSz` 0 a flush that succeeds hands everything over: the block is then
     empty, and the ring too unless it was holding data behind an empty block. It succeeds when the swaps do.
     */
    method Flush(minSz: nat, tries: seq<Attempt>) returns (ok: bool)
      requires Valid() && DownOk() && AllSane(tries)
      modifies this`markers, this`inBlock, this`released, this`received, pend, down, down.data, blocks[0], blocks[1]
      ensures Valid() && DownOk() && Stream() == old(Stream())
      ensures ok ==> markers[Cur()] <= minSz
      ensures old(markers[Cur()]) <= minSz ==> ok && inBlock == old(inBlock) && released == old(released)
      ensures ok && minSz == 0 ==> Block() == []
      ensures ok && minSz == 0 ==> (pend.Contents() == [] <==> old(NoStall()))
      ensures old(NoStall()) ==> NoStall()
      ensures AllOk(tries) && |tries| > |old(pend.Contents())| + 1 ==> ok
    {
      hide RingBuf.Contents, RingBuf.Valid, Ring.ReadSize, Stream, DownOk, AllSane, Ring.Valid, AllOk, Pumped, Block;
      QueuedIffReadable(pend);
      EmptyBlock();
      if markers[Cur()] < minSz {
        return true;
      }
      var rest := tries;
      ghost var went := false;
      while markers[Cur()] > minSz
        invariant Valid() && DownOk() && Stream() == old(Stream()) && AllSane(rest)
        invariant went ==> NoStall() && old(markers[Cur()]) > minSz
        invariant !went ==>
                    && markers == old(markers) && inBlock == old(inBlock) && pend.ring == old(pend.ring)
                    && pend.Contents() == old(pend.Contents()) && released == old(released)
        invariant AllOk(tries) && |tries| > |old(pend.Contents())| + 1 ==>
          AllOk(rest) && |rest| > |pend.Contents()| + if markers[Cur()] > 0 then 1 else 0
        decreases |pend.Contents()|, markers[Cur()]
      {
        ok, rest := FlushOnce(rest);
        if !ok {
          return false;
        }
        went := true;
      }
      QueuedIffReadable(pend);
      EmptyBlock();
      ok := true;
    }

    lemma EmptyBlock()
      requires Valid()
      ensures Block() == [] <==> markers[Cur()] == 0
    {
    }

    method FlushOnce(tries: seq<Attempt>) returns (ok: bool, rest: seq<Attempt>)
      requires Valid() && DownOk() && AllSane(tries) && markers[Cur()] > 0
      modifies this`markers, this`inBlock, this`released, this`received, pend, down, down.data, blocks[0], blocks[1]
      ensures Valid() && DownOk() && Stream() == old(Stream()) && AllSane(rest)
      ensures NoStall() && old(NoStall())
      ensures ok ==> markers[Cur()] + |pend.Contents()| == |old(pend.Contents())|
      ensures ok && old(pend.Contents()) != [] ==> markers[Cur()] > 0
      ensures AllOk(tries) && tries != [] ==> ok && AllOk(rest) && |rest| == |tries| - 1
    {
      hide RingBuf.Contents, RingBuf.Valid, Ring.ReadSize, Stream, DownOk, AllSane, Ring.Valid, Block;
      QueuedIffReadable(pend);
      ok, rest := SwapWait(tries);
      QueuedIffReadable(pend);
    }

    /** The ring part of esp_apptrace_membufs_down_buffer_get: up to `size` bytes of what has come from the host,
        oldest first. */
    method DownTake(size: nat) returns (bytes: seq<byte>)
      requires Valid() && DownOk()
      modifies this`consumed, down
      ensures Valid() && DownOk() && consumed == old(consumed) + bytes && received == old(received)
      ensures Stream() == old(Stream())
      ensures bytes <= old(down.Contents()) && |bytes| <= size
      ensures bytes == [] ==> size == 0 || old(down.Contents()) == []
      ensures old(NoStall()) ==> NoStall()
    {
      hide RingBuf.Contents, RingBuf.Valid, Ring.Valid, Ring.ReadSize, Ring.Consume;
      QueuedIffReadable(down);
      var n := down.ring.ReadSize();
      if n > size {
        n := size;
      }
      bytes := down.Take(n);
      consumed := consumed + bytes;
    }

    /**
     esp_apptrace_membufs_down_buffer_get: waits for data from the host, swapping blocks when there is some to fetch.
     `polls` says what each look at the hardware finds and ends where the time is up.
     */
    method DownGet(size: nat, polls: seq<Poll>) returns (bytes: Option<seq<byte>>)
      requires Valid() && DownOk() && AllPollsSane(polls)
      modifies this`markers, this`inBlock, this`released, this`received, this`consumed, pend, down, down.data,
          blocks[0], blocks[1]
      ensures Valid() && DownOk() && Stream() == old(Stream())
      ensures consumed == old(consumed) + (if bytes.Some? then bytes.value else [])
      ensures bytes.Some? ==> |bytes.value| <= size && (size > 0 ==> bytes.value != [])
      ensures old(down.Contents()) != [] ==> bytes.Some? && bytes.value <= old(down.Contents())
      ensures bytes.None? ==> down.Contents() == []
      ensures old(NoStall()) ==> NoStall()
    {
      hide RingBuf.Contents, RingBuf.Valid, Ring.Valid, Ring.ReadSize, Ring.Consume, Block, Stream, DownOk, AllSane,
          NoStall;
      var i := 0;
      while true
        invariant Valid() && DownOk() && i <= |polls| && Stream() == old(Stream()) && consumed == old(consumed)
        invariant old(down.Contents()) != [] ==> i == 0 && down.Contents() == old(down.Contents())
        invariant old(NoStall()) ==> NoStall()
        decreases |polls| - i
      {
        QueuedIffReadable(down);
        if down.ring.ReadSize() != 0 {
          var taken := DownTake(size);
          return Some(taken);
        }
        if i == |polls| {
          return None;
        }
        match polls[i] {
          case HostReady(tries) => SwapOrNot(tries);
          case Quiet =>
        }
        i := i + 1;
      }
    }

    method SwapOrNot(tries: seq<Attempt>)
      requires Valid() && DownOk() && AllSane(tries)
      modifies this`markers, this`inBlock, this`released, this`received, pend, down, down.data, blocks[0], blocks[1]
      ensures Valid() && DownOk() && Stream() == old(Stream())
      ensures old(NoStall()) ==> NoStall()
    {
      hide RingBuf.Contents, RingBuf.Valid, Ring.Valid, Ring.ReadSize, Block, Stream, DownOk, AllSane;
      var _, _ := SwapWait(tries);
    }

    ghost predicate AllPollsSane(polls: seq<Poll>) {
      forall i :: 0 <= i < |polls| && polls[i].HostReady? ==> AllSane(polls[i].tries)
    }

    // ---------------------------------------------------------------- whole runs

    ghost predicate SaneOp(op: TraceOp)
    {
      match op
      case WriteOp(_, _, first, tries) => Sane(first) && AllSane(tries)
      case SwapOp(a) => Sane(a)
      case FlushOp(_, tries) => AllSane(tries)
      case TakeOp(_, polls) => AllPollsSane(polls)
    }

    method Perform(op: TraceOp) returns (granted: bool)
      requires Valid() && DownOk() && SaneOp(op)
      modifies this`markers, this`inBlock, this`released, this`received, this`consumed, pend, pend.data, down,
          down.data, blocks[0], blocks[1]
      ensures Valid() && DownOk() && Stream() == old(Stream()) + Traced(op, granted)
      ensures old(NoStall()) ==> NoStall()
    {
      hide RingBuf.Contents, RingBuf.Valid, Ring.ReadSize, Ring.Produce, Block, DownOk, AllSane, Sane, Ring.Valid,
          Packet;
      granted := false;
      match op {
        case WriteOp(core, payload, first, tries) => granted := WritePacket(core, payload, first, tries);
        case SwapOp(a) => var _ := Swap(a);
        case FlushOp(minSz, tries) => var _ := Flush(minSz, tries);
        case TakeOp(size, polls) => var _ := DownGet(size, polls);
      }
    }

    /**
     In every run of packets, swaps that succeed or fail, flushes and reads of host data, what has been handed to the
     host, what is in the block and what is pending make up, in this order, exactly the packets that were granted.
     While no granted payload reaches bit 15 of the size, a host reading it gets the granted payloads.
     */
    method PerformAll(ops: seq<TraceOp>) returns (granted: seq<bool>)
      requires Valid() && DownOk() && forall i :: 0 <= i < |ops| ==> SaneOp(ops[i])
      modifies this`markers, this`inBlock, this`released, this`received, this`consumed, pend, pend.data, down,
          down.data, blocks[0], blocks[1]
      ensures Valid() && DownOk() && |granted| == |ops|
      ensures Stream() == old(Stream()) + AllTraced(ops, granted)
      ensures AllShort(ops, granted) ==> HostGets(old(Stream()), Stream(), AllGiven(ops, granted))
      ensures old(NoStall()) ==> NoStall()
    {
      hide RingBuf.Contents, RingBuf.Valid, Block, DownOk, SaneOp, Stream, NoStall, Traced, Given, HostReads;
      granted := [];
      while |granted| < |ops|
        invariant Valid() && DownOk() && |granted| <= |ops|
        invariant Stream() == old(Stream()) + AllTraced(ops[..|granted|], granted)
        invariant old(NoStall()) ==> NoStall()
      {
        var g := Perform(ops[|granted|]);
        TracedNext(ops, granted, g);
        assert old(Stream()) + (AllTraced(ops[..|granted|], granted) + Traced(ops[|granted|], g))
            == old(Stream()) + AllTraced(ops[..|granted|], granted) + Traced(ops[|granted|], g);
        granted := granted + [g];
      }
      assert ops[..|ops|] == ops;
      if AllShort(ops, granted) {
        HostReadsTraced(ops, granted);
        if HostReads(old(Stream())).Some? {
          ReadsOn(old(Stream()), AllTraced(ops, granted));
        }
      }
    }
  }

  datatype TraceOp =
    | WriteOp(core: nat, payload: seq<byte>, first: Attempt, tries: seq<Attempt>)
    | SwapOp(attempt: Attempt)
    | FlushOp(minSz: nat, tries: seq<Attempt>)
    | TakeOp(size: nat, polls: seq<Poll>)

  /** What an operation adds to the stream. */
  function Traced(op: TraceOp, granted: bool): seq<byte> {
    if op.WriteOp? && granted then Packet(op.core, op.payload) else []
  }

  function AllTraced(ops: seq<TraceOp>, granted: seq<bool>): seq<byte>
    requires |ops| == |granted|
  {
    if ops == [] then []
    else AllTraced(ops[..|ops| - 1], granted[..|ops| - 1]) + Traced(ops[|ops| - 1], granted[|ops| - 1])
  }

  /** The core's lowest bit and the payload of a granted packet. */
  function Given(op: TraceOp, granted: bool): seq<(nat, seq<byte>)> {
    if op.WriteOp? && granted then [(op.core % 2, op.payload)] else []
  }

  function AllGiven(ops: seq<TraceOp>, granted: seq<bool>): seq<(nat, seq<byte>)>
    requires |ops| == |granted|
  {
    if ops == [] then []
    else AllGiven(ops[..|ops| - 1], granted[..|ops| - 1]) + Given(ops[|ops| - 1], granted[|ops| - 1])
  }

  ghost predicate AllShort(ops: seq<TraceOp>, granted: seq<bool>) {
    forall i :: 0 <= i < |ops| && i < |granted| && granted[i] && ops[i].WriteOp? ==> |ops[i].payload| < 0x8000
  }

  lemma HostReadsOne(op: TraceOp, granted: bool)
    requires granted && op.WriteOp? ==> |op.payload| < 0x8000
    ensures HostReads(Traced(op, granted)) == Some(Given(op, granted))
  {
    hide Packet;
    if granted && op.WriteOp? {
      HostReadsPacket(op.core, op.payload);
    }
  }

  /** The host reads what was traced as the granted payloads, in order. */
  lemma {:induction false} HostReadsTraced(ops: seq<TraceOp>, granted: seq<bool>)
    requires |ops| == |granted| && AllShort(ops, granted)
    ensures HostReads(AllTraced(ops, granted)) == Some(AllGiven(ops, granted))
  {
    hide Packet, Traced, Given;
    if ops != [] {
      var n := |ops| - 1;
      HostReadsTraced(ops[..n], granted[..n]);
      HostReadsOne(ops[n], granted[n]);
      hide HostReads;
      ReadsOn(AllTraced(ops[..n], granted[..n]), Traced(ops[n], granted[n]));
    }
  }

  lemma TracedNext(ops: seq<TraceOp>, granted: seq<bool>, g: bool)
    requires |granted| < |ops|
    ensures AllTraced(ops[..|granted| + 1], granted + [g]) == AllTraced(ops[..|granted|], granted)
        + Traced(ops[|granted|], g)
  {
    var n := |granted|;
    assert ops[..n + 1][..n] == ops[..n] && (granted + [g])[..n] == granted;
  }

  ghost predicate SomeOk(tries: seq<Attempt>) {
    exists i :: 0 <= i < |tries| && tries[i].ok
  }

  ghost predicate AllOk(tries: seq<Attempt>) {
    forall i :: 0 <= i < |tries| ==> tries[i].ok
  }

  lemma RingBounds(r: Ring)
    requires r.Valid() && r.size < 0x8000_0000
    ensures r.wr + 0x1_0000 < WORD
  {
  }

  lemma NothingQueued(r: RingBuf)
    requires r.Valid() && r.ring.Queue() == []
    ensures r.Contents() == []
  {
  }

  lemma QueuedIffReadable(r: RingBuf)
    requires r.Valid()
    ensures r.Contents() == [] <==> r.ring.ReadSize() == 0
  {
    ReportedSizesAreGranted(r.ring);
  }

  lemma SamePart(pending: bool, block: seq<byte>, len: nat)
    requires 2 <= len <= |block| && (pending ==> 2 + LdWord(block, 0) <= len)
    ensures HostPart(pending, block[..len]) == HostPart(pending, block)
  {
  }

  /** The data in a block from the host: a 16-bit length and as many bytes. */
  function HostPart(pending: bool, block: seq<byte>): seq<byte>
    requires |block| >= 2 && (pending ==> 2 + LdWord(block, 0) <= |block|)
  {
    if pending then block[2..2 + LdWord(block, 0)] else []
  }
}
