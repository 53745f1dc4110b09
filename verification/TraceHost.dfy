/**
The host's side of the trace stream. The header of a packet has the size of the allocated chunk at offset 0 and the size
written to it at offset 2, both little-endian; a packet they differ in is incomplete, and bit 15 is the core
(app_trace_membufs_proto.c, esp_tracedata_hdr_t).
*/
module TraceHost {
  import opened Bytes
  import opened Options

  /** The cores and payloads of a stream of whole packets. */
  function HostReads(s: seq<byte>): Option<seq<(nat, seq<byte>)>> {
    if s == [] then Some([])
    else if |s| < 4 then None
    else
      var blockSz: nat := s[0] as int + 256 * s[1] as int;
      var wrSz: nat := s[2] as int + 256 * s[3] as int;
      var end := 4 + blockSz % 0x8000;
      if wrSz != blockSz || |s| < end then None
      else match HostReads(s[end..])
        case None => None
        case Some(rest) => Some([(blockSz / 0x8000, s[4..end])] + rest)
  }

  /** Only the first packet and what is read behind it decide what is read. */
  lemma FirstRead(a: seq<byte>, b: seq<byte>, rest: seq<byte>, end: nat)
    requires HostReads(a).Some? && a != []
    requires end == 4 + (a[0] as int + 256 * a[1] as int) % 0x8000 && rest == a[end..] + b
    ensures HostReads(a[end..]).Some? && HostReads(a).value[1..] == HostReads(a[end..]).value
    ensures HostReads(a + b) == if HostReads(rest).None? then None
        else Some(HostReads(a).value[..1] + HostReads(rest).value)
  {
    Prefix(a, b, end);
    if HostReads(rest).Some? {
      var first := [((a[0] as int + 256 * a[1] as int) / 0x8000, a[4..end])];
      assert HostReads(a).value == first + HostReads(a[end..]).value;
      assert HostReads(a).value[..1] == first;
    }
  }

  lemma Prefix(a: seq<byte>, b: seq<byte>, end: nat)
    requires 4 <= end <= |a|
    ensures (a + b)[end..] == a[end..] + b && (a + b)[4..end] == a[4..end] && (a + b)[..4] == a[..4]
    ensures (a + b)[0] == a[0] && (a + b)[1] == a[1] && (a + b)[2] == a[2] && (a + b)[3] == a[3]
  {
  }

  lemma {:induction false} ReadsOn(a: seq<byte>, b: seq<byte>)
    requires HostReads(a).Some?
    ensures HostReads(a + b) == if HostReads(b).None? then None else Some(HostReads(a).value + HostReads(b).value)
  {
    if a == [] {
      assert a + b == b;
      if HostReads(b).Some? {
        assert HostReads(a).value + HostReads(b).value == HostReads(b).value;
      }
    } else {
      var end := 4 + (a[0] as int + 256 * a[1] as int) % 0x8000;
      ReadsOn(a[end..], b);
      FirstRead(a, b, a[end..] + b, end);
      if HostReads(b).Some? {
        Regroup(HostReads(a).value, HostReads(b).value);
      }
    }
  }

  lemma OnePacket(p: seq<byte>)
    requires |p| >= 4 && p[0] == p[2] && p[1] == p[3]
    ensures HostReads(p) != Some([])
    ensures HostReads(p).Some? ==> |HostReads(p).value[0].1| < 0x8000
    ensures (p[0] as int + 256 * p[1] as int) % 0x8000 == |p| - 4 ==>
        HostReads(p) == Some([((p[0] as int + 256 * p[1] as int) / 0x8000, p[4..])])
  {
    var size := p[0] as int + 256 * p[1] as int;
    if size % 0x8000 == |p| - 4 {
      assert p[4..|p|] == p[4..] && p[|p|..] == [];
      assert [(size / 0x8000, p[4..])] + [] == [(size / 0x8000, p[4..])];
    }
  }

  lemma Regroup<T>(x: seq<T>, y: seq<T>)
    requires x != []
    ensures x[..1] + (x[1..] + y) == x + y
  {
  }
}
