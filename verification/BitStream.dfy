/** The assembler's bit stream: fields of any width, lowest bit first (class bitstream in bsasm.py). */
module BitStream {
  import opened Arith
  import opened Bytes

  /** The lowest `n` bits of a number, lowest first. */
  function LowBits(v: int, n: nat): (r: seq<bool>)
    ensures |r| == n
    decreases n
  {
    if n == 0 then [] else [v % 2 == 1] + LowBits(v / 2, n - 1)
  }

  /** The number bits make, lowest first. */
  function Number(b: seq<bool>): nat {
    if b == [] then 0 else (if b[0] then 1 else 0) + 2 * Number(b[1..])
  }

  lemma {:induction false} NumberOfLowBits(v: int, n: nat)
    ensures Number(LowBits(v, n)) == v % Power(n)
    decreases n
  {
    if n > 0 {
      NumberOfLowBits(v / 2, n - 1);
      assert LowBits(v, n)[1..] == LowBits(v / 2, n - 1);
      HalfRemainder(v, Power(n - 1));
    }
  }

  lemma HalfRemainder(v: int, m: nat)
    requires m > 0
    ensures v % (2 * m) == v % 2 + 2 * ((v / 2) % m)
  {
    var q, r := v / 2 / m, v / 2 % m;
    assert v / 2 == m * q + r;
    assert v == 2 * m * q + (2 * r + v % 2);
    DivUnique(v, 2 * m, q, 2 * r + v % 2);
  }

  /** The bits of a field at `start`. */
  function Field(b: seq<bool>, start: nat, n: nat): nat
    requires start + n <= |b|
  {
    Number(b[start..start + n])
  }

  /** A field put into a stream reads back, cut to its width. */
  lemma FieldReadsBack(before: seq<bool>, v: int, n: nat, after: seq<bool>)
    ensures Field(before + LowBits(v, n) + after, |before|, n) == v % Power(n)
  {
    NumberOfLowBits(v, n);
    assert (before + LowBits(v, n) + after)[|before|..|before| + n] == LowBits(v, n);
  }

  function ByteBits(data: seq<byte>): (r: seq<bool>)
    ensures |r| == 8 * |data|
    decreases |data|
  {
    if data == [] then [] else ByteBits(data[..|data| - 1]) + LowBits(data[|data| - 1], 8)
  }

  /** The `p` bits a byte under construction holds, at its upper end. */
  function Held(c: nat, p: nat): seq<bool>
    requires p <= 8
  {
    LowBits(Upper(c, p), p)
  }

  function Upper(c: nat, p: nat): nat
    requires p <= 8
  {
    match p
    case 0 => 0
    case 1 => c / 128
    case 2 => c / 64
    case 3 => c / 32
    case 4 => c / 16
    case 5 => c / 8
    case 6 => c / 4
    case 7 => c / 2
    case 8 => c
  }

  lemma {:induction false} LowBitsAppend(v: nat, n: nat, b: bool)
    requires v < Power(n)
    ensures LowBits(v + (if b then Power(n) else 0), n + 1) == LowBits(v, n) + [b]
    decreases n
  {
    if n > 0 {
      LowBitsAppend(v / 2, n - 1, b);
      var w := v + (if b then Power(n) else 0);
      assert w / 2 == v / 2 + (if b then Power(n - 1) else 0) && w % 2 == v % 2;
    } else {
      assert LowBits(v + (if b then 1 else 0), 1) == [b];
    }
  }

  /** Shifting a bit in at the top appends it. */
  lemma HeldGrows(c: nat, p: nat, b: bool)
    requires p < 8 && c < 256
    ensures Held(c / 2 + (if b then 128 else 0), p + 1) == Held(c, p) + [b]
  {
    hide LowBits, Upper;
    UpperGrows(c, p, b);
    LowBitsAppend(Upper(c, p), p, b);
  }

  lemma UpperGrows(c: nat, p: nat, b: bool)
    requires p < 8 && c < 256
    ensures Upper(c, p) < Power(p)
    ensures Upper(c / 2 + (if b then 128 else 0), p + 1) == Upper(c, p) + (if b then Power(p) else 0)
  {
    Powers();
    hide Power;
  }

  lemma Powers()
    ensures Power(0) == 1 && Power(1) == 2 && Power(2) == 4 && Power(3) == 8
    ensures Power(4) == 16 && Power(5) == 32 && Power(6) == 64 && Power(7) == 128
  {
  }

  lemma WholeByte(d: seq<byte>, c: byte)
    ensures ByteBits(d + [c]) == ByteBits(d) + Held(c, 8)
  {
    hide LowBits;
    assert (d + [c])[..|d|] == d;
  }

  lemma NothingHeld(a: seq<bool>)
    ensures a + Held(0, 0) == a
  {
  }

  lemma Associates(a: seq<bool>, b: seq<bool>, c: seq<bool>)
    ensures a + (b + c) == a + b + c
  {
  }

  class Bitstream {
    var data: seq<byte>
    var curbyte: nat
    var bitpos: nat

    ghost predicate Valid()
      reads this
    {
      bitpos < 8 && curbyte < 256
    }

    /** Everything added so far. */
    ghost function Contents(): seq<bool>
      reads this
      requires Valid()
    {
      ByteBits(data) + Held(curbyte, bitpos)
    }

    constructor ()
      ensures Valid() && Contents() == [] && fresh(this)
    {
      data, curbyte, bitpos := [], 0, 0;
    }

    method AddBits(val: int, bits: nat)
      requires Valid()
      modifies this
      ensures Valid() && Contents() == old(Contents()) + LowBits(val, bits)
    {
      hide Bitstream.Contents;
      var v := val;
      ghost var start := Contents();
      for i := 0 to bits
        invariant Valid() && start + LowBits(val, bits) == Contents() + LowBits(v, bits - i)
      {
        ghost var was, b, rest := Contents(), v % 2 == 1, LowBits(v / 2, bits - i - 1);
        AddBit(v % 2 == 1);
        v := v / 2;
        assert was + ([b] + rest) == Contents() + rest;
      }
    }

    /** The body of the loop: one bit is shifted in, and a full byte passed on. */
    method AddBit(b: bool)
      requires Valid()
      modifies this
      ensures Valid() && Contents() == old(Contents()) + [b]
    {
      hide Held, ByteBits;
      HeldGrows(curbyte, bitpos, b);
      Associates(ByteBits(data), Held(curbyte, bitpos), [b]);
      curbyte := curbyte / 2;
      if b { curbyte := curbyte + 128; }
      bitpos := bitpos + 1;
      if bitpos == 8 {
        bitpos := 0;
        WholeByte(data, curbyte);
        data := data + [curbyte];
        curbyte := 0;
        NothingHeld(ByteBits(data));
      }
    }

    /** The whole bytes of the stream. */
    method ToByteArray() returns (r: seq<byte>)
      ensures r == data
    {
      r := data;
    }

    method Size() returns (n: nat)
      requires Valid()
      ensures n == |Contents()|
    {
      n := |data| * 8 + bitpos;
    }
  }
}
