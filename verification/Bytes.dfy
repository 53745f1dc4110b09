/** Bytes and the little-endian words that ff.c's ld_word, ld_dword, st_word and st_dword move. */
module Bytes {
  type byte = x: int | 0 <= x < 256

  function LdWord(b: seq<byte>, i: nat): nat
    requires i + 1 < |b|
  {
    b[i] as int + 0x100 * b[i + 1] as int
  }

  function LdDword(b: seq<byte>, i: nat): nat
    requires i + 3 < |b|
  {
    b[i] as int + 0x100 * b[i + 1] as int + 0x1_0000 * b[i + 2] as int + 0x100_0000 * b[i + 3] as int
  }

  function Byte(v: nat, k: nat): byte
  {
    if k == 0 then v % 0x100
    else if k == 1 then v / 0x100 % 0x100
    else if k == 2 then v / 0x1_0000 % 0x100
    else v / 0x100_0000 % 0x100
  }

  lemma BytesOfDword(v: nat)
    requires v < 0x1_0000_0000
    ensures v == Byte(v, 0) + 0x100 * Byte(v, 1) + 0x1_0000 * Byte(v, 2) + 0x100_0000 * Byte(v, 3)
  {
    var a := v / 0x100;
    var b := a / 0x100;
    var c := b / 0x100;
    assert v / 0x1_0000 == b && v / 0x100_0000 == c && c < 0x100;
    assert v == 0x100 * a + v % 0x100 && a == 0x100 * b + a % 0x100 && b == 0x100 * c + b % 0x100;
  }

  function StWord(b: seq<byte>, i: nat, v: nat): (r: seq<byte>)
    requires i + 1 < |b|
    ensures |r| == |b|
  {
    b[i := Byte(v, 0)][i + 1 := Byte(v, 1)]
  }

  function StDword(b: seq<byte>, i: nat, v: nat): (r: seq<byte>)
    requires i + 3 < |b|
    ensures |r| == |b|
  {
    b[i := Byte(v, 0)][i + 1 := Byte(v, 1)][i + 2 := Byte(v, 2)][i + 3 := Byte(v, 3)]
  }

  lemma StoredDword(b: seq<byte>, i: nat, v: nat)
    requires i + 3 < |b| && v < 0x1_0000_0000
    ensures LdDword(StDword(b, i, v), i) == v
    ensures forall j: nat :: j + 3 < |b| && (j + 3 < i || i + 3 < j) ==> LdDword(StDword(b, i, v), j) == LdDword(b, j)
    ensures forall j: nat :: j + 1 < |b| && (j + 1 < i || i + 3 < j) ==> LdWord(StDword(b, i, v), j) == LdWord(b, j)
  {
    BytesOfDword(v);
  }

  lemma StoredWord(b: seq<byte>, i: nat, v: nat)
    requires i + 1 < |b| && v < 0x1_0000
    ensures LdWord(StWord(b, i, v), i) == v
    ensures forall j: nat :: j + 1 < |b| && (j + 1 < i || i + 1 < j) ==> LdWord(StWord(b, i, v), j) == LdWord(b, j)
    ensures forall j: nat :: j + 3 < |b| && (j + 3 < i || i + 1 < j) ==> LdDword(StWord(b, i, v), j) == LdDword(b, j)
  {
  }
}
