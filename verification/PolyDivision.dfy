/** Division of polynomials over GF(2), coefficient by coefficient, highest first. */
module PolyDivision {
  type Poly = seq<bool>

  function Zeros(n: nat): Poly { seq(n, _ => false) }

  function Xor(a: Poly, b: Poly): (r: Poly)
    requires |a| == |b|
    ensures |r| == |a| && forall i :: 0 <= i < |r| ==> r[i] == (a[i] != b[i])
  {
    seq(|a|, i requires 0 <= i < |a| => a[i] != b[i])
  }

  /** A divisor without its leading term, of which there must be a constant one. */
  predicate Divisor(g: Poly) { |g| > 0 && g[|g| - 1] }

  /** One step of long division: the next coefficient is brought down, and the
      divisor subtracted if it goes in. */
  function Step(g: Poly, r: Poly, b: bool): (s: Poly)
    requires |r| == |g| > 0
    ensures |s| == |g|
  {
    var t := r[1..] + [b];
    if r[0] then Xor(t, g) else t
  }

  /** The remainder of `r` times x^|bits| plus the polynomial `bits`. */
  function Divide(g: Poly, r: Poly, bits: Poly): (s: Poly)
    requires |r| == |g| > 0
    ensures |s| == |g|
    decreases |bits|
  {
    if bits == [] then r else Divide(g, Step(g, r, bits[0]), bits[1..])
  }

  /** The checksum of a message: the remainder of the message times x^|g|. */
  function Checksum(g: Poly, bits: Poly): (s: Poly)
    requires |g| > 0
    ensures |s| == |g|
  {
    Divide(g, Zeros(|g|), bits + Zeros(|g|))
  }

  lemma StepIsLinear(g: Poly, r: Poly, s: Poly, a: bool, b: bool)
    requires |r| == |s| == |g| > 0
    ensures Step(g, Xor(r, s), a != b) == Xor(Step(g, r, a), Step(g, s, b))
  {
  }

  lemma {:induction false} DivideIsLinear(g: Poly, r: Poly, s: Poly, a: Poly, b: Poly)
    requires |r| == |s| == |g| > 0 && |a| == |b|
    ensures Divide(g, Xor(r, s), Xor(a, b)) == Xor(Divide(g, r, a), Divide(g, s, b))
    decreases |a|
  {
    hide Step;
    if a != [] {
      StepIsLinear(g, r, s, a[0], b[0]);
      assert Xor(a, b)[1..] == Xor(a[1..], b[1..]);
      DivideIsLinear(g, Step(g, r, a[0]), Step(g, s, b[0]), a[1..], b[1..]);
    }
  }

  lemma {:induction false} DivideAppend(g: Poly, r: Poly, a: Poly, b: Poly)
    requires |r| == |g| > 0
    ensures Divide(g, r, a + b) == Divide(g, Divide(g, r, a), b)
    decreases |a|
  {
    if a == [] {
      assert a + b == b;
    } else {
      assert (a + b)[1..] == a[1..] + b;
      DivideAppend(g, Step(g, r, a[0]), a[1..], b);
    }
  }

  /** Checksums are linear: that of a sum is the sum of the checksums. */
  lemma ChecksumIsLinear(g: Poly, a: Poly, b: Poly)
    requires |g| > 0 && |a| == |b|
    ensures Checksum(g, Xor(a, b)) == Xor(Checksum(g, a), Checksum(g, b))
  {
    hide Divide;
    var z := Zeros(|g|);
    assert Xor(a, b) + z == Xor(a + z, b + z);
    assert Xor(z, z) == z;
    DivideIsLinear(g, z, z, a + z, b + z);
  }

  /** As long as zeros leave the remainder, coefficients are just brought down. */
  lemma {:induction false} BroughtDown(g: Poly, r: Poly, bits: Poly)
    requires |r| == |g| > 0 && |bits| <= |r| && forall i :: 0 <= i < |bits| ==> !r[i]
    ensures Divide(g, r, bits) == r[|bits|..] + bits
    decreases |bits|
  {
    if bits != [] {
      var t := r[1..] + [bits[0]];
      assert Step(g, r, bits[0]) == t;
      hide Step;
      BroughtDown(g, t, bits[1..]);
      var n := |bits| - 1;
      assert t[n..] == r[|bits|..] + [bits[0]];
      assert [bits[0]] + bits[1..] == bits;
    }
  }

  lemma {:induction false} ZerosStayZero(g: Poly, n: nat)
    requires |g| > 0
    ensures Divide(g, Zeros(|g|), Zeros(n)) == Zeros(|g|)
    decreases n
  {
    if n > 0 {
      assert Step(g, Zeros(|g|), false) == Zeros(|g|);
      assert Zeros(n)[1..] == Zeros(n - 1);
      ZerosStayZero(g, n - 1);
    }
  }

  /** Multiplying by x loses nothing, as the divisor has a constant term. */
  lemma {:induction false} ZerosKeepNonzero(g: Poly, r: Poly, n: nat)
    requires |r| == |g| && Divisor(g) && true in r
    ensures true in Divide(g, r, Zeros(n))
    decreases n
  {
    if n > 0 {
      assert Zeros(n)[1..] == Zeros(n - 1);
      DoubleKeepsNonzero(g, r);
      ZerosKeepNonzero(g, Step(g, r, false), n - 1);
    }
  }

  lemma DoubleKeepsNonzero(g: Poly, r: Poly)
    requires |r| == |g| && Divisor(g) && true in r
    ensures true in Step(g, r, false)
  {
    var s := Step(g, r, false);
    if r[0] {
      assert s[|g| - 1];
    } else {
      var i :| 0 <= i < |r| && r[i];
      assert s[i - 1];
    }
  }

  /** Two messages of the same length whose differences lie within |g| places have
      different checksums. */
  lemma BurstIsDetected(g: Poly, a: Poly, b: Poly, before: nat, burst: Poly, after: nat)
    requires Divisor(g) && |a| == |b| && |burst| <= |g| && true in burst
    requires Xor(a, b) == Zeros(before) + burst + Zeros(after)
    ensures Checksum(g, a) != Checksum(g, b)
  {
    hide Divide;
    var z := Zeros(|g|);
    ChecksumIsLinear(g, a, b);
    var rest := Zeros(after) + z;
    assert Xor(a, b) + z == Zeros(before) + (burst + Zeros(after + |g|));
    assert rest == Zeros(after + |g|);
    DivideAppend(g, z, Zeros(before), burst + Zeros(after + |g|));
    ZerosStayZero(g, before);
    DivideAppend(g, z, burst, Zeros(after + |g|));
    DivideOfShort(g, burst);
    var r := Zeros(|g| - |burst|) + burst;
    var i :| 0 <= i < |burst| && burst[i];
    assert r[|g| - |burst| + i];
    ZerosKeepNonzero(g, r, after + |g|);
    if Checksum(g, a) == Checksum(g, b) { SameXorIsZero(Checksum(g, a)); }
  }

  lemma SameXorIsZero(a: Poly)
    ensures true !in Xor(a, a)
  {
  }

  /** With the checksum appended, and any number of zeros behind it, the remainder is 0. */
  lemma AppendedGivesZero(g: Poly, bits: Poly, n: nat)
    requires |g| > 0
    ensures Divide(g, Zeros(|g|), bits + Checksum(g, bits) + Zeros(n)) == Zeros(|g|)
  {
    hide Divide;
    var z, sum := Zeros(|g|), Checksum(g, bits);
    DivideAppend(g, z, bits, sum);
    ChecksumCancels(g, bits);
    DivideAppend(g, z, bits + sum, Zeros(n));
    ZerosStayZero(g, n);
  }

  lemma ChecksumCancels(g: Poly, bits: Poly)
    requires |g| > 0
    ensures Divide(g, Divide(g, Zeros(|g|), bits), Checksum(g, bits)) == Zeros(|g|)
  {
    hide Divide;
    var z := Zeros(|g|);
    var d := Divide(g, z, bits);
    DivideAppend(g, z, bits, z);
    CancelsItself(g, d, Divide(g, d, z));
  }

  lemma CancelsItself(g: Poly, d: Poly, sum: Poly)
    requires |d| == |sum| == |g| > 0 && Divide(g, d, Zeros(|g|)) == sum
    ensures Divide(g, d, sum) == Zeros(|g|)
  {
    hide Divide;
    var z := Zeros(|g|);
    DivideIsLinear(g, d, z, z, sum);
    XorWithZero(d);
    XorWithZero(sum);
    DivideOfShort(g, sum);
  }

  lemma XorWithZero(a: Poly)
    ensures Xor(a, Zeros(|a|)) == a && Xor(Zeros(|a|), a) == a && Xor(a, a) == Zeros(|a|)
  {
  }

  lemma DivideOfShort(g: Poly, bits: Poly)
    requires |bits| <= |g| && |g| > 0
    ensures Divide(g, Zeros(|g|), bits) == Zeros(|g| - |bits|) + bits
    ensures |bits| == |g| ==> Divide(g, Zeros(|g|), bits) == bits
  {
    hide Divide, Step;
    var z := Zeros(|g|);
    BroughtDown(g, z, bits);
    DropZeros(|g|, |bits|);
    hide Zeros;
    if |bits| == |g| { NothingBefore(z[|bits|..], bits); }
  }

  lemma DropZeros(n: nat, k: nat)
    requires k <= n
    ensures Zeros(n)[k..] == Zeros(n - k)
  {
  }

  lemma NothingBefore(a: Poly, b: Poly)
    requires |a| == 0
    ensures a + b == b
  {
  }

  // ---------------------------------------------------------------- one more coefficient, one more byte

  /** The checksum with one more coefficient. */
  lemma ChecksumStep(g: Poly, y: Poly, b: bool)
    requires |g| > 0
    ensures Checksum(g, y + [b]) == (if b then Xor(Step(g, Checksum(g, y), false), g)
        else Step(g, Checksum(g, y), false))
  {
    hide Divide, Step;
    ZeroCoefficient(g, y);
    if b {
      var one := Zeros(|y|) + [true];
      assert Xor(y + [false], one) == y + [true];
      ChecksumIsLinear(g, y + [false], one);
      ChecksumOfOne(g, |y|);
    }
  }

  lemma ZeroCoefficient(g: Poly, y: Poly)
    requires |g| > 0
    ensures Checksum(g, y + [false]) == Step(g, Checksum(g, y), false)
  {
    hide Divide, Step;
    var z := Zeros(|g|);
    assert y + [false] + z == (y + z) + [false];
    DivideAppend(g, z, y + z, [false]);
    DivideOne(g, Checksum(g, y), false);
  }

  lemma DivideOne(g: Poly, r: Poly, b: bool)
    requires |r| == |g| > 0
    ensures Divide(g, r, [b]) == Step(g, r, b)
  {
    hide Step;
    assert [b][1..] == [];
  }

  /** x^|g| leaves the divisor without its leading term. */
  lemma ChecksumOfOne(g: Poly, n: nat)
    requires |g| > 0
    ensures Checksum(g, Zeros(n) + [true]) == g
  {
    hide Divide, Step;
    var z := Zeros(|g|);
    assert Zeros(n) + [true] + z == Zeros(n) + ([true] + Zeros(|g| - 1) + [false]);
    DivideAppend(g, z, Zeros(n), [true] + Zeros(|g| - 1) + [false]);
    ZerosStayZero(g, n);
    DivideAppend(g, z, [true] + Zeros(|g| - 1), [false]);
    DivideOfShort(g, [true] + Zeros(|g| - 1));
    DivideOne(g, [true] + Zeros(|g| - 1), false);
    OneTimesX(g);
  }

  lemma OneTimesX(g: Poly)
    requires |g| > 0
    ensures Step(g, [true] + Zeros(|g| - 1), false) == g
  {
    var r := [true] + Zeros(|g| - 1);
    assert r[1..] + [false] == Zeros(|g|);
  }

  /** The checksum with one more byte (or any run of coefficients), from the checksum so far. */
  lemma ChecksumAppend(g: Poly, m: Poly, d: Poly)
    requires |g| > 0
    ensures Checksum(g, m + d) == Xor(Divide(g, Checksum(g, m), Zeros(|d|)), Checksum(g, d))
  {
    hide Divide;
    var z := Zeros(|g|);
    var r := Divide(g, z, m);
    AppendReads(m, d, z);
    DivideAppend(g, z, m, d + z);
    DivideAppend(g, z, m, z);
    SplitOff(g, r, d);
    DivideAppend(g, r, z, Zeros(|d|));
  }

  lemma AppendReads(m: Poly, d: Poly, z: Poly)
    ensures m + d + z == m + (d + z)
  {
  }

  lemma SplitOff(g: Poly, r: Poly, d: Poly)
    requires |r| == |g| > 0
    ensures Divide(g, r, d + Zeros(|g|)) == Xor(Divide(g, r, Zeros(|g|) + Zeros(|d|)), Checksum(g, d))
  {
    hide Divide;
    var z := Zeros(|g|);
    XorWithZero(r);
    XorWithZero(d + z);
    ZerosJoin(|g|, |d|);
    DivideIsLinear(g, r, z, z + Zeros(|d|), d + z);
  }

  lemma ZerosJoin(a: nat, b: nat)
    ensures Zeros(a) + Zeros(b) == Zeros(a + b)
  {
  }

  /** The table step of a checksum of at most eight bits. */
  lemma NarrowByteStep(g: Poly, m: Poly, d: Poly)
    requires 0 < |g| <= 8 && |d| == 8
    ensures Checksum(g, m + d) == Checksum(g, Xor(Checksum(g, m) + Zeros(8 - |g|), d))
  {
    hide Divide, Checksum;
    var c := Checksum(g, m);
    ChecksumAppend(g, m, d);
    ChecksumIsLinear(g, c + Zeros(8 - |g|), d);
    ShortThenZeros(g, c, 8 - |g|);
  }

  lemma ShortThenZeros(g: Poly, c: Poly, n: nat)
    requires |c| == |g| > 0
    ensures Checksum(g, c + Zeros(n)) == Divide(g, c, Zeros(n + |g|))
  {
    hide Divide;
    var z := Zeros(|g|);
    assert c + Zeros(n) + z == c + Zeros(n + |g|);
    DivideAppend(g, z, c, Zeros(n + |g|));
    DivideOfShort(g, c);
  }

  /** The table step of a checksum of eight bits or more. */
  lemma WideByteStep(g: Poly, m: Poly, d: Poly)
    requires 8 <= |g| && |d| == 8
    ensures var c := Checksum(g, m); Checksum(g, m + d) == Xor(c[8..] + Zeros(8), Checksum(g, Xor(c[..8], d)))
  {
    hide Divide, Checksum;
    var c := Checksum(g, m);
    ChecksumAppend(g, m, d);
    ChecksumIsLinear(g, c[..8], d);
    EightZeros(g, c);
    XorAssociates(c[8..] + Zeros(8), Checksum(g, c[..8]), Checksum(g, d));
  }

  lemma XorAssociates(a: Poly, b: Poly, c: Poly)
    requires |a| == |b| == |c|
    ensures Xor(Xor(a, b), c) == Xor(a, Xor(b, c))
  {
  }

  lemma EightZeros(g: Poly, c: Poly)
    requires |c| == |g| >= 8
    ensures Divide(g, c, Zeros(8)) == Xor(c[8..] + Zeros(8), Checksum(g, c[..8]))
  {
    hide Divide;
    var z, hi, lo := Zeros(|g|), c[..8] + Zeros(|g| - 8), Zeros(8) + c[8..];
    assert Xor(lo, hi) == c;
    XorWithZero(Zeros(8));
    DivideIsLinear(g, lo, hi, Zeros(8), Zeros(8));
    BroughtDown(g, lo, Zeros(8));
    assert lo[8..] == c[8..];
    assert c[..8] + z == hi + Zeros(8);
    DivideAppend(g, z, hi, Zeros(8));
    DivideOfShort(g, hi);
  }
}
