/** The BitScrambler assembler (bsasm.py): naming inputs, checking them against each
    other, and encoding instructions, opcodes and the look-up table. */
module Bitscrambler {
  import opened Options
  import opened Arith
  import opened Bytes
  import opened BitStream

  // ---------------------------------------------------------------- inputs

  /** What an input of a program names: a bit of the input memory, of the counters
      (A then B), of the LUT output, a comparison or constant, or the last output. */
  datatype Source = Mem(k: nat) | Counter(k: nat) | Lut(k: nat) | Aux(k: nat) | Last(k: nat) {
    predicate Valid() { if Mem? then k < 64 else k < 32 }
  }

  /** Bits of the instruction an input needs set or cleared. */
  datatype Flags = Flags(rel: Option<bool>, ctr: Option<bool>, lut: Option<bool>)

  datatype Input = Input(sel: nat, flags: Flags)

  const NO_FLAGS := Flags(None, None, None)

  predicate LutWidth(w: nat) { w == 8 || w == 16 || w == 32 }

  function LutStart(w: nat): nat { if w == 8 then 24 else if w == 16 then 16 else 0 }

  /** parse_input, from the name's meaning; None is a syntax error. */
  function ParseInput(s: Source, rel: bool, w: nat): Option<Input>
    requires s.Valid()
  {
    var overlap := (i: nat) => if i >= LutStart(w) then Some(false) else None;
    match s
    case Mem(k) =>
      if k < 32 then Some(Input(k, Flags(Some(rel), None, None)))
      else Some(Input(k, Flags(Some(rel), Some(false), overlap(k - 32))))
    case Counter(k) => Some(Input(k + 32, Flags(Some(rel), Some(true), overlap(k))))
    case Lut(k) =>
      if k > w then None
      else
        var sel := k + 32 + LutStart(w);
        if sel >= 64 then if rel then None else Some(Input(sel, Flags(None, None, Some(true))))
        else Some(Input(sel, Flags(Some(rel), None, Some(true))))
    case Aux(k) => if rel then None else Some(Input(64 + k, NO_FLAGS))
    case Last(k) => if rel then None else Some(Input(96 + k, NO_FLAGS))
  }

  /** What the hardware feeds through for a selection, given the three bits. */
  function Fed(sel: nat, ctr: bool, lut: bool, w: nat): Source
    requires sel < 128
  {
    if sel < 32 then Mem(sel)
    else if sel < 64 then
      var i := sel - 32;
      if lut && i >= LutStart(w) then Lut(i - LutStart(w)) else if ctr then Counter(i) else Mem(sel)
    else if sel < 96 then Aux(sel - 64)
    else Last(sel - 96)
  }

  /** The bits of an instruction satisfy what an input needs. */
  predicate Satisfied(f: Flags, rel: bool, ctr: bool, lut: bool) {
    && (f.rel.Some? ==> f.rel.value == rel)
    && (f.ctr.Some? ==> f.ctr.value == ctr)
    && (f.lut.Some? ==> f.lut.value == lut)
  }

  /** A named input selects what it names, with one exception: the check of a LUT bit
      against the width lets the first bit beyond it through, as another input. */
  lemma InputSelectsItsSource(s: Source, rel: bool, w: nat, r: bool, c: bool, l: bool)
    requires s.Valid() && LutWidth(w) && ParseInput(s, rel, w).Some?
    requires Satisfied(ParseInput(s, rel, w).value.flags, r, c, l)
    ensures var sel := ParseInput(s, rel, w).value.sel;
            && sel < 128
            && (Fed(sel, c, l, w) == s <==> s != Lut(w))
            && (s == Lut(w) ==> Fed(sel, c, l, w) == Aux(0))
            && (rel ==> r)
  {
  }

  /** Which names are accepted: relative addressing is for memory, counters and the LUT output, and the LUT output has
      its width of bits, and one more. */
  lemma InputIsAccepted(s: Source, rel: bool, w: nat)
    requires s.Valid() && LutWidth(w)
    ensures ParseInput(s, rel, w).Some? <==>
        match s
        case Mem(_) => true
        case Counter(_) => true
        case Lut(k) => k < w || (k == w && !rel)
        case Aux(_) => !rel
        case Last(_) => !rel
  {
  }

  /** check_input_compatible passes. */
  predicate Compatible(f: Flags, g: Flags) {
    && (f.rel.Some? && g.rel.Some? ==> f.rel == g.rel)
    && (f.ctr.Some? && g.ctr.Some? ==> f.ctr == g.ctr)
    && (f.lut.Some? && g.lut.Some? ==> f.lut == g.lut)
  }

  // ---------------------------------------------------------------- ranges of inputs

  /** Flags taken together: the last input that cares decides each. */
  function Merge(f: Flags, g: Flags): Flags {
    Flags(if g.rel.Some? then g.rel else f.rel, if g.ctr.Some? then g.ctr else f.ctr, if g.lut.Some? then g.lut
        else f.lut)
  }

  /** Accepted as an end of a range that crosses from the first 32 memory bits to the next. */
  predicate PlainMem(i: Input) { 32 <= i.sel < 64 && i.flags.ctr != Some(true) && i.flags.lut != Some(true) }

  predicate RangeAllowed(a: Input, b: Input) {
    (a.sel < 32 && PlainMem(b)) || (b.sel < 32 && PlainMem(a)) || a.sel / 32 == b.sel / 32
  }

  function InputAt(a: Input, b: Input, i: nat): Input
    requires i <= if a.sel <= b.sel then b.sel - a.sel else a.sel - b.sel
  {
    Input(if a.sel <= b.sel then a.sel + i else a.sel - i, Merge(a.flags, b.flags))
  }

  /** The last part of parse_input_range, from the two ends on. */
  method ParseInputRange(a: Input, b: Input) returns (r: Option<seq<Input>>)
    ensures r.Some? <==> RangeAllowed(a, b) && Compatible(a.flags, b.flags)
    ensures r.Some? ==>
              var n := if a.sel <= b.sel then b.sel - a.sel else a.sel - b.sel;
              |r.value| == n + 1 && forall i :: 0 <= i <= n ==> r.value[i] == InputAt(a, b, i)
  {
    if !RangeAllowed(a, b) || !Compatible(a.flags, b.flags) { return None; }
    var flags := Merge(a.flags, b.flags);
    var ret: seq<Input> := [];
    var i: int := a.sel;
    while |ret| < 1 + (if a.sel <= b.sel then b.sel - a.sel else a.sel - b.sel)
      invariant |ret| <= 1 + (if a.sel <= b.sel then b.sel - a.sel else a.sel - b.sel)
      invariant i == if a.sel <= b.sel then a.sel + |ret| else a.sel - |ret|
      invariant forall j :: 0 <= j < |ret| ==> ret[j] == InputAt(a, b, j)
    {
      ret := ret + [Input(i, flags)];
      i := if a.sel <= b.sel then i + 1 else i - 1;
    }
    r := Some(ret);
  }

  predicate SameKind(s: Source, e: Source) {
    s.Mem? == e.Mem? && s.Counter? == e.Counter? && s.Lut? == e.Lut? && s.Aux? == e.Aux? && s.Last? == e.Last?
  }

  /** A counter or a memory bit behind the first 32 that no LUT bit shares its selection with. */
  predicate LeavesLut(s: Source, w: nat) {
    (s.Counter? && s.k < LutStart(w)) || (s.Mem? && 32 <= s.k < 32 + LutStart(w))
  }

  /** A range is accepted exactly between two of a kind, or between the LUT output and what may be selected beside
      it. */
  lemma RangeIsAllowedIff(s: Source, e: Source, rel: bool, w: nat)
    requires s.Valid() && e.Valid() && LutWidth(w) && s != Lut(w) && e != Lut(w)
    requires ParseInput(s, rel, w).Some? && ParseInput(e, rel, w).Some?
    ensures var a, b := ParseInput(s, rel, w).value, ParseInput(e, rel, w).value;
            RangeAllowed(a, b) && Compatible(a.flags, b.flags) <==>
            SameKind(s, e) || (s.Lut? && LeavesLut(e, w)) || (e.Lut? && LeavesLut(s, w))
  {
    SelectionOf(s, rel, w);
    SelectionOf(e, rel, w);
    hide ParseInput;
  }

  lemma SelectionOf(s: Source, rel: bool, w: nat)
    requires s.Valid() && LutWidth(w) && s != Lut(w) && ParseInput(s, rel, w).Some?
    ensures var i := ParseInput(s, rel, w).value;
        match s
        case Mem(k) =>
          && i.sel == k && i.flags.rel == Some(rel) && i.flags.ctr == (if k < 32 then None else Some(false))
          && i.flags.lut == if k < 32 + LutStart(w) then None else Some(false)
        case Counter(k) =>
          i.sel == k + 32 && i.flags == Flags(Some(rel), Some(true), if k < LutStart(w) then None else Some(false))
        case Lut(k) => 32 <= i.sel < 64 && i.flags == Flags(Some(rel), None, Some(true))
        case Aux(k) => i == Input(64 + k, NO_FLAGS) && !rel
        case Last(k) => i == Input(96 + k, NO_FLAGS) && !rel
  {
  }

  /** The `i`-th source from `s` towards `e`. */
  function Between(s: Source, e: Source, i: nat): Source
    requires SameKind(s, e) && i <= (if s.k <= e.k then e.k - s.k else s.k - e.k)
  {
    s.(k := if s.k <= e.k then s.k + i else s.k - i)
  }

  /** The same selection, with at least the flags needed. */
  predicate Covers(i: Input, needed: Input) {
    && i.sel == needed.sel
    && (needed.flags.rel.Some? ==> i.flags.rel == needed.flags.rel)
    && (needed.flags.ctr.Some? ==> i.flags.ctr == needed.flags.ctr)
    && (needed.flags.lut.Some? ==> i.flags.lut == needed.flags.lut)
  }

  /** A range between two of a kind is always accepted. */
  lemma RangeIsAllowed(s: Source, e: Source, rel: bool, w: nat)
    requires s.Valid() && e.Valid() && SameKind(s, e) && LutWidth(w) && s != Lut(w) && e != Lut(w)
    requires ParseInput(s, rel, w).Some? && ParseInput(e, rel, w).Some?
    ensures var a, b := ParseInput(s, rel, w).value, ParseInput(e, rel, w).value;
            && RangeAllowed(a, b) && Compatible(a.flags, b.flags)
            && b.sel - a.sel == e.k - s.k
  {
  }

  /** Every input of such a range is the one it stands for, forwards or backwards, and
      has with the flags of the two ends all it needs itself. */
  lemma RangeCoversItsSources(s: Source, e: Source, rel: bool, w: nat, i: nat)
    requires s.Valid() && e.Valid() && SameKind(s, e) && LutWidth(w) && s != Lut(w) && e != Lut(w)
    requires ParseInput(s, rel, w).Some? && ParseInput(e, rel, w).Some?
    requires i <= if s.k <= e.k then e.k - s.k else s.k - e.k
    ensures var a, b := ParseInput(s, rel, w).value, ParseInput(e, rel, w).value;
            && i <= (if a.sel <= b.sel then b.sel - a.sel else a.sel - b.sel)
            && Between(s, e, i).Valid() && ParseInput(Between(s, e, i), rel, w).Some?
            && Covers(InputAt(a, b, i), ParseInput(Between(s, e, i), rel, w).value)
  {
    RangeIsAllowed(s, e, rel, w);
    hide RangeAllowed, Compatible;
  }

  // ---------------------------------------------------------------- inputs together

  /** Inputs by mux line; line 32 is the source of a condition. */
  type Mux = m: map<nat, Input> | forall i :: i in m ==> i < 33 && m[i].sel < 128

  ghost predicate AllCompatible(m: Mux) {
    forall i, j :: i in m && j in m && i < j ==> Compatible(m[i].flags, m[j].flags)
  }

  function FlagsBelow(m: Mux, n: nat): Flags {
    if n == 0 then NO_FLAGS
    else if n - 1 in m then Merge(FlagsBelow(m, n - 1), m[n - 1].flags)
    else FlagsBelow(m, n - 1)
  }

  function OrFalse(o: Option<bool>): bool { o.Some? && o.value }

  lemma {:induction false} MergedFlagsSatisfy(m: Mux, n: nat, i: nat)
    requires AllCompatible(m) && i < n && i in m
    ensures var f := FlagsBelow(m, n);
            && Compatible(m[i].flags, f)
            && (m[i].flags.rel.Some? ==> f.rel.Some?) && (m[i].flags.ctr.Some? ==> f.ctr.Some?)
                && (m[i].flags.lut.Some? ==> f.lut.Some?)
    decreases n
  {
    if i < n - 1 { MergedFlagsSatisfy(m, n - 1, i); }
  }

  /** With all pairs compatible, the three bits emitted satisfy every input. */
  lemma CompatibleMeansSatisfied(m: Mux)
    requires AllCompatible(m)
    ensures var f := FlagsBelow(m, 33);
            forall i :: i in m ==> Satisfied(m[i].flags, OrFalse(f.rel), OrFalse(f.ctr), OrFalse(f.lut))
  {
    forall i | i in m ensures Satisfied(m[i].flags, OrFalse(FlagsBelow(m, 33).rel), OrFalse(FlagsBelow(m, 33).ctr),
        OrFalse(FlagsBelow(m, 33).lut)) {
      MergedFlagsSatisfy(m, 33, i);
    }
  }

  /** Without that, no choice of the three bits does. */
  lemma IncompatibleMeansUnsatisfiable(m: Mux, r: bool, c: bool, l: bool)
    requires forall i :: i in m ==> Satisfied(m[i].flags, r, c, l)
    ensures AllCompatible(m)
  {
  }

  // ---------------------------------------------------------------- opcodes

  /** An opcode with its fields; `tgt` is the instruction a label stands for. */
  datatype Op =
    | Loop(c: bool, endVal: bv32, ctrAdd: bv32, tgt: bv32)
    | Add(c: bool, h: bool, l: bool, ctrAdd: bv32)
    | If(negated: bool, src: bv32, tgt: bv32)
    | LdCtd(c: bool, h: bool, l: bool, ctrAdd: bv32)
    | LdCti(c: bool, h: bool, l: bool)
  {
    /** The ranges the parser leaves: masked values, a mux selection, a label of at most eight instructions. */
    predicate Valid() {
      match this
      case Loop(_, e, a, t) => e <= 0xFFFF && a <= 31 && t <= 8
      case Add(_, _, _, a) => a <= 0xFFFF
      case If(_, s, t) => s < 128 && t <= 8
      case LdCtd(_, _, _, a) => a <= 0xFFFF
      case LdCti(_, _, _) => true
    }

    predicate HasTarget() { Loop? || If? }
  }

  const NOP := Add(false, true, true, 0)

  function BitIf(b: bool, m: bv32): bv32 { if b then m else 0 }

  /** The parts of an opcode field, or-ed together as the source does. */
  function LoopField(c: bool, t: bv32, e: bv32, a: bv32): bv32 {
    0x200_0000 | BitIf(c, 0x100_0000) | (t << 21) | (e << 5) | a
  }
  function JumpField(n: bool, t: bv32, s: bv32): bv32 { (if n then 0x2_0000 else 0x1_0000) | (t << 21) | s }
  function CountField(k: bv32, c: bool, h: bool, l: bool, a: bv32): bv32 {
    k | BitIf(c, 0x100_0000) | BitIf(h, 0x80_0000) | BitIf(l, 0x40_0000) | a
  }

  function EncodeOp(op: Op): bv32 {
    match op
    case Loop(c, e, a, t) => LoopField(c, t, e, a)
    case Add(c, h, l, a) => CountField(0, c, h, l, a)
    case If(n, s, t) => JumpField(n, t, s)
    case LdCtd(c, h, l, a) => CountField(0x3_0000, c, h, l, a)
    case LdCti(c, h, l) => CountField(0x4_0000, c, h, l, 0)
  }

  predicate HasBit(o: bv32, m: bv32) { o & m != 0 }
  function KindOf(o: bv32): bv32 { (o >> 16) & 7 }
  function TargetOf(o: bv32): bv32 { (o >> 21) & 7 }
  function EndOf(o: bv32): bv32 { (o >> 5) & 0xFFFF }
  function StepOf(o: bv32): bv32 { o & 31 }
  function CountOf(o: bv32): bv32 { o & 0xFFFF }
  function SourceOf(o: bv32): bv32 { o & 0x7F }

  /** The opcode a field stands for. */
  function DecodeOp(o: bv32): Op {
    var c, h, l := HasBit(o, 0x100_0000), HasBit(o, 0x80_0000), HasBit(o, 0x40_0000);
    if HasBit(o, 0x200_0000) then Loop(c, EndOf(o), StepOf(o), TargetOf(o))
    else if KindOf(o) == 0 then Add(c, h, l, CountOf(o))
    else if KindOf(o) == 1 then If(false, SourceOf(o), TargetOf(o))
    else if KindOf(o) == 2 then If(true, SourceOf(o), TargetOf(o))
    else if KindOf(o) == 3 then LdCtd(c, h, l, CountOf(o))
    else LdCti(c, h, l)
  }

  lemma LoopFieldReads(c: bool, t: bv32, e: bv32, a: bv32)
    requires t <= 8 && e <= 0xFFFF && a <= 31
    ensures var o := LoopField(c, t, e, a);
            && o < 0x400_0000 && HasBit(o, 0x200_0000) && EndOf(o) == e && StepOf(o) == a
            && (t < 8 ==> TargetOf(o) == t && HasBit(o, 0x100_0000) == c) && (t == 8 ==> TargetOf(o) == 0)
  {
    if c { LoopBits(0x100_0000, t, e, a); } else { LoopBits(0, t, e, a); }
  }

  lemma LoopBits(c: bv32, t: bv32, e: bv32, a: bv32)
    requires (c == 0 || c == 0x100_0000) && t <= 8 && e <= 0xFFFF && a <= 31
    ensures var o := 0x200_0000 | c | (t << 21) | (e << 5) | a;
            && o < 0x400_0000 && o & 0x200_0000 != 0 && (o >> 5) & 0xFFFF == e && o & 31 == a
            && (t < 8 ==> (o >> 21) & 7 == t && o & 0x100_0000 == c) && (t == 8 ==> (o >> 21) & 7 == 0)
  {
  }

  lemma JumpFieldReads(n: bool, t: bv32, s: bv32)
    requires t <= 8 && s < 128
    ensures var o := JumpField(n, t, s);
            && o < 0x400_0000 && !HasBit(o, 0x200_0000) && KindOf(o) == (if n then 2 else 1) && SourceOf(o) == s
            && TargetOf(o) == if t < 8 then t else 0
  {
    if n { JumpBits(0x2_0000, t, s); } else { JumpBits(0x1_0000, t, s); }
  }

  lemma JumpBits(n: bv32, t: bv32, s: bv32)
    requires (n == 0x1_0000 || n == 0x2_0000) && t <= 8 && s < 128
    ensures var o := n | (t << 21) | s;
            && o < 0x400_0000 && o & 0x200_0000 == 0 && (o >> 16) & 7 == n >> 16 && o & 0x7F == s
            && (t < 8 ==> (o >> 21) & 7 == t) && (t == 8 ==> (o >> 21) & 7 == 0)
  {
  }

  lemma CountFieldReads(k: bv32, c: bool, h: bool, l: bool, a: bv32)
    requires (k == 0 || k == 0x3_0000 || k == 0x4_0000) && a <= 0xFFFF
    ensures var o := CountField(k, c, h, l, a);
            && o < 0x400_0000 && !HasBit(o, 0x200_0000) && KindOf(o) == k >> 16 && CountOf(o) == a
            && HasBit(o, 0x100_0000) == c && HasBit(o, 0x80_0000) == h && HasBit(o, 0x40_0000) == l
  {
    CountBits(k, BitIf(c, 0x100_0000), BitIf(h, 0x80_0000), BitIf(l, 0x40_0000), a);
  }

  lemma CountBits(k: bv32, c: bv32, h: bv32, l: bv32, a: bv32)
    requires (k == 0 || k == 0x3_0000 || k == 0x4_0000) && a <= 0xFFFF
    requires (c == 0 || c == 0x100_0000) && (h == 0 || h == 0x80_0000) && (l == 0 || l == 0x40_0000)
    ensures var o := k | c | h | l | a;
            && o < 0x400_0000 && o & 0x200_0000 == 0 && (o >> 16) & 7 == k >> 16 && o & 0xFFFF == a
            && o & 0x100_0000 == c && o & 0x80_0000 == h && o & 0x40_0000 == l
  {
    CountBitsLow(k, c, h, l, a);
    CountBitsMid(k, c, h, l, a);
    CountBitsHigh(k, c, h, l, a);
  }

  lemma CountBitsLow(k: bv32, c: bv32, h: bv32, l: bv32, a: bv32)
    requires (k == 0 || k == 0x3_0000 || k == 0x4_0000) && a <= 0xFFFF
    requires (c == 0 || c == 0x100_0000) && (h == 0 || h == 0x80_0000) && (l == 0 || l == 0x40_0000)
    ensures (k | c | h | l | a) & 0xFFFF == a
  {
  }

  lemma CountBitsMid(k: bv32, c: bv32, h: bv32, l: bv32, a: bv32)
    requires (k == 0 || k == 0x3_0000 || k == 0x4_0000) && a <= 0xFFFF
    requires (c == 0 || c == 0x100_0000) && (h == 0 || h == 0x80_0000) && (l == 0 || l == 0x40_0000)
    ensures ((k | c | h | l | a) >> 16) & 7 == k >> 16
  {
  }

  lemma CountBitsHigh(k: bv32, c: bv32, h: bv32, l: bv32, a: bv32)
    requires (k == 0 || k == 0x3_0000 || k == 0x4_0000) && a <= 0xFFFF
    requires (c == 0 || c == 0x100_0000) && (h == 0 || h == 0x80_0000) && (l == 0 || l == 0x40_0000)
    ensures var o := k | c | h | l | a;
            && o < 0x400_0000 && o & 0x200_0000 == 0
            && o & 0x100_0000 == c && o & 0x80_0000 == h && o & 0x40_0000 == l
  {
  }

  lemma Shifts()
    ensures (0 as bv32) >> 16 == 0 && (0x3_0000 as bv32) >> 16 == 3 && (0x4_0000 as bv32) >> 16 == 4
  {
  }

  /** An opcode reads back exactly if its target is below 8: a label behind the
      eighth instruction spills into the bit that selects the counter. */
  lemma OpReadsBack(op: Op)
    requires op.Valid()
    ensures DecodeOp(EncodeOp(op)) == op <==> !(op.HasTarget() && op.tgt == 8)
    ensures EncodeOp(op) < 0x400_0000
  {
    hide LoopField, JumpField, CountField, HasBit, KindOf, TargetOf, EndOf, StepOf, CountOf, SourceOf;
    Shifts();
    match op
    case Loop(c, e, a, t) => LoopFieldReads(c, t, e, a);
    case If(n, s, t) => JumpFieldReads(n, t, s);
    case Add(c, h, l, a) => CountFieldReads(0, c, h, l, a);
    case LdCtd(c, h, l, a) => CountFieldReads(0x3_0000, c, h, l, a);
    case LdCti(c, h, l) => CountFieldReads(0x4_0000, c, h, l, 0);
  }

  // ---------------------------------------------------------------- instructions

  /** An instruction: its mux lines, its opcode with the source of a condition, and
      the bits to read and write. */
  datatype Inst = Inst(mux: Mux, op: Option<Op>, cond: Option<Input>, read: Option<nat>, write: Option<nat>) {
    predicate Valid() {
      && (forall i :: i in mux ==> i < 32)
      && (op.Some? ==> op.value.Valid())
      && (if op.Some? && op.value.If? then cond.Some? && cond.value.sel == op.value.src as int < 128 else cond.None?)
      && (read.Some? ==> Transfer(read.value)) && (write.Some? ==> Transfer(write.value))
    }
  }

  predicate Transfer(n: nat) { n == 0 || n == 8 || n == 16 || n == 32 }

  function TransferCode(n: Option<nat>): (c: nat)
    ensures c < 4
  {
    if n.None? || n.value == 0 then 0 else if n.value == 8 then 1 else if n.value == 16 then 2 else 3
  }

  /** The width a code stands for. */
  function TransferOf(c: nat): nat { if c == 0 then 0 else if c == 1 then 8 else if c == 2 then 16 else 32 }

  /** The mux lines, the condition's source as the last. */
  function Lines(inst: Inst): Mux
    requires inst.Valid()
  {
    if inst.cond.Some? then inst.mux[32 := inst.cond.value] else inst.mux
  }

  const FIXED_LOW: nat := 94

  /** The constant-low input is number 30 of the comparisons and constants. */
  lemma FixedLow(w: nat)
    ensures ParseInput(Aux(30), false, w) == Some(Input(FIXED_LOW, NO_FLAGS))
  {
  }

  function Selection(m: Mux, i: nat): (s: nat)
    ensures s < 128
  {
    if i in m then m[i].sel else FIXED_LOW
  }

  function MuxBits(m: Mux, n: nat): (r: seq<bool>)
    ensures |r| == 7 * n
  {
    if n == 0 then [] else MuxBits(m, n - 1) + LowBits(Selection(m, n - 1), 7)
  }

  function OpOf(inst: Inst): Op { if inst.op.Some? then inst.op.value else NOP }

  function Flag(o: Option<bool>): (f: nat)
    ensures f < 2
  {
    if OrFalse(o) then 1 else 0
  }

  /** The fields behind the mux selections, and the padding. */
  function Tail(op: bv32, read: nat, write: nat, f: Flags): (r: seq<bool>)
    ensures |r| == 64
  {
    LowBits(op as int, 26) + LowBits(read, 2) + LowBits(write, 2)
    + LowBits(Flag(f.rel), 1) + LowBits(Flag(f.ctr), 1) + LowBits(Flag(f.lut), 1) + LowBits(0, 31)
  }

  function InstBits(inst: Inst): (r: seq<bool>)
    requires inst.Valid()
    ensures |r| == 288
  {
    var m := Lines(inst);
    MuxBits(m, 32) + Tail(EncodeOp(OpOf(inst)), TransferCode(inst.read), TransferCode(inst.write), FlagsBelow(m, 33))
  }

  lemma {:induction false} MuxReadsBack(m: Mux, n: nat, i: nat, after: seq<bool>)
    requires i < n
    ensures Field(MuxBits(m, n) + after, 7 * i, 7) == Selection(m, i)
    decreases n
  {
    hide LowBits, Field;
    var last := LowBits(Selection(m, n - 1), 7);
    Associates(MuxBits(m, n - 1), last, after);
    if i == n - 1 {
      FieldReadsBack(MuxBits(m, n - 1), Selection(m, n - 1), 7, after);
      SevenBits(Selection(m, n - 1));
    } else {
      MuxReadsBack(m, n - 1, i, last + after);
    }
  }

  lemma SevenBits(s: nat)
    requires s < 128
    ensures s % Power(7) == s
  {
    Powers();
  }

  /** What a decoder reads behind the mux selections. */
  datatype Rest = Rest(opcode: nat, read: nat, write: nat, rel: nat, ctr: nat, lut: nat)

  function ReadRest(b: seq<bool>, at: nat): Rest
    requires at + 33 <= |b|
  {
    Rest(Field(b, at, 26), Field(b, at + 26, 2), Field(b, at + 28, 2), Field(b, at + 30, 1), Field(b, at + 31, 1),
        Field(b, at + 32, 1))
  }

  /** One field of a stream, and the stream behind it. */
  lemma NextField(before: seq<bool>, v: nat, n: nat, after: seq<bool>)
    requires v < Power(n)
    ensures var b := before + (LowBits(v, n) + after);
            b == before + LowBits(v, n) + after && |before| + n <= |b| && Field(b, |before|, n) == v
  {
    assert before + (LowBits(v, n) + after) == before + LowBits(v, n) + after;
    FieldReadsBack(before, v, n, after);
    SmallModulo(v, Power(n));
  }

  lemma SmallModulo(v: nat, m: nat)
    requires v < m
    ensures v % m == v
  {
  }

  lemma WidePower()
    ensures Power(26) == 0x400_0000 && Power(2) == 4 && Power(1) == 2
  {
    assert Power(13) == 8192;
    assert Power(20) == 128 * Power(13);
    assert Power(26) == 64 * Power(20);
  }

  lemma Nested(a: seq<bool>, b: seq<bool>, c: seq<bool>, d: seq<bool>, e: seq<bool>, f: seq<bool>, g: seq<bool>)
    ensures a + b + c + d + e + f + g == a + (b + (c + (d + (e + (f + g)))))
  {
    Associates(e, f, g);
    Associates(d, e, f + g);
    Associates(c, d, e + (f + g));
    Associates(b, c, d + (e + (f + g)));
    Associates(a, b, c + (d + (e + (f + g))));
    Associates(a + b, c, d + (e + (f + g)));
    Associates(a + b + c, d, e + (f + g));
    Associates(a + b + c + d, e, f + g);
    Associates(a + b + c + d + e, f, g);
  }

  lemma TailReadsBack(before: seq<bool>, op: nat, read: nat, write: nat, rel: nat, ctr: nat, lut: nat)
    requires op < 0x400_0000 && read < 4 && write < 4 && rel < 2 && ctr < 2 && lut < 2
    ensures var t := LowBits(op, 26) + LowBits(read, 2) + LowBits(write, 2) + LowBits(rel, 1) + LowBits(ctr, 1)
        + LowBits(lut, 1) + LowBits(0, 31);
            ReadRest(before + t, |before|) == Rest(op, read, write, rel, ctr, lut)
  {
    hide LowBits, Field;
    WidePower();
    hide Power;
    var g := LowBits(0, 31);
    var f := LowBits(lut, 1) + g;
    var e := LowBits(ctr, 1) + f;
    var d := LowBits(rel, 1) + e;
    var c := LowBits(write, 2) + d;
    var b := LowBits(read, 2) + c;
    var t := LowBits(op, 26) + LowBits(read, 2) + LowBits(write, 2) + LowBits(rel, 1) + LowBits(ctr, 1)
        + LowBits(lut, 1) + LowBits(0, 31);
    Nested(LowBits(op, 26), LowBits(read, 2), LowBits(write, 2), LowBits(rel, 1), LowBits(ctr, 1), LowBits(lut, 1), g);
    NextField(before, op, 26, b);
    var p1 := before + LowBits(op, 26);
    NextField(p1, read, 2, c);
    var p2 := p1 + LowBits(read, 2);
    NextField(p2, write, 2, d);
    var p3 := p2 + LowBits(write, 2);
    NextField(p3, rel, 1, e);
    var p4 := p3 + LowBits(rel, 1);
    NextField(p4, ctr, 1, f);
    var p5 := p4 + LowBits(ctr, 1);
    NextField(p5, lut, 1, g);
  }

  /** The number of bits an instruction transfers; none if it does not say. */
  function Width(n: Option<nat>): nat { if n.None? then 0 else n.value }

  /** What bits read as an instruction say. */
  ghost predicate Says(b: seq<bool>, inst: Inst)
    requires inst.Valid() && |b| == 288
  {
    var r, f := ReadRest(b, 224), FlagsBelow(Lines(inst), 33);
    && (forall i :: 0 <= i < 32 ==> Field(b, 7 * i, 7) == Selection(Lines(inst), i))
    && r.opcode == EncodeOp(OpOf(inst)) as int && (inst.op.None? ==> r.opcode == 0xC0_0000)
    && TransferOf(r.read) == Width(inst.read) && TransferOf(r.write) == Width(inst.write)
    && r.rel == Flag(f.rel) && r.ctr == Flag(f.ctr) && r.lut == Flag(f.lut)
  }

  /** Everything an instruction says can be read from its bits. */
  lemma InstReadsBack(inst: Inst)
    requires inst.Valid()
    ensures Says(InstBits(inst), inst)
  {
    hide EncodeOp, FlagsBelow, Field, LowBits, MuxBits, Selection, Flag, ReadRest, TransferCode, TransferOf;
    var m, op := Lines(inst), OpOf(inst);
    OpReadsBack(op);
    NopField();
    var f := FlagsBelow(m, 33);
    var read, write := TransferCode(inst.read), TransferCode(inst.write);
    TailReadsBack(MuxBits(m, 32), EncodeOp(op) as int, read, write, Flag(f.rel), Flag(f.ctr), Flag(f.lut));
    TransferReadsBack(inst.read);
    TransferReadsBack(inst.write);
    forall i | 0 <= i < 32 ensures Field(InstBits(inst), 7 * i, 7) == Selection(m, i) {
      MuxReadsBack(m, 32, i, Tail(EncodeOp(op), read, write, f));
    }
  }

  /** No opcode is the addition of 0 to both halves of counter A. */
  lemma NopField()
    ensures EncodeOp(NOP) as int == 0xC0_0000
  {
    assert 0x80_0000 | 0x40_0000 == 0xC0_0000 as bv32;
  }

  lemma TransferReadsBack(n: Option<nat>)
    requires n.Some? ==> Transfer(n.value)
    ensures TransferOf(TransferCode(n)) == Width(n)
  {
  }

  /** check_input_compatible against the lines behind line `i`. */
  method CheckLine(m: Mux, i: nat) returns (ok: bool)
    requires i in m
    ensures ok <==> forall j :: j in m && i < j ==> Compatible(m[i].flags, m[j].flags)
  {
    for j := i + 1 to 33
      invariant forall k :: k in m && i < k < j ==> Compatible(m[i].flags, m[k].flags)
    {
      if j in m && !Compatible(m[i].flags, m[j].flags) { return false; }
    }
    return true;
  }

  /** The mux part of insts_to_binary: lines are checked against each other, the
      bits they need collected, and their selections put out. */
  method EncodeMux(m: Mux, bits: Bitstream) returns (ok: bool, flags: Flags)
    requires bits.Valid() && bits.Contents() == []
    modifies bits
    ensures bits.Valid() && (ok <==> AllCompatible(m))
    ensures ok ==> flags == FlagsBelow(m, 33) && bits.Contents() == MuxBits(m, 32)
  {
    hide Compatible, Bitstream.Contents, LowBits;
    flags := NO_FLAGS;
    for i := 0 to 33
      invariant bits.Valid() && bits.Contents() == MuxBits(m, if i <= 32 then i else 32)
      invariant flags == FlagsBelow(m, i)
      invariant forall a, b :: a in m && b in m && a < b && a < i ==> Compatible(m[a].flags, m[b].flags)
    {
      if i in m {
        ok := CheckLine(m, i);
        if !ok { return; }
        flags := Merge(flags, m[i].flags);
        if i < 32 { bits.AddBits(m[i].sel, 7); }
      } else {
        if i < 32 { bits.AddBits(FIXED_LOW, 7); }
      }
    }
    ok := true;
  }

  /** The rest of an instruction: opcode, transfers, the three bits, and padding to 36 bytes. */
  method EncodeRest(op: Op, read: nat, write: nat, flags: Flags, bits: Bitstream)
    requires bits.Valid() && |bits.Contents()| == 224
    modifies bits
    ensures bits.Valid() && bits.Contents() == old(bits.Contents()) + Tail(EncodeOp(op), read, write, flags)
  {
    hide EncodeOp, Bitstream.Contents, LowBits, OrFalse;
    ghost var start := bits.Contents();
    bits.AddBits(EncodeOp(op) as int, 26);
    bits.AddBits(read, 2);
    bits.AddBits(write, 2);
    bits.AddBits(Flag(flags.rel), 1);
    bits.AddBits(Flag(flags.ctr), 1);
    bits.AddBits(Flag(flags.lut), 1);
    var n := bits.Size();
    assert n == 257;
    bits.AddBits(0, 31);
    AddedOneByOne(start, LowBits(EncodeOp(op) as int, 26), LowBits(read, 2), LowBits(write, 2),
                  LowBits(Flag(flags.rel), 1), LowBits(Flag(flags.ctr), 1), LowBits(Flag(flags.lut), 1),
                      LowBits(0, 31));
  }

  lemma AddedOneByOne(s: seq<bool>, a: seq<bool>, b: seq<bool>, c: seq<bool>, d: seq<bool>, e: seq<bool>,
      f: seq<bool>, g: seq<bool>)
    ensures s + a + b + c + d + e + f + g == s + (a + b + c + d + e + f + g)
  {
    Associates(s, a, b);
    Associates(s, a + b, c);
    Associates(s, a + b + c, d);
    Associates(s, a + b + c + d, e);
    Associates(s, a + b + c + d + e, f);
    Associates(s, a + b + c + d + e + f, g);
  }

  /** One instruction: refused exactly if two of its inputs clash. */
  method EncodeInst(inst: Inst) returns (r: Option<seq<byte>>)
    requires inst.Valid()
    ensures r.Some? <==> AllCompatible(Lines(inst))
    ensures r.Some? ==> |r.value| == 36 && ByteBits(r.value) == InstBits(inst)
  {
    hide AllCompatible, FlagsBelow, EncodeOp, Bitstream.Contents;
    var bits := new Bitstream();
    var m := Lines(inst);
    var ok, flags := EncodeMux(m, bits);
    if !ok { return None; }
    EncodeRest(OpOf(inst), TransferCode(inst.read), TransferCode(inst.write), flags, bits);
    WholeBytes(bits);
    var data := bits.ToByteArray();
    r := Some(data);
  }

  lemma WholeBytes(bits: Bitstream)
    requires bits.Valid() && |bits.Contents()| == 288
    ensures |bits.data| == 36 && ByteBits(bits.data) == bits.Contents()
  {
    assert 8 * |bits.data| + bits.bitpos == 288;
    NoBits(bits.curbyte);
  }

  lemma NoBits(c: nat)
    ensures Held(c, 0) == []
  {
  }

  lemma CoveredIsSatisfied(i: Input, needed: Input, r: bool, c: bool, l: bool)
    requires Covers(i, needed) && Satisfied(i.flags, r, c, l)
    ensures Satisfied(needed.flags, r, c, l)
  {
  }

  /** A mux line that is not given is fed the constant low. */
  lemma UnusedLineIsLow(inst: Inst, w: nat, i: nat)
    requires inst.Valid() && LutWidth(w) && i < 32 && i !in inst.mux
    ensures var b := InstBits(inst); var r := ReadRest(b, 224); var sel := Field(b, 7 * i, 7);
            sel < 128 && Fed(sel, r.ctr == 1, r.lut == 1, w) == Aux(30)
  {
    hide FlagsBelow, EncodeOp, InstBits, ParseInput, Fed, Satisfied, ReadRest, Field;
    InstReadsBack(inst);
    var r := ReadRest(InstBits(inst), 224);
    FixedLow(w);
    InputSelectsItsSource(Aux(30), false, w, r.rel == 1, r.ctr == 1, r.lut == 1);
  }

  /** What an encoded instruction does: every mux line is fed what it names, and the
      opcode is the one given. */
  lemma InstMeansItself(inst: Inst, w: nat, i: nat, s: Source, rel: bool)
    requires inst.Valid() && LutWidth(w) && AllCompatible(Lines(inst))
    requires s.Valid() && i < 32 && i in inst.mux && s != Lut(w)
    requires ParseInput(s, rel, w).Some? && Covers(inst.mux[i], ParseInput(s, rel, w).value)
    ensures var b := InstBits(inst); var r := ReadRest(b, 224); var sel := Field(b, 7 * i, 7);
            sel < 128 && Fed(sel, r.ctr == 1, r.lut == 1, w) == s && (rel ==> r.rel == 1)
  {
    hide AllCompatible, FlagsBelow, EncodeOp, InstBits, ParseInput, Fed, Satisfied, ReadRest, Field;
    InstReadsBack(inst);
    var m := Lines(inst);
    CompatibleMeansSatisfied(m);
    var f := FlagsBelow(m, 33);
    CoveredIsSatisfied(inst.mux[i], ParseInput(s, rel, w).value, OrFalse(f.rel), OrFalse(f.ctr), OrFalse(f.lut));
    InputSelectsItsSource(s, rel, w, OrFalse(f.rel), OrFalse(f.ctr), OrFalse(f.lut));
  }
}
