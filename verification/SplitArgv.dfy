/** The console's command-line splitter (esp_console_split_argv): five states, working
    in place on the line, against a splitter on sequences. */
module SplitArgv {
  import opened Bytes

  const QUOTE: byte := 34
  const ESCAPE: byte := 92
  const SPACE: byte := 32

  datatype Mode = Space | Arg | Quoted | ArgEscaped | QuotedEscaped

  /** Arguments ended so far, and the one being read. */
  datatype State = State(mode: Mode, args: seq<seq<byte>>, cur: seq<byte>)

  const START := State(Space, [], [])

  function Step(s: State, c: byte): State {
    match s.mode
    case Space =>
      if c == SPACE then s
      else if c == QUOTE then State(Quoted, s.args, [])
      else if c == ESCAPE then State(ArgEscaped, s.args, [])
      else State(Arg, s.args, [c])
    case Quoted =>
      if c == QUOTE then State(Space, s.args + [s.cur], [])
      else if c == ESCAPE then s.(mode := QuotedEscaped)
      else s.(cur := s.cur + [c])
    case Arg =>
      if c == SPACE then State(Space, s.args + [s.cur], [])
      else if c == ESCAPE then s.(mode := ArgEscaped)
      else s.(cur := s.cur + [c])
    case ArgEscaped => Unescape(s, Arg, c)
    case QuotedEscaped => Unescape(s, Quoted, c)
  }

  /** Only the three special characters can be escaped; an escape before any other drops it. */
  function Unescape(s: State, mode: Mode, c: byte): State {
    if c == ESCAPE || c == QUOTE || c == SPACE then State(mode, s.args, s.cur + [c]) else s.(mode := mode)
  }

  /** Reads the line until `limit` arguments have been ended. */
  function Run(s: State, line: seq<byte>, limit: nat): State
    decreases |line|
  {
    if line == [] || |s.args| >= limit then s else Run(Step(s, line[0]), line[1..], limit)
  }

  /**
   Inside an argument, whatever follows: of a backslash and a character only a backslash, a quote or a space is kept,
   and a quote in an argument that did not begin with one is a character like any other.
   */
  lemma PairContributes(s: State, c: byte, rest: seq<byte>, limit: nat)
    requires (s.mode == Arg || s.mode == Quoted) && |s.args| < limit
    ensures Run(s, [92, c] + rest, limit) == Run(if c in [34, 92, 32] then s.(cur := s.cur + [c]) else s, rest, limit)
    ensures s.mode == Arg ==> Run(s, [34] + rest, limit) == Run(s.(cur := s.cur + [34]), rest, limit)
  {
    var line := [92, c] + rest;
    assert line[1..] == [c] + rest && ([c] + rest)[1..] == rest && ([34] + rest)[1..] == rest;
  }

  function Finish(s: State, limit: nat): seq<seq<byte>> {
    if s.mode != Space && |s.args| < limit then s.args + [s.cur] else s.args
  }

  /** The arguments of a line, at most `limit` of them. */
  function Args(line: seq<byte>, limit: nat): seq<seq<byte>> {
    Finish(Run(START, line, limit), limit)
  }

  // ---------------------------------------------------------------- the splitter in place

  datatype Ptr = Null | At(i: nat)

  /** A C string: the characters from `p` on, up to a 0. */
  ghost predicate Holds(b: seq<byte>, p: Ptr, s: seq<byte>) {
    p.At? && p.i + |s| < |b| && b[p.i..p.i + |s|] == s && b[p.i + |s|] == 0
  }

  ghost predicate AllHold(b: seq<byte>, ptrs: seq<Ptr>, args: seq<seq<byte>>, below: nat)
    requires |args| <= |ptrs|
  {
    forall k :: 0 <= k < |args| ==> Holds(b, ptrs[k], args[k]) && ptrs[k].i + |args[k]| < below
  }

  /** Writing at or behind `below` leaves the strings before it alone. */
  lemma StillHold(b: seq<byte>, c: seq<byte>, ptrs: seq<Ptr>, args: seq<seq<byte>>, below: nat, above: nat)
    requires |args| <= |ptrs| && AllHold(b, ptrs, args, below) && below <= above
    requires |b| == |c| && below <= |b| && b[..below] == c[..below]
    ensures AllHold(c, ptrs, args, above)
  {
    forall k | 0 <= k < |args| ensures Holds(c, ptrs[k], args[k]) {
      var i, n := ptrs[k].i, |args[k]|;
      assert b[i..i + n] == b[..below][i..i + n];
      assert c[i..i + n] == c[..below][i..i + n];
      assert b[i + n] == b[..below][i + n] && c[i + n] == c[..below][i + n];
    }
  }

  /** What one character does: the next state, the character put out (-1 for none),
      whether it begins and whether it ends an argument. */
  method Feed(state: Mode, charIn: byte, ghost s: State) returns (next: Mode, charOut: int, begins: bool, ends: bool)
    requires s.mode == state && (state == Space ==> s.cur == [])
    ensures -1 <= charOut < 256 && (ends ==> charOut == 0 && next == Space && state != Space)
        && (begins ==> state == Space)
    ensures !ends && state == Space && !begins ==> next == Space && charOut == -1
    ensures !ends && !(state == Space && !begins) ==> next != Space
    ensures Step(s, charIn) == if ends then State(Space, s.args + [s.cur], [])
        else State(next, s.args, s.cur + Put(charOut))
  {
    next, charOut, begins, ends := state, -1, false, false;
    match state {
      case Space =>
        if charIn == SPACE {
        } else if charIn == QUOTE {
          begins, next := true, Quoted;
        } else if charIn == ESCAPE {
          begins, next := true, ArgEscaped;
        } else {
          begins, next, charOut := true, Arg, charIn;
        }
      case Quoted =>
        if charIn == QUOTE {
          charOut, ends, next := 0, true, Space;
        } else if charIn == ESCAPE {
          next := QuotedEscaped;
        } else {
          charOut := charIn;
        }
      case ArgEscaped | QuotedEscaped =>
        if charIn == ESCAPE || charIn == QUOTE || charIn == SPACE { charOut := charIn; }
        next := if state == ArgEscaped then Arg else Quoted;
      case Arg =>
        if charIn == SPACE {
          charOut, ends, next := 0, true, Space;
        } else if charIn == ESCAPE {
          next := ArgEscaped;
        } else {
          charOut := charIn;
        }
    }
  }

  function Put(c: int): seq<byte>
    requires -1 <= c < 256
  {
    if c < 0 then [] else [c]
  }

  /** The line and argv while the line is read: `i` characters are read, `out` written.
      What is written never reaches what is still to be read. */
  ghost predicate Reading(was: seq<byte>, b: seq<byte>, argv: seq<Ptr>, s: State, start: nat, out: nat, i: nat) {
    && out <= i < |b| == |was| && b[i..] == was[i..]
    && |s.args| <= |argv| && AllHold(b, argv, s.args, out)
    && start <= out && (s.mode == Space ==> s.cur == [])
    && (s.mode != Space ==> start + |s.cur| == out && b[start..out] == s.cur)
  }

  /** Nothing put out. */
  lemma ReadSilently(was: seq<byte>, b: seq<byte>, argv: seq<Ptr>, s: State, start: nat, out: nat, i: nat, s': State,
      start': nat)
    requires Reading(was, b, argv, s, start, out, i) && i + 1 < |b|
    requires s'.args == s.args && s'.cur == s.cur
        && start' == (if s.mode == Space && s'.mode != Space then out else start)
    requires s.mode != Space ==> s'.mode != Space
    ensures Reading(was, b, argv, s', start', out, i + 1)
  {
    assert b[i + 1..] == b[i..][1..] && was[i + 1..] == was[i..][1..];
    assert s.mode == Space ==> b[out..out] == [];
  }

  /** A character of the argument put out. */
  lemma ReadAndPut(was: seq<byte>, b: seq<byte>, argv: seq<Ptr>, s: State, start: nat, out: nat, i: nat, c: byte,
      s': State, start': nat)
    requires Reading(was, b, argv, s, start, out, i) && i + 1 < |b|
    requires s'.args == s.args && s'.cur == s.cur + [c] && start' == (if s.mode == Space then out else start)
    requires s'.mode != Space
    ensures Reading(was, b[out := c], argv, s', start', out + 1, i + 1)
  {
    var b' := b[out := c];
    assert b'[i + 1..] == b[i..][1..] && was[i + 1..] == was[i..][1..];
    assert b'[..out] == b[..out];
    StillHold(b, b', argv, s.args, out, out + 1);
    assert b'[start'..out + 1] == s.cur + [c];
  }

  /** The argument ended: its terminator put out, its start entered in argv. */
  lemma ReadAndEnd(was: seq<byte>, b: seq<byte>, argv: seq<Ptr>, s: State, start: nat, out: nat, i: nat)
    requires Reading(was, b, argv, s, start, out, i) && i + 1 < |b| && s.mode != Space && |s.args| < |argv|
    ensures Reading(was, b[out := 0], argv[|s.args| := At(start)], State(Space, s.args + [s.cur], []), start, out + 1,
        i + 1)
  {
    var b', argv' := b[out := 0], argv[|s.args| := At(start)];
    assert b'[i + 1..] == b[i..][1..] && was[i + 1..] == was[i..][1..];
    assert b'[..out] == b[..out];
    StillHold(b, b', argv, s.args, out, out + 1);
    assert b'[start..start + |s.cur|] == s.cur;
    assert Holds(b', At(start), s.cur);
    forall k | 0 <= k < |s.args| + 1 ensures Holds(b', argv'[k], (s.args + [s.cur])[k])
        && argv'[k].i + |(s.args + [s.cur])[k]| < out + 1 {
      if k < |s.args| { assert argv'[k] == argv[k]; }
    }
  }

  lemma ReadStart(was: seq<byte>, argv: seq<Ptr>)
    requires |was| > 0
    ensures Reading(was, was, argv, START, 0, 0, 0)
  {
  }

  /** What Reading says of the character to read, and of the next state of the pure splitter. */
  lemma NextCharacter(was: seq<byte>, b: seq<byte>, argv: seq<Ptr>, s: State, start: nat, out: nat, i: nat, n: nat,
      limit: nat)
    requires Reading(was, b, argv, s, start, out, i) && i < n < |b| && |s.args| < limit
    ensures b[i] == was[i] && (s.mode == Space ==> s.cur == [])
    ensures Run(s, was[i..n], limit) == Run(Step(s, was[i]), was[i + 1..n], limit)
  {
    assert b[i..][0] == was[i..][0];
    assert was[i..n][1..] == was[i + 1..n];
  }

  lemma RunEnds(s: State, line: seq<byte>, limit: nat)
    requires line == [] || |s.args| >= limit
    ensures Run(s, line, limit) == s
  {
  }

  /** The body of the loop: one character is read, and put out where it belongs. */
  method TakeCharacter(line: array<byte>, argv: array<Ptr>, state0: Mode, charIn: byte, argc0: nat, start0: nat,
      out0: nat,
                       ghost was: seq<byte>, ghost s: State, ghost i: nat)
    returns (state: Mode, argc: nat, start: nat, out: nat)
    requires Reading(was, line[..], argv[..], s, start0, out0, i) && i + 1 < line.Length && out0 <= i && start0 <= out0
    requires state0 == s.mode && argc0 == |s.args| < argv.Length && (state0 == Space ==> s.cur == [])
    modifies line, argv
    ensures Reading(was, line[..], argv[..], Step(s, charIn), start, out, i + 1) && start <= out <= i + 1
    ensures state == Step(s, charIn).mode && argc == |Step(s, charIn).args|
    ensures forall k :: i < k < line.Length ==> line[k] == old(line[k])
    ensures forall k :: argc <= k < argv.Length ==> argv[k] == old(argv[k])
  {
    hide Reading, Step;
    ghost var b, a := line[..], argv[..];
    argc, start, out := argc0, start0, out0;
    var charOut, begins, ends;
    state, charOut, begins, ends := Feed(state0, charIn, s);
    if begins { start := out; }
    if ends {
      argv[argc] := At(start);
      argc := argc + 1;
    }
    if charOut >= 0 {
      line[out] := charOut;
      out := out + 1;
    }
    if ends {
      ReadAndEnd(was, b, a, s, start0, out0, i);
      assert line[..] == b[out0 := 0] && argv[..] == a[argc0 := At(start0)];
    } else if charOut >= 0 {
      ReadAndPut(was, b, a, s, start0, out0, i, charOut, Step(s, charIn), start);
      assert line[..] == b[out0 := charOut] && argv[..] == a;
    } else {
      ReadSilently(was, b, a, s, start0, out0, i, Step(s, charIn), start);
    }
  }

  /** What follows the loop: the last argument is terminated and entered, and argv closed. */
  method Close(line: array<byte>, argv: array<Ptr>, state: Mode, argc0: nat, start: nat, out: nat, limit: nat,
               ghost was: seq<byte>, ghost s: State, ghost i: nat)
    returns (argc: nat)
    requires Reading(was, line[..], argv[..], s, start, out, i) && out <= i < line.Length
    requires state == s.mode && argc0 == |s.args| <= limit < argv.Length
    modifies line, argv
    ensures var args := Finish(s, limit);
            argc0 <= argc == |args| <= limit && argv[argc] == Null && forall k :: 0 <= k < argc ==>
                Holds(line[..], argv[k], args[k])
    ensures forall k :: i < k < line.Length ==> line[k] == old(line[k])
    ensures forall k :: argc < k < argv.Length ==> argv[k] == old(argv[k])
  {
    hide Reading, Holds;
    ghost var b, a := line[..], argv[..];
    line[out] := 0;
    assert line[..] == b[out := 0];
    LastTerminated(was, b, a, s, start, out, i);
    argc := argc0;
    if state != Space && argc < limit {
      argv[argc] := At(start);
      argc := argc + 1;
    }
    argv[argc] := Null;
    ghost var args := Finish(s, limit);
    forall k | 0 <= k < argc ensures Holds(line[..], argv[k], args[k]) {
      if k < |s.args| { assert argv[k] == a[k]; }
    }
  }

  /** esp_console_split_argv on a line that ends at its first 0, position `n`. */
  method Split(line: array<byte>, argv: array<Ptr>, argvSize: nat, ghost n: nat) returns (argc: nat)
    requires 1 <= argvSize <= argv.Length
    requires n < line.Length && line[n] == 0 && forall i :: 0 <= i < n ==> line[i] != 0
    modifies line, argv
    ensures var args := Args(old(line[..n]), argvSize - 1);
            && argc == |args| < argvSize && argv[argc] == Null
            && forall k :: 0 <= k < argc ==> Holds(line[..], argv[k], args[k])
    ensures forall i :: n < i < line.Length ==> line[i] == old(line[i])
    ensures forall k :: argc < k < argv.Length ==> argv[k] == old(argv[k])
  {
    hide Reading, Step, Run, Holds, Finish;
    ghost var was := line[..];
    ghost var s := START;
    var state := Space;
    argc := 0;
    ReadStart(was, argv[..]);
    var start: nat, out: nat, in_: nat := 0, 0, 0;
    while argc < argvSize - 1 && line[in_] != 0
      invariant start <= out <= in_ <= n && argc == |s.args| <= argvSize - 1 && state == s.mode
      invariant Reading(was, line[..], argv[..], s, start, out, in_)
      invariant Run(s, was[in_..n], argvSize - 1) == Run(START, was[..n], argvSize - 1)
      invariant forall i :: in_ <= i < line.Length ==> line[i] == old(line[i])
      invariant forall k :: argc <= k < argv.Length ==> argv[k] == old(argv[k])
      decreases n - in_
    {
      var charIn := line[in_];
      NextCharacter(was, line[..], argv[..], s, start, out, in_, n, argvSize - 1);
      ghost var s0 := s;
      StepCounts(s, charIn);
      s := Step(s, charIn);
      state, argc, start, out := TakeCharacter(line, argv, state, charIn, argc, start, out, was, s0, in_);
      in_ := in_ + 1;
    }
    assert argc < argvSize - 1 ==> in_ == n && was[in_..n] == [];
    RunEnds(s, was[in_..n], argvSize - 1);
    argc := Close(line, argv, state, argc, start, out, argvSize - 1, was, s, in_);
  }

  lemma StepCounts(s: State, c: byte)
    ensures |s.args| <= |Step(s, c).args| <= |s.args| + 1
  {
  }

  lemma LastTerminated(was: seq<byte>, b: seq<byte>, argv: seq<Ptr>, s: State, start: nat, out: nat, i: nat)
    requires Reading(was, b, argv, s, start, out, i)
    ensures forall k :: 0 <= k < |s.args| ==> Holds(b[out := 0], argv[k], s.args[k])
    ensures s.mode != Space ==> Holds(b[out := 0], At(start), s.cur)
  {
    var b' := b[out := 0];
    assert b'[..out] == b[..out];
    StillHold(b, b', argv, s.args, out, out);
    if s.mode != Space { assert b'[start..out] == b[start..out]; }
  }

  // ---------------------------------------------------------------- what splitting means

  /** A smaller argv only cuts the list of arguments short. */
  lemma {:induction false} LimitOnlyCuts(s: State, line: seq<byte>, limit: nat, more: nat)
    requires |s.args| <= limit <= more
    ensures var all := Finish(Run(s, line, more), more);
            Finish(Run(s, line, limit), limit) == if |all| <= limit then all else all[..limit]
    decreases |line|
  {
    if |s.args| == limit {
      ArgsGrow(s, line, more);
      var all := Finish(Run(s, line, more), more);
      assert all[..limit] == s.args;
    } else if line != [] {
      StepCounts(s, line[0]);
      LimitOnlyCuts(Step(s, line[0]), line[1..], limit, more);
    }
  }

  /** Arguments that were ended stay. */
  lemma {:induction false} ArgsGrow(s: State, line: seq<byte>, limit: nat)
    ensures var all := Finish(Run(s, line, limit), limit); |s.args| <= |all| && all[..|s.args|] == s.args
    decreases |line|
  {
    if line != [] && |s.args| < limit {
      var t := Step(s, line[0]);
      ArgsGrow(t, line[1..], limit);
      var all := Finish(Run(t, line[1..], limit), limit);
      assert t.args[..|s.args|] == s.args;
      assert all[..|t.args|][..|s.args|] == all[..|s.args|];
    }
  }

  /** An argument with every special character escaped, `\` and `"`; a bare one also
      has its spaces escaped. */
  function Escaped(a: seq<byte>, bare: bool): seq<byte> {
    if a == [] then [] else EscapedChar(a[0], bare) + Escaped(a[1..], bare)
  }

  function EscapedChar(c: byte, bare: bool): seq<byte> {
    if c == ESCAPE || c == QUOTE || (bare && c == SPACE) then [ESCAPE, c] else [c]
  }

  /** An argument as it is typed: in quotes, or bare with a space behind it. */
  datatype Typed = InQuotes(arg: seq<byte>) | Bare(arg: seq<byte>)

  function Spaces(n: nat): seq<byte> { seq(n, _ => SPACE) }

  function Text(arg: Typed): seq<byte> {
    match arg
    case InQuotes(a) => [QUOTE] + Escaped(a, false) + [QUOTE]
    case Bare(a) => Escaped(a, true) + [SPACE]
  }

  /** A command line: each argument behind any number of spaces.  Quoted arguments
      need no space between them. */
  function Printed(args: seq<Typed>, gaps: seq<nat>): seq<byte>
    requires |gaps| == |args|
  {
    if args == [] then [] else Spaces(gaps[0]) + Text(args[0]) + Printed(args[1..], gaps[1..])
  }

  function Contents(args: seq<Typed>): seq<seq<byte>> { seq(|args|, i requires 0 <= i < |args| => args[i].arg) }

  /** The characters of an argument, however escaped, are read back one by one. */
  lemma {:induction false} EscapedReads(s: State, a: seq<byte>, bare: bool, rest: seq<byte>, limit: nat)
    requires s.mode == (if bare then Arg else Quoted) && |s.args| < limit
    ensures Run(s, Escaped(a, bare) + rest, limit) == Run(s.(cur := s.cur + a), rest, limit)
    decreases |a|
  {
    hide Run;
    if a == [] {
      assert Escaped(a, bare) + rest == rest && s.cur + a == s.cur;
    } else {
      var t := s.(cur := s.cur + [a[0]]);
      var tail := Escaped(a[1..], bare) + rest;
      CharacterReads(s, a[0], bare, tail, limit);
      assert Escaped(a, bare) + rest == EscapedChar(a[0], bare) + tail;
      EscapedReads(t, a[1..], bare, rest, limit);
      assert s.cur + a == t.cur + a[1..];
    }
  }

  lemma CharacterReads(s: State, c: byte, bare: bool, tail: seq<byte>, limit: nat)
    requires s.mode == (if bare then Arg else Quoted) && |s.args| < limit
    ensures Run(s, EscapedChar(c, bare) + tail, limit) == Run(s.(cur := s.cur + [c]), tail, limit)
  {
    hide Run;
    if |EscapedChar(c, bare)| == 2 {
      assert [ESCAPE, c] + tail == [ESCAPE] + ([c] + tail);
      RunOne(s, ESCAPE, [c] + tail, limit);
      RunOne(Step(s, ESCAPE), c, tail, limit);
    } else {
      RunOne(s, c, tail, limit);
    }
  }

  lemma {:induction false} SpacesAreSkipped(s: State, n: nat, rest: seq<byte>, limit: nat)
    requires s.mode == Space
    ensures Run(s, Spaces(n) + rest, limit) == Run(s, rest, limit)
    decreases n
  {
    if n == 0 {
      assert Spaces(n) + rest == rest;
    } else if |s.args| < limit {
      assert (Spaces(n) + rest)[1..] == Spaces(n - 1) + rest;
      SpacesAreSkipped(s, n - 1, rest, limit);
    }
  }

  lemma RunOne(s: State, c: byte, tail: seq<byte>, limit: nat)
    requires |s.args| < limit
    ensures Run(s, [c] + tail, limit) == Run(Step(s, c), tail, limit)
  {
    assert ([c] + tail)[1..] == tail;
  }

  lemma QuotedReads(done: seq<seq<byte>>, a: seq<byte>, rest: seq<byte>, limit: nat)
    requires |done| < limit
    ensures Run(State(Space, done, []), Text(InQuotes(a)) + rest, limit)
        == Run(State(Space, done + [a], []), rest, limit)
  {
    hide Run, Escaped;
    var tail := [QUOTE] + rest;
    RunOne(State(Space, done, []), QUOTE, Escaped(a, false) + tail, limit);
    EscapedReads(State(Quoted, done, []), a, false, tail, limit);
    assert [] + a == a;
    RunOne(State(Quoted, done, a), QUOTE, rest, limit);
    assert Text(InQuotes(a)) + rest == [QUOTE] + (Escaped(a, false) + tail);
  }

  lemma BareReads(done: seq<seq<byte>>, a: seq<byte>, rest: seq<byte>, limit: nat)
    requires |done| < limit && a != []
    ensures Run(State(Space, done, []), Text(Bare(a)) + rest, limit) == Run(State(Space, done + [a], []), rest, limit)
  {
    TextOfBare(a, rest);
    hide Run, Escaped, EscapedChar, Text;
    var tail := [SPACE] + rest;
    var body := Escaped(a[1..], true) + tail;
    BareOpens(done, a[0], body, limit);
    EscapedReads(State(Arg, done, [a[0]]), a[1..], true, tail, limit);
    assert [a[0]] + a[1..] == a;
    RunOne(State(Arg, done, a), SPACE, rest, limit);
  }

  lemma Regrouped(a: seq<byte>, b: seq<byte>, c: seq<byte>, d: seq<byte>)
    ensures a + b + c + d == a + (b + (c + d))
  {
  }

  lemma TextOfBare(a: seq<byte>, rest: seq<byte>)
    requires a != []
    ensures Text(Bare(a)) + rest == EscapedChar(a[0], true) + (Escaped(a[1..], true) + ([SPACE] + rest))
  {
    var x, y := EscapedChar(a[0], true), Escaped(a[1..], true);
    assert Text(Bare(a)) == x + y + [SPACE];
    Regrouped(x, y, [SPACE], rest);
  }

  lemma ArgumentReads(done: seq<seq<byte>>, arg: Typed, rest: seq<byte>, limit: nat)
    requires |done| < limit && (arg.Bare? ==> arg.arg != [])
    ensures Run(State(Space, done, []), Text(arg) + rest, limit) == Run(State(Space, done + [arg.arg], []), rest, limit)
  {
    hide Run, Text;
    match arg
    case InQuotes(a) => QuotedReads(done, a, rest, limit);
    case Bare(a) => BareReads(done, a, rest, limit);
  }

  /** The first character of a bare argument opens it. */
  lemma BareOpens(done: seq<seq<byte>>, c: byte, body: seq<byte>, limit: nat)
    requires |done| < limit
    ensures Run(State(Space, done, []), EscapedChar(c, true) + body, limit) == Run(State(Arg, done, [c]), body, limit)
  {
    hide Run;
    if |EscapedChar(c, true)| == 2 {
      assert [ESCAPE, c] + body == [ESCAPE] + ([c] + body);
      RunOne(State(Space, done, []), ESCAPE, [c] + body, limit);
      RunOne(State(ArgEscaped, done, []), c, body, limit);
      assert [] + [c] == [c];
    } else {
      RunOne(State(Space, done, []), c, body, limit);
    }
  }

  lemma {:induction false} PrintedRuns(done: seq<seq<byte>>, args: seq<Typed>, gaps: seq<nat>, limit: nat)
    requires |gaps| == |args| && |done| + |args| <= limit
    requires forall i :: 0 <= i < |args| && args[i].Bare? ==> args[i].arg != []
    ensures Run(State(Space, done, []), Printed(args, gaps), limit) == State(Space, done + Contents(args), [])
    decreases |args|
  {
    hide Text, Spaces;
    if args == [] {
      assert done + Contents(args) == done;
    } else {
      var rest := Printed(args[1..], gaps[1..]);
      assert Printed(args, gaps) == Spaces(gaps[0]) + (Text(args[0]) + rest);
      SpacesAreSkipped(State(Space, done, []), gaps[0], Text(args[0]) + rest, limit);
      ArgumentReads(done, args[0], rest, limit);
      PrintedRuns(done + [args[0].arg], args[1..], gaps[1..], limit);
      assert done + [args[0].arg] + Contents(args[1..]) == done + Contents(args);
    }
  }

  /** Any list of arguments that fits splits back to itself from what was typed for
      it; an empty argument must be in quotes. */
  lemma PrintedSplitsBack(args: seq<Typed>, gaps: seq<nat>, limit: nat)
    requires |gaps| == |args| <= limit
    requires forall i :: 0 <= i < |args| && args[i].Bare? ==> args[i].arg != []
    ensures Args(Printed(args, gaps), limit) == Contents(args)
  {
    PrintedRuns([], args, gaps, limit);
    assert [] + Contents(args) == Contents(args);
  }
}
