/** The file transfer over the console: the device prints a file in hexadecimal among
    status lines (main.c), and a script on the host picks the bytes out (receive.py). */
module HexTransfer {
  import opened Options
  import opened Bytes

  // ---------------------------------------------------------------- what the device prints

  function Digit(n: nat): char
    requires n < 16
  {
    if n < 10 then '0' + n as char else 'a' + (n - 10) as char
  }

  /** `%02x` of each byte. */
  function Hex(data: seq<byte>): string
    decreases |data|
  {
    if data == [] then "" else Hex(data[..|data| - 1]) + [Digit(data[|data| - 1] / 16), Digit(data[|data| - 1] % 16)]
  }

  /** `%u`. */
  function Decimal(n: nat): string {
    (if n < 10 then "" else Decimal(n / 10)) + [Digit(n % 10)]
  }

  /** The number a text of decimal digits stands for. */
  function NumberIn(s: string): int {
    if s == "" then 0 else 10 * NumberIn(s[..|s| - 1]) + (s[|s| - 1] as int - '0' as int)
  }

  /** A number is printed in decimal digits, without a zero in front. */
  lemma {:induction false} DecimalReads(n: nat)
    ensures NumberIn(Decimal(n)) == n && |Decimal(n)| > 0
    ensures forall i :: 0 <= i < |Decimal(n)| ==> '0' <= Decimal(n)[i] <= '9'
    ensures Decimal(n)[0] == '0' ==> n == 0
  {
    hide NumberIn;
    var front := if n < 10 then "" else Decimal(n / 10);
    if n >= 10 {
      DecimalReads(n / 10);
    } else {
      assert NumberIn("") == 0 by { NumberOfNothing(); }
    }
    NumberAppend(front, Digit(n % 10));
  }

  lemma NumberOfNothing()
    ensures NumberIn("") == 0
  {
  }

  lemma NumberAppend(s: string, c: char)
    ensures NumberIn(s + [c]) == 10 * NumberIn(s) + (c as int - '0' as int)
  {
    assert (s + [c])[..|s|] == s;
  }

  predicate OneLine(s: string) { '\n' !in s }

  /** The text of a percentage is not part of this model; it has no line break. */
  ghost predicate Printable(percent: (nat, nat) -> string) {
    forall a, b :: OneLine(percent(a, b))
  }

  const CHUNK: nat := 1024
  const PROGRESS: nat := 64 * 1024

  /** The words status lines begin with. */
  const TRANSFERRED: string := "Transferred:"
  const TRANSFER: string := "Transfer"
  const FILE_SIZE: string := "File size:"

  function SizeTail(size: nat): string { " " + Decimal(size) + " bytes" }
  function StartTail(): string { " starting..." }
  function ProgressTail(total: nat, text: string): string { " " + Decimal(total) + " bytes (" + text + "%)" }
  function EndTail(total: nat): string { " complete: " + Decimal(total) + " bytes transferred" }

  function SizeLine(size: nat): string { FILE_SIZE + SizeTail(size) }
  function StartLine(): string { TRANSFER + StartTail() }
  function ProgressLine(total: nat, text: string): string { TRANSFERRED + ProgressTail(total, text) }
  function EndLine(total: nat): string { TRANSFER + EndTail(total) }

  /** What follows once `total` bytes have been printed. */
  function Body(data: seq<byte>, total: nat, percent: (nat, nat) -> string): string
    requires total <= |data|
    decreases |data| - total
  {
    if total == |data| then "\n" + EndLine(total) + "\n"
    else
      var next := if |data| - total < CHUNK then |data| else total + CHUNK;
      Hex(data[total..next])
      + (if next % PROGRESS == 0 then "\n" + ProgressLine(next, percent(next, |data|)) + "\n" else "")
      + Body(data, next, percent)
  }

  /** The file is printed in pieces of 1024 bytes, the last as long as what is left, and progress every 64 KiB. */
  lemma PiecePrinted(data: seq<byte>, total: nat, n: nat, percent: (nat, nat) -> string)
    requires total < |data| && n == (if |data| - total < 1024 then |data| - total else 1024)
    ensures total + n <= |data|
    ensures Body(data, total, percent) == Hex(data[total..total + n])
      + (if (total + n) % 65536 == 0 then "\n" + ProgressLine(total + n, percent(total + n, |data|)) + "\n" else "")
      + Body(data, total + n, percent)
  {
    hide Hex, ProgressLine;
  }

  function Output(data: seq<byte>, percent: (nat, nat) -> string): string {
    SizeLine(|data|) + "\n" + StartLine() + "\n" + Body(data, 0, percent)
  }

  /** handle_transfer_command on a file that can be read: `f_read` hands out 1024 bytes at a time. */
  method Send(data: seq<byte>, percent: (nat, nat) -> string) returns (out: string)
    ensures out == Output(data, percent)
  {
    hide SizeLine, ProgressLine, EndLine, StartLine, Hex;
    out := SizeLine(|data|) + "\n" + StartLine() + "\n";
    var total := 0;
    while total < |data|
      invariant total <= |data| && out + Body(data, total, percent) == Output(data, percent)
    {
      var next := if |data| - total < CHUNK then |data| else total + CHUNK;
      var buffer := PrintHex(data[total..next]);
      var progress := if next % PROGRESS == 0 then "\n" + ProgressLine(next, percent(next, |data|)) + "\n" else "";
      Joined(out, buffer, progress, Body(data, next, percent));
      out := out + buffer + progress;
      total := next;
    }
    out := out + ("\n" + EndLine(total) + "\n");
  }

  lemma Joined(a: string, b: string, c: string, d: string)
    ensures a + (b + c + d) == a + b + c + d
  {
  }

  /** The loop over the buffer. */
  method PrintHex(buffer: seq<byte>) returns (out: string)
    ensures out == Hex(buffer)
  {
    out := "";
    for i := 0 to |buffer|
      invariant out == Hex(buffer[..i])
    {
      assert buffer[..i + 1][..i] == buffer[..i];
      out := out + [Digit(buffer[i] / 16), Digit(buffer[i] % 16)];
    }
    assert buffer[..|buffer|] == buffer;
  }

  // ---------------------------------------------------------------- what the host keeps

  predicate StandsAt(s: string, i: nat, p: string) { i + |p| <= |s| && s[i..i + |p|] == p }

  /** `p in s`. */
  predicate Contains(s: string, p: string) {
    exists i :: 0 <= i <= |s| && StandsAt(s, i, p)
  }

  /** Lines the filter drops. */
  predicate Dropped(line: string) {
    Contains(line, TRANSFERRED) || Contains(line, TRANSFER) || Contains(line, FILE_SIZE)
  }

  predicate IsHex(c: char) { '0' <= c <= '9' || 'a' <= c <= 'f' || 'A' <= c <= 'F' }

  function Value(c: char): (v: nat)
    requires IsHex(c)
    ensures v < 16
  {
    if '0' <= c <= '9' then (c - '0') as int
    else if 'a' <= c <= 'f' then (c - 'a') as int + 10
    else (c - 'A') as int + 10
  }

  function Keep(line: string): (r: string)
    ensures forall c :: c in r ==> IsHex(c)
    decreases |line|
  {
    if line == "" then "" else Keep(line[..|line| - 1]) + (if IsHex(line[|line| - 1]) then [line[|line| - 1]] else "")
  }

  /** The line that starts at the head of the text, its line break included. */
  function LineLength(text: string): (n: nat)
    requires text != ""
    ensures 0 < n <= |text|
  {
    if text[0] == '\n' || |text| == 1 then 1 else LineLength(text[1..]) + 1
  }

  /** It ends at the first line break, or with the text. */
  lemma {:induction false} LineEnds(text: string)
    requires text != ""
    ensures var n := LineLength(text);
            && OneLine(text[..n - 1]) && (n < |text| || '\n' in text[..n] ==> text[n - 1] == '\n')
    decreases |text|
  {
    if text[0] != '\n' && |text| > 1 {
      var m := LineLength(text[1..]);
      LineEnds(text[1..]);
      assert text[1..][..m - 1] == text[1..m];
      assert text[..m] == [text[0]] + text[1..m];
      assert text[1..][m - 1] == text[m];
    }
  }

  /** The hexadecimal digits of the lines that are kept. */
  function Digits(text: string): (r: string)
    ensures forall c :: c in r ==> IsHex(c)
    decreases |text|
  {
    if text == "" then ""
    else
      var n := LineLength(text);
      (if Dropped(text[..n]) then "" else Keep(text[..n])) + Digits(text[n..])
  }

  /** bytes.fromhex: pairs of digits; a digit too many is an error. */
  function FromHex(hex: string): Option<seq<byte>>
    requires forall c :: c in hex ==> IsHex(c)
    decreases |hex|
  {
    if hex == "" then Some([])
    else if |hex| == 1 then None
    else
      match FromHex(hex[..|hex| - 2])
      case None => None
      case Some(b) => Some(b + [Value(hex[|hex| - 2]) * 16 + Value(hex[|hex| - 1])])
  }

  /** main of receive.py, from the pasted text to the bytes it writes. */
  method Receive(text: string) returns (data: Option<seq<byte>>)
    ensures data == FromHex(Digits(text))
  {
    hide Dropped, Keep, Digits, FromHex;
    var hex, rest := "", text;
    NothingBefore(Digits(text));
    while rest != ""
      invariant forall c :: c in hex ==> IsHex(c)
      invariant hex + Digits(rest) == Digits(text)
      decreases |rest|
    {
      var n := LineLength(rest);
      var line := rest[..n];
      FirstLine(rest);
      if !Dropped(line) {
        Regroup(hex, Keep(line), Digits(rest[n..]));
        hex := hex + Keep(line);
      } else {
        NothingBefore(Digits(rest[n..]));
      }
      rest := rest[n..];
    }
    NoDigits(hex);
    data := FromHex(hex);
  }

  lemma FirstLine(text: string)
    requires text != ""
    ensures var n := LineLength(text);
            Digits(text) == (if Dropped(text[..n]) then "" else Keep(text[..n])) + Digits(text[n..])
  {
  }

  lemma NothingBefore(s: string)
    ensures "" + s == s
  {
  }

  lemma NoDigits(s: string)
    ensures s + Digits("") == s
  {
  }

  lemma Regroup(a: string, b: string, c: string)
    ensures a + (b + c) == a + b + c
  {
  }

  // ---------------------------------------------------------------- the round trip

  lemma {:induction false} LineEndsAtBreak(a: string, rest: string)
    requires OneLine(a)
    ensures LineLength(a + "\n" + rest) == |a| + 1
    decreases |a|
  {
    var t := a + "\n" + rest;
    if a != "" {
      assert t[0] == a[0] && a[0] in a;
      assert t[1..] == a[1..] + "\n" + rest;
      LineEndsAtBreak(a[1..], rest);
    }
  }

  /** A line at the head of the text contributes its digits, or nothing. */
  lemma LineContributes(a: string, rest: string)
    requires OneLine(a)
    ensures Digits(a + "\n" + rest) == (if Dropped(a + "\n") then "" else Keep(a + "\n")) + Digits(rest)
  {
    hide Digits, Dropped, Keep, LineLength;
    var t := a + "\n" + rest;
    LineEndsAtBreak(a, rest);
    FirstLine(t);
    assert t[..|a| + 1] == a + "\n" && t[|a| + 1..] == rest;
  }

  lemma StatusDropped(p: string, s: string, rest: string)
    requires (p == TRANSFER || p == TRANSFERRED || p == FILE_SIZE) && OneLine(p + s)
    ensures Digits(p + s + "\n" + rest) == Digits(rest)
  {
    var line := p + s + "\n";
    assert StandsAt(line, 0, p);
    assert Contains(line, p);
    LineContributes(p + s, rest);
    NothingBefore(Digits(rest));
  }

  predicate AllHex(s: string) { forall c :: c in s ==> IsHex(c) }

  lemma KeepsNoBreak(h: string)
    ensures Keep(h + "\n") == Keep(h)
  {
    var l := h + "\n";
    assert l[..|l| - 1] == h && l[|l| - 1] == '\n';
    assert Keep(l) == Keep(h) + "";
  }

  lemma {:induction false} KeepsHex(h: string)
    requires AllHex(h)
    ensures Keep(h) == h && Keep(h + "\n") == h
    decreases |h|
  {
    if h != "" {
      assert h[|h| - 1] in h && IsHex(h[|h| - 1]);
      hide IsHex;
      var g, c := h[..|h| - 1], h[|h| - 1];
      KeepsHex(g);
      assert Keep(h) == g + [c] == h;
    }
    KeepsNoBreak(h);
    assert (h + "\n")[..|h|] == h;
  }

  lemma NoStatusInHex(h: string, p: string)
    requires AllHex(h) && |p| > 0 && (p[0] == 'T' || p[0] == 'F') && |p| > 1 && p[1] != '\n' && !IsHex(p[1])
    ensures !Contains(h + "\n", p)
  {
    var line := h + "\n";
    forall i | 0 <= i <= |line| ensures !StandsAt(line, i, p) {
      if StandsAt(line, i, p) { CharactersAgree(h, p, i); }
    }
  }

  lemma CharactersAgree(h: string, p: string, i: nat)
    requires AllHex(h) && |p| > 1 && StandsAt(h + "\n", i, p)
    ensures IsHex(p[1]) || p[1] == '\n'
  {
    var line := h + "\n";
    assert line[i..i + |p|][1] == line[i + 1];
    if i + 1 < |h| { assert h[i + 1] in h; }
  }

  /** A line of digits is kept, and all of it. */
  lemma DataKept(h: string, rest: string)
    requires AllHex(h)
    ensures Digits(h + "\n" + rest) == h + Digits(rest)
  {
    NoStatusInHex(h, TRANSFERRED);
    NoStatusInHex(h, TRANSFER);
    NoStatusInHex(h, FILE_SIZE);
    hide Contains, Keep, Digits;
    KeepsHex(h);
    HexIsOneLine(h);
    LineContributes(h, rest);
  }

  lemma HexIsOneLine(h: string)
    requires AllHex(h)
    ensures OneLine(h)
  {
    assert !IsHex('\n');
  }

  lemma {:induction false} HexIsHex(data: seq<byte>)
    ensures AllHex(Hex(data))
    decreases |data|
  {
    if data != [] { HexIsHex(data[..|data| - 1]); }
  }

  lemma {:induction false} HexAppend(a: seq<byte>, b: seq<byte>)
    ensures Hex(a + b) == Hex(a) + Hex(b)
    decreases |b|
  {
    if b == [] {
      assert a + b == a;
    } else {
      var i := |b| - 1;
      assert (a + b)[..|a + b| - 1] == a + b[..i];
      HexAppend(a, b[..i]);
    }
  }

  lemma FromHexOfOneMore(data: seq<byte>, d: byte)
    requires AllHex(Hex(data)) && AllHex(Hex(data + [d])) && FromHex(Hex(data)) == Some(data)
    ensures FromHex(Hex(data + [d])) == Some(data + [d])
  {
    var a, b := Digit(d / 16), Digit(d % 16);
    assert (data + [d])[..|data|] == data;
    var g := Hex(data);
    var h := g + [a, b];
    assert Hex(data + [d]) == h;
    DigitValue(d / 16);
    DigitValue(d % 16);
    hide Hex, Digit, Value;
    assert h[..|h| - 2] == g && h[|h| - 2] == a && h[|h| - 1] == b;
  }

  lemma {:induction false} FromHexOfHex(data: seq<byte>)
    ensures AllHex(Hex(data)) && FromHex(Hex(data)) == Some(data)
    decreases |data|
  {
    HexIsHex(data);
    if data != [] {
      var n := |data| - 1;
      FromHexOfHex(data[..n]);
      FromHexOfOneMore(data[..n], data[n]);
      assert data[..n] + [data[n]] == data;
    }
  }

  lemma DigitValue(n: nat)
    requires n < 16
    ensures IsHex(Digit(n)) && Value(Digit(n)) == n
  {
  }

  lemma {:induction false} DecimalIsOneLine(n: nat)
    ensures OneLine(Decimal(n))
  {
    if n >= 10 { DecimalIsOneLine(n / 10); }
  }

  lemma TailsAreOneLine(n: nat, text: string)
    requires OneLine(text)
    ensures OneLine(SizeTail(n)) && OneLine(StartTail()) && OneLine(ProgressTail(n, text)) && OneLine(EndTail(n))
  {
    DecimalIsOneLine(n);
  }

  lemma PrefixesAreOneLine(s: string)
    requires OneLine(s)
    ensures OneLine(FILE_SIZE + s) && OneLine(TRANSFER + s) && OneLine(TRANSFERRED + s)
  {
  }

  lemma StatusLinesDropped(n: nat, text: string, rest: string)
    requires OneLine(text)
    ensures Digits(SizeLine(n) + "\n" + rest) == Digits(rest)
    ensures Digits(StartLine() + "\n" + rest) == Digits(rest)
    ensures Digits(ProgressLine(n, text) + "\n" + rest) == Digits(rest)
    ensures Digits(EndLine(n) + "\n" + rest) == Digits(rest)
  {
    hide Digits, SizeTail, StartTail, ProgressTail, EndTail, OneLine;
    TailsAreOneLine(n, text);
    hide TRANSFER, TRANSFERRED, FILE_SIZE;
    PrefixesAreOneLine(SizeTail(n));
    PrefixesAreOneLine(StartTail());
    PrefixesAreOneLine(ProgressTail(n, text));
    PrefixesAreOneLine(EndTail(n));
    StatusDropped(FILE_SIZE, SizeTail(n), rest);
    StatusDropped(TRANSFER, StartTail(), rest);
    StatusDropped(TRANSFERRED, ProgressTail(n, text), rest);
    StatusDropped(TRANSFER, EndTail(n), rest);
  }

  /** A line of digits under way, a status line behind it, and more. */
  lemma DataThenStatus(h: string, line: string, rest: string)
    requires AllHex(h) && Digits(line + "\n" + rest) == Digits(rest)
    ensures Digits(h + ("\n" + line + "\n" + rest)) == h + Digits(rest)
  {
    hide Digits;
    DataKept(h, line + "\n" + rest);
    assert h + ("\n" + line + "\n" + rest) == h + "\n" + (line + "\n" + rest);
  }

  /** With the digits `h` of the line under way, what is still to come gives them and the rest of the file. */
  lemma Regrouped(a: string, b: string, c: string, d: string, e: string)
    ensures a + (b + (c + d) + e) == (a + b) + (c + d + e)
  {
  }

  lemma {:induction false} BodyGivesTheFile(h: string, data: seq<byte>, total: nat, percent: (nat, nat) -> string)
    requires AllHex(h) && total <= |data| && Printable(percent)
    ensures Digits(h + Body(data, total, percent)) == h + Hex(data[total..])
    decreases |data| - total
  {
    hide Digits, SizeLine, StartLine, ProgressLine, EndLine, Hex, Body, IsHex;
    if total == |data| {
      LastLines(h, data, percent);
    } else {
      var next := if |data| - total < CHUNK then |data| else total + CHUNK;
      var x, text := Hex(data[total..next]), percent(next, |data|);
      HexIsHex(data[total..next]);
      HexAppend(data[total..next], data[next..]);
      assert data[total..next] + data[next..] == data[total..];
      var more := Body(data, next, percent);
      if next % PROGRESS == 0 {
        NextBody(data, total, percent);
        StatusLinesDropped(next, text, more);
        DataThenStatus(h + x, ProgressLine(next, text), more);
        BodyGivesTheFile("", data, next, percent);
        NothingBefore(more);
        NothingBefore(Hex(data[next..]));
        Regrouped(h, x, "\n" + ProgressLine(next, text), "\n", more);
      } else {
        NextBody(data, total, percent);
        BodyGivesTheFile(h + x, data, next, percent);
        assert h + (x + "" + more) == (h + x) + more;
      }
      assert h + x + Hex(data[next..]) == h + (x + Hex(data[next..]));
    }
  }

  lemma NextBody(data: seq<byte>, total: nat, percent: (nat, nat) -> string)
    requires total < |data|
    ensures var next := if |data| - total < CHUNK then |data| else total + CHUNK;
            Body(data, total, percent)
            == Hex(data[total..next]) + (if next % PROGRESS == 0
                then "\n" + ProgressLine(next, percent(next, |data|)) + "\n" else "")
               + Body(data, next, percent)
  {
  }

  lemma LastLines(h: string, data: seq<byte>, percent: (nat, nat) -> string)
    requires AllHex(h)
    ensures Digits(h + Body(data, |data|, percent)) == h + Hex(data[|data|..])
  {
    hide Digits, EndLine;
    StatusLinesDropped(|data|, "", "");
    DataThenStatus(h, EndLine(|data|), "");
    assert "\n" + EndLine(|data|) + "\n" + "" == "\n" + EndLine(|data|) + "\n";
    NoDigits(h);
  }

  /** Whatever the file holds, the host gets it back from what the device prints. */
  lemma TransferRoundTrip(data: seq<byte>, percent: (nat, nat) -> string)
    requires Printable(percent)
    ensures Digits(Output(data, percent)) == Hex(data)
    ensures FromHex(Digits(Output(data, percent))) == Some(data)
  {
    hide Digits, SizeLine, StartLine, Body, Hex, FromHex;
    var body := Body(data, 0, percent);
    var start := StartLine() + "\n" + body;
    assert Output(data, percent) == SizeLine(|data|) + "\n" + start;
    StatusLinesDropped(|data|, "", start);
    StatusLinesDropped(|data|, "", body);
    BodyGivesTheFile("", data, 0, percent);
    NothingBefore(body);
    NothingBefore(Hex(data));
    assert data[0..] == data;
    FromHexOfHex(data);
  }
}
