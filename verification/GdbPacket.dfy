/** Packets of the GDB remote serial protocol as gdbstub.c frames and parses them. */
module GdbPacket {
  import opened Basics

  const DOLLAR: Byte := 0x24
  const HASH: Byte := 0x23
  const STAR: Byte := 0x2a
  const BRACE: Byte := 0x7d
  const PLUS: Byte := 0x2b
  const MINUS: Byte := 0x2d
  const SPACE: Byte := 0x20

  const MAX_PACKET_LENGTH: nat := 4096

  // ----- bytes and digits -----

  /** ch ^ 0x20 */
  function Flip(b: Byte): Byte {
    if (b / 32) % 2 == 1 then b - 32 else b + 32
  }

  lemma FlipTwice(b: Byte)
    ensures Flip(Flip(b)) == b
  {
  }

  predicate IsDigit(b: Byte) {
    0x30 <= b <= 0x39
  }

  predicate IsUpper(b: Byte) {
    0x41 <= b <= 0x46
  }

  predicate IsLower(b: Byte) {
    0x61 <= b <= 0x66
  }

  /** isxdigit */
  predicate IsHex(b: Byte) {
    IsDigit(b) || IsUpper(b) || IsLower(b)
  }

  /** fromhex */
  function FromHex(b: Byte): (r: nat)
    ensures r < 16
  {
    if IsDigit(b) then (b - 0x30) as nat
    else if IsUpper(b) then (b - 0x41) as nat + 10
    else if IsLower(b) then (b - 0x61) as nat + 10
    else 0
  }

  /** tohex */
  function ToHex(n: nat): Byte
    requires n < 16
  {
    if n < 10 then n as Byte + 0x30 else (n - 10) as Byte + 0x61
  }

  lemma HexRoundTrip(n: nat)
    requires n < 16
    ensures IsHex(ToHex(n)) && FromHex(ToHex(n)) == n
  {
  }

  // ----- sending -----

  predicate Special(b: Byte) {
    b == HASH || b == DOLLAR || b == STAR || b == BRACE
  }

  /** memtox: escape the bytes that mean something in a packet. */
  function Escape(mem: seq<Byte>): seq<Byte> {
    if mem == [] then []
    else (if Special(mem[0]) then [BRACE, Flip(mem[0])] else [mem[0]]) + Escape(mem[1..])
  }

  /** The value of a char: chars may be signed. */
  function CharValue(b: Byte, signed: bool): int {
    if signed && b >= 128 then b as int - 256 else b as int
  }

  /** The sum that put_packet_binary takes */
  function CharSum(buf: seq<Byte>, signed: bool): int {
    if buf == [] then 0 else CharValue(buf[0], signed) + CharSum(buf[1..], signed)
  }

  /** The sum that gdb_read_byte takes, over unsigned bytes */
  function Sum(buf: seq<Byte>): nat {
    if buf == [] then 0 else buf[0] as nat + Sum(buf[1..])
  }

  /** Both sums have the same low byte. */
  lemma {:induction false} SumsAgree(buf: seq<Byte>, signed: bool)
    ensures CharSum(buf, signed) % 256 == Sum(buf) % 256
  {
    if buf != [] {
      SumsAgree(buf[1..], signed);
    }
  }

  /** put_packet_binary: the packet that is sent and kept in last_packet */
  function Frame(buf: seq<Byte>, signed: bool): seq<Byte> {
    var csum := CharSum(buf, signed);
    [DOLLAR] + buf + [HASH, ToHex((csum / 16) % 16), ToHex(csum % 16)]
  }

  // ----- receiving -----

  datatype RsState = Idle | GetLine | GetLineEsc | GetLineRle | Checksum1 | Checksum2

  /** What a function sees that is given a pointer to the characters and no length: it stops at NUL. */
  function CString(line: seq<Byte>): (r: seq<Byte>)
    ensures r <= line && 0 !in r && (|r| < |line| ==> line[|r|] == 0)
  {
    if line == [] || line[0] == 0 then [] else [line[0]] + CString(line[1..])
  }

  /** Nothing is cut off exactly when there is no NUL. */
  lemma CStringWhole(line: seq<Byte>)
    ensures CString(line) == line <==> 0 !in line
  {
    assert CString(line) != line ==> line[|CString(line)|] == 0;
  }

  /** A buffer with a NUL behind the line gives the string of the line. */
  lemma {:induction false} CStringEnds(buf: seq<Byte>, n: nat)
    requires n < |buf| && buf[n] == 0
    ensures CString(buf) == CString(buf[..n])
  {
    if n > 0 && buf[0] != 0 {
      CStringEnds(buf[1..], n - 1);
      assert buf[..n][1..] == buf[1..][..n - 1];
    }
  }

  /** GDBState as far as parsing is concerned.  `line` is the used part of line_buf, `sent` what was
      written to the debugger, `handled` the strings given to gdb_handle_packet. */
  datatype Parser = Parser(state: RsState, line: seq<Byte>, sum: nat, csum: nat, lastPacket: seq<Byte>, running: bool,
                           sent: seq<Byte>, handled: seq<seq<Byte>>)

  /** What handling a packet does: it may send a packet and let the guest run.  Stopping the guest
      may send a packet too. */
  datatype Reaction = Reaction(reply: seq<Byte>, runs: bool)

  predicate Full(line: seq<Byte>) {
    |line| >= MAX_PACKET_LENGTH - 1
  }

  function Repeated(b: Byte, n: nat): (r: seq<Byte>)
    ensures |r| == n
  {
    seq(n, i => b)
  }

  /** gdb_read_byte */
  function ReadByte(s: Parser, ch: Byte, r: Reaction): Parser {
    if s.lastPacket != [] then
      var t := if ch == MINUS then s.(sent := s.sent + s.lastPacket) else s;
      var u := if ch == PLUS || ch == DOLLAR then t.(lastPacket := []) else t;
      if ch != DOLLAR then u else ReadChar(u, ch, r)
    else ReadChar(s, ch, r)
  }

  /** Its second half: with no reply outstanding */
  function ReadChar(s: Parser, ch: Byte, r: Reaction): Parser {
    if s.running then s.(running := false, sent := s.sent + r.reply, lastPacket := r.reply)
    else
      match s.state
      case Idle => if ch == DOLLAR then s.(line := [], sum := 0, state := GetLine) else s
      case GetLine => ReadLine(s, ch)
      case GetLineEsc =>
        if ch == HASH then s.(state := Checksum1)
        else if Full(s.line) then s.(state := Idle)
        else s.(line := s.line + [Flip(ch)], sum := s.sum + ch as nat, state := GetLine)
      case GetLineRle => ReadRepeat(s, ch)
      case Checksum1 =>
        if !IsHex(ch) then s.(state := GetLine) else s.(csum := 16 * FromHex(ch), state := Checksum2)
      case Checksum2 =>
        if !IsHex(ch) then s.(state := GetLine) else ReadEnd(s.(csum := s.csum + FromHex(ch)), r)
  }

  function ReadLine(s: Parser, ch: Byte): Parser {
    if ch == BRACE then s.(state := GetLineEsc, sum := s.sum + ch as nat)
    else if ch == STAR then s.(state := GetLineRle, sum := s.sum + ch as nat)
    else if ch == HASH then s.(state := Checksum1)
    else if Full(s.line) then s.(state := Idle)
    else s.(line := s.line + [ch], sum := s.sum + ch as nat)
  }

  /** Run-length encoding: the byte says how often the last character is repeated. */
  function ReadRepeat(s: Parser, ch: Byte): Parser {
    if ch < SPACE || ch == HASH || ch == DOLLAR || ch > 126 then s.(state := GetLine)
    else
      var repeat := (ch - SPACE) as nat + 3;
      if |s.line| + repeat >= MAX_PACKET_LENGTH - 1 then s.(state := Idle)
      else if |s.line| < 1 then s.(state := GetLine)
      else s.(line := s.line + Repeated(s.line[|s.line| - 1], repeat), sum := s.sum + ch as nat, state := GetLine)
  }

  /** Both digits of the checksum are there. */
  function ReadEnd(s: Parser, r: Reaction): Parser {
    if s.csum != s.sum % 256 then s.(sent := s.sent + [MINUS], state := Idle)
    else
      s.(sent := s.sent + [PLUS] + r.reply, lastPacket := r.reply, running := r.runs,
         handled := s.handled + [CString(s.line)], state := Idle)
  }

  /** One byte from the debugger, and what happens if it completes a packet or stops the guest */
  datatype Input = Input(ch: Byte, reaction: Reaction)

  /** A stream of bytes */
  function Listen(s: Parser, inputs: seq<Input>): Parser
    decreases |inputs|
  {
    if inputs == [] then s else Listen(ReadByte(s, inputs[0].ch, inputs[0].reaction), inputs[1..])
  }

  /** A stream of bytes that share one reaction */
  function Feed(s: Parser, bytes: seq<Byte>, r: Reaction): Parser
    decreases |bytes|
  {
    if bytes == [] then s else Feed(ReadByte(s, bytes[0], r), bytes[1..], r)
  }

  lemma {:induction false} FeedJoin(s: Parser, a: seq<Byte>, b: seq<Byte>, r: Reaction)
    ensures Feed(s, a + b, r) == Feed(Feed(s, a, r), b, r)
    decreases |a|
  {
    if a == [] {
      assert a + b == b;
    } else {
      assert (a + b)[1..] == a[1..] + b;
      FeedJoin(ReadByte(s, a[0], r), a[1..], b, r);
    }
  }

  // ----- the line buffer never overflows -----

  predicate Fits(s: Parser) {
    |s.line| <= MAX_PACKET_LENGTH - 1
  }

  /** Whatever byte arrives, the index stays within the buffer, with room for the final NUL. */
  lemma ReadByteFits(s: Parser, ch: Byte, r: Reaction)
    requires Fits(s)
    ensures Fits(ReadByte(s, ch, r))
  {
  }

  /** ... on every stream of bytes, whatever the packets make the stub do. */
  lemma {:induction false} StreamFits(s: Parser, inputs: seq<Input>)
    requires Fits(s)
    ensures Fits(Listen(s, inputs))
    decreases |inputs|
  {
    if inputs != [] {
      ReadByteFits(s, inputs[0].ch, inputs[0].reaction);
      StreamFits(ReadByte(s, inputs[0].ch, inputs[0].reaction), inputs[1..]);
    }
  }

  // ----- round trip -----

  /** In the middle of a packet, with nothing outstanding */
  predicate InLine(s: Parser) {
    s.state.GetLine? && !s.running && s.lastPacket == []
  }

  /** The parser undoes the escapes of the encoder. */
  lemma {:induction false} FeedEscaped(s: Parser, mem: seq<Byte>, r: Reaction)
    requires InLine(s) && |s.line| + |mem| <= MAX_PACKET_LENGTH - 1
    ensures Feed(s, Escape(mem), r) == s.(line := s.line + mem, sum := s.sum + Sum(Escape(mem)))
    decreases |mem|
  {
    if mem == [] {
      assert s.line + mem == s.line;
    } else {
      var c, e := mem[0], Escape(mem[1..]);
      var t := s.(line := s.line + [c],
        sum := s.sum + (if Special(c) then BRACE as nat + Flip(c) as nat else c as nat));
      FeedEscaped(t, mem[1..], r);
      assert s.line + [c] + mem[1..] == s.line + mem;
      if Special(c) {
        FeedEscape(s, c, e, r);
      } else {
        FeedPlain(s, c, e, r);
      }
    }
  }

  lemma FeedPlain(s: Parser, c: Byte, e: seq<Byte>, r: Reaction)
    requires InLine(s) && !Full(s.line) && !Special(c)
    ensures Feed(s, [c] + e, r) == Feed(s.(line := s.line + [c], sum := s.sum + c as nat), e, r)
    ensures Sum([c] + e) == c as nat + Sum(e)
  {
    assert ([c] + e)[1..] == e;
  }

  lemma FeedEscape(s: Parser, c: Byte, e: seq<Byte>, r: Reaction)
    requires InLine(s) && !Full(s.line) && Special(c)
    ensures Feed(s, [BRACE, Flip(c)] + e, r) ==
            Feed(s.(line := s.line + [c], sum := s.sum + (BRACE as nat + Flip(c) as nat)), e, r)
    ensures Sum([BRACE, Flip(c)] + e) == BRACE as nat + Flip(c) as nat + Sum(e)
  {
    assert ([BRACE, Flip(c)] + e)[1..] == [Flip(c)] + e && ([Flip(c)] + e)[1..] == e;
    FlipTwice(c);
  }

  // ----- whole packets -----

  /** The state in which a packet is awaited */
  predicate Ready(s: Parser) {
    s.state.Idle? && !s.running && s.lastPacket == []
  }

  /** In the middle of a packet, maybe behind the first byte of an escape */
  predicate InBody(s: Parser) {
    (s.state.GetLine? || s.state.GetLineEsc?) && !s.running && s.lastPacket == []
  }

  lemma FeedFooter(s: Parser, h: Byte, l: Byte, r: Reaction)
    requires InBody(s) && IsHex(h) && IsHex(l)
    ensures Feed(s, [HASH, h, l], r) == ReadEnd(s.(state := Checksum2, csum := 16 * FromHex(h) + FromHex(l)), r)
  {
    assert [HASH, h, l][1..] == [h, l] && [h, l][1..] == [l] && [l][1..] == [];
    var t := ReadByte(s, HASH, r);
    var u := ReadByte(t, h, r);
    assert Feed(s, [HASH, h, l], r) == Feed(t, [h, l], r);
    assert Feed(t, [h, l], r) == Feed(u, [l], r);
    assert Feed(u, [l], r) == Feed(ReadByte(u, l, r), [], r);
  }

  /** A whole packet, up to the decision about its checksum */
  lemma FeedPacket(s: Parser, mem: seq<Byte>, h: Byte, l: Byte, r: Reaction)
    requires Ready(s) && |mem| <= MAX_PACKET_LENGTH - 1 && IsHex(h) && IsHex(l)
    ensures Feed(s, [DOLLAR] + (Escape(mem) + [HASH, h, l]), r) ==
            ReadEnd(s.(state := Checksum2, line := mem, sum := Sum(Escape(mem)),
              csum := 16 * FromHex(h) + FromHex(l)), r)
  {
    var body, footer := Escape(mem), [HASH, h, l];
    assert ([DOLLAR] + (body + footer))[1..] == body + footer;
    var u := s.(line := [], sum := 0, state := GetLine);
    assert Feed(s, [DOLLAR] + (body + footer), r) == Feed(u, body + footer, r);
    FeedJoin(u, body, footer, r);
    FeedEscaped(u, mem, r);
    assert [] + mem == mem;
    FeedFooter(u.(line := mem, sum := Sum(body)), h, l, r);
  }

  lemma LowByte(c: int)
    ensures 16 * ((c / 16) % 16) + c % 16 == c % 256
  {
  }

  /** The two digits that put_packet_binary writes stand for the low byte of the sum. */
  lemma ChecksumDigits(buf: seq<Byte>, signed: bool)
    ensures var csum := CharSum(buf, signed);
            && IsHex(ToHex((csum / 16) % 16)) && IsHex(ToHex(csum % 16))
            && 16 * FromHex(ToHex((csum / 16) % 16)) + FromHex(ToHex(csum % 16)) == Sum(buf) % 256
  {
    var csum := CharSum(buf, signed);
    HexRoundTrip((csum / 16) % 16);
    HexRoundTrip(csum % 16);
    LowByte(csum);
    SumsAgree(buf, signed);
  }

  /** Any payload of up to MAX_PACKET_LENGTH - 1 bytes that is encoded and framed arrives in the line
      buffer as it was and is acknowledged.  The handler, which is not told the length, is given
      exactly this payload if and only if there is no NUL in it. */
  lemma RoundTrip(s: Parser, mem: seq<Byte>, signed: bool, r: Reaction)
    requires Ready(s) && |mem| <= MAX_PACKET_LENGTH - 1
    ensures var t := Feed(s, Frame(Escape(mem), signed), r);
            && t.line == mem && t.sent == s.sent + [PLUS] + r.reply
            && t.state.Idle? && t.lastPacket == r.reply && t.running == r.runs
            && t.handled == s.handled + [CString(mem)] && (CString(mem) == mem <==> 0 !in mem)
  {
    CStringWhole(mem);
    var body := Escape(mem);
    var csum := CharSum(body, signed);
    var h, l := ToHex((csum / 16) % 16), ToHex(csum % 16);
    ChecksumDigits(body, signed);
    FeedPacket(s, mem, h, l, r);
    assert Frame(body, signed) == [DOLLAR] + (body + [HASH, h, l]);
  }

  /** A '#' that is not followed by two hex digits does not end the packet: the line goes on as if it and
      what stands for the digits had not been sent, and nothing is handled or answered. */
  lemma BrokenDigits(s: Parser, d: Byte, ch: Byte, r: Reaction)
    requires s.state.GetLine? && !s.running && s.lastPacket == [] && !IsHex(ch)
    ensures Feed(s, [HASH, ch], r) == s
    ensures IsHex(d) ==> Feed(s, [HASH, d, ch], r) == s.(csum := 16 * FromHex(d))
  {
    assert [HASH, ch][1..] == [ch] && [ch][1..] == [];
    assert [HASH, d, ch][1..] == [d, ch] && [d, ch][1..] == [ch];
    var t := ReadByte(s, HASH, r);
    assert Feed(t, [ch], r) == ReadByte(t, ch, r);
    if IsHex(d) {
      var u := ReadByte(t, d, r);
      assert Feed(u, [ch], r) == ReadByte(u, ch, r);
      assert Feed(t, [d, ch], r) == ReadByte(u, ch, r);
    }
  }

  /** A packet whose checksum digits do not match the bytes in front of them is refused: the stub
      asks for it again and handles nothing. */
  lemma WrongChecksum(s: Parser, mem: seq<Byte>, h: Byte, l: Byte, r: Reaction)
    requires Ready(s) && |mem| <= MAX_PACKET_LENGTH - 1 && IsHex(h) && IsHex(l)
    requires 16 * FromHex(h) + FromHex(l) != Sum(Escape(mem)) % 256
    ensures var t := Feed(s, [DOLLAR] + (Escape(mem) + [HASH, h, l]), r);
            t.handled == s.handled && t.sent == s.sent + [MINUS] && Ready(t)
  {
    FeedPacket(s, mem, h, l, r);
  }

  /** A run-length sequence: a character, '*', and a byte `n` stand for n - 28 times the character. */
  lemma FeedRun(s: Parser, c: Byte, n: Byte, r: Reaction)
    requires InLine(s) && !Special(c) && SPACE <= n <= 126 && n != HASH && n != DOLLAR
    requires |s.line| + (n as nat - 28) < MAX_PACKET_LENGTH - 1
    ensures Feed(s, [c, STAR, n], r) ==
            s.(line := s.line + Repeated(c, n as nat - 28), sum := s.sum + Sum([c, STAR, n]))
  {
    assert [c, STAR, n][1..] == [STAR, n] && [STAR, n][1..] == [n] && [n][1..] == [];
    var t := ReadByte(s, c, r);
    var u := ReadByte(t, STAR, r);
    var v := ReadByte(u, n, r);
    assert Feed(s, [c, STAR, n], r) == Feed(t, [STAR, n], r);
    assert Feed(t, [STAR, n], r) == Feed(u, [n], r);
    assert Feed(u, [n], r) == Feed(v, [], r);
    assert t.line == s.line + [c] && u.line == t.line && v.line == t.line + Repeated(c, n as nat - 29);
    assert Repeated(c, n as nat - 28) == [c] + Repeated(c, n as nat - 29);
    assert v.line == s.line + Repeated(c, n as nat - 28);
    assert Sum([c, STAR, n]) == c as nat + (STAR as nat + n as nat) by {
      assert Sum([STAR, n]) == STAR as nat + Sum([n]);
      assert Sum([n]) == n as nat + Sum([]);
    }
  }

  /** The byte behind '*' in all other cases: what is no count is dropped, and so is a run of nothing;
      a run that does not fit drops the packet. */
  lemma RunElse(s: Parser, n: Byte, r: Reaction)
    requires InLine(s.(state := GetLine)) && s.state.GetLineRle?
    ensures n < SPACE || n > 126 || n == HASH || n == DOLLAR ==> ReadByte(s, n, r) == s.(state := GetLine)
    ensures SPACE <= n <= 126 && n != HASH && n != DOLLAR ==>
              if |s.line| + (n as nat - 29) >= MAX_PACKET_LENGTH - 1 then ReadByte(s, n, r) == s.(state := Idle)
              else if s.line == [] then ReadByte(s, n, r) == s.(state := GetLine)
              else ReadByte(s, n, r).line == s.line + Repeated(s.line[|s.line| - 1], n as nat - 29)
  {
  }

  // ----- replies that get lost -----

  /** A packet sent so many times */
  function Times(packet: seq<Byte>, n: nat): seq<Byte> {
    if n == 0 then [] else Times(packet, n - 1) + packet
  }

  /** While a reply is outstanding, '-' sends exactly that packet again, '+' ends it, '$' gives it up and
      starts a packet, and every other byte is dropped. */
  lemma Outstanding(s: Parser, ch: Byte, r: Reaction)
    requires s.lastPacket != []
    ensures ch == MINUS ==> ReadByte(s, ch, r) == s.(sent := s.sent + s.lastPacket)
    ensures ch == PLUS ==> ReadByte(s, ch, r) == s.(lastPacket := [])
    ensures ch == DOLLAR ==> ReadByte(s, ch, r) == ReadByte(s.(lastPacket := []), ch, r)
    ensures ch != MINUS && ch != PLUS && ch != DOLLAR ==> ReadByte(s, ch, r) == s
  {
  }

  /** So many NAKs bring the reply so many times more, and change nothing else. */
  lemma {:induction false} FeedNaks(s: Parser, n: nat, r: Reaction)
    requires s.lastPacket != []
    ensures Feed(s, Repeated(MINUS, n), r) == s.(sent := s.sent + Times(s.lastPacket, n))
  {
    if n == 0 {
      assert s.sent + [] == s.sent;
    } else {
      var t := Feed(s, Repeated(MINUS, n - 1), r);
      FeedNaks(s, n - 1, r);
      assert Repeated(MINUS, n) == Repeated(MINUS, n - 1) + [MINUS];
      FeedJoin(s, Repeated(MINUS, n - 1), [MINUS], r);
      assert [MINUS][1..] == [] && Feed(t, [MINUS], r) == Feed(ReadByte(t, MINUS, r), [], r);
      assert s.sent + Times(s.lastPacket, n - 1) + s.lastPacket == s.sent + Times(s.lastPacket, n);
    }
  }

  // ----- a conversation -----

  /** A packet and what its handling does; how often the debugger asks for the reply again.  If the guest
      runs, the byte that stops it, the packet that this sends, and how often it is asked for again.
      `acked`: the last of these packets is acknowledged before the next one comes. */
  datatype Exchange = Exchange(packet: seq<Byte>, reaction: Reaction, naks: nat, stopByte: Byte, stop: seq<Byte>,
                               stopNaks: nat, acked: bool)

  function Inputs(bytes: seq<Byte>, r: Reaction): (q: seq<Input>)
    ensures |q| == |bytes|
  {
    seq(|bytes|, i requires 0 <= i < |bytes| => Input(bytes[i], r))
  }

  /** What the debugger answers to a packet, if there is one */
  function Answer(reply: seq<Byte>, naks: nat, acked: bool): seq<Byte> {
    if reply == [] then [] else Repeated(MINUS, naks) + if acked then [PLUS] else []
  }

  /** What the debugger sends: the packet and the answer to the reply, and, if the guest runs, a byte that
      stops it and the answer to what that sends.  A reply has to be acknowledged before the guest can
      be stopped. */
  function Exchanged(x: Exchange, signed: bool): seq<Input> {
    var first := Inputs(Frame(Escape(x.packet), signed), x.reaction);
    if x.reaction.runs then
      var stop := Reaction(x.stop, false);
      first + (Inputs(Answer(x.reaction.reply, x.naks, true), x.reaction)
               + (Inputs([x.stopByte], stop) + Inputs(Answer(x.stop, x.stopNaks, x.acked), stop)))
    else first + Inputs(Answer(x.reaction.reply, x.naks, x.acked), x.reaction)
  }

  function Conversation(xs: seq<Exchange>, signed: bool): seq<Input> {
    if xs == [] then [] else Exchanged(xs[0], signed) + Conversation(xs[1..], signed)
  }

  /** What the stub sends: the acknowledgement, the reply, and once more for every NAK; and the same for
      what stopping the guest sends */
  function StubSends(x: Exchange): seq<Byte> {
    [PLUS] + x.reaction.reply + Times(x.reaction.reply, x.naks)
    + if x.reaction.runs then x.stop + Times(x.stop, x.stopNaks) else []
  }

  function StubSendsAll(xs: seq<Exchange>): seq<Byte> {
    if xs == [] then [] else StubSends(xs[0]) + StubSendsAll(xs[1..])
  }

  lemma {:induction false} ListenJoin(s: Parser, a: seq<Input>, b: seq<Input>)
    ensures Listen(s, a + b) == Listen(Listen(s, a), b)
    decreases |a|
  {
    if a == [] {
      assert a + b == b;
    } else {
      assert (a + b)[1..] == a[1..] + b;
      ListenJoin(ReadByte(s, a[0].ch, a[0].reaction), a[1..], b);
    }
  }

  lemma {:induction false} ListenFeed(s: Parser, bytes: seq<Byte>, r: Reaction)
    ensures Listen(s, Inputs(bytes, r)) == Feed(s, bytes, r)
    decreases |bytes|
  {
    if bytes != [] {
      assert Inputs(bytes, r)[1..] == Inputs(bytes[1..], r);
      ListenFeed(ReadByte(s, bytes[0], r), bytes[1..], r);
    }
  }

  /** No packet is on its way and the guest does not run; a reply may still be outstanding. */
  predicate Awaiting(s: Parser) {
    s.state.Idle? && !s.running
  }

  lemma {:induction false} TimesNothing(n: nat)
    ensures Times([], n) == []
  {
    if n > 0 {
      TimesNothing(n - 1);
    }
  }

  /** The answer to a packet that was just sent */
  lemma FeedAnswer(s: Parser, naks: nat, acked: bool, r: Reaction)
    ensures Listen(s, Inputs(Answer(s.lastPacket, naks, acked), r)) ==
            s.(sent := s.sent + Times(s.lastPacket, naks), lastPacket := if acked then [] else s.lastPacket)
  {
    ListenFeed(s, Answer(s.lastPacket, naks, acked), r);
    if s.lastPacket == [] {
      TimesNothing(naks);
      assert s.sent + [] == s.sent;
    } else {
      var t := s.(sent := s.sent + Times(s.lastPacket, naks));
      FeedNaks(s, naks, r);
      FeedJoin(s, Repeated(MINUS, naks), if acked then [PLUS] else [], r);
      assert [PLUS][1..] == [] && Feed(t, [PLUS], r) == Feed(ReadByte(t, PLUS, r), [], r);
      assert Feed(t, [], r) == t;
    }
  }

  /** A packet arrives even if the last reply was never acknowledged. */
  lemma PacketArrives(s: Parser, mem: seq<Byte>, signed: bool, r: Reaction)
    requires Awaiting(s) && |mem| <= MAX_PACKET_LENGTH - 1
    ensures var t := Listen(s, Inputs(Frame(Escape(mem), signed), r));
            && t.sent == s.sent + [PLUS] + r.reply && t.handled == s.handled + [CString(mem)]
            && t.state.Idle? && t.lastPacket == r.reply && t.running == r.runs
  {
    ListenFeed(s, Frame(Escape(mem), signed), r);
    var u, frame := s.(lastPacket := []), Frame(Escape(mem), signed);
    assert frame[0] == DOLLAR;
    assert Feed(s, frame, r) == Feed(ReadByte(s, DOLLAR, r), frame[1..], r);
    assert Feed(u, frame, r) == Feed(ReadByte(u, DOLLAR, r), frame[1..], r);
    RoundTrip(u, mem, signed, r);
  }

  /** While the guest runs and no reply is outstanding, any byte stops it, and is not read otherwise. */
  lemma AnyByteStops(s: Parser, ch: Byte, r: Reaction)
    requires s.running && s.lastPacket == []
    ensures Listen(s, Inputs([ch], r)) == s.(running := false, sent := s.sent + r.reply, lastPacket := r.reply)
  {
    ListenFeed(s, [ch], r);
    assert [ch][1..] == [] && Feed(s, [ch], r) == Feed(ReadByte(s, ch, r), [], r);
  }

  /** The second half of an exchange that lets the guest run */
  lemma RunStopped(s: Parser, x: Exchange)
    requires s.state.Idle? && s.running && s.lastPacket == x.reaction.reply
    ensures var stop := Reaction(x.stop, false);
            var t := Listen(s, Inputs(Answer(x.reaction.reply, x.naks, true), x.reaction)
                               + (Inputs([x.stopByte], stop) + Inputs(Answer(x.stop, x.stopNaks, x.acked), stop)));
            && Awaiting(t) && t.handled == s.handled
            && t.sent == s.sent + Times(x.reaction.reply, x.naks) + x.stop + Times(x.stop, x.stopNaks)
            && t.lastPacket == if x.acked then [] else x.stop
  {
    var stop := Reaction(x.stop, false);
    var a, b := Inputs(Answer(x.reaction.reply, x.naks, true), x.reaction), Inputs([x.stopByte], stop);
    var c := Inputs(Answer(x.stop, x.stopNaks, x.acked), stop);
    ListenJoin(s, a, b + c);
    FeedAnswer(s, x.naks, true, x.reaction);
    var u := Listen(s, a);
    ListenJoin(u, b, c);
    AnyByteStops(u, x.stopByte, stop);
    var v := Listen(u, b);
    FeedAnswer(v, x.stopNaks, x.acked, stop);
  }

  lemma Regrouped(a: seq<Byte>, b: seq<Byte>, c: seq<Byte>, d: seq<Byte>, e: seq<Byte>, f: seq<Byte>)
    ensures a + b + c + d + e + f == a + (b + c + d + (e + f))
    ensures a + b + c + d == a + (b + c + d + [])
  {
  }

  lemma QuietExchange(s: Parser, x: Exchange, signed: bool)
    requires Awaiting(s) && |x.packet| <= MAX_PACKET_LENGTH - 1 && !x.reaction.runs
    ensures var t := Listen(s, Exchanged(x, signed));
            && Awaiting(t) && t.handled == s.handled + [CString(x.packet)] && t.sent == s.sent + StubSends(x)
            && t.lastPacket == if x.acked then [] else if x.reaction.runs then x.stop else x.reaction.reply
  {
    var frame, reply := Inputs(Frame(Escape(x.packet), signed), x.reaction), x.reaction.reply;
    PacketArrives(s, x.packet, signed, x.reaction);
    var t := Listen(s, frame);
    ListenJoin(s, frame, Inputs(Answer(reply, x.naks, x.acked), x.reaction));
    FeedAnswer(t, x.naks, x.acked, x.reaction);
    Regrouped(s.sent, [PLUS], reply, Times(reply, x.naks), [], []);
  }

  lemma RunningExchange(s: Parser, x: Exchange, signed: bool)
    requires Awaiting(s) && |x.packet| <= MAX_PACKET_LENGTH - 1 && x.reaction.runs
    ensures var t := Listen(s, Exchanged(x, signed));
            && Awaiting(t) && t.handled == s.handled + [CString(x.packet)] && t.sent == s.sent + StubSends(x)
            && t.lastPacket == if x.acked then [] else if x.reaction.runs then x.stop else x.reaction.reply
  {
    var frame, reply, stop := Inputs(Frame(Escape(x.packet), signed), x.reaction), x.reaction.reply, x.stop;
    var more := Inputs(Answer(reply, x.naks, true), x.reaction)
                + (Inputs([x.stopByte], Reaction(stop, false))
                   + Inputs(Answer(stop, x.stopNaks, x.acked), Reaction(stop, false)));
    PacketArrives(s, x.packet, signed, x.reaction);
    ListenJoin(s, frame, more);
    RunStopped(Listen(s, frame), x);
    Regrouped(s.sent, [PLUS], reply, Times(reply, x.naks), stop, Times(stop, x.stopNaks));
  }

  lemma ExchangeHandled(s: Parser, x: Exchange, signed: bool)
    requires Awaiting(s) && |x.packet| <= MAX_PACKET_LENGTH - 1
    ensures var t := Listen(s, Exchanged(x, signed));
            && Awaiting(t) && t.handled == s.handled + [CString(x.packet)] && t.sent == s.sent + StubSends(x)
            && t.lastPacket == if x.acked then [] else if x.reaction.runs then x.stop else x.reaction.reply
  {
    if x.reaction.runs {
      RunningExchange(s, x, signed);
    } else {
      QuietExchange(s, x, signed);
    }
  }

  function CStrings(xs: seq<Exchange>): seq<seq<Byte>> {
    if xs == [] then [] else [CString(xs[0].packet)] + CStrings(xs[1..])
  }

  /** Every packet of a conversation is handled, once and in order, whatever each makes the stub send,
      however often the debugger asks for it again, whether or not it acknowledges it, and whether or
      not the packet lets the guest run.  Every reply is sent, and once more for every NAK. */
  lemma {:induction false} AllHandled(s: Parser, xs: seq<Exchange>, signed: bool)
    requires Awaiting(s) && forall i :: 0 <= i < |xs| ==> |xs[i].packet| <= MAX_PACKET_LENGTH - 1
    ensures var t := Listen(s, Conversation(xs, signed));
            t.handled == s.handled + CStrings(xs) && t.sent == s.sent + StubSendsAll(xs) && Awaiting(t)
    decreases |xs|
  {
    if xs == [] {
      assert s.handled + [] == s.handled && s.sent + [] == s.sent;
    } else {
      ExchangeHandled(s, xs[0], signed);
      ListenJoin(s, Exchanged(xs[0], signed), Conversation(xs[1..], signed));
      AllHandled(Listen(s, Exchanged(xs[0], signed)), xs[1..], signed);
      Appended(s.handled, [CString(xs[0].packet)], CStrings(xs[1..]));
      Appended(s.sent, StubSends(xs[0]), StubSendsAll(xs[1..]));
    }
  }

  lemma Appended<T>(x: seq<T>, y: seq<T>, z: seq<T>)
    ensures x + y + z == x + (y + z)
  {
  }
}
