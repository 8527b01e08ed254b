/** The debugger stub's buffers, updated in place: memtox, put_packet_binary and gdb_read_byte of
    gdbstub.c. */
module GdbServer {
  import opened Basics
  import opened GdbPacket

  /** memtox: append the encoded bytes to a buffer. */
  method MemToX(buf: seq<Byte>, mem: seq<Byte>) returns (r: seq<Byte>)
    ensures r == buf + Escape(mem)
  {
    r := buf;
    var i := 0;
    while i < |mem|
      invariant 0 <= i <= |mem| && r + Escape(mem[i..]) == buf + Escape(mem)
    {
      var c := mem[i];
      assert mem[i..][0] == c && mem[i..][1..] == mem[i + 1..];
      if Special(c) {
        assert r + ([BRACE, Flip(c)] + Escape(mem[i + 1..])) == r + [BRACE] + [Flip(c)] + Escape(mem[i + 1..]);
        r := r + [BRACE];
        r := r + [Flip(c)];
      } else {
        assert r + ([c] + Escape(mem[i + 1..])) == r + [c] + Escape(mem[i + 1..]);
        r := r + [c];
      }
      i := i + 1;
    }
    assert mem[i..] == [] && r + [] == r;
  }

  /** GDBState */
  class Server {
    var state: RsState
    const lineBuf: array<Byte>
    var lineBufIndex: nat
    var lineSum: nat
    var lineCsum: nat
    var lastPacket: seq<Byte>
    var running: bool
    var sent: seq<Byte>
    ghost var handled: seq<seq<Byte>>

    ghost predicate Valid()
      reads this, lineBuf
    {
      && lineBuf.Length == MAX_PACKET_LENGTH && lineBufIndex <= MAX_PACKET_LENGTH - 1
      && (state.Checksum2? ==> lineBuf[lineBufIndex] == 0)
    }

    ghost function Value(): Parser
      requires Valid()
      reads this, lineBuf
    {
      Parser(state, lineBuf[..lineBufIndex], lineSum, lineCsum, lastPacket, running, sent, handled)
    }

    constructor ()
      ensures Valid() && fresh(lineBuf) && Value() == Parser(Idle, [], 0, 0, [], false, [], [])
    {
      lineBuf := new Byte[MAX_PACKET_LENGTH];
      state, lineBufIndex, lineSum, lineCsum := Idle, 0, 0, 0;
      lastPacket, running, sent, handled := [], false, [], [];
    }

    /** put_packet_binary, for a connection that is not polled for the acknowledgement */
    method PutPacketBinary(buf: seq<Byte>, signed: bool)
      requires Valid()
      modifies this`lastPacket, this`sent
      ensures lastPacket == Frame(buf, signed) && sent == old(sent) + Frame(buf, signed)
    {
      var csum, i := 0, 0;
      while i < |buf|
        invariant 0 <= i <= |buf| && csum + CharSum(buf[i..], signed) == CharSum(buf, signed)
      {
        assert buf[i..][0] == buf[i] && buf[i..][1..] == buf[i + 1..];
        csum := csum + CharValue(buf[i], signed);
        i := i + 1;
      }
      lastPacket := [DOLLAR] + buf + [HASH, ToHex((csum / 16) % 16), ToHex(csum % 16)];
      sent := sent + lastPacket;
    }

    /** Append one byte to the line. */
    method Append(ch: Byte)
      requires Valid() && !state.Checksum2? && lineBufIndex < MAX_PACKET_LENGTH - 1
      modifies this`lineBufIndex, lineBuf
      ensures Valid() && Value() == old(Value()).(line := old(Value()).line + [ch])
    {
      lineBuf[lineBufIndex] := ch;
      lineBufIndex := lineBufIndex + 1;
      assert lineBuf[..lineBufIndex] == old(lineBuf[..lineBufIndex]) + [ch];
    }

    /** memset of the rest of a run */
    method Repeat(n: nat)
      requires Valid() && !state.Checksum2? && lineBufIndex >= 1 && lineBufIndex + n < MAX_PACKET_LENGTH - 1
      modifies this`lineBufIndex, lineBuf
      ensures Valid()
      ensures var v := old(Value()); Value() == v.(line := v.line + Repeated(v.line[|v.line| - 1], n))
    {
      var b, k := lineBuf[lineBufIndex - 1], 0;
      while k < n
        invariant 0 <= k <= n && lineBufIndex == old(lineBufIndex) && Valid()
        invariant lineBuf[..lineBufIndex + k] == old(lineBuf[..lineBufIndex]) + Repeated(b, k)
      {
        lineBuf[lineBufIndex + k] := b;
        assert lineBuf[..lineBufIndex + k + 1] == lineBuf[..lineBufIndex + k] + [b];
        assert Repeated(b, k + 1) == Repeated(b, k) + [b];
        k := k + 1;
      }
      lineBufIndex := lineBufIndex + n;
    }

    /** gdb_read_byte.  `r` is what handling a packet does, if this byte completes one. */
    method ReadByte(ch: Byte, r: Reaction)
      requires Valid()
      modifies this, lineBuf
      ensures Valid() && Value() == GdbPacket.ReadByte(old(Value()), ch, r)
    {
      if lastPacket != [] {
        if ch == MINUS {
          sent := sent + lastPacket;
        }
        if ch == PLUS || ch == DOLLAR {
          lastPacket := [];
        }
        if ch != DOLLAR {
          return;
        }
      }
      ReadChar(ch, r);
    }

    method ReadChar(ch: Byte, r: Reaction)
      requires Valid()
      modifies this, lineBuf
      ensures Valid() && Value() == GdbPacket.ReadChar(old(Value()), ch, r)
    {
      if running {
        running := false;
        sent, lastPacket := sent + r.reply, r.reply;
        return;
      }
      match state
      case Idle =>
        if ch == DOLLAR {
          lineBufIndex, lineSum, state := 0, 0, GetLine;
        }
      case GetLine =>
        ReadLine(ch);
      case GetLineEsc =>
        if ch == HASH {
          state := Checksum1;
        } else if lineBufIndex >= MAX_PACKET_LENGTH - 1 {
          state := Idle;
        } else {
          Append(Flip(ch));
          lineSum := lineSum + ch as nat;
          state := GetLine;
        }
      case GetLineRle =>
        ReadRepeat(ch);
      case Checksum1 =>
        if !IsHex(ch) {
          state := GetLine;
        } else {
          TerminateLine();
          lineCsum := 16 * FromHex(ch);
          state := Checksum2;
        }
      case Checksum2 =>
        if !IsHex(ch) {
          state := GetLine;
        } else {
          lineCsum := lineCsum + FromHex(ch);
          ReadEnd(r);
        }
    }

    /** line_buf[line_buf_index] = 0: there is always room for it. */
    method TerminateLine()
      requires Valid()
      modifies lineBuf
      ensures Valid() && Value() == old(Value()) && lineBuf[lineBufIndex] == 0
    {
      lineBuf[lineBufIndex] := 0;
      assert lineBuf[..lineBufIndex] == old(lineBuf[..lineBufIndex]);
    }

    method ReadLine(ch: Byte)
      requires Valid() && state.GetLine?
      modifies this, lineBuf
      ensures Valid() && Value() == GdbPacket.ReadLine(old(Value()), ch)
    {
      if ch == BRACE {
        state := GetLineEsc;
        lineSum := lineSum + ch as nat;
      } else if ch == STAR {
        state := GetLineRle;
        lineSum := lineSum + ch as nat;
      } else if ch == HASH {
        state := Checksum1;
      } else if lineBufIndex >= MAX_PACKET_LENGTH - 1 {
        state := Idle;
      } else {
        Append(ch);
        lineSum := lineSum + ch as nat;
      }
    }

    method ReadRepeat(ch: Byte)
      requires Valid() && state.GetLineRle?
      modifies this, lineBuf
      ensures Valid() && Value() == GdbPacket.ReadRepeat(old(Value()), ch)
    {
      if ch < SPACE || ch == HASH || ch == DOLLAR || ch > 126 {
        state := GetLine;
      } else {
        var repeat := (ch - SPACE) as nat + 3;
        if lineBufIndex + repeat >= MAX_PACKET_LENGTH - 1 {
          state := Idle;
        } else if lineBufIndex < 1 {
          state := GetLine;
        } else {
          Repeat(repeat);
          lineSum := lineSum + ch as nat;
          state := GetLine;
        }
      }
    }

    method ReadEnd(r: Reaction)
      requires Valid() && state.Checksum2?
      modifies this
      ensures Valid() && Value() == GdbPacket.ReadEnd(old(Value()), r)
    {
      if lineCsum != lineSum % 256 {
        sent := sent + [MINUS];
        state := Idle;
      } else {
        sent := sent + [PLUS];
        CStringEnds(lineBuf[..], lineBufIndex);
        handled := handled + [CString(lineBuf[..])];
        sent, lastPacket, running := sent + r.reply, r.reply, r.runs;
        state := Idle;
      }
    }
  }
}
