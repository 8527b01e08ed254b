/** Packets that lose a byte on the way: exactly which single garbled bytes the checksum catches. */
module GdbGarble {
  import opened Basics
  import opened GdbPacket

  // ----- what the parser makes of bytes that neither end the packet nor start a repeat -----

  predicate Calm(w: seq<Byte>) {
    HASH !in w && STAR !in w
  }

  /** The characters that such bytes stand for; `esc` says that an escape has begun. */
  function Decode(esc: bool, w: seq<Byte>): seq<Byte>
    decreases w
  {
    if w == [] then []
    else if esc then [Flip(w[0])] + Decode(false, w[1..])
    else if w[0] == BRACE then Decode(true, w[1..])
    else [w[0]] + Decode(false, w[1..])
  }

  /** An escape is open behind them. */
  predicate Escaping(esc: bool, w: seq<Byte>)
    decreases w
  {
    if w == [] then esc else Escaping(!esc && w[0] == BRACE, w[1..])
  }

  function Parsed(s: Parser, w: seq<Byte>): Parser {
    var esc := s.state.GetLineEsc?;
    var state := if Escaping(esc, w) then GetLineEsc else GetLine;
    s.(line := s.line + Decode(esc, w), sum := s.sum + Sum(w), state := state)
  }

  /** As long as there is room, they are decoded and summed. */
  lemma {:induction false} FeedCalm(s: Parser, w: seq<Byte>, r: Reaction)
    requires InBody(s) && Calm(w) && |s.line| + |Decode(s.state.GetLineEsc?, w)| <= MAX_PACKET_LENGTH - 1
    ensures Feed(s, w, r) == Parsed(s, w)
    decreases |w|
  {
    if w == [] {
      assert s.line + [] == s.line;
    } else {
      var t := ReadByte(s, w[0], r);
      assert Calm(w[1..]);
      FeedCalm(t, w[1..], r);
      var d, rest := Decode(s.state.GetLineEsc?, w), Decode(t.state.GetLineEsc?, w[1..]);
      assert t.line + rest == s.line + d by {
        if |d| > |rest| {
          assert s.line + [d[0]] + rest == s.line + d;
        }
      }
    }
  }

  /** When the room runs out the packet is dropped without a word. */
  lemma {:induction false} FeedOver(s: Parser, w: seq<Byte>, r: Reaction)
    requires InBody(s) && Calm(w) && DOLLAR !in w
    requires |s.line| <= MAX_PACKET_LENGTH - 1 < |s.line| + |Decode(s.state.GetLineEsc?, w)|
    ensures var t := Feed(s, w, r); Ready(t) && t.handled == s.handled && t.sent == s.sent
    decreases |w|
  {
    var t := ReadByte(s, w[0], r);
    assert Calm(w[1..]) && DOLLAR !in w[1..];
    if t.state.Idle? {
      FeedIdle(t, w[1..], r);
    } else {
      FeedOver(t, w[1..], r);
    }
  }

  /** Between packets nothing is handled without a new '$'. */
  lemma {:induction false} FeedIdle(s: Parser, w: seq<Byte>, r: Reaction)
    requires s.state.Idle? && DOLLAR !in w
    ensures var t := Feed(s, w, r); t.state.Idle? && t.handled == s.handled && (Ready(s) ==> t == s)
    decreases |w|
  {
    if w != [] {
      FeedIdle(ReadByte(s, w[0], r), w[1..], r);
    }
  }

  /** The rest of a packet, up to the decision about its checksum */
  lemma Finish(s: Parser, w: seq<Byte>, h: Byte, l: Byte, r: Reaction)
    requires InBody(s) && Calm(w) && |s.line| + |Decode(s.state.GetLineEsc?, w)| <= MAX_PACKET_LENGTH - 1
    requires IsHex(h) && IsHex(l)
    ensures Feed(s, w + [HASH, h, l], r) == ReadEnd(Parsed(s, w).(state := Checksum2,
            csum := 16 * FromHex(h) + FromHex(l)), r)
  {
    FeedJoin(s, w, [HASH, h, l], r);
    FeedCalm(s, w, r);
    FeedFooter(Parsed(s, w), h, l, r);
  }

  /** The same, or the room runs out: nothing is handled unless the sum is right. */
  lemma FinishWrong(s: Parser, w: seq<Byte>, h: Byte, l: Byte, r: Reaction)
    requires InBody(s) && Calm(w) && DOLLAR !in w && |s.line| <= MAX_PACKET_LENGTH - 1 && IsHex(h) && IsHex(l)
    requires 16 * FromHex(h) + FromHex(l) != (s.sum + Sum(w)) % 256
    ensures var t := Feed(s, w + [HASH, h, l], r);
            var length := |s.line| + |Decode(s.state.GetLineEsc?, w)|;
            && Ready(t) && t.handled == s.handled
            && t.sent == s.sent + if length <= MAX_PACKET_LENGTH - 1 then [MINUS] else []
  {
    if |s.line| + |Decode(s.state.GetLineEsc?, w)| <= MAX_PACKET_LENGTH - 1 {
      Finish(s, w, h, l, r);
    } else {
      FeedJoin(s, w, [HASH, h, l], r);
      FeedOver(s, w, r);
      FeedIdle(Feed(s, w, r), [HASH, h, l], r);
    }
  }

  /** Two digits that are taken for characters of the line */
  lemma FeedDigits(s: Parser, h: Byte, l: Byte, r: Reaction)
    requires InLine(s) && IsHex(h) && IsHex(l)
    ensures Feed(s, [h, l], r).handled == s.handled
  {
    assert [h, l][1..] == [l] && [l][1..] == [];
    var t := ReadByte(s, h, r);
    assert Feed(s, [h, l], r) == Feed(t, [l], r);
    assert Feed(t, [l], r) == Feed(ReadByte(t, l, r), [], r);
  }

  // ----- lengths and sums -----

  lemma {:induction false} DecodeJoin(esc: bool, a: seq<Byte>, b: seq<Byte>)
    ensures Decode(esc, a + b) == Decode(esc, a) + Decode(Escaping(esc, a), b)
    ensures Escaping(esc, a + b) == Escaping(Escaping(esc, a), b)
    decreases |a|
  {
    if a == [] {
      assert a + b == b;
    } else {
      assert (a + b)[1..] == a[1..] + b;
      DecodeJoin(!esc && a[0] == BRACE, a[1..], b);
    }
  }

  lemma {:induction false} DecodeMore(w: seq<Byte>)
    ensures |Decode(false, w)| <= |Decode(true, w)| <= |Decode(false, w)| + 1
    decreases |w|
  {
    if w != [] {
      DecodeMore(w[1..]);
    }
  }

  /** Losing bytes never makes the rest stand for more characters. */
  lemma DecodeSuffix(esc: bool, a: seq<Byte>, b: seq<Byte>)
    ensures |Decode(esc, a)| + |Decode(false, b)| <= |Decode(esc, a + b)|
  {
    DecodeJoin(esc, a, b);
    DecodeMore(b);
  }

  lemma {:induction false} SumJoin(a: seq<Byte>, b: seq<Byte>)
    ensures Sum(a + b) == Sum(a) + Sum(b)
    decreases |a|
  {
    if a == [] {
      assert a + b == b;
    } else {
      assert (a + b)[1..] == a[1..] + b;
      SumJoin(a[1..], b);
    }
  }

  // ----- encoded bodies -----

  lemma {:induction false} EscapeDecodes(mem: seq<Byte>)
    ensures var w := Escape(mem);
            Calm(w) && DOLLAR !in w && Decode(false, w) == mem && !Escaping(false, w)
    decreases |mem|
  {
    if mem != [] {
      var c, rest := mem[0], Escape(mem[1..]);
      EscapeDecodes(mem[1..]);
      if Special(c) {
        FlipTwice(c);
        assert ([BRACE, Flip(c)] + rest)[1..] == [Flip(c)] + rest && ([Flip(c)] + rest)[1..] == rest;
      } else {
        assert ([c] + rest)[1..] == rest;
      }
    }
  }

  /** In an encoded body '}' always starts an escape and stands in front of some other byte. */
  predicate Placed(w: seq<Byte>, i: nat)
    requires i < |w|
  {
    && (Escaping(false, w[..i]) <==> i > 0 && w[i - 1] == BRACE)
    && (w[i] == BRACE ==> !Escaping(false, w[..i]) && i + 1 < |w| && w[i + 1] != BRACE)
  }

  lemma {:induction false} EscapePlaces(mem: seq<Byte>, i: nat)
    requires i < |Escape(mem)|
    ensures Placed(Escape(mem), i)
    decreases |mem|
  {
    var c, rest, w := mem[0], Escape(mem[1..]), Escape(mem);
    var head := if Special(c) then [BRACE, Flip(c)] else [c];
    assert w == head + rest;
    if i < |head| {
      assert i == 1 ==> w[..i] == [BRACE] && [BRACE][1..] == [];
    } else {
      var k := i - |head|;
      EscapePlaces(mem[1..], k);
      assert w[..i] == head + rest[..k];
      DecodeJoin(false, head, rest[..k]);
      HeadCloses(c);
      assert w[i] == rest[k] && (k > 0 ==> w[i - 1] == rest[k - 1]);
      assert k + 1 < |rest| ==> w[i + 1] == rest[k + 1];
    }
  }

  lemma HeadCloses(c: Byte)
    ensures !Escaping(false, if Special(c) then [BRACE, Flip(c)] else [c])
  {
    if Special(c) {
      assert [BRACE, Flip(c)][1..] == [Flip(c)] && [Flip(c)][1..] == [];
      assert Escaping(true, [Flip(c)]) == Escaping(false, []);
    } else {
      assert [c][1..] == [];
    }
  }

  // ----- one garbled byte -----

  lemma FeedOne(s: Parser, c: Byte, rest: seq<Byte>, r: Reaction)
    ensures Feed(s, [c] + rest, r) == Feed(ReadByte(s, c, r), rest, r)
  {
    assert ([c] + rest)[1..] == rest;
  }

  /** What matters about an encoded body `w`, a place `i` in it and its digits */
  ghost predicate Sent(w: seq<Byte>, i: nat, h: Byte, l: Byte) {
    && i < |w| && Calm(w) && DOLLAR !in w && |Decode(false, w)| <= MAX_PACKET_LENGTH - 1 && Placed(w, i)
    && IsHex(h) && IsHex(l) && 16 * FromHex(h) + FromHex(l) == Sum(w) % 256
  }

  /** The parser in front of that place */
  function Halfway(s: Parser, w: seq<Byte>, i: nat): Parser
    requires i <= |w|
  {
    var state := if Escaping(false, w[..i]) then GetLineEsc else GetLine;
    s.(line := Decode(false, w[..i]), sum := Sum(w[..i]), state := state)
  }

  lemma SentParts(w: seq<Byte>, i: nat, h: Byte, l: Byte)
    requires Sent(w, i, h, l)
    ensures Calm(w[..i]) && Calm(w[i + 1..]) && DOLLAR !in w[i + 1..]
    ensures Sum(w) == Sum(w[..i]) + w[i] as nat + Sum(w[i + 1..])
    ensures |Decode(false, w[..i])| < |Decode(false, w)|
    ensures |Decode(false, w[..i])| + |Decode(Escaping(false, w[..i]), [w[i]] + w[i + 1..])| == |Decode(false, w)|
  {
    var pre, tail := w[..i], [w[i]] + w[i + 1..];
    assert w == pre + tail && tail[1..] == w[i + 1..];
    SumJoin(pre, tail);
    DecodeJoin(false, pre, tail);
  }

  /** The bytes in front arrive. */
  lemma FeedHalf(s: Parser, w: seq<Byte>, i: nat, h: Byte, l: Byte, rest: seq<Byte>, r: Reaction)
    requires Ready(s) && Sent(w, i, h, l)
    ensures Feed(s, [DOLLAR] + (w[..i] + rest), r) == Feed(Halfway(s, w, i), rest, r)
  {
    SentParts(w, i, h, l);
    var u := s.(line := [], sum := 0, state := GetLine);
    FeedOne(s, DOLLAR, w[..i] + rest, r);
    FeedJoin(u, w[..i], rest, r);
    FeedCalm(u, w[..i], r);
    assert [] + Decode(false, w[..i]) == Decode(false, w[..i]);
  }

  /** How many characters the body stands for with another byte in its place: one more if the byte
      started an escape, and otherwise no more than before. */
  lemma GarbledLength(w: seq<Byte>, i: nat, h: Byte, l: Byte, b: Byte)
    requires Sent(w, i, h, l) && w[i] != b
    ensures var n := |Decode(false, w[..i])| + |Decode(Escaping(false, w[..i]), [b] + w[i + 1..])|;
            if w[i] == BRACE then n == |Decode(false, w)| + 1 else n <= |Decode(false, w)|
  {
    var post := w[i + 1..];
    SentParts(w, i, h, l);
    DecodeMore(post);
    assert ([b] + post)[1..] == post && ([w[i]] + post)[1..] == post;
    if w[i] == BRACE {
      assert post[0] == w[i + 1] != BRACE;
    }
  }

  lemma SumsMeet(a: nat, lost: nat, extra: nat, b: nat)
    requires extra < 256
    ensures (a + lost + b) % 256 == (a + extra + b) % 256 <==> lost % 256 == extra
  {
  }

  /** With another byte in its place the body has another sum. */
  lemma GarbledSum(w: seq<Byte>, i: nat, h: Byte, l: Byte, b: Byte)
    requires Sent(w, i, h, l) && w[i] != b
    ensures 16 * FromHex(h) + FromHex(l) != (Sum(w[..i]) + b as nat + Sum(w[i + 1..])) % 256
  {
    SentParts(w, i, h, l);
    SumsMeet(Sum(w[..i]), w[i] as nat, b as nat, Sum(w[i + 1..]));
  }

  lemma CalmStep(v: Parser, b: Byte, post: seq<Byte>, r: Reaction)
    requires InBody(v) && b != HASH && b != STAR && |v.line| < MAX_PACKET_LENGTH - 1
    ensures var u := ReadByte(v, b, r);
            && InBody(u) && |u.line| <= MAX_PACKET_LENGTH - 1 && u.sum == v.sum + b as nat
            && u.handled == v.handled && u.sent == v.sent
            && |u.line| + |Decode(u.state.GetLineEsc?, post)| == |v.line| + |Decode(v.state.GetLineEsc?, [b] + post)|
  {
    assert ([b] + post)[1..] == post;
  }

  lemma RefusedAfter(s: Parser, w: seq<Byte>, i: nat, h: Byte, l: Byte, b: Byte, r: Reaction)
    requires Ready(s) && Sent(w, i, h, l) && w[i] != b && b != HASH && b != STAR
    ensures var t := Feed(Halfway(s, w, i), [b] + (w[i + 1..] + [HASH, h, l]), r);
            && Ready(t) && t.handled == s.handled
            && t.sent == s.sent + if |Decode(false, w)| == MAX_PACKET_LENGTH - 1 && w[i] == BRACE then [] else [MINUS]
  {
    var post, v := w[i + 1..], Halfway(s, w, i);
    SentParts(w, i, h, l);
    GarbledSum(w, i, h, l, b);
    GarbledLength(w, i, h, l, b);
    FeedOne(v, b, post + [HASH, h, l], r);
    CalmStep(v, b, post, r);
    FinishWrong(ReadByte(v, b, r), post, h, l, r);
  }

  /** ' ' to '~' without '#' and '$' can be repeat counts. */
  predicate IsCount(c: Byte) {
    SPACE <= c <= 126 && c != HASH && c != DOLLAR
  }

  /** The line that a stub accepts when the i-th byte and `n` bytes behind it were lost */
  function Resumed(w: seq<Byte>, i: nat, n: nat): seq<Byte>
    requires i + 1 + n <= |w|
  {
    Decode(false, w[..i]) + Decode(false, w[i + 1 + n..])
  }

  /** What is handled when the i-th byte of body `w` becomes '#'.  The packet ends there if two digits
      happen to follow that are the sum so far; if not two digits follow, the one or two bytes that were
      looked at are lost and the line goes on, and at the end the sum is right again if the lost bytes
      add up to nothing. */
  function HashSlip(w: seq<Byte>, i: nat): Option<seq<Byte>>
    requires i < |w|
  {
    if i + 1 == |w| then None
    else if !IsHex(w[i + 1]) then
      if (w[i] as nat + w[i + 1] as nat) % 256 == 0 then Some(Resumed(w, i, 1)) else None
    else if i + 2 == |w| then None
    else if !IsHex(w[i + 2]) then
      if (w[i] as nat + w[i + 1] as nat + w[i + 2] as nat) % 256 == 0 then Some(Resumed(w, i, 2)) else None
    else if 16 * FromHex(w[i + 1]) + FromHex(w[i + 2]) == Sum(w[..i]) % 256 then Some(Decode(false, w[..i]))
    else None
  }

  /** What is handled when it becomes '*'.  Where a repeat can start, the byte behind it is lost if it
      is no repeat count, or if there is nothing to repeat. */
  function StarSlip(w: seq<Byte>, i: nat): Option<seq<Byte>>
    requires i < |w|
  {
    if i + 1 == |w| || (i > 0 && (w[i - 1] == BRACE || IsCount(w[i + 1]))) then None
    else if (w[i] as nat + w[i + 1] as nat) % 256 == STAR as nat then Some(Resumed(w, i, 1))
    else None
  }

  /** The strings that a slip adds to those handled */
  function Slipped(slip: Option<seq<Byte>>): seq<seq<Byte>> {
    if slip.None? then [] else [CString(slip.value)]
  }

  /** The line goes on behind `n` lost bytes.  They add up to `lost`, and `extra` was summed instead. */
  lemma Resume(w: seq<Byte>, i: nat, n: nat, lost: nat, extra: nat, v: Parser, h: Byte, l: Byte, r: Reaction)
    requires Sent(w, i, h, l) && i + 1 + n <= |w| && InLine(v) && v.line == Decode(false, w[..i])
    requires extra < 256 && v.sum == Sum(w[..i]) + extra && Sum(w) == Sum(w[..i]) + lost + Sum(w[i + 1 + n..])
    ensures Feed(v, w[i + 1 + n..] + [HASH, h, l], r).handled ==
            v.handled + Slipped(if lost % 256 == extra then Some(Resumed(w, i, n)) else None)
  {
    var post := w[i + 1 + n..];
    ResumeFits(w, i, n);
    assert Calm(post);
    Finish(v, post, h, l, r);
    SumsMeet(Sum(w[..i]), lost, extra, Sum(post));
  }

  lemma ResumeFits(w: seq<Byte>, i: nat, n: nat)
    requires i + 1 + n <= |w|
    ensures |Decode(false, w[..i])| + |Decode(false, w[i + 1 + n..])| <= |Decode(false, w)|
  {
    var gone, post := w[i..i + 1 + n], w[i + 1 + n..];
    assert gone + post == w[i..] && w == w[..i] + w[i..];
    DecodeJoin(false, w[..i], gone + post);
    DecodeSuffix(Escaping(false, w[..i]), gone, post);
  }

  lemma SumFirst(w: seq<Byte>, i: nat)
    requires i < |w|
    ensures Sum(w[i..]) == w[i] as nat + Sum(w[i + 1..])
  {
    assert w[i..][1..] == w[i + 1..];
  }

  /** The end of the packet is itself taken for a bad digit or count: the packet does not end. */
  lemma EndLost(v: Parser, h: Byte, l: Byte, r: Reaction)
    requires v.state.Checksum1? || v.state.Checksum2? || v.state.GetLineRle?
    requires !v.running && v.lastPacket == [] && IsHex(h) && IsHex(l)
    ensures Feed(v, [HASH, h, l], r).handled == v.handled
  {
    assert [HASH, h, l] == [HASH] + [h, l];
    FeedOne(v, HASH, [h, l], r);
    FeedDigits(v.(state := GetLine), h, l, r);
  }

  /** What follows after a '#' in the wrong place */
  lemma HashAfter(s: Parser, w: seq<Byte>, i: nat, h: Byte, l: Byte, r: Reaction)
    requires Ready(s) && Sent(w, i, h, l)
    ensures Feed(Halfway(s, w, i).(state := Checksum1), w[i + 1..] + [HASH, h, l], r).handled ==
            s.handled + Slipped(HashSlip(w, i))
  {
    var c, foot := Halfway(s, w, i).(state := Checksum1), [HASH, h, l];
    if i + 1 == |w| {
      assert w[i + 1..] + foot == foot;
      EndLost(c, h, l, r);
    } else {
      assert w[i + 1..] + foot == [w[i + 1]] + (w[i + 2..] + foot);
      FeedOne(c, w[i + 1], w[i + 2..] + foot, r);
      if IsHex(w[i + 1]) {
        DigitAfter(s, w, i, h, l, r);
      } else {
        HashLost(s, w, i, h, l, r);
      }
    }
  }

  /** ... with no digit behind it */
  lemma HashLost(s: Parser, w: seq<Byte>, i: nat, h: Byte, l: Byte, r: Reaction)
    requires Ready(s) && Sent(w, i, h, l) && i + 1 < |w| && !IsHex(w[i + 1])
    ensures var c := Halfway(s, w, i).(state := Checksum1);
            Feed(ReadByte(c, w[i + 1], r), w[i + 2..] + [HASH, h, l], r).handled == s.handled + Slipped(HashSlip(w, i))
  {
    var v := Halfway(s, w, i).(state := GetLine);
    assert ReadByte(v.(state := Checksum1), w[i + 1], r) == v;
    LostOne(s, w, i, h, l, r);
  }

  lemma LostOne(s: Parser, w: seq<Byte>, i: nat, h: Byte, l: Byte, r: Reaction)
    requires Ready(s) && Sent(w, i, h, l) && i + 1 < |w|
    ensures var slip := if (w[i] as nat + w[i + 1] as nat) % 256 == 0 then Some(Resumed(w, i, 1)) else None;
            Feed(Halfway(s, w, i).(state := GetLine), w[i + 2..] + [HASH, h, l], r).handled == s.handled + Slipped(slip)
  {
    SentParts(w, i, h, l);
    SumFirst(w, i + 1);
    Resume(w, i, 1, w[i] as nat + w[i + 1] as nat, 0, Halfway(s, w, i).(state := GetLine), h, l, r);
  }

  /** ... with a digit behind it */
  lemma DigitAfter(s: Parser, w: seq<Byte>, i: nat, h: Byte, l: Byte, r: Reaction)
    requires Ready(s) && Sent(w, i, h, l) && i + 1 < |w| && IsHex(w[i + 1])
    ensures var c := Halfway(s, w, i).(csum := 16 * FromHex(w[i + 1]), state := Checksum2);
            Feed(c, w[i + 2..] + [HASH, h, l], r).handled == s.handled + Slipped(HashSlip(w, i))
  {
    var c, foot := Halfway(s, w, i).(csum := 16 * FromHex(w[i + 1]), state := Checksum2), [HASH, h, l];
    if i + 2 == |w| {
      assert w[i + 2..] + foot == foot;
      EndLost(c, h, l, r);
    } else {
      assert w[i + 2..] + foot == [w[i + 2]] + (w[i + 3..] + foot);
      FeedOne(c, w[i + 2], w[i + 3..] + foot, r);
      if IsHex(w[i + 2]) {
        EndsEarly(c, FromHex(w[i + 2]), w[i + 2], w[i + 3..] + foot, r);
      } else {
        DigitLost(s, w, i, h, l, r);
      }
    }
  }

  /** ... and no second one */
  lemma DigitLost(s: Parser, w: seq<Byte>, i: nat, h: Byte, l: Byte, r: Reaction)
    requires Ready(s) && Sent(w, i, h, l) && i + 2 < |w| && IsHex(w[i + 1]) && !IsHex(w[i + 2])
    ensures var c := Halfway(s, w, i).(csum := 16 * FromHex(w[i + 1]), state := Checksum2);
            Feed(ReadByte(c, w[i + 2], r), w[i + 3..] + [HASH, h, l], r).handled == s.handled + Slipped(HashSlip(w, i))
  {
    var c := Halfway(s, w, i).(csum := 16 * FromHex(w[i + 1]), state := GetLine);
    SentParts(w, i, h, l);
    SumFirst(w, i + 1);
    SumFirst(w, i + 2);
    Resume(w, i, 2, w[i] as nat + w[i + 1] as nat + w[i + 2] as nat, 0, c, h, l, r);
  }

  /** The second digit of a checksum: the packet is handled or not, and what follows is skipped. */
  lemma EndsEarly(c: Parser, digit: nat, d: Byte, rest: seq<Byte>, r: Reaction)
    requires c.state.Checksum2? && !c.running && c.lastPacket == [] && IsHex(d) && digit == FromHex(d)
             && DOLLAR !in rest
    ensures Feed(ReadByte(c, d, r), rest, r).handled ==
            c.handled + Slipped(if c.csum + digit == c.sum % 256 then Some(c.line) else None)
  {
    FeedIdle(ReadByte(c, d, r), rest, r);
  }

  /** What follows after a '*' in the wrong place */
  lemma StarAfter(s: Parser, w: seq<Byte>, i: nat, h: Byte, l: Byte, r: Reaction)
    requires Ready(s) && Sent(w, i, h, l) && w[i] != STAR
    ensures Feed(Halfway(s, w, i), [STAR] + (w[i + 1..] + [HASH, h, l]), r).handled ==
            s.handled + Slipped(StarSlip(w, i))
  {
    var v, post, foot := Halfway(s, w, i), w[i + 1..], [HASH, h, l];
    SentParts(w, i, h, l);
    FeedOne(v, STAR, post + foot, r);
    if Escaping(false, w[..i]) {
      GarbledSum(w, i, h, l, STAR);
      FinishWrong(v.(line := v.line + [Flip(STAR)], sum := v.sum + STAR as nat, state := GetLine), post, h, l, r);
    } else if i + 1 == |w| {
      assert post + foot == foot;
      EndLost(ReadByte(v, STAR, r), h, l, r);
    } else {
      CountAfter(s, w, i, h, l, r);
    }
  }

  /** ... where a repeat can start and a byte is behind it */
  lemma CountAfter(s: Parser, w: seq<Byte>, i: nat, h: Byte, l: Byte, r: Reaction)
    requires Ready(s) && Sent(w, i, h, l) && w[i] != STAR && i + 1 < |w| && !Escaping(false, w[..i])
    ensures var t := Halfway(s, w, i).(sum := Sum(w[..i]) + STAR as nat, state := GetLineRle);
            Feed(t, w[i + 1..] + [HASH, h, l], r).handled == s.handled + Slipped(StarSlip(w, i))
  {
    var t := Halfway(s, w, i).(sum := Sum(w[..i]) + STAR as nat, state := GetLineRle);
    var c, post, foot := w[i + 1], w[i + 2..], [HASH, h, l];
    assert w[i + 1..] + foot == [c] + (post + foot);
    FeedOne(t, c, post + foot, r);
    if i == 0 || !IsCount(c) {
      CountLost(s, w, i, t, h, l, r);
    } else {
      CountTaken(s, w, i, t, h, l, r);
    }
  }

  /** The byte behind the '*' is lost. */
  lemma CountLost(s: Parser, w: seq<Byte>, i: nat, t: Parser, h: Byte, l: Byte, r: Reaction)
    requires Ready(s) && Sent(w, i, h, l) && i + 1 < |w| && !Escaping(false, w[..i]) && (i == 0 || !IsCount(w[i + 1]))
    requires t == Halfway(s, w, i).(sum := Sum(w[..i]) + STAR as nat, state := GetLineRle)
    ensures Feed(ReadByte(t, w[i + 1], r), w[i + 2..] + [HASH, h, l], r).handled == s.handled + Slipped(StarSlip(w, i))
  {
    SentParts(w, i, h, l);
    SumFirst(w, i + 1);
    assert w[i + 1] in w;
    Resume(w, i, 1, w[i] as nat + w[i + 1] as nat, STAR as nat, t.(state := GetLine), h, l, r);
  }

  /** It is a repeat count. */
  lemma CountTaken(s: Parser, w: seq<Byte>, i: nat, t: Parser, h: Byte, l: Byte, r: Reaction)
    requires Ready(s) && Sent(w, i, h, l) && w[i] != STAR && i > 0 && i + 1 < |w| && !Escaping(false, w[..i])
             && IsCount(w[i + 1])
    requires t == Halfway(s, w, i).(sum := Sum(w[..i]) + STAR as nat, state := GetLineRle)
    ensures Feed(ReadByte(t, w[i + 1], r), w[i + 2..] + [HASH, h, l], r).handled == s.handled
  {
    GarbledSum(w, i, h, l, STAR);
    SumFirst(w, i + 1);
    SomethingDecoded(w[..i]);
    RepeatAfter(t, w[i + 1], w[i + 2..], h, l, r);
  }

  /** A repeat, and a sum that is wrong at the end */
  lemma RepeatAfter(t: Parser, c: Byte, post: seq<Byte>, h: Byte, l: Byte, r: Reaction)
    requires t.state.GetLineRle? && !t.running && t.lastPacket == [] && t.line != [] && IsCount(c)
    requires Calm(post) && DOLLAR !in post && IsHex(h) && IsHex(l)
    requires 16 * FromHex(h) + FromHex(l) != (t.sum + c as nat + Sum(post)) % 256
    ensures Feed(ReadByte(t, c, r), post + [HASH, h, l], r).handled == t.handled
  {
    var u := ReadByte(t, c, r);
    if u.state.Idle? {
      FeedIdle(u, post + [HASH, h, l], r);
    } else {
      FinishWrong(u, post, h, l, r);
    }
  }

  lemma SomethingDecoded(w: seq<Byte>)
    requires w != [] && !Escaping(false, w)
    ensures Decode(false, w) != []
  {
    if w[0] == BRACE {
      assert w[1..] != [];
    }
  }

  // ----- the results, for every payload -----

  /** The packet for a payload, with the i-th byte of its body replaced by `b` */
  function Garbled(mem: seq<Byte>, i: nat, b: Byte, signed: bool): seq<Byte>
    requires i < |Escape(mem)|
  {
    Frame(Escape(mem), signed)[1 + i := b]
  }

  lemma GarbledIs(mem: seq<Byte>, i: nat, b: Byte, signed: bool) returns (h: Byte, l: Byte)
    requires |mem| <= MAX_PACKET_LENGTH - 1 && i < |Escape(mem)|
    ensures var w := Escape(mem);
            && Sent(w, i, h, l) && Decode(false, w) == mem
            && Garbled(mem, i, b, signed) == [DOLLAR] + (w[..i] + ([b] + (w[i + 1..] + [HASH, h, l])))
  {
    var w := Escape(mem);
    var csum := CharSum(w, signed);
    h, l := ToHex((csum / 16) % 16), ToHex(csum % 16);
    ChecksumDigits(w, signed);
    EscapeDecodes(mem);
    EscapePlaces(mem, i);
    FrameSplit(w, i, b, h, l);
  }

  lemma FrameSplit(w: seq<Byte>, i: nat, b: Byte, h: Byte, l: Byte)
    requires i < |w|
    ensures ([DOLLAR] + w + [HASH, h, l])[1 + i := b] == [DOLLAR] + (w[..i] + ([b] + (w[i + 1..] + [HASH, h, l])))
  {
  }

  /** A garbled byte other than '#' and '*' is always caught: nothing is handled, and the stub asks for
      the packet again -- unless the byte started an escape in a payload of the greatest length, which
      then overruns the buffer and is dropped. */
  lemma GarbledIsRefused(s: Parser, mem: seq<Byte>, i: nat, b: Byte, signed: bool, r: Reaction)
    requires Ready(s) && |mem| <= MAX_PACKET_LENGTH - 1 && i < |Escape(mem)| && Escape(mem)[i] != b
    requires b != HASH && b != STAR
    ensures var t := Feed(s, Garbled(mem, i, b, signed), r);
            && Ready(t) && t.handled == s.handled
            && t.sent == s.sent + if |mem| == MAX_PACKET_LENGTH - 1 && Escape(mem)[i] == BRACE then [] else [MINUS]
  {
    var w := Escape(mem);
    var h, l := GarbledIs(mem, i, b, signed);
    FeedHalf(s, w, i, h, l, [b] + (w[i + 1..] + [HASH, h, l]), r);
    RefusedAfter(s, w, i, h, l, b, r);
  }

  /** What one garbled byte of a body makes the stub handle, for every payload, every position and
      every other byte: nothing, except for the slips. */
  lemma GarbledExactly(s: Parser, mem: seq<Byte>, i: nat, b: Byte, signed: bool, r: Reaction)
    requires Ready(s) && |mem| <= MAX_PACKET_LENGTH - 1 && i < |Escape(mem)| && Escape(mem)[i] != b
    ensures Feed(s, Garbled(mem, i, b, signed), r).handled ==
            s.handled + if b == HASH then Slipped(HashSlip(Escape(mem), i))
                        else if b == STAR then Slipped(StarSlip(Escape(mem), i)) else []
  {
    var w := Escape(mem);
    var h, l := GarbledIs(mem, i, b, signed);
    var rest := w[i + 1..] + [HASH, h, l];
    FeedHalf(s, w, i, h, l, [b] + rest, r);
    if b == HASH {
      FeedOne(Halfway(s, w, i), HASH, rest, r);
      HashAfter(s, w, i, h, l, r);
    } else if b == STAR {
      StarAfter(s, w, i, h, l, r);
    } else {
      RefusedAfter(s, w, i, h, l, b, r);
    }
  }

  /** So the checksum does not catch every garbled byte: "AB41" with its B turned into '#' is taken for
      "A", and so is "A", 0xaa, 0x80 with its middle byte turned into '*'. */
  lemma GarbledAccepted(s: Parser, a: seq<Byte>, b: seq<Byte>, signed: bool, r: Reaction)
    requires Ready(s) && a == [0x41, 0x42, 0x34, 0x31] && b == [0x41, 0xaa, 0x80]
    ensures Escape(a) == a && Feed(s, Garbled(a, 1, HASH, signed), r).handled == s.handled + [a[..1]]
    ensures Escape(b) == b && Feed(s, Garbled(b, 1, STAR, signed), r).handled == s.handled + [a[..1]]
  {
    PlainEscape(a);
    PlainEscape(b);
    GarbledExactly(s, a, 1, HASH, signed, r);
    GarbledExactly(s, b, 1, STAR, signed, r);
    assert a[..1] == b[..1] && b[3..] == [];
    OneChar(a[..1]);
    assert a[..1] + [] == a[..1];
  }

  lemma OneChar(w: seq<Byte>)
    requires |w| == 1 && w[0] != BRACE && w[0] != 0
    ensures Decode(false, w) == w && Sum(w) == w[0] as nat && CString(w) == w
  {
    assert w[1..] == [] && w == [w[0]] + [];
  }

  lemma {:induction false} PlainEscape(mem: seq<Byte>)
    requires forall k :: 0 <= k < |mem| ==> !Special(mem[k])
    ensures Escape(mem) == mem
    decreases |mem|
  {
    if mem != [] {
      PlainEscape(mem[1..]);
    }
  }
}
