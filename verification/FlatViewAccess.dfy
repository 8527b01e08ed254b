/** Reading and writing guest memory in chunks: flatview_read and flatview_write of exec.c, with
    their _continue loops, for ranges that are backed by RAM that can be accessed directly. */
module FlatViewAccess {
  import opened Basics
  import opened PhysPage
  import opened PhysDispatch
  import opened PhysRegister
  import opened PhysMap

  /** The contents of the RAM regions, by region */
  type Ram = map<nat, seq<Byte>>

  /** memory_access_is_direct */
  predicate Direct(mr: Region, write: bool) {
    mr.Guest? && mr.ram && (write ==> !mr.readonly)
  }

  predicate InRam(ram: Ram, t: Target) {
    t.mr.Guest? && t.mr.id in ram && t.xlat < |ram[t.mr.id]|
  }

  /** Address `a` is backed by a byte of RAM. */
  predicate BackedAt(list: seq<Section>, ram: Ram, a: nat, write: bool) {
    a < ADDRESSES && Flat(list, a).Some? && Direct(Flat(list, a).value.mr, write) && InRam(ram, Flat(list, a).value)
  }

  ghost predicate Backed(list: seq<Section>, ram: Ram, addr: nat, len: nat, write: bool) {
    forall a: nat {:trigger BackedAt(list, ram, a, write)} :: addr <= a < addr + len ==> BackedAt(list, ram, a, write)
  }

  // ----- byte by byte -----

  function ReadByte(list: seq<Section>, ram: Ram, a: nat): Byte {
    var t := Flat(list, a);
    if t.Some? && InRam(ram, t.value) then ram[t.value.mr.id][t.value.xlat] else 0
  }

  function ReadBytes(list: seq<Section>, ram: Ram, addr: nat, len: nat): seq<Byte> {
    if len == 0 then [] else ReadBytes(list, ram, addr, len - 1) + [ReadByte(list, ram, addr + len - 1)]
  }

  function WriteByte(list: seq<Section>, ram: Ram, a: nat, b: Byte): Ram {
    var t := Flat(list, a);
    if t.Some? && InRam(ram, t.value) then Stored(ram, t.value.mr.id, t.value.xlat, b) else ram
  }

  function Stored(ram: Ram, id: nat, xlat: nat, b: Byte): Ram
    requires id in ram && xlat < |ram[id]|
  {
    ram[id := ram[id][xlat := b]]
  }

  /** One byte after the other, in increasing order of addresses: where two addresses lead to the
      same byte of RAM, the later one wins. */
  function WriteBytes(list: seq<Section>, ram: Ram, addr: nat, buf: seq<Byte>): Ram {
    if buf == [] then ram
    else
      var n := |buf| - 1;
      WriteByte(list, WriteBytes(list, ram, addr, buf[..n]), addr + n, buf[n])
  }

  /** The bytes of RAM that a range of addresses leads to */
  function Touched(list: seq<Section>, addr: nat, len: nat): set<Target> {
    if len == 0 then {}
    else
      var t := Flat(list, addr + len - 1);
      Touched(list, addr, len - 1) + if t.Some? then {t.value} else {}
  }

  /** Regions do not change their sizes. */
  ghost predicate SameSizes(ram: Ram, now: Ram) {
    ram.Keys == now.Keys && forall id {:trigger |now[id]|} :: id in ram ==> |ram[id]| == |now[id]|
  }

  lemma BackedSame(list: seq<Section>, ram: Ram, now: Ram, a: nat, write: bool)
    requires BackedAt(list, ram, a, write) && SameSizes(ram, now)
    ensures BackedAt(list, now, a, write)
  {
    assert |now[Flat(list, a).value.mr.id]| == |ram[Flat(list, a).value.mr.id]|;
  }

  // ----- what a write leaves in memory -----

  /** The k-th address of a range leads to the byte at offset `x` of region `id`. */
  predicate LeadsAt(list: seq<Section>, addr: nat, k: nat, id: nat, x: nat) {
    var t := Flat(list, addr + k);
    t.Some? && t.value.mr.Guest? && t.value.mr.id == id && t.value.xlat == x
  }

  /** The last of the first `n` addresses of a range that leads to a byte, or -1 */
  function LastAt(list: seq<Section>, addr: nat, n: nat, id: nat, x: nat): (k: int)
    ensures -1 <= k < n && (k >= 0 ==> LeadsAt(list, addr, k, id, x))
    ensures forall j: nat {:trigger LeadsAt(list, addr, j, id, x)} :: k < j < n ==> !LeadsAt(list, addr, j, id, x)
  {
    if n == 0 then -1 else if LeadsAt(list, addr, n - 1, id, x) then n - 1 else LastAt(list, addr, n - 1, id, x)
  }

  /** Every byte of memory is the last one that was written there, or the one it was. */
  ghost predicate Wrote(list: seq<Section>, ram: Ram, now: Ram, addr: nat, buf: seq<Byte>) {
    && SameSizes(ram, now)
    && forall id: nat, x: nat {:trigger now[id][x]} :: id in ram && id in now && x < |ram[id]| && x < |now[id]| ==>
         var k := LastAt(list, addr, |buf|, id, x);
         now[id][x] == if k < 0 then ram[id][x] else buf[k]
  }

  /** Writing byte by byte does this. */
  lemma {:induction false} WriteContents(list: seq<Section>, ram: Ram, addr: nat, buf: seq<Byte>)
    ensures Wrote(list, ram, WriteBytes(list, ram, addr, buf), addr, buf)
    decreases |buf|
  {
    if buf != [] {
      var n := |buf| - 1;
      WriteContents(list, ram, addr, buf[..n]);
      var was, now := WriteBytes(list, ram, addr, buf[..n]), WriteBytes(list, ram, addr, buf);
      forall id: nat, x: nat | id in ram && x < |ram[id]|
        ensures id in now && |now[id]| == |ram[id]|
        ensures now[id][x] == if LeadsAt(list, addr, n, id, x) then buf[n] else was[id][x]
      {
        assert |was[id]| == |ram[id]|;
      }
    }
  }

  /** Two addresses of a range lead to the same byte. */
  predicate SameByte(list: seq<Section>, addr: nat, i: nat, j: nat) {
    var t := Flat(list, addr + i);
    t.Some? && t.value.mr.Guest? && LeadsAt(list, addr, j, t.value.mr.id, t.value.xlat)
  }

  /** Reading a range back gives what was written to it if and only if addresses that lead to the same
      byte were to get the same value; in particular if no two of them do. */
  lemma ReadBack(list: seq<Section>, ram: Ram, addr: nat, buf: seq<Byte>)
    requires Backed(list, ram, addr, |buf|, true)
    ensures ReadBytes(list, WriteBytes(list, ram, addr, buf), addr, |buf|) == buf <==>
            forall i: nat, j: nat {:trigger SameByte(list, addr, i, j)} ::
              i < |buf| && j < |buf| && SameByte(list, addr, i, j) ==> buf[i] == buf[j]
  {
    var now := WriteBytes(list, ram, addr, buf);
    var got := ReadBytes(list, now, addr, |buf|);
    WriteContents(list, ram, addr, buf);
    ReadLength(list, now, addr, |buf|);
    if got == buf {
      forall i: nat, j: nat | i < |buf| && j < |buf| && SameByte(list, addr, i, j)
        ensures buf[i] == buf[j]
      {
        ReadBackAt(list, ram, addr, buf, i);
        ReadBackAt(list, ram, addr, buf, j);
      }
    } else {
      var i :| 0 <= i < |buf| && got[i] != buf[i];
      ReadBackAt(list, ram, addr, buf, i);
      var t := Flat(list, addr + i).value;
      assert SameByte(list, addr, i, LastAt(list, addr, |buf|, t.mr.id, t.xlat));
    }
  }

  lemma ReadBackAt(list: seq<Section>, ram: Ram, addr: nat, buf: seq<Byte>, i: nat)
    requires Backed(list, ram, addr, |buf|, true) && i < |buf|
    ensures var now := WriteBytes(list, ram, addr, buf);
            && |ReadBytes(list, now, addr, |buf|)| == |buf| && BackedAt(list, ram, addr + i, true)
            && var t := Flat(list, addr + i).value;
            && 0 <= LastAt(list, addr, |buf|, t.mr.id, t.xlat)
            && ReadBytes(list, now, addr, |buf|)[i] == buf[LastAt(list, addr, |buf|, t.mr.id, t.xlat)]
  {
    var now := WriteBytes(list, ram, addr, buf);
    assert BackedAt(list, ram, addr + i, true);
    var t := Flat(list, addr + i).value;
    WriteContents(list, ram, addr, buf);
    ReadLength(list, now, addr, |buf|);
    ReadAt(list, now, addr, |buf|, i);
    assert LeadsAt(list, addr, i, t.mr.id, t.xlat);
    assert |now[t.mr.id]| == |ram[t.mr.id]|;
  }

  lemma {:induction false} ReadLength(list: seq<Section>, ram: Ram, addr: nat, len: nat)
    ensures |ReadBytes(list, ram, addr, len)| == len
  {
    if len > 0 {
      ReadLength(list, ram, addr, len - 1);
    }
  }

  lemma {:induction false} ReadAt(list: seq<Section>, ram: Ram, addr: nat, len: nat, i: nat)
    requires i < len
    ensures |ReadBytes(list, ram, addr, len)| == len
    ensures ReadBytes(list, ram, addr, len)[i] == ReadByte(list, ram, addr + i)
  {
    ReadLength(list, ram, addr, len - 1);
    if i < len - 1 {
      ReadAt(list, ram, addr, len - 1, i);
    }
  }

  /** The k-th address of a range leads to `t`. */
  predicate HitsAt(list: seq<Section>, addr: nat, k: nat, t: Target) {
    Flat(list, addr + k) == Some(t)
  }

  lemma {:induction false} TouchedIs(list: seq<Section>, addr: nat, len: nat, t: Target)
    ensures t in Touched(list, addr, len) <==> exists k: nat :: k < len && HitsAt(list, addr, k, t)
  {
    if len > 0 {
      TouchedIs(list, addr, len - 1, t);
      assert Flat(list, addr + len - 1) == Some(t) <==> HitsAt(list, addr, len - 1, t);
    }
  }

  // ----- chunk by chunk -----

  /** A stretch of addresses that is a stretch of one region */
  ghost predicate Stretch(list: seq<Section>, a: nat, l: nat, mr: Region, xlat: nat) {
    forall k: nat {:trigger LiesAt(list, a, k, mr, xlat)} :: k < l ==> LiesAt(list, a, k, mr, xlat)
  }

  lemma {:induction false} ReadChunk(list: seq<Section>, ram: Ram, addr: nat, m: nat, l: nat, mr: Region, xlat: nat)
    requires Stretch(list, addr + m, l, mr, xlat) && mr.Guest? && mr.id in ram && xlat + l <= |ram[mr.id]|
    ensures ReadBytes(list, ram, addr, m + l) == ReadBytes(list, ram, addr, m) + ram[mr.id][xlat..xlat + l]
  {
    if l > 0 {
      assert LiesAt(list, addr + m, l - 1, mr, xlat);
      ReadChunk(list, ram, addr, m, l - 1, mr, xlat);
      assert ram[mr.id][xlat..xlat + l] == ram[mr.id][xlat..xlat + (l - 1)] + [ram[mr.id][xlat + (l - 1)]];
    }
  }

  /** memcpy into a region */
  function Copied(ram: Ram, id: nat, xlat: nat, chunk: seq<Byte>): Ram
    requires id in ram && xlat + |chunk| <= |ram[id]|
  {
    ram[id := ram[id][..xlat] + chunk + ram[id][xlat + |chunk|..]]
  }

  lemma CopyLast(ram: Ram, id: nat, xlat: nat, chunk: seq<Byte>, n: nat)
    requires |chunk| == n + 1 && id in ram && xlat + |chunk| <= |ram[id]|
    ensures Copied(ram, id, xlat, chunk) == Stored(Copied(ram, id, xlat, chunk[..n]), id, xlat + n, chunk[n])
  {
    var s := ram[id];
    assert s[..xlat] + chunk + s[xlat + |chunk|..] == (s[..xlat] + chunk[..n] + s[xlat + n..])[xlat + n := chunk[n]];
  }

  lemma {:induction false} WriteChunk(list: seq<Section>, ram: Ram, a: nat, chunk: seq<Byte>, mr: Region, xlat: nat)
    requires Stretch(list, a, |chunk|, mr, xlat) && mr.Guest? && mr.id in ram && xlat + |chunk| <= |ram[mr.id]|
    ensures WriteBytes(list, ram, a, chunk) == Copied(ram, mr.id, xlat, chunk)
  {
    if chunk == [] {
      assert ram[mr.id][..xlat] + chunk + ram[mr.id][xlat..] == ram[mr.id];
    } else {
      var n := |chunk| - 1;
      assert LiesAt(list, a, n, mr, xlat);
      WriteChunk(list, ram, a, chunk[..n], mr, xlat);
      CopyLast(ram, mr.id, xlat, chunk, n);
    }
  }

  lemma {:induction false} WriteJoin(list: seq<Section>, ram: Ram, addr: nat, x: seq<Byte>, y: seq<Byte>)
    ensures WriteBytes(list, WriteBytes(list, ram, addr, x), addr + |x|, y) == WriteBytes(list, ram, addr, x + y)
  {
    if y == [] {
      assert x + y == x;
    } else {
      var n := |y| - 1;
      assert (x + y)[..|x| + n] == x + y[..n];
      WriteJoin(list, ram, addr, x, y[..n]);
    }
  }

  /** What invalidate_and_set_dirty marks */
  function Range(mr: Region, xlat: nat, l: nat): set<Target> {
    if l == 0 then {} else Range(mr, xlat, l - 1) + {Target(mr, xlat + l - 1)}
  }

  lemma {:induction false} TouchedJoin(list: seq<Section>, addr: nat, m: nat, l: nat, mr: Region, xlat: nat)
    requires Stretch(list, addr + m, l, mr, xlat)
    ensures Touched(list, addr, m + l) == Touched(list, addr, m) + Range(mr, xlat, l)
  {
    if l > 0 {
      assert LiesAt(list, addr + m, l - 1, mr, xlat);
      TouchedJoin(list, addr, m, l - 1, mr, xlat);
    }
  }

  // ----- the loops -----

  /** A flat view: its dispatch, the RAM it leads to, and the bytes marked dirty */
  class FlatView {
    const dispatch: AddressSpaceDispatch
    var ram: Ram
    var dirty: set<Target>

    constructor (dispatch: AddressSpaceDispatch, ram: Ram)
      ensures this.dispatch == dispatch && this.ram == ram && dirty == {}
    {
      this.dispatch, this.ram, dirty := dispatch, ram, {};
    }

    /** flatview_translate, without an IOMMU, for an address backed by RAM */
    method Translate(a: nat, len: nat, write: bool, ghost d: Dispatch, ghost list: seq<Section>)
      returns (mr: Region, xlat: nat, l: nat)
      requires dispatch.Serves(d, list) && len > 0 && BackedAt(list, ram, a, write)
      modifies dispatch`mru
      ensures dispatch.Serves(d, list)
      ensures 0 < l <= len && Direct(mr, write) && InRam(ram, Target(mr, xlat)) && Stretch(list, a, l, mr, xlat)
    {
      var r;
      r, xlat, l := dispatch.TranslateInternal(a, len, true, d, list);
      mr := dispatch.sections[r].mr;
    }

    /** flatview_read */
    method Read(addr: nat, len: nat, ghost d: Dispatch, ghost list: seq<Section>) returns (buf: seq<Byte>)
      requires dispatch.Serves(d, list) && len > 0 && Backed(list, ram, addr, len, false)
      modifies dispatch`mru
      ensures dispatch.Serves(d, list) && buf == ReadBytes(list, ram, addr, len)
    {
      assert BackedAt(list, ram, addr, false);
      var mr, addr1, l := Translate(addr, len, false, d, list);
      buf := ReadContinue(addr, len, addr1, l, mr, d, list);
    }

    /** flatview_read_continue: the chunks together are the bytes, one by one. */
    method ReadContinue(addr: nat, len: nat, addr0: nat, l0: nat, mr0: Region, ghost d: Dispatch,
          ghost list: seq<Section>)
      returns (buf: seq<Byte>)
      requires dispatch.Serves(d, list) && Backed(list, ram, addr, len, false)
      requires 0 < l0 <= len && Direct(mr0, false) && InRam(ram, Target(mr0, addr0))
               && Stretch(list, addr, l0, mr0, addr0)
      modifies dispatch`mru
      ensures dispatch.Serves(d, list) && buf == ReadBytes(list, ram, addr, len)
    {
      buf := [];
      var a, n, addr1, l, mr := addr, len, addr0, l0, mr0;
      while true
        invariant dispatch.Serves(d, list) && 0 < l <= n && |buf| + n == len && a == addr + |buf|
        invariant Direct(mr, false) && InRam(ram, Target(mr, addr1)) && Stretch(list, a, l, mr, addr1)
        invariant buf == ReadBytes(list, ram, addr, |buf|)
        decreases n
      {
        l := Min(l, |ram[mr.id]| - addr1);
        ReadChunk(list, ram, addr, |buf|, l, mr, addr1);
        buf := buf + ram[mr.id][addr1..addr1 + l];
        n, a := n - l, a + l;
        if n == 0 {
          break;
        }
        assert BackedAt(list, ram, a, false);
        mr, addr1, l := Translate(a, n, false, d, list);
      }
    }

    /** flatview_write */
    method Write(addr: nat, buf: seq<Byte>, ghost d: Dispatch, ghost list: seq<Section>)
      requires dispatch.Serves(d, list) && |buf| > 0 && Backed(list, ram, addr, |buf|, true)
      modifies this, dispatch`mru
      ensures dispatch.Serves(d, list) && ram == old(WriteBytes(list, ram, addr, buf))
      ensures Wrote(list, old(ram), ram, addr, buf)
      ensures forall t :: t in dirty <==> t in old(dirty) || exists k: nat :: k < |buf| && HitsAt(list, addr, k, t)
    {
      assert BackedAt(list, ram, addr, true);
      var mr, addr1, l := Translate(addr, |buf|, true, d, list);
      WriteContinue(addr, buf, addr1, l, mr, d, list);
      WriteContents(list, old(ram), addr, buf);
      forall t
        ensures t in Touched(list, addr, |buf|) <==> exists k: nat :: k < |buf| && HitsAt(list, addr, k, t)
      {
        TouchedIs(list, addr, |buf|, t);
      }
    }

    /** flatview_write_continue: the chunks together write the bytes, one by one, and mark exactly
        the bytes written. */
    method WriteContinue(addr: nat, buf: seq<Byte>, addr0: nat, l0: nat, mr0: Region, ghost d: Dispatch,
          ghost list: seq<Section>)
      requires dispatch.Serves(d, list) && Backed(list, ram, addr, |buf|, true)
      requires 0 < l0 <= |buf| && Direct(mr0, true) && InRam(ram, Target(mr0, addr0))
               && Stretch(list, addr, l0, mr0, addr0)
      modifies this, dispatch`mru
      ensures dispatch.Serves(d, list) && ram == old(WriteBytes(list, ram, addr, buf))
      ensures dirty == old(dirty) + Touched(list, addr, |buf|)
    {
      var done, addr1, l, mr := 0, addr0, l0, mr0;
      ghost var ram0, dirty0 := ram, dirty;
      while true
        invariant dispatch.Serves(d, list) && 0 <= done && 0 < l && done + l <= |buf| && SameSizes(ram0, ram)
        invariant Direct(mr, true) && InRam(ram, Target(mr, addr1)) && Stretch(list, addr + done, l, mr, addr1)
        invariant ram == WriteBytes(list, ram0, addr, buf[..done])
        invariant dirty == dirty0 + Touched(list, addr, done)
        decreases |buf| - done
      {
        l := Min(l, |ram[mr.id]| - addr1);
        WriteRound(list, ram0, addr, buf, done, l, mr, addr1);
        ram := Copied(ram, mr.id, addr1, buf[done..done + l]);
        TouchedJoin(list, addr, done, l, mr, addr1);
        dirty := dirty + Range(mr, addr1, l);
        done := done + l;
        if done == |buf| {
          break;
        }
        assert BackedAt(list, ram0, addr + done, true);
        BackedSame(list, ram0, ram, addr + done, true);
        mr, addr1, l := Translate(addr + done, |buf| - done, true, d, list);
      }
      assert buf[..|buf|] == buf;
    }
  }

  /** One round of the write loop */
  lemma WriteRound(list: seq<Section>, ram0: Ram, addr: nat, buf: seq<Byte>, done: nat, l: nat, mr: Region, xlat: nat)
    requires done + l <= |buf| && Stretch(list, addr + done, l, mr, xlat) && mr.Guest?
    requires var ram := WriteBytes(list, ram0, addr, buf[..done]); mr.id in ram && xlat + l <= |ram[mr.id]|
    ensures var ram := WriteBytes(list, ram0, addr, buf[..done]);
            WriteBytes(list, ram0, addr, buf[..done + l]) == Copied(ram, mr.id, xlat, buf[done..done + l])
  {
    var x, y := buf[..done], buf[done..done + l];
    WriteJoin(list, ram0, addr, x, y);
    assert x + y == buf[..done + l];
    WriteChunk(list, WriteBytes(list, ram0, addr, x), addr + done, y, mr, xlat);
  }
}
