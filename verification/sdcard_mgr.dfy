/** The SD-card double buffer of externals/sdcardMgr.c. Writes of any size
    are gathered in one of two 512-byte buffers; a full buffer is flagged
    in the status byte and a protothread writes it to the card as the next
    block, while new writes go to the other buffer. A read asks the thread
    to load one block into buffer 0. The card driver (externals/sdcard.c)
    is not part of this model: the outcome of each of its calls is an
    input. */
module SdCardMgr {
  import opened TypeDef

  const BlockSize := 512

  /** The status bits. */
  const CardDetected: bv8 := 0x01
  const SdComActive: bv8 := 0x02
  const ReadBlock: bv8 := 0x04
  const Buffer0Full: bv8 := 0x10
  const Buffer1Full: bv8 := 0x20

  /** Which of the two buffers the `buffer` pointer designates. */
  datatype Which = Buf0 | Buf1

  function Other(w: Which): Which
  {
    if w == Buf0 then Buf1 else Buf0
  }

  function FullBit(w: Which): bv8
  {
    if w == Buf0 then Buffer0Full else Buffer1Full
  }

  /** The write side of the manager: status byte, current buffer, index. */
  datatype Flags = Flags(status: bv8, current: Which, index: nat)

  /** SDMGR_are_buffers_full (sdcardMgr.c:247-251). */
  predicate AllFull(status: bv8)
  {
    status & (Buffer0Full | Buffer1Full) == Buffer0Full | Buffer1Full
  }

  predicate IsFull(status: bv8, w: Which)
  {
    status & FullBit(w) != 0
  }

  /** SDMGR_swapBuffers (sdcardMgr.c:294-315): the current buffer is marked
      full and the index goes back to 0; the other buffer becomes current
      unless it is full too. */
  function Swap(f: Flags): (r: (Answer, Flags))
  {
    var marked := f.(status := f.status | FullBit(f.current), index := 0);
    if IsFull(f.status, Other(f.current)) then (KO, marked)
    else (OK, marked.(current := Other(f.current)))
  }

  /** Only the current buffer's flag is raised, the index restarts, and the
      swap succeeds exactly when the other buffer is free, which it then
      becomes the current one of. */
  lemma SwapMarksAndMoves(f: Flags)
    ensures var (ok, g) := Swap(f);
      && IsFull(g.status, f.current) && g.index == 0
      && (forall w :: w != f.current ==> (IsFull(g.status, w) <==> IsFull(f.status, w)))
      && g.status & !(Buffer0Full | Buffer1Full) == f.status & !(Buffer0Full | Buffer1Full)
      && (ok == OK <==> !IsFull(f.status, Other(f.current)))
      && (ok == OK ==> g.current == Other(f.current) && !IsFull(g.status, g.current))
      && (ok == KO ==> g.current == f.current && AllFull(g.status))
  {
  }

  /** Lines 346-360 of SDMGR_write: refused when both buffers are full;
      otherwise a swap when the current buffer is full, and one more when
      the bytes do not fit after the index. The answer and the flags the
      copy then starts from. */
  function PreCopy(f: Flags, len: u8): (r: (Answer, Flags))
    ensures r.0 == OK ==> !IsFull(r.1.status, r.1.current) && r.1.index + len <= BlockSize
  {
    if AllFull(f.status) then (KO, f)
    else
      var (ok1, f1) := if IsFull(f.status, f.current) then Swap(f) else (OK, f);
      if ok1 == KO then (KO, f1)
      else if f1.index + len > BlockSize then Swap(f1)
      else (OK, f1)
  }

  /** A write is refused exactly when both buffers are full, or when the
      bytes do not fit in the current, free buffer and the other one is
      full; the first swap, when the current buffer is full, always
      succeeds. A write that both buffers refuse changes nothing. */
  lemma PreCopyRefuses(f: Flags, len: u8)
    ensures var (ok, g) := PreCopy(f, len);
      && (ok == KO <==>
            || AllFull(f.status)
            || (!IsFull(f.status, f.current) && f.index + len > BlockSize && IsFull(f.status, Other(f.current))))
      && (AllFull(f.status) ==> g == f)
  {
  }

  /** Lines 362-371 of SDMGR_write once the copy is done: the index has
      moved past the bytes, and a buffer filled to the end is swapped at
      once, whatever the swap answers. */
  function PostCopy(f: Flags, len: u8): Flags
  {
    var g := f.(index := f.index + len);
    if g.index >= BlockSize then Swap(g).1 else g
  }

  /** After an accepted write the index is again inside the block; a
      buffer filled exactly is flagged for the card. */
  lemma PostCopyIndexInBlock(f: Flags, len: u8)
    requires f.index + len <= BlockSize
    ensures PostCopy(f, len).index < BlockSize
    ensures f.index + len == BlockSize ==> IsFull(PostCopy(f, len).status, f.current)
    ensures f.index + len < BlockSize ==> PostCopy(f, len) == f.(index := f.index + len)
  {
  }

  /** The buffer slots the copy loop of SDMGR_write (sdcardMgr.c:363-366)
      stores into as written: the index is incremented before each store,
      so the bytes land at `index + 1` to `index + len`. */
  function SlotsAsWritten(index: nat, len: nat): (s: seq<nat>)
    ensures |s| == len
    ensures forall k :: 0 <= k < len ==> s[k] == index + 1 + k
  {
    seq(len, k => index + 1 + k)
  }

  /** Three writes of 255, 255 and 2 bytes after SDMGR_init: the third is
      accepted (510 + 2 fits in the block), yet as written its last byte is
      stored at slot 512, one past the buffer, and slot 0 of the buffer is
      never written by any write. */
  lemma SlotsAsWrittenOverrun()
    ensures var f := Flags(0, Buf0, 0);
      var (ok1, f1) := PreCopy(f, 255);
      var g1 := PostCopy(f1, 255);
      var (ok2, f2) := PreCopy(g1, 255);
      var g2 := PostCopy(f2, 255);
      var (ok3, f3) := PreCopy(g2, 2);
      && ok1 == OK && ok2 == OK && ok3 == OK && f3.index == 510
      && SlotsAsWritten(f3.index, 2)[1] == BlockSize
    ensures forall index: nat, len: nat :: 0 !in SlotsAsWritten(index, len)
  {
  }

  /** The slots the copy should store into: `index` to `index + len - 1`. */
  function Slots(index: nat, len: nat): (s: seq<nat>)
    ensures |s| == len
    ensures forall k :: 0 <= k < len ==> s[k] == index + k
  {
    seq(len, k => index + k)
  }

  /** Where an accepted write went: the buffer and index PreCopy chose, and
      the number of bytes. */
  datatype Placement = Placement(w: Which, index: nat, len: nat)

  /** A sequence of SDMGR_write calls of lengths `lens` from the flags `f`:
      the flags afterwards and the placement of each accepted write, in
      order; a refused write has none. */
  function Place(f: Flags, lens: seq<u8>): (r: (Flags, seq<Placement>))
    ensures |r.1| <= |lens|
    decreases |lens|
  {
    if lens == [] then (f, [])
    else
      var pre := PreCopy(f, lens[0]);
      var next := if pre.0 == OK then PostCopy(pre.1, lens[0]) else pre.1;
      var rest := Place(next, lens[1..]);
      (rest.0, (if pre.0 == OK then [Placement(pre.1.current, pre.1.index, lens[0])] else []) + rest.1)
  }

  /** The slots the placed writes fill, in order, with the copy storing
      from the index on ... */
  function Filled(ps: seq<Placement>): seq<nat>
  {
    if ps == [] then [] else Slots(ps[0].index, ps[0].len) + Filled(ps[1..])
  }

  /** ... and as written, from the slot after the index on. */
  function FilledAsWritten(ps: seq<Placement>): seq<nat>
  {
    if ps == [] then [] else SlotsAsWritten(ps[0].index, ps[0].len) + FilledAsWritten(ps[1..])
  }

  function Sum(lens: seq<u8>): nat
  {
    if lens == [] then 0 else lens[0] as nat + Sum(lens[1..])
  }

  /** Starting from SDMGR_init, writes whose lengths add up to at most one
      block are all accepted and all go to buffer 0. With the copy storing
      from the index on, they fill slots 0, 1, ... in order, without a gap
      and without leaving the block; a block filled exactly is flagged for
      the card, with buffer 1 current. */
  lemma SlotsFillBlock(lens: seq<u8>)
    requires Sum(lens) <= BlockSize
    ensures var r := Place(Flags(0, Buf0, 0), lens);
      && |r.1| == |lens|
      && (forall i :: 0 <= i < |r.1| && r.1[i].len > 0 ==> r.1[i].w == Buf0)
      && Filled(r.1) == seq(Sum(lens), k => k)
      && r.0 == if Sum(lens) < BlockSize then Flags(0, Buf0, Sum(lens)) else Flags(Buffer0Full, Buf1, 0)
  {
    FillFrom(Flags(0, Buf0, 0), lens);
  }

  /** The same writes as written fill slots 1, 2, ... instead: slot 0 of
      buffer 0 is never written, and a block filled exactly has its last
      byte stored at slot 512, past the buffer. */
  lemma SlotsAsWrittenShift(lens: seq<u8>)
    requires Sum(lens) <= BlockSize
    ensures var r := Place(Flags(0, Buf0, 0), lens);
      && FilledAsWritten(r.1) == seq(Sum(lens), k => k + 1)
      && 0 !in FilledAsWritten(r.1)
      && (Sum(lens) == BlockSize ==> BlockSize in FilledAsWritten(r.1))
  {
    FillFrom(Flags(0, Buf0, 0), lens);
    var r := Place(Flags(0, Buf0, 0), lens);
    if Sum(lens) == BlockSize {
      assert FilledAsWritten(r.1)[BlockSize - 1] == BlockSize;
    }
  }

  lemma FillFrom(f: Flags, lens: seq<u8>)
    requires f.status == 0 && f.current == Buf0 && f.index < BlockSize && f.index + Sum(lens) <= BlockSize
    ensures var r := Place(f, lens);
      && |r.1| == |lens|
      && (forall i :: 0 <= i < |r.1| && r.1[i].len > 0 ==> r.1[i].w == Buf0)
      && Filled(r.1) == seq(Sum(lens), k => f.index + k)
      && FilledAsWritten(r.1) == seq(Sum(lens), k => f.index + 1 + k)
      && r.0 == if f.index + Sum(lens) < BlockSize then f.(index := f.index + Sum(lens))
                else Flags(Buffer0Full, Buf1, 0)
  {
    FillFlags(f, lens);
    FillSlots(f, lens);
    FillSlotsAsWritten(f, lens);
  }

  /** The flags and placements of writes that fit in a free buffer 0. */
  lemma {:induction false} FillFlags(f: Flags, lens: seq<u8>)
    requires f.status == 0 && f.current == Buf0 && f.index < BlockSize && f.index + Sum(lens) <= BlockSize
    ensures var r := Place(f, lens);
      && |r.1| == |lens|
      && (forall i :: 0 <= i < |r.1| && r.1[i].len > 0 ==> r.1[i].w == Buf0)
      && r.0 == if f.index + Sum(lens) < BlockSize then f.(index := f.index + Sum(lens))
                else Flags(Buffer0Full, Buf1, 0)
    decreases |lens|
  {
    if lens != [] {
      PlaceFirst(f, lens);
      var next := PostCopy(f, lens[0]);
      if f.index + lens[0] as nat < BlockSize {
        FillFlags(next, lens[1..]);
      } else {
        ZeroWrites(lens[1..]);
      }
    }
  }

  /** The slots those writes fill ... */
  lemma {:induction false} FillSlots(f: Flags, lens: seq<u8>)
    requires f.status == 0 && f.current == Buf0 && f.index < BlockSize && f.index + Sum(lens) <= BlockSize
    ensures Filled(Place(f, lens).1) == seq(Sum(lens), k => f.index + k)
    decreases |lens|
  {
    if lens != [] {
      var l := lens[0];
      PlaceFirst(f, lens);
      var next := PostCopy(f, l);
      if f.index + l as nat < BlockSize {
        FillSlots(next, lens[1..]);
      } else {
        ZeroWrites(lens[1..]);
        FilledNothing(Place(next, lens[1..]).1);
      }
      Consecutive(f.index, l as nat, Sum(lens[1..]), Filled(Place(next, lens[1..]).1));
    }
  }

  /** ... and, as written, from the slot after the index. */
  lemma {:induction false} FillSlotsAsWritten(f: Flags, lens: seq<u8>)
    requires f.status == 0 && f.current == Buf0 && f.index < BlockSize && f.index + Sum(lens) <= BlockSize
    ensures FilledAsWritten(Place(f, lens).1) == seq(Sum(lens), k => f.index + 1 + k)
    decreases |lens|
  {
    if lens != [] {
      var l := lens[0];
      PlaceFirst(f, lens);
      var next := PostCopy(f, l);
      if f.index + l as nat < BlockSize {
        FillSlotsAsWritten(next, lens[1..]);
      } else {
        ZeroWrites(lens[1..]);
        FilledNothing(Place(next, lens[1..]).1);
      }
      Consecutive(f.index + 1, l as nat, Sum(lens[1..]), FilledAsWritten(Place(next, lens[1..]).1));
    }
  }

  /** A first write that fits in a free buffer 0 is accepted where the
      index is. */
  lemma PlaceFirst(f: Flags, lens: seq<u8>)
    requires f.status == 0 && f.current == Buf0 && lens != [] && f.index + lens[0] as nat <= BlockSize
    ensures var next := PostCopy(f, lens[0]);
      && next == (if f.index + lens[0] as nat < BlockSize then f.(index := f.index + lens[0] as nat)
                  else Flags(Buffer0Full, Buf1, 0))
      && Place(f, lens) == (Place(next, lens[1..]).0, [Placement(Buf0, f.index, lens[0])] + Place(next, lens[1..]).1)
  {
    assert PreCopy(f, lens[0]) == (OK, f);
  }

  lemma Consecutive(start: nat, l: nat, m: nat, rest: seq<nat>)
    requires rest == seq(m, k => start + l + k)
    ensures seq(l, k => start + k) + rest == seq(l + m, k => start + k)
  {
  }

  /** Empty writes to a free buffer 1 at index 0 are accepted and change
      nothing. */
  lemma {:induction false} ZeroWrites(lens: seq<u8>)
    requires Sum(lens) == 0
    ensures var r := Place(Flags(Buffer0Full, Buf1, 0), lens);
      && |r.1| == |lens| && (forall i :: 0 <= i < |r.1| ==> r.1[i].len == 0)
      && r.0 == Flags(Buffer0Full, Buf1, 0)
    decreases |lens|
  {
    if lens != [] {
      var g := Flags(Buffer0Full, Buf1, 0);
      assert PreCopy(g, 0) == (OK, g);
      assert PostCopy(g, 0) == g;
      ZeroWrites(lens[1..]);
    }
  }

  /** Empty writes fill no slot. */
  lemma {:induction false} FilledNothing(ps: seq<Placement>)
    requires forall i :: 0 <= i < |ps| ==> ps[i].len == 0
    ensures Filled(ps) == [] && FilledAsWritten(ps) == []
    decreases |ps|
  {
    if ps != [] {
      FilledNothing(ps[1..]);
    }
  }

  /** The bytes the copy loop can reach: the two buffers, which follow each
      other in the record (sdcardMgr.c:53-55), and the bytes stored past
      buffer 1, over the `buffer` pointer that comes next. */
  datatype Memory = Memory(b0: seq<u8>, b1: seq<u8>, spill: seq<u8>)

  predicate Sized(m: Memory)
  {
    |m.b0| == BlockSize && |m.b1| == BlockSize
  }

  function Contents(m: Memory, w: Which): seq<u8>
  {
    if w == Buf0 then m.b0 else m.b1
  }

  /** One store `buffer[slot] = b` through the pointer to buffer `w`: below
      512 the slot is in `w`; slot 512 of buffer 0 is slot 0 of buffer 1,
      and slot 512 of buffer 1 is past both. */
  function StoreAt(m: Memory, w: Which, slot: nat, b: u8): (r: Memory)
    requires Sized(m) && slot <= BlockSize
    ensures Sized(r)
  {
    if slot < BlockSize then
      (if w == Buf0 then m.(b0 := m.b0[slot := b]) else m.(b1 := m.b1[slot := b]))
    else if w == Buf0 then m.(b1 := m.b1[0 := b])
    else m.(spill := m.spill + [b])
  }

  /** The bytes `bs` stored one after the other from `slot` on. */
  function Stores(m: Memory, w: Which, slot: nat, bs: seq<u8>): (r: Memory)
    requires Sized(m) && slot + |bs| <= BlockSize + 1
    ensures Sized(r)
    decreases |bs|
  {
    if bs == [] then m else Stores(StoreAt(m, w, slot, bs[0]), w, slot + 1, bs[1..])
  }

  lemma {:induction false} StoresAppend(m: Memory, w: Which, slot: nat, bs: seq<u8>, b: u8)
    requires Sized(m) && slot + |bs| <= BlockSize
    ensures Stores(m, w, slot, bs + [b]) == StoreAt(Stores(m, w, slot, bs), w, slot + |bs|, b)
    decreases |bs|
  {
    if bs == [] {
      assert Stores(m, w, slot, [b]) == Stores(StoreAt(m, w, slot, b), w, slot + 1, []);
    } else {
      assert (bs + [b])[0] == bs[0];
      assert (bs + [b])[1..] == bs[1..] + [b];
      StoresAppend(StoreAt(m, w, slot, bs[0]), w, slot + 1, bs[1..], b);
    }
  }

  /** The copy storing from the index on: bytes that fit land at `slot` to
      `slot + |bs| - 1` of buffer `w`, and nothing else changes. */
  lemma {:induction false} StoresInside(m: Memory, w: Which, slot: nat, bs: seq<u8>)
    requires Sized(m) && slot + |bs| <= BlockSize
    ensures var r := Stores(m, w, slot, bs);
      && Contents(r, w) == Contents(m, w)[..slot] + bs + Contents(m, w)[slot + |bs|..]
      && Contents(r, Other(w)) == Contents(m, Other(w)) && r.spill == m.spill
    decreases |bs|
  {
    if bs != [] {
      var m1 := StoreAt(m, w, slot, bs[0]);
      StoresInside(m1, w, slot + 1, bs[1..]);
      var c, c1 := Contents(m, w), Contents(m1, w);
      assert c1 == c[slot := bs[0]];
      assert c1[..slot + 1] == c[..slot] + [bs[0]];
      assert c1[slot + 1 + |bs[1..]|..] == c[slot + |bs|..];
      assert bs == [bs[0]] + bs[1..];
    }
  }

  /** The copy as written, bytes stored from `index + 1` on: while they stay
      below slot 512 they land in buffer `w` and nothing else changes; when
      the last one reaches slot 512 it lands past `w`, on slot 0 of buffer 1
      from buffer 0 and on the `buffer` pointer from buffer 1. Either way
      slots 0 to `index` of `w` keep their bytes. */
  lemma CopyAsWrittenPlaces(m: Memory, w: Which, index: nat, bs: seq<u8>)
    requires Sized(m) && index + |bs| <= BlockSize
    ensures var r := Stores(m, w, index + 1, bs);
      && (index + |bs| < BlockSize ==>
            && Contents(r, w) == Contents(m, w)[..index + 1] + bs + Contents(m, w)[index + 1 + |bs|..]
            && Contents(r, Other(w)) == Contents(m, Other(w)) && r.spill == m.spill)
      && (index + |bs| == BlockSize && bs != [] ==>
            && Contents(r, w) == Contents(m, w)[..index + 1] + bs[..|bs| - 1]
            && (w == Buf0 ==> r.b1 == m.b1[0 := bs[|bs| - 1]] && r.spill == m.spill)
            && (w == Buf1 ==> r.b0 == m.b0 && r.spill == m.spill + [bs[|bs| - 1]]))
  {
    if index + |bs| < BlockSize {
      StoresInside(m, w, index + 1, bs);
    } else if bs != [] {
      var front := bs[..|bs| - 1];
      assert bs == front + [bs[|bs| - 1]];
      StoresAppend(m, w, index + 1, front, bs[|bs| - 1]);
      StoresInside(m, w, index + 1, front);
    }
  }

  /** What one scheduling of the manager's thread did: the new status,
      whether it stopped at its wait, the next write address, whether the
      requested block was loaded into buffer 0, and the card addresses
      buffer 0 and buffer 1 were written to successfully. */
  datatype Pass = Pass(status: bv8, waiting: bool, wBlockAddr: u32, read: bool,
                       wrote0: Option<u32>, wrote1: Option<u32>)

  /** A write attempt of the buffer with flag `bit`: its flag is cleared on
      success, the card is taken as lost on failure, and the
      communication bit is cleared again (sdcardMgr.c:154-175). */
  function WriteOutcome(s: bv8, bit: bv8, ok: bool): bv8
  {
    (if ok then s & !bit else s & !CardDetected) & !SdComActive
  }

  /** The card detection at the head of the thread (sdcardMgr.c:119-130):
      skipped when the thread resumes at its wait or the card is known;
      otherwise the card-detected bit is set when SD_init_card succeeds,
      and the communication bit is cleared either way. */
  function Detected(s: bv8, waiting: bool, initOk: bool): bv8
  {
    if !waiting && s & CardDetected == 0 then
      (if initOk then s | CardDetected else s) & !SdComActive
    else s
  }

  /** One scheduling of sdmgr_thread (sdcardMgr.c:112-182), with the
      outcomes of SD_init_card, SD_read_block and the two SD_write_block
      calls as inputs. A thread left at its wait resumes there and skips
      the detection. */
  function Sync(s: bv8, waiting: bool, addr: u32,
                initOk: bool, readOk: bool, write0Ok: bool, write1Ok: bool): (p: Pass)
  {
    var s1 := Detected(s, waiting, initOk);
    if s1 & (ReadBlock | Buffer0Full | Buffer1Full) == 0 then Pass(s1, true, addr, false, None, None)
    else if s1 & ReadBlock != 0 then
      Pass((if readOk then s1 & !ReadBlock else s1) & !SdComActive, false, addr, readOk, None, None)
    else Writes(s1, addr, write0Ok, write1Ok)
  }

  /** The writes of a pass with no read pending (sdcardMgr.c:153-175):
      buffer 0 first when full, then buffer 1 when full, each at the next
      write address. */
  function Writes(s1: bv8, addr: u32, write0Ok: bool, write1Ok: bool): (p: Pass)
  {
    var try0 := s1 & Buffer0Full != 0;
    var s2 := if try0 then WriteOutcome(s1, Buffer0Full, write0Ok) else s1;
    var a2 := if try0 then Inc32(addr) else addr;
    var try1 := s2 & Buffer1Full != 0;
    var s3 := if try1 then WriteOutcome(s2, Buffer1Full, write1Ok) else s2;
    var a3 := if try1 then Inc32(a2) else a2;
    Pass(s3, false, a3, false,
      if try0 && write0Ok then Some(addr) else None,
      if try1 && write1Ok then Some(a2) else None)
  }

  /** The card once the pass `p` has stored `b0` and `b1` where it wrote
      buffer 0 and buffer 1. */
  function Stored(card: map<u32, seq<u8>>, p: Pass, b0: seq<u8>, b1: seq<u8>): map<u32, seq<u8>>
  {
    var c := if p.wrote0.Some? then card[p.wrote0.value := b0] else card;
    if p.wrote1.Some? then c[p.wrote1.value := b1] else c
  }

  /** A pending read is served first and alone: no block is written in that
      pass, and the read request is withdrawn exactly when the read
      succeeded. With nothing pending the thread stays at its wait. */
  lemma SyncReadsFirst(s: bv8, waiting: bool, addr: u32,
                       initOk: bool, readOk: bool, write0Ok: bool, write1Ok: bool)
    ensures var p := Sync(s, waiting, addr, initOk, readOk, write0Ok, write1Ok);
      && (s & ReadBlock != 0 ==>
            && p.wrote0.None? && p.wrote1.None? && p.wBlockAddr == addr && !p.waiting
            && p.read == readOk && (p.status & ReadBlock == 0 <==> readOk)
            && p.status & (Buffer0Full | Buffer1Full) == s & (Buffer0Full | Buffer1Full))
      && (s & (ReadBlock | Buffer0Full | Buffer1Full) == 0 ==>
            p.waiting && !p.read && p.wrote0.None? && p.wrote1.None? && p.wBlockAddr == addr)
  {
  }

  /** With no read pending, each full buffer is written to the next block
      address: its flag is cleared exactly when the write succeeded, a
      failed write clears the card-detected bit instead, and the address
      advances after every attempt, successful or not. */
  lemma SyncWritesFullBuffers(s: bv8, waiting: bool, addr: u32,
                              initOk: bool, readOk: bool, write0Ok: bool, write1Ok: bool)
    requires s & ReadBlock == 0
    ensures var p := Sync(s, waiting, addr, initOk, readOk, write0Ok, write1Ok);
      var try0, try1 := IsFull(s, Buf0), IsFull(s, Buf1);
      var attempts := (if try0 then 1 else 0) + (if try1 then 1 else 0);
      && !p.read
      && (try0 ==>
            (p.wrote0 == if write0Ok then Some(addr) else None) && (IsFull(p.status, Buf0) <==> !write0Ok))
      && (!try0 ==> p.wrote0.None? && !IsFull(p.status, Buf0))
      && (try1 ==>
            && (p.wrote1 == if write1Ok then Some((addr + (if try0 then 1 else 0)) % 0x1_0000_0000) else None)
            && (IsFull(p.status, Buf1) <==> !write1Ok))
      && (!try1 ==> p.wrote1.None? && !IsFull(p.status, Buf1))
      && ((try0 && !write0Ok) || (try1 && !write1Ok) ==> p.status & CardDetected == 0)
      && p.wBlockAddr == (addr + attempts) % 0x1_0000_0000
      && (attempts > 0 ==> p.status & SdComActive == 0 && !p.waiting)
  {
  }

  /** The static `SDMGR` record. `buffer0` and `buffer1` are the two
      buffers, `current` the buffer the `buffer` pointer designates,
      `spill` the bytes the copy stored past buffer 1 (over that pointer),
      `waiting` the protothread's saved position (at its wait or not), and
      `card` the blocks the card has accepted, by address. */
  class Manager {
    var status: bv8
    var wBlockAddr: u32
    var rBlockAddr: u32
    const buffer0: array<u8>
    const buffer1: array<u8>
    var current: Which
    var spill: seq<u8>
    var index: nat
    var waiting: bool
    var card: map<u32, seq<u8>>

    function Buf(w: Which): array<u8>
    {
      if w == Buf0 then buffer0 else buffer1
    }

    function View(): Flags
      reads this
    {
      Flags(status, current, index)
    }

    function Mem(): Memory
      reads this, buffer0, buffer1
    {
      Memory(buffer0[..], buffer1[..], spill)
    }

    /** Two distinct 512-byte buffers. */
    ghost predicate Shape()
      reads this
    {
      buffer0.Length == BlockSize && buffer1.Length == BlockSize && buffer0 != buffer1
    }

    /** Between calls the index is inside the block. */
    ghost predicate Valid()
      reads this
    {
      Shape() && index < BlockSize
    }

    /** The zeroed static storage, with a card holding `card`. */
    constructor (card: map<u32, seq<u8>>)
      ensures Valid() && fresh(buffer0) && fresh(buffer1)
      ensures status == 0 && wBlockAddr == 0 && rBlockAddr == 0 && current == Buf0
      ensures index == 0 && !waiting && this.card == card && spill == []
    {
      buffer0 := new u8[BlockSize](_ => 0);
      buffer1 := new u8[BlockSize](_ => 0);
      status, wBlockAddr, rBlockAddr, current, index, waiting := 0, 0, 0, Buf0, 0, false;
      spill := [];
      this.card := card;
    }

    /** SDMGR_init (sdcardMgr.c:189-204): status and addresses cleared,
        writes start at index 0 of buffer 0, and the thread starts over. */
    method Init()
      requires Valid()
      modifies this
      ensures Valid() && status == 0 && wBlockAddr == 0 && rBlockAddr == 0
      ensures current == Buf0 && index == 0 && !waiting && card == old(card) && spill == old(spill)
    {
      status, wBlockAddr, rBlockAddr, current, index, waiting := 0, 0, 0, Buf0, 0, false;
    }

    /** SDMGR_is_sdcard_detected (sdcardMgr.c:66-69). */
    method IsSdcardDetected() returns (r: Answer)
      ensures r == OK <==> status & CardDetected != 0
    {
      r := if status & CardDetected != 0 then OK else KO;
    }

    /** SDMGR_is_sdcard_communicating (sdcardMgr.c:76-79). */
    method IsSdcardCommunicating() returns (r: Answer)
      ensures r == OK <==> status & SdComActive != 0
    {
      r := if status & SdComActive != 0 then OK else KO;
    }

    /** SDMGR_set_block_addr (sdcardMgr.c:226-229). */
    method SetBlockAddr(addr: u32)
      modifies this
      ensures wBlockAddr == addr
      ensures status == old(status) && rBlockAddr == old(rBlockAddr) && current == old(current)
      ensures index == old(index) && waiting == old(waiting) && card == old(card) && spill == old(spill)
    {
      wBlockAddr := addr;
    }

    /** SDMGR_get_block_addr (sdcardMgr.c:236-239). */
    method GetBlockAddr() returns (addr: u32)
      ensures addr == wBlockAddr
    {
      addr := wBlockAddr;
    }

    /** SDMGR_are_buffers_full (sdcardMgr.c:247-251): true exactly when both
        buffers wait for the card. */
    method AreBuffersFull() returns (r: bool)
      ensures r <==> IsFull(status, Buf0) && IsFull(status, Buf1)
    {
      r := status & (Buffer0Full | Buffer1Full) == Buffer0Full | Buffer1Full;
    }

    /** SDMGR_is_buffer_full (sdcardMgr.c:258-285): the flag of the current
        buffer, as the masked status byte. */
    method IsBufferFull() returns (r: bv8)
      ensures r == status & FullBit(current)
      ensures r != 0 <==> IsFull(status, current)
    {
      if current == Buf0 {
        r := status & Buffer0Full;
      } else {
        r := status & Buffer1Full;
      }
    }

    /** SDMGR_swapBuffers (sdcardMgr.c:294-315), as Swap says; the buffers'
        contents do not change. */
    method SwapBuffers() returns (ok: Answer)
      requires Shape()
      modifies this
      ensures Valid() && (ok, View()) == Swap(old(View()))
      ensures wBlockAddr == old(wBlockAddr) && rBlockAddr == old(rBlockAddr)
      ensures waiting == old(waiting) && card == old(card) && spill == old(spill)
    {
      if current == Buf0 {
        status := status | Buffer0Full;
        index := 0;
        if status & Buffer1Full != 0 {
          return KO;
        }
        current := Buf1;
      } else {
        status := status | Buffer1Full;
        index := 0;
        if status & Buffer0Full != 0 {
          return KO;
        }
        current := Buf0;
      }
      return OK;
    }

    /** SDMGR_flush (sdcardMgr.c:322-325): the current buffer is handed to
        the card whatever it holds; the swap's answer is dropped. */
    method Flush()
      requires Valid()
      modifies this
      ensures Valid() && View() == Swap(old(View())).1
      ensures wBlockAddr == old(wBlockAddr) && rBlockAddr == old(rBlockAddr)
      ensures waiting == old(waiting) && card == old(card) && spill == old(spill)
    {
      var _ := SwapBuffers();
    }

    /** SDMGR_flush_is_fini (sdcardMgr.c:332-335): OK once neither buffer
        waits for the card. */
    method FlushIsFini() returns (r: Answer)
      ensures r == OK <==> !IsFull(status, Buf0) && !IsFull(status, Buf1)
    {
      r := if status & (Buffer0Full | Buffer1Full) != 0 then KO else OK;
    }

    /** Lines 346-360 of SDMGR_write, as PreCopy says. */
    method MakeRoom(len: u8) returns (ok: Answer)
      requires Valid()
      modifies this
      ensures Valid() && (ok, View()) == PreCopy(old(View()), len)
      ensures wBlockAddr == old(wBlockAddr) && rBlockAddr == old(rBlockAddr)
      ensures waiting == old(waiting) && card == old(card) && spill == old(spill)
    {
      var full := AreBuffersFull();
      if full {
        return KO;
      }
      var cur := IsBufferFull();
      ok := OK;
      if cur != 0 {
        ok := SwapBuffers();
        if ok != OK {
          return KO;
        }
      }
      if index + len as int > BlockSize {
        ok := SwapBuffers();
      }
    }

    /** The copy loop of SDMGR_write (sdcardMgr.c:363-366) as written: the
        index is incremented before each store, so the bytes go to slots
        `index + 1` to `index + len` of the current buffer (the last one past
        it when it reaches slot 512), as Stores says; the index ends past
        them. */
    method Copy(data: seq<u8>, len: u8)
      requires Valid() && len as int <= |data| && index + len as int <= BlockSize
      modifies this, buffer0, buffer1
      ensures Shape() && View() == old(View()).(index := old(index) + len as int)
      ensures Mem() == Stores(old(Mem()), current, old(index) + 1, data[..len])
      ensures wBlockAddr == old(wBlockAddr) && rBlockAddr == old(rBlockAddr)
      ensures waiting == old(waiting) && card == old(card)
    {
      ghost var start, before := index, Mem();
      var i: u8 := 0;
      while i < len
        invariant i <= len && index == start + i as int
        invariant Shape() && Mem() == Stores(before, current, start + 1, data[..i])
        invariant status == old(status) && current == old(current)
        invariant wBlockAddr == old(wBlockAddr) && rBlockAddr == old(rBlockAddr)
        invariant waiting == old(waiting) && card == old(card)
      {
        index := index + 1;
        StoreByte(index, data[i]);
        StoresAppend(before, current, start + 1, data[..i], data[i]);
        assert data[..i + 1] == data[..i] + [data[i]];
        i := i + 1;
      }
    }

    /** One store `SDMGR.buffer[slot] = b`, as StoreAt says. */
    method StoreByte(slot: nat, b: u8)
      requires Shape() && slot <= BlockSize
      modifies this, buffer0, buffer1
      ensures Shape() && Mem() == StoreAt(old(Mem()), current, slot, b)
      ensures status == old(status) && current == old(current) && index == old(index)
      ensures wBlockAddr == old(wBlockAddr) && rBlockAddr == old(rBlockAddr)
      ensures waiting == old(waiting) && card == old(card)
    {
      if slot < BlockSize {
        if current == Buf0 {
          buffer0[slot] := b;
        } else {
          buffer1[slot] := b;
        }
      } else if current == Buf0 {
        buffer1[0] := b;
      } else {
        spill := spill + [b];
      }
    }

    /** Lines 368-371 of SDMGR_write: a buffer filled to the end is swapped
        at once, whatever the swap answers. */
    method Finish()
      requires Shape() && index <= BlockSize
      modifies this
      ensures Valid() && View() == if old(index) >= BlockSize then Swap(old(View())).1 else old(View())
      ensures wBlockAddr == old(wBlockAddr) && rBlockAddr == old(rBlockAddr)
      ensures waiting == old(waiting) && card == old(card) && spill == old(spill)
    {
      if index >= BlockSize {
        var _ := SwapBuffers();
      }
    }

    /** SDMGR_write (sdcardMgr.c:344-373): the answer and the flags follow
        PreCopy and PostCopy; an accepted write stores `data[..len]` from
        the slot after the index PreCopy chose, as Stores says (see
        CopyAsWrittenPlaces), and a refused one changes no byte. */
    method Write(data: seq<u8>, len: u8) returns (ok: Answer)
      requires Valid() && len as int <= |data|
      modifies this, buffer0, buffer1
      ensures Valid() && wBlockAddr == old(wBlockAddr) && rBlockAddr == old(rBlockAddr)
      ensures waiting == old(waiting) && card == old(card)
      ensures var (pre, f) := PreCopy(old(View()), len);
        && ok == pre
        && (pre == KO ==> View() == f && Mem() == old(Mem()))
        && (pre == OK ==>
              View() == PostCopy(f, len) && Mem() == Stores(old(Mem()), f.current, f.index + 1, data[..len]))
    {
      ghost var before := View();
      ok := MakeRoom(len);
      if ok != OK {
        return;
      }
      Copy(data, len);
      Finish();
    }

    /** SDMGR_read (sdcardMgr.c:381-387): the block address is recorded,
        the thread is asked to load it, and buffer 0 is handed out as the
        place it will be found. */
    method Read(addr: u32) returns (ok: Answer, data: array<u8>)
      modifies this
      ensures ok == OK && data == buffer0
      ensures rBlockAddr == addr && status == old(status) | ReadBlock
      ensures wBlockAddr == old(wBlockAddr) && current == old(current) && index == old(index)
      ensures waiting == old(waiting) && card == old(card) && spill == old(spill)
    {
      rBlockAddr := addr;
      data := buffer0;
      status := status | ReadBlock;
      ok := OK;
    }

    /** SDMGR_read_is_fini (sdcardMgr.c:393-396): OK once the read request
        has been served. */
    method ReadIsFini() returns (r: Answer)
      ensures r == OK <==> status & ReadBlock == 0
    {
      r := if status & ReadBlock != 0 then KO else OK;
    }

    /** sdcardMgr.c:119-130, as Detected says. */
    method Detect(initOk: bool)
      modifies this
      ensures status == Detected(old(status), waiting, initOk)
      ensures wBlockAddr == old(wBlockAddr) && rBlockAddr == old(rBlockAddr) && current == old(current)
      ensures index == old(index) && waiting == old(waiting) && card == old(card) && spill == old(spill)
    {
      if !waiting && status & CardDetected == 0 {
        var s := status | SdComActive;
        if initOk {
          s := (s & !SdComActive) | CardDetected;
        } else {
          s := s & !SdComActive;
        }
        status := s;
      }
    }

    /** sdcardMgr.c:141-150: buffer 0 takes the block when SD_read_block
        succeeds, which also withdraws the request. */
    method ServeRead(readOk: bool, block: seq<u8>)
      requires Shape() && |block| == BlockSize
      modifies this, buffer0
      ensures status == (if readOk then old(status) & !ReadBlock else old(status)) & !SdComActive
      ensures buffer0[..] == if readOk then block else old(buffer0[..])
      ensures wBlockAddr == old(wBlockAddr) && rBlockAddr == old(rBlockAddr) && current == old(current)
      ensures index == old(index) && waiting == old(waiting) && card == old(card) && spill == old(spill)
    {
      var s := status | SdComActive;
      if readOk {
        forall k | 0 <= k < BlockSize {
          buffer0[k] := block[k];
        }
        s := s & !ReadBlock;
      }
      status := s & !SdComActive;
    }

    /** sdcardMgr.c:154-163 and 166-175: the buffer goes to the card at the
        write address, and the address moves on whether or not the card
        took it. */
    method WriteBack(w: Which, writeOk: bool)
      modifies this
      ensures status == WriteOutcome(old(status), FullBit(w), writeOk)
      ensures wBlockAddr == Inc32(old(wBlockAddr))
      ensures card == if writeOk then old(card)[old(wBlockAddr) := Buf(w)[..]] else old(card)
      ensures rBlockAddr == old(rBlockAddr) && current == old(current)
      ensures index == old(index) && waiting == old(waiting) && spill == old(spill)
    {
      var s := status | SdComActive;
      if writeOk {
        card := card[wBlockAddr := Buf(w)[..]];
        s := s & !FullBit(w);
      } else {
        s := s & !CardDetected;
      }
      wBlockAddr := Inc32(wBlockAddr);
      status := s & !SdComActive;
    }

    /** SDMGR_run (sdcardMgr.c:212-217): one scheduling of the thread, as
        Sync says. `block` is what the card holds at the read address;
        buffer 0 takes it when the read succeeds, and each successful write
        stores the buffer at its address on the card. */
    method Run(initOk: bool, readOk: bool, block: seq<u8>, write0Ok: bool, write1Ok: bool)
      requires Valid() && |block| == BlockSize
      modifies this, buffer0
      ensures Valid() && rBlockAddr == old(rBlockAddr) && current == old(current) && index == old(index)
      ensures spill == old(spill)
      ensures var p := Sync(old(status), old(waiting), old(wBlockAddr), initOk, readOk, write0Ok, write1Ok);
        && status == p.status && waiting == p.waiting && wBlockAddr == p.wBlockAddr
        && buffer0[..] == (if p.read then block else old(buffer0[..]))
        && card == Stored(old(card), p, old(buffer0[..]), buffer1[..])
    {
      Detect(initOk);
      if status & (ReadBlock | Buffer0Full | Buffer1Full) == 0 {
        waiting := true;
        return;
      }
      waiting := false;
      if status & ReadBlock != 0 {
        ServeRead(readOk, block);
        return;
      }
      WriteFullBuffers(write0Ok, write1Ok);
    }

    /** sdcardMgr.c:153-175, as Writes says. */
    method WriteFullBuffers(write0Ok: bool, write1Ok: bool)
      modifies this
      ensures var p := Writes(old(status), old(wBlockAddr), write0Ok, write1Ok);
        && status == p.status && wBlockAddr == p.wBlockAddr
        && card == Stored(old(card), p, buffer0[..], buffer1[..])
      ensures rBlockAddr == old(rBlockAddr) && current == old(current)
      ensures index == old(index) && waiting == old(waiting) && spill == old(spill)
    {
      if status & Buffer0Full != 0 {
        WriteBack(Buf0, write0Ok);
      }
      if status & Buffer1Full != 0 {
        WriteBack(Buf1, write1Ok);
      }
    }
  }
}
