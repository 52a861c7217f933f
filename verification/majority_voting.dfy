/** The 2-out-of-3 majority voting of utils/majority_voting.c. Each of three
    redundant components stamps its own copy of a data block, sends it to
    the two others and compares it with the copies they sent. A voter keeps
    its own block (`self`) and the last block received from each of the two
    other components. */
module MajorityVoting {
  import opened TypeDef

  const VoterNb := 5
  const VoterDataSize := 20
  /** sizeof(struct voter_block): a 32-bit timestamp, the id, the length
      and the 20 data bytes, without padding on the AVR. */
  const BlockSize := 26
  const OpenWindowDelay := 7
  const CloseWindowDelay := 3

  /** enum voter_result. */
  datatype VoterResult =
    | Unknown | Ok
    | ThreeOnThree | TwoOnThree | OneOnThree
    | TwoOnTwo | OneOnTwo | OneOnOne

  /** enum voter_origin: which of the two other components a block comes
      from, or goes to. */
  datatype Origin = Other0 | Other1

  /** struct voter_block. */
  datatype Block = Block(timestamp: u32, id: u8, dataLen: u8, data: seq<u8>)

  predicate WellSized(b: Block)
  {
    |b.data| == VoterDataSize
  }

  /** struct voter; the `maj` function pointer is kept as an identifier. */
  datatype Voter = Voter(self: Block, other0: Block, other1: Block, maj: nat)

  predicate WellFormed(v: Voter)
  {
    WellSized(v.self) && WellSized(v.other0) && WellSized(v.other1)
  }

  /** The number of data bytes a block's length covers within its array. */
  function Span(b: Block): (n: nat)
    ensures n <= VoterDataSize && (b.dataLen <= VoterDataSize ==> n == b.dataLen)
  {
    if b.dataLen <= VoterDataSize then b.dataLen as nat else VoterDataSize
  }

  /** Two blocks carry the same vote: same length and the same bytes
      within it. */
  predicate Agree(a: Block, b: Block)
    requires WellSized(a) && WellSized(b)
  {
    a.dataLen == b.dataLen && forall i :: 0 <= i < Span(a) ==> a.data[i] == b.data[i]
  }

  /** Agreement is an equivalence: a block agrees with itself, the relation
      is symmetric, and two blocks that agree with a third agree with each
      other. */
  lemma AgreeIsEquivalence(a: Block, b: Block, c: Block)
    requires WellSized(a) && WellSized(b) && WellSized(c)
    ensures Agree(a, a)
    ensures Agree(a, b) <==> Agree(b, a)
    ensures Agree(a, b) && Agree(b, c) ==> Agree(a, c)
  {
  }

  /** mjv_vote_check_2 (majority_voting.c:55-66): 1_ON_2 when the lengths
      differ or the bytes within the length differ, 2_ON_2 otherwise. */
  function Check2(self: Block, other: Block): (r: VoterResult)
    requires WellSized(self) && WellSized(other)
    ensures r == TwoOnTwo || r == OneOnTwo
    ensures r == TwoOnTwo <==> Agree(self, other)
  {
    if self.dataLen != other.dataLen then OneOnTwo
    else if self.data[..Span(self)] != other.data[..Span(self)] then
      assert exists i :: 0 <= i < Span(self) && self.data[i] != other.data[i] by {
        var i :| 0 <= i < Span(self) && self.data[..Span(self)][i] != other.data[..Span(self)][i];
      }
      OneOnTwo
    else
      assert forall i :: 0 <= i < Span(self) ==> self.data[i] == self.data[..Span(self)][i];
      TwoOnTwo
  }

  /** `self` takes the length and the data bytes within it of `src`; the
      bytes past the copied length keep their old value. */
  function CopyData(self: Block, src: Block): (r: Block)
    requires WellSized(self) && WellSized(src)
    ensures WellSized(r) && Agree(r, src)
    ensures r.timestamp == self.timestamp && r.id == self.id
  {
    self.(dataLen := src.dataLen, data := src.data[..Span(src)] + self.data[Span(src)..])
  }

  /** mjv_vote_check_3 (majority_voting.c:68-99): the result of the three
      comparisons, and the new self block, overwritten by other0's vote when
      the two other components agree. */
  function Check3(v: Voter): (r: (VoterResult, Block))
    requires WellFormed(v)
    ensures WellSized(r.1)
  {
    var s0 := Check2(v.self, v.other0);
    var s1 := Check2(v.self, v.other1);
    var o01 := Check2(v.other0, v.other1);
    var self' := if o01 == TwoOnTwo then CopyData(v.self, v.other0) else v.self;
    if s0 == TwoOnTwo && s1 == TwoOnTwo && o01 == TwoOnTwo then (ThreeOnThree, self')
    else if s0 != TwoOnTwo && s1 != TwoOnTwo && o01 != TwoOnTwo then (OneOnThree, self')
    else (TwoOnThree, self')
  }

  /** 3_ON_3 exactly when every pair agrees, 1_ON_3 exactly when no pair
      does, and otherwise 2_ON_3, which (agreement being an equivalence)
      means exactly one pair agrees. */
  lemma Check3Counts(v: Voter)
    requires WellFormed(v)
    ensures var (res, _) := Check3(v);
      var a, b, c := Agree(v.self, v.other0), Agree(v.self, v.other1), Agree(v.other0, v.other1);
      && (res == ThreeOnThree <==> a && b && c)
      && (res == OneOnThree <==> !a && !b && !c)
      && (res == TwoOnThree <==> (a && !b && !c) || (!a && b && !c) || (!a && !b && c))
  {
    AgreeIsEquivalence(v.self, v.other0, v.other1);
    AgreeIsEquivalence(v.other0, v.self, v.other1);
    AgreeIsEquivalence(v.self, v.other1, v.other0);
  }

  /** The self block is overwritten exactly when other0 and other1 agree:
      it then carries their common vote, with its own timestamp and id;
      otherwise it is left as it was. */
  lemma Check3Overwrites(v: Voter)
    requires WellFormed(v)
    ensures var (_, self') := Check3(v);
      && (Agree(v.other0, v.other1) ==>
            Agree(self', v.other0) && Agree(self', v.other1)
            && self'.timestamp == v.self.timestamp && self'.id == v.self.id)
      && (!Agree(v.other0, v.other1) ==> self' == v.self)
  {
    var (_, self') := Check3(v);
    if Agree(v.other0, v.other1) {
      AgreeIsEquivalence(self', v.other0, v.other1);
    }
  }

  /** After 3_ON_3 or 2_ON_3 the self block holds a vote that at least one
      other component shares: two components out of three back it. After
      1_ON_3 it is unchanged. */
  lemma Check3KeepsMajority(v: Voter)
    requires WellFormed(v)
    ensures var (res, self') := Check3(v);
      && (res != OneOnThree ==> Agree(self', v.other0) || Agree(self', v.other1))
      && (res == OneOnThree ==> self' == v.self)
  {
    Check3Counts(v);
    Check3Overwrites(v);
  }

  /** The arrival window around a self timestamp: another block counts when
      its timestamp lies strictly between `stamp - 7` and `stamp + 3`, both
      computed on 32 bits (majority_voting.c:108-118). */
  predicate InWindow(stamp: u32, other: u32)
  {
    var open := (stamp - OpenWindowDelay) % 0x1_0000_0000;
    var close := (stamp + CloseWindowDelay) % 0x1_0000_0000;
    open < other < close
  }

  /** Away from the ends of the 32-bit range the window is the plain
      interval; within 7 ticks after a wrap-around or 3 before one, it is
      empty, so no other block can ever count. */
  lemma WindowBounds(stamp: u32, other: u32)
    ensures OpenWindowDelay <= stamp && stamp + CloseWindowDelay < 0x1_0000_0000 ==>
      (InWindow(stamp, other) <==> stamp - OpenWindowDelay < other < stamp + CloseWindowDelay)
    ensures stamp < OpenWindowDelay || stamp + CloseWindowDelay >= 0x1_0000_0000 ==>
      !InWindow(stamp, other)
  {
  }

  /** The decision of mjv_vote_check (majority_voting.c:129-143) for any
      outcome of the wait: `timedOut` is `close_time < time` on leaving it,
      and `polled` says whether its body ran, in which case each other
      block's flag is whether its timestamp was in the window; flags never
      evaluated stay 0. */
  function Decide(v: Voter, timedOut: bool, polled: bool): (r: (VoterResult, Block))
    requires WellFormed(v)
    ensures WellSized(r.1)
  {
    var o0 := polled && InWindow(v.self.timestamp, v.other0.timestamp);
    var o1 := polled && InWindow(v.self.timestamp, v.other1.timestamp);
    if timedOut then (OneOnOne, v.self)
    else if !o0 then (Check2(v.self, v.other1), v.self)
    else if !o1 then (Check2(v.self, v.other0), v.self)
    else Check3(v)
  }

  /** A time-out gives 1_ON_1; with one block missing from the window the
      vote is 2_ON_2 exactly when self agrees with the other one, else
      1_ON_2; with both in the window it is the three-way vote. Only the
      three-way vote changes the self block. */
  lemma DecideOutcome(v: Voter, timedOut: bool, polled: bool)
    requires WellFormed(v)
    ensures var (res, self') := Decide(v, timedOut, polled);
      var o0 := polled && InWindow(v.self.timestamp, v.other0.timestamp);
      var o1 := polled && InWindow(v.self.timestamp, v.other1.timestamp);
      && (timedOut ==> res == OneOnOne)
      && (!timedOut && !o0 ==>
            (res == TwoOnTwo <==> Agree(v.self, v.other1)) && (res == OneOnTwo <==> !Agree(v.self, v.other1)))
      && (!timedOut && o0 && !o1 ==>
            (res == TwoOnTwo <==> Agree(v.self, v.other0)) && (res == OneOnTwo <==> !Agree(v.self, v.other0)))
      && (!timedOut && o0 && o1 ==> res in {ThreeOnThree, TwoOnThree, OneOnThree})
      && (res !in {ThreeOnThree, TwoOnThree, OneOnThree} ==> self' == v.self)
  {
  }

  /** Whether the wait loop of mjv_vote_check (majority_voting.c:114) runs
      at all: the clock reading taken before it is past `close_time`. */
  predicate WaitEntered(stamp: u32, reading: u32)
  {
    (stamp + CloseWindowDelay) % 0x1_0000_0000 < reading
  }

  /** The wait as written (majority_voting.c:114-127), the other blocks not
      changing meanwhile, and the decision after it. Not entered, both flags
      stay 0: check_2 with other1. Entered with both blocks in the window,
      the loop breaks while `close_time < time` still holds: 1_ON_1.
      Entered otherwise, the flags are never both set, so the loop only ends
      at a reading at or before `close_time`: check_2 with other1 when
      other0 is out of the window, else with other0. */
  function DecideAsWritten(v: Voter, entered: bool): (r: VoterResult)
    requires WellFormed(v)
  {
    var in0 := InWindow(v.self.timestamp, v.other0.timestamp);
    var in1 := InWindow(v.self.timestamp, v.other1.timestamp);
    if !entered then Check2(v.self, v.other1)
    else if in0 && in1 then OneOnOne
    else if !in0 then Check2(v.self, v.other1)
    else Check2(v.self, v.other0)
  }

  /** As written, the wait can only hand Decide the inputs
      (`entered && both in the window`, `entered`), and under those it never
      yields 3_ON_3, 2_ON_3 or 1_ON_3: check_3 is never reached, and the self
      block is never overwritten. */
  lemma DecideAsWrittenNeverThree(v: Voter, entered: bool)
    requires WellFormed(v)
    ensures var both := InWindow(v.self.timestamp, v.other0.timestamp)
                        && InWindow(v.self.timestamp, v.other1.timestamp);
      && Decide(v, entered && both, entered) == (DecideAsWritten(v, entered), v.self)
      && DecideAsWritten(v, entered) in {TwoOnTwo, OneOnTwo, OneOnOne}
      && (!entered ==> DecideAsWritten(v, entered) == Check2(v.self, v.other1))
  {
  }

  /** The wait its comments describe, polling while the window is open
      (loop condition `time < close_time`), the other blocks not changing
      meanwhile: `first` is the reading before the loop and `last` the
      reading that ended it. It breaks, not timed out, when both blocks are
      in the window; otherwise it ends with the window's flags, timed out
      when the reading that ended it is past `close_time`. The
      (timedOut, polled) inputs of Decide it leads to. */
  function WaitAsIntended(v: Voter, first: u32, last: u32): (bool, bool)
  {
    var close := (v.self.timestamp + CloseWindowDelay) % 0x1_0000_0000;
    var both := InWindow(v.self.timestamp, v.other0.timestamp)
                && InWindow(v.self.timestamp, v.other1.timestamp);
    if first < close then (if both then (false, true) else (close < last, true))
    else (close < first, false)
  }

  /** With that wait, both blocks in the window before `close_time` reach
      the three-way vote, and a wait that ends past `close_time` with a
      block missing gives 1_ON_1. */
  lemma IntendedWaitReachesThreeWay(v: Voter, first: u32, last: u32)
    requires WellFormed(v)
    ensures var close := (v.self.timestamp + CloseWindowDelay) % 0x1_0000_0000;
      var both := InWindow(v.self.timestamp, v.other0.timestamp)
                  && InWindow(v.self.timestamp, v.other1.timestamp);
      var (timedOut, polled) := WaitAsIntended(v, first, last);
      && (first < close && both ==> Decide(v, timedOut, polled) == Check3(v))
      && (first < close && !both && close < last ==> Decide(v, timedOut, polled).0 == OneOnOne)
  {
  }

  /** The self block once mjv_vote has stamped it and copied the caller's
      `len` bytes in, with its length set to `len` as the block's meaning
      requires. */
  function Stamp(self: Block, now: u32, data: seq<u8>, len: u8): (b: Block)
    requires WellSized(self) && |data| == VoterDataSize && len as int <= VoterDataSize
    ensures WellSized(b) && b.id == self.id
  {
    self.(timestamp := now, dataLen := len, data := data[..len] + self.data[len..])
  }

  /** mjv_vote as written (majority_voting.c:205-206): the timestamp and
      the caller's bytes (at most the 20 of the array) are stored, but
      `self.data_len` keeps its old value. */
  function StampAsWritten(self: Block, now: u32, data: seq<u8>, len: u8): (b: Block)
    requires WellSized(self) && len as int <= |data|
    ensures WellSized(b) && b.dataLen == self.dataLen && b.id == self.id && b.timestamp == now
    ensures len as int <= VoterDataSize ==> b.data[..len] == data[..len]
  {
    var n := if len as int <= VoterDataSize then len as int else VoterDataSize;
    self.(timestamp := now, data := data[..n] + self.data[n..])
  }

  /** A stamped self block agrees with another block exactly when that
      block carries the caller's length and bytes. */
  lemma StampAgreesWithSameVote(self: Block, now: u32, data: seq<u8>, len: u8, other: Block)
    requires WellSized(self) && |data| == VoterDataSize && len as int <= VoterDataSize
    requires WellSized(other)
    ensures Agree(Stamp(self, now, data, len), other) <==>
      other.dataLen == len && other.data[..len] == data[..len]
  {
    var b := Stamp(self, now, data, len);
    if other.dataLen == len && other.data[..len] == data[..len] {
      forall i | 0 <= i < len ensures b.data[i] == other.data[i] {
        assert other.data[..len][i] == data[..len][i];
      }
    }
    if Agree(b, other) {
      assert other.data[..len] == data[..len];
    }
  }

  /** The first vote of a voter (its length still 0 from the zeroed
      storage) on 3 bytes, while the other component sent the very same 3
      bytes: as written the lengths 0 and 3 differ and the vote is 1_ON_2;
      with the length set it is 2_ON_2. */
  lemma StaleLengthSplitsAgreement()
    ensures var zero := Block(0, 0, 0, seq(VoterDataSize, _ => 0));
      var data := [1, 2, 3] + seq(VoterDataSize - 3, _ => 0);
      var other := Block(0, 0, 3, data);
      && Check2(StampAsWritten(zero, 0, data, 3), other) == OneOnTwo
      && Check2(Stamp(zero, 0, data, 3), other) == TwoOnTwo
  {
    var zero := Block(0, 0, 0, seq(VoterDataSize, _ => 0));
    var data := [1, 2, 3] + seq(VoterDataSize - 3, _ => 0);
    StampAgreesWithSameVote(zero, 0, data, 3, Block(0, 0, 3, data));
  }

  /** What mjv_vote hands back: its result, the voter afterwards, and the
      caller's data buffer and length. */
  datatype Outcome = Outcome(res: VoterResult, voter: Voter, data: seq<u8>, len: u8)

  /** mjv_vote on a known voter (majority_voting.c:202-240) with the self
      length set (Stamp) and any outcome of the wait, such as the one its
      comments describe (WaitAsIntended): the self block is stamped, the
      wait decides, and for 2_ON_3 and 1_ON_3 the self block's length and
      bytes are copied back to the caller. */
  function VoteOn(v: Voter, data: seq<u8>, len: u8, now: u32, timedOut: bool, polled: bool): (o: Outcome)
    requires WellFormed(v) && |data| == VoterDataSize && len as int <= VoterDataSize
    ensures WellFormed(o.voter) && |o.data| == VoterDataSize
    ensures o.voter.other0 == v.other0 && o.voter.other1 == v.other1 && o.voter.maj == v.maj
  {
    var stamped := v.(self := Stamp(v.self, now, data, len));
    var (res, self') := Decide(stamped, timedOut, polled);
    if res == TwoOnThree || res == OneOnThree then
      Outcome(res, stamped.(self := self'),
        self'.data[..Span(self')] + data[Span(self')..], self'.dataLen)
    else
      Outcome(res, stamped.(self := self'), data, len)
  }

  /** The caller's buffer and length change only on 2_ON_3 and 1_ON_3. On
      2_ON_3 they then hold a vote shared by two components; on 3_ON_3 and
      2_ON_2 the caller's own vote was confirmed by the others. */
  lemma VoteReturnsMajority(v: Voter, data: seq<u8>, len: u8, now: u32, timedOut: bool, polled: bool)
    requires WellFormed(v) && |data| == VoterDataSize && len as int <= VoterDataSize
    ensures var o := VoteOn(v, data, len, now, timedOut, polled);
      var returned := v.self.(dataLen := o.len, data := o.data);
      && (o.res !in {TwoOnThree, OneOnThree} ==> o.data == data && o.len == len)
      && (o.res == TwoOnThree ==> Agree(returned, v.other0) || Agree(returned, v.other1))
      && (o.res == OneOnThree ==> o.data == data && o.len == len)
      && (o.res == ThreeOnThree ==> (v.other0.dataLen == len && v.other0.data[..len] == data[..len]))
      && (o.res == TwoOnTwo ==>
            (v.other0.dataLen == len && v.other0.data[..len] == data[..len])
            || (v.other1.dataLen == len && v.other1.data[..len] == data[..len]))
  {
    var o := VoteOn(v, data, len, now, timedOut, polled);
    var stamped := v.(self := Stamp(v.self, now, data, len));
    var (res, self') := Decide(stamped, timedOut, polled);
    DecideOutcome(stamped, timedOut, polled);
    StampAgreesWithSameVote(v.self, now, data, len, v.other0);
    StampAgreesWithSameVote(v.self, now, data, len, v.other1);
    if res == TwoOnThree || res == OneOnThree {
      Check3KeepsMajority(stamped);
      var returned := v.self.(dataLen := o.len, data := o.data);
      assert forall i :: 0 <= i < Span(self') ==> returned.data[i] == self'.data[i];
      if res == OneOnThree {
        assert o.data == data;
      }
    } else if res == ThreeOnThree {
      Check3Counts(stamped);
    }
  }

  /** mjv_vote on a known voter as written (majority_voting.c:202-240):
      the self block is stamped without its length, the wait decides as
      DecideAsWritten says, and since that never gives 2_ON_3 or 1_ON_3 the
      caller's buffer and length are handed back untouched. */
  function VoteAsWritten(v: Voter, data: seq<u8>, len: u8, now: u32, reading: u32): (o: Outcome)
    requires WellFormed(v) && len as int <= |data|
    ensures WellFormed(o.voter) && o.data == data && o.len == len
    ensures o.voter == v.(self := StampAsWritten(v.self, now, data, len))
  {
    var stamped := v.(self := StampAsWritten(v.self, now, data, len));
    Outcome(DecideAsWritten(stamped, WaitEntered(now, reading)), stamped, data, len)
  }

  /** With its length still 0, a vote as written is 2_ON_2 with another
      block exactly when that block's length is 0, whatever bytes either
      carries; it is never a three-way result, and the self length stays 0.
      When the wait is not entered (the usual case, the next reading within
      three ticks of the stamp), other1 alone decides. */
  lemma VoteAsWrittenIgnoresData(v: Voter, data: seq<u8>, len: u8, now: u32, reading: u32)
    requires WellFormed(v) && len as int <= |data| && v.self.dataLen == 0
    ensures var o := VoteAsWritten(v, data, len, now, reading);
      && o.res in {TwoOnTwo, OneOnTwo, OneOnOne}
      && o.voter.self.dataLen == 0
      && (!WaitEntered(now, reading) ==> (o.res == TwoOnTwo <==> v.other1.dataLen == 0))
  {
    var stamped := v.(self := StampAsWritten(v.self, now, data, len));
    DecideAsWrittenNeverThree(stamped, WaitEntered(now, reading));
  }

  /** The 26-byte image of a block as the AVR lays it out in memory: the
      timestamp least significant byte first, the id, the length, the data. */
  function Encode(b: Block): (p: seq<u8>)
    requires WellSized(b)
    ensures |p| == BlockSize
  {
    var r1 := b.timestamp / 0x100;
    var r2 := r1 / 0x100;
    [b.timestamp % 0x100, r1 % 0x100, r2 % 0x100, r2 / 0x100, b.id, b.dataLen] + b.data
  }

  /** Four bytes read as a little-endian 32-bit word. */
  function Word(b0: u8, b1: u8, b2: u8, b3: u8): u32
  {
    b0 as int + 0x100 * (b1 as int + 0x100 * (b2 as int + 0x100 * b3 as int))
  }

  /** The block a 26-byte image stands for. */
  function Decode(p: seq<u8>): (b: Block)
    requires |p| == BlockSize
    ensures WellSized(b)
  {
    Block(Word(p[0], p[1], p[2], p[3]), p[4], p[5], p[6..])
  }

  lemma DecodeEncode(b: Block)
    requires WellSized(b)
    ensures Decode(Encode(b)) == b
  {
    var t := b.timestamp;
    var r1 := t / 0x100;
    var r2 := r1 / 0x100;
    assert r2 == r2 % 0x100 + 0x100 * (r2 / 0x100);
    assert r1 == r1 % 0x100 + 0x100 * r2;
    assert t == t % 0x100 + 0x100 * r1;
  }

  lemma EncodeDecode(p: seq<u8>)
    requires |p| == BlockSize
    ensures Encode(Decode(p)) == p
  {
    var hi := p[2] as int + 0x100 * p[3] as int;
    var mid := p[1] as int + 0x100 * hi;
    DivModByte(mid, p[0]);
    DivModByte(hi, p[1]);
    DivModByte(p[3], p[2]);
    assert Decode(p).data == p[6..];
  }

  lemma DivModByte(q: nat, r: u8)
    ensures (0x100 * q + r) / 0x100 == q && (0x100 * q + r) % 0x100 == r
  {
  }

  /** A received packet of `n` bytes copied over a block: the block whose
      image is the packet followed by the rest of the old image. */
  function Overlay(b: Block, packet: seq<u8>, n: nat): (r: Block)
    requires WellSized(b) && n <= BlockSize && n <= |packet|
    ensures WellSized(r)
  {
    Decode(packet[..n] + Encode(b)[n..])
  }

  /** The image of the received block is the packet followed by the old
      block's remaining bytes; once the header is covered, the timestamp,
      id and length are the packet's and each data byte comes from the
      packet when the packet reaches it and is the old one otherwise. */
  lemma OverlayFields(b: Block, packet: seq<u8>, n: nat)
    requires WellSized(b) && n <= BlockSize && n <= |packet|
    ensures Encode(Overlay(b, packet, n)) == packet[..n] + Encode(b)[n..]
    ensures n >= 6 ==> var r := Overlay(b, packet, n);
      && r.timestamp == Word(packet[0], packet[1], packet[2], packet[3])
      && r.id == packet[4] && r.dataLen == packet[5]
      && (forall i :: 0 <= i < n - 6 ==> r.data[i] == packet[6 + i])
      && (forall i :: n - 6 <= i < VoterDataSize ==> r.data[i] == b.data[i])
    ensures n == BlockSize ==> Overlay(b, packet, n) == Decode(packet[..n])
  {
    EncodeDecode(packet[..n] + Encode(b)[n..]);
  }

  /** What a transmit function was called with. */
  datatype Packet = Packet(to: Origin, bytes: seq<u8>)

  /** The zeroed static storage of a voter. */
  function ZeroVoter(): (v: Voter)
    ensures WellFormed(v)
  {
    var z := Block(0, 0, 0, seq(VoterDataSize, _ => 0));
    Voter(z, z, z, 0)
  }

  /** The static `voters` record. The transmit and time functions are kept
      as identifiers; what the transmit functions were called with is the
      `sent` log, and clock readings are inputs of Vote. A voter handle is
      the pointer value `nb - 1` returned by mjv_voter, 0 being NULL. */
  class Voters {
    const voter: array<Voter>
    var nb: u8
    var tx0: nat
    var tx1: nat
    var time: nat
    var sent: seq<Packet>

    /** Five voters with 20-byte data arrays. As written nothing ever sets
        a self block's length, which therefore stays 0 from the zeroed
        storage. */
    ghost predicate Valid()
      reads this, voter
    {
      && voter.Length == VoterNb && nb as int <= VoterNb
      && (forall i :: 0 <= i < VoterNb ==> WellFormed(voter[i]))
      && (forall i :: 0 <= i < VoterNb ==> voter[i].self.dataLen == 0)
    }

    /** The zeroed static storage. */
    constructor ()
      ensures Valid() && fresh(voter)
      ensures nb == 0 && tx0 == 0 && tx1 == 0 && time == 0 && sent == []
      ensures voter[..] == seq(VoterNb, _ => ZeroVoter())
    {
      voter := new Voter[VoterNb](_ => ZeroVoter());
      nb, tx0, tx1, time, sent := 0, 0, 0, 0, [];
    }

    /** mjv_init (majority_voting.c:152-161): no voter in use, every self
        id set to -1 (0xFF on a u8), and the functions recorded. */
    method Init(tx0: nat, tx1: nat, time: nat)
      requires Valid()
      modifies this, voter
      ensures Valid() && nb == 0 && sent == old(sent)
      ensures this.tx0 == tx0 && this.tx1 == tx1 && this.time == time
      ensures forall i :: 0 <= i < VoterNb ==>
        voter[i] == old(voter[i]).(self := old(voter[i]).self.(id := 0xFF))
    {
      nb := 0;
      var i := 0;
      while i < VoterNb
        invariant 0 <= i <= VoterNb && Valid() && nb == 0 && sent == old(sent)
        invariant forall k :: 0 <= k < i ==>
          voter[k] == old(voter[k]).(self := old(voter[k]).self.(id := 0xFF))
        invariant forall k :: i <= k < VoterNb ==> voter[k] == old(voter[k])
      {
        voter[i] := voter[i].(self := voter[i].self.(id := 0xFF));
        i := i + 1;
      }
      this.tx0, this.tx1, this.time := tx0, tx1, time;
    }

    /** mjv_voter (majority_voting.c:165-176): while fewer than five voters
        are in use, the next one gets its index as id and that index is
        handed out; the first voter's handle is therefore 0, the NULL
        pointer. With five in use, NULL and no change. */
    method NewVoter() returns (handle: u16)
      requires Valid()
      modifies this, voter
      ensures Valid() && sent == old(sent) && tx0 == old(tx0) && tx1 == old(tx1) && time == old(time)
      ensures old(nb) as int >= VoterNb ==> handle == 0 && nb == old(nb) && voter[..] == old(voter[..])
      ensures old(nb) as int < VoterNb ==>
        && handle == old(nb) as int && nb == old(nb) + 1
        && voter[..] == old(voter[..])[old(nb) := old(voter[nb]).(self := old(voter[nb]).self.(id := old(nb)))]
    {
      if nb as int >= VoterNb {
        return 0;
      }
      voter[nb] := voter[nb].(self := voter[nb].self.(id := nb));
      nb := nb + 1;
      handle := nb as int - 1;
    }

    /** mjv_voter_function_set (majority_voting.c:179-192): the handle,
        truncated to 8 bits, must name a voter in use; it then gets the
        majority function. */
    method FunctionSet(handle: u16, maj: nat) returns (r: VoterResult)
      requires Valid()
      modifies voter
      ensures Valid()
      ensures r == Ok <==> handle % 0x100 < nb as int
      ensures r == Unknown <==> handle % 0x100 >= nb as int
      ensures r == Unknown ==> voter[..] == old(voter[..])
      ensures r == Ok ==> voter[..] == old(voter[..])[handle % 0x100 := old(voter[handle % 0x100]).(maj := maj)]
    {
      var idx := handle % 0x100;
      if idx >= nb as int {
        return Unknown;
      }
      voter[idx] := voter[idx].(maj := maj);
      return Ok;
    }

    /** mjv_vote (majority_voting.c:195-241). An unknown handle gives
        VOTER_UNKNOWN and no change. Otherwise the self block, stamped at
        `now` without its length, is sent to both other components, and the
        vote goes as VoteAsWritten says, `reading` being the clock reading
        taken before the wait; `buf` and `len` are the caller's buffer and
        `*data_len`, which the vote never changes. */
    method Vote(handle: u16, buf: array<u8>, len: u8, now: u32, reading: u32)
      returns (res: VoterResult, newLen: u8)
      requires Valid() && len as int <= buf.Length
      modifies this, voter
      ensures Valid() && nb == old(nb) && tx0 == old(tx0) && tx1 == old(tx1) && time == old(time)
      ensures newLen == len && buf[..] == old(buf[..])
      ensures handle % 0x100 >= nb as int ==> (res == Unknown && voter[..] == old(voter[..]) && sent == old(sent))
      ensures handle % 0x100 < nb as int ==>
        var idx := handle % 0x100;
        var o := VoteAsWritten(old(voter[idx]), buf[..], len, now, reading);
        && res == o.res && voter[..] == old(voter[..])[idx := o.voter]
        && sent == old(sent) + [Packet(Other0, Encode(o.voter.self)), Packet(Other1, Encode(o.voter.self))]
    {
      var idx := handle % 0x100;
      if idx >= nb as int {
        return Unknown, len;
      }
      res, newLen := VoteKnown(idx, buf, len, now, reading);
    }

    /** Lines 202-240 of mjv_vote, on the voter in use at `idx`. The switch
        of lines 217-238 copies the self block back only on 2_ON_3 and
        1_ON_3, which DecideAsWritten never gives (DecideAsWrittenNeverThree),
        so the caller's buffer and length are left alone. */
    method VoteKnown(idx: nat, buf: array<u8>, len: u8, now: u32, reading: u32)
      returns (res: VoterResult, newLen: u8)
      requires Valid() && idx < nb as int && len as int <= buf.Length
      modifies this, voter
      ensures Valid() && nb == old(nb) && tx0 == old(tx0) && tx1 == old(tx1) && time == old(time)
      ensures var o := VoteAsWritten(old(voter[idx]), buf[..], len, now, reading);
        && res == o.res && newLen == len
        && voter[..] == old(voter[..])[idx := o.voter]
        && sent == old(sent) + [Packet(Other0, Encode(o.voter.self)), Packet(Other1, Encode(o.voter.self))]
    {
      var v := voter[idx];
      var stamped := v.(self := StampAsWritten(v.self, now, buf[..], len));
      voter[idx] := stamped;
      var image := Encode(stamped.self);
      sent := sent + [Packet(Other0, image), Packet(Other1, image)];
      res := DecideAsWritten(stamped, WaitEntered(now, reading));
      newLen := len;
    }

    /** mjv_callback (majority_voting.c:244-269): a packet longer than a
        block, or whose id byte names no voter in use, is ignored; otherwise
        its `len` bytes are copied over the other0 or other1 block of that
        voter. The id byte is read from the packet whatever its length. */
    method Callback(orig: Origin, packet: seq<u8>, len: u8)
      requires Valid() && |packet| > 4 && len as int <= |packet|
      modifies voter
      ensures Valid()
      ensures len as int > BlockSize || packet[4] >= nb ==> voter[..] == old(voter[..])
      ensures len as int <= BlockSize && packet[4] < nb ==>
        var v := old(voter[packet[4]]);
        voter[..] == old(voter[..])[packet[4] :=
          if orig == Other0 then v.(other0 := Overlay(v.other0, packet, len as nat))
          else v.(other1 := Overlay(v.other1, packet, len as nat))]
    {
      if len as int > BlockSize {
        return;
      }
      var id := packet[4];
      if id >= nb {
        return;
      }
      var v := voter[id];
      match orig {
        case Other0 => voter[id] := v.(other0 := Overlay(v.other0, packet, len as nat));
        case Other1 => voter[id] := v.(other1 := Overlay(v.other1, packet, len as nat));
      }
    }
  }
}
