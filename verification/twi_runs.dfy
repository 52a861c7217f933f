/** What sequences of TWI interrupts do: whole master and slave transfers,
    the error paths, and the rules of the public requests. */
module TwiRuns {
  import opened TypeDef
  import opened TwiSpec

  /** One interrupt: the status register, the data register, and what the
      application's call-back does if the handler reports. */
  datatype Irq = Irq(twsr: u8, rx: u8, reaction: Reaction)

  /** The calls of one call-back invocation, each with a large enough buffer. */
  type Reaction = cs: seq<Call> | CallsOk(cs) witness []

  /** The interrupts handled one after the other. */
  function Run(t: Twi, irqs: seq<Irq>): (r: Twi)
    requires Valid(t)
    ensures Follows(t, r)
    decreases |irqs|
  {
    if irqs == [] then t
    else Run(Isr(t, irqs[0].twsr, irqs[0].rx, irqs[0].reaction), irqs[1..])
  }

  lemma {:induction false} RunAppend(t: Twi, a: seq<Irq>, b: seq<Irq>)
    requires Valid(t)
    ensures Run(t, a + b) == Run(Run(t, a), b)
    decreases |a|
  {
    if a == [] {
      assert a + b == b;
    } else {
      assert (a + b)[1..] == a[1..] + b;
      var t1 := Isr(t, a[0].twsr, a[0].rx, a[0].reaction);
      RunAppend(t1, a[1..], b);
    }
  }

  /** `n` interrupts with the same status, no byte and a passive call-back. */
  function Passive(n: nat, twsr: u8): (irqs: seq<Irq>)
    ensures |irqs| == n
    ensures forall i :: 0 <= i < n ==> irqs[i] == Irq(twsr, 0, [])
  {
    seq(n, _ => Irq(twsr, 0, []))
  }

  /** One interrupt with status `twsr` per received byte, passive call-back. */
  function Received(twsr: u8, bs: seq<u8>): (irqs: seq<Irq>)
    ensures |irqs| == |bs|
    ensures forall i :: 0 <= i < |bs| ==> irqs[i] == Irq(twsr, bs[i], [])
  {
    seq(|bs|, i requires 0 <= i < |bs| => Irq(twsr, bs[i], []))
  }

  /** The data register writes that send `bs`, each expecting an ACK. */
  function Writes(bs: seq<u8>): (es: seq<Event>)
    ensures |es| == |bs|
    ensures forall i :: 0 <= i < |bs| ==> es[i] == Write(bs[i], true)
  {
    if bs == [] then [] else [Write(bs[0], true)] + Writes(bs[1..])
  }

  function Repeat(e: Event, n: nat): (es: seq<Event>)
    ensures |es| == n && forall i :: 0 <= i < n ==> es[i] == e
  {
    seq(n, _ => e)
  }

  /** The ACK/NACK decisions taken after the byte counter reached
      `from`, `from + 1`, ..., `from + n - 1`. */
  function AckRun(from: int, n: nat, len: int): (es: seq<Event>)
    ensures |es| == n && forall i :: 0 <= i < n ==> es[i] == AckRule(from + i, len)
  {
    seq(n, i => AckRule(from + i, len))
  }

  /** Receiving `len` bytes: ACK every byte but the last, NACK the last
      (twi.c:259-265, 285-291). */
  lemma AckPattern(len: nat)
    requires len >= 1
    ensures AckRun(0, len, len) == Repeat(Ack, len - 1) + [Nack]
  {
  }

  // ---------------------------------------------------------------------
  // Single interrupts, one lemma per handler of the dispatch table

  lemma IsrStart(t: Twi, twsr: u8, rx: u8, reaction: seq<Call>)
    requires Valid(t) && CallsOk(reaction) && (twsr == 0x08 || twsr == 0x10)
    ensures Isr(t, twsr, rx, reaction) == t.(nbData := 0, trace := t.trace + [Write(t.addr, true)])
  {
    assert StatusOf(twsr) / 8 == twsr / 8;
  }

  lemma IsrMasterAck(t: Twi, twsr: u8, rx: u8, reaction: seq<Call>)
    requires Valid(t) && CallsOk(reaction) && (twsr == 0x18 || twsr == 0x28)
    ensures Isr(t, twsr, rx, reaction) == MasterSendNext(t, reaction)
  {
    assert StatusOf(twsr) / 8 == twsr / 8;
  }

  lemma IsrAddressNack(t: Twi, twsr: u8, rx: u8, reaction: seq<Call>)
    requires Valid(t) && CallsOk(reaction) && (twsr == 0x20 || twsr == 0x48)
    ensures Isr(t, twsr, rx, reaction) == Notify(t.(msBufLen := 0), NoSlave, reaction)
  {
    assert StatusOf(twsr) / 8 == twsr / 8;
  }

  lemma IsrReadAddressAck(t: Twi, rx: u8, reaction: seq<Call>)
    requires Valid(t) && CallsOk(reaction)
    ensures Isr(t, 0x40, rx, reaction) == t.(trace := t.trace + [AckRule(t.nbData, t.msBufLen)])
  {
    assert StatusOf(0x40) / 8 == 8;
  }

  lemma IsrMasterData(t: Twi, rx: u8, reaction: seq<Call>)
    requires Valid(t) && CallsOk(reaction)
    ensures var t1 := StoreMs(t, rx);
      Isr(t, 0x50, rx, reaction) == t1.(trace := t1.trace + [AckRule(t1.nbData, t1.msBufLen)])
  {
    assert StatusOf(0x50) / 8 == 10;
  }

  /** A byte received as master inside the buffer is stored at nb_data. */
  lemma MasterByteStored(t: Twi, rx: u8)
    requires Valid(t) && t.nbData < t.msBufLen
    ensures Isr(t, 0x50, rx, []) ==
      t.(nbData := t.nbData + 1, msBuf := t.msBuf[t.nbData := rx],
         trace := t.trace + [AckRule(t.nbData + 1, t.msBufLen)])
  {
    IsrMasterData(t, rx, []);
  }

  lemma IsrMasterLastData(t: Twi, rx: u8, reaction: seq<Call>)
    requires Valid(t) && CallsOk(reaction)
    ensures Isr(t, 0x58, rx, reaction) == Notify(StoreMs(t, rx).(msBufLen := 0), MsRxEnd, reaction)
  {
    assert StatusOf(0x58) / 8 == 11;
  }

  lemma IsrSlaveAddressed(t: Twi, twsr: u8, rx: u8, reaction: seq<Call>)
    requires Valid(t) && CallsOk(reaction) && 0x60 <= twsr <= 0x78 && twsr % 8 == 0
    ensures Isr(t, twsr, rx, reaction) ==
      SlaveReceiveBegin(t, if twsr <= 0x68 then SlRxBegin else GenCallBegin, reaction)
  {
    assert StatusOf(twsr) / 8 == twsr / 8;
  }

  lemma IsrSlaveData(t: Twi, twsr: u8, rx: u8, reaction: seq<Call>)
    requires Valid(t) && CallsOk(reaction) && (twsr == 0x80 || twsr == 0x90)
    ensures var t1 := StoreSl(t, rx);
      Isr(t, twsr, rx, reaction) == t1.(trace := t1.trace + [AckRule(t1.nbData, t1.slBufLen)])
  {
    assert StatusOf(twsr) / 8 == twsr / 8;
  }

  lemma IsrSlaveLastData(t: Twi, twsr: u8, rx: u8, reaction: seq<Call>)
    requires Valid(t) && CallsOk(reaction) && (twsr == 0x88 || twsr == 0x98)
    ensures Isr(t, twsr, rx, reaction) ==
      Notify(StoreSl(t, rx), if twsr == 0x88 then SlRxEnd else GenCallEnd, reaction)
  {
    assert StatusOf(twsr) / 8 == twsr / 8;
  }

  lemma IsrSlaveTransmitBegin(t: Twi, twsr: u8, rx: u8, reaction: seq<Call>)
    requires Valid(t) && CallsOk(reaction) && (twsr == 0xA8 || twsr == 0xB0)
    ensures Isr(t, twsr, rx, reaction) == SlaveSendNext(Notify(t.(nbData := 0), SlTxBegin, reaction))
  {
    assert StatusOf(twsr) / 8 == twsr / 8;
  }

  lemma IsrSlaveTransmitMore(t: Twi, rx: u8, reaction: seq<Call>)
    requires Valid(t) && CallsOk(reaction)
    ensures Isr(t, 0xB8, rx, reaction) == SlaveSendNext(t)
  {
    assert StatusOf(0xB8) / 8 == 23;
  }

  lemma IsrSlaveTransmitEnd(t: Twi, twsr: u8, rx: u8, reaction: seq<Call>)
    requires Valid(t) && CallsOk(reaction) && (twsr == 0xC0 || twsr == 0xC8)
    ensures Isr(t, twsr, rx, reaction) == SlaveTransmitEnd(t, reaction)
  {
    assert StatusOf(twsr) / 8 == twsr / 8;
  }

  /** A report to a passive call-back only records the report. */
  lemma NotifyPassive(t: Twi, s: State)
    requires Valid(t)
    ensures Notify(t, s, []) == t.(state := s, trace := t.trace + [Report(s, t.nbData)])
  {
  }

  /** The first interrupt of a run, and the rest. */
  lemma RunStep(t: Twi, irqs: seq<Irq>)
    requires Valid(t) && irqs != []
    ensures Run(t, irqs) == Run(Isr(t, irqs[0].twsr, irqs[0].rx, irqs[0].reaction), irqs[1..])
  {
  }

  /** The first of a series of received bytes, and the rest. */
  lemma ReceivedStep(t: Twi, twsr: u8, bs: seq<u8>)
    requires Valid(t) && bs != []
    ensures Run(t, Received(twsr, bs)) == Run(Isr(t, twsr, bs[0], []), Received(twsr, bs[1..]))
  {
    var irqs := Received(twsr, bs);
    RunStep(t, irqs);
    assert irqs[0] == Irq(twsr, bs[0], []);
    assert irqs[1..] == Received(twsr, bs[1..]);
  }

  // ---------------------------------------------------------------------
  // Master transmitter

  lemma {:induction false} MasterSendsRest(t: Twi, n: nat)
    requires Valid(t) && t.nbData + n == t.msBufLen
    ensures Run(t, Passive(n + 1, 0x28)) ==
      t.(nbData := t.msBufLen, msBufLen := 0, state := MsTxEnd,
         trace := t.trace + Writes(t.msBuf[t.nbData..t.msBufLen]) + [Report(MsTxEnd, t.msBufLen)])
    decreases n
  {
    var irqs := Passive(n + 1, 0x28);
    RunStep(t, irqs);
    assert irqs[0] == Irq(0x28, 0, []);
    IsrMasterAck(t, 0x28, 0, []);
    var t1 := MasterSendNext(t, []);
    if n == 0 {
      NotifyPassive(t.(msBufLen := 0), MsTxEnd);
      assert t1 == t.(msBufLen := 0, state := MsTxEnd, trace := t.trace + [Report(MsTxEnd, t.nbData)]);
      assert t.msBuf[t.nbData..t.msBufLen] == [];
      assert irqs[1..] == [];
    } else {
      var nb := t.nbData;
      var len := t.msBufLen;
      assert t1 == t.(nbData := nb + 1, trace := t.trace + [Write(t.msBuf[nb], true)]);
      assert irqs[1..] == Passive(n, 0x28);
      MasterSendsRest(t1, n - 1);
      WritesCons(t.trace, t.msBuf, nb, len);
    }
  }

  lemma WritesCons(pre: seq<Event>, buf: seq<u8>, lo: nat, hi: nat)
    requires lo < hi <= |buf|
    ensures pre + [Write(buf[lo], true)] + Writes(buf[lo + 1..hi]) == pre + Writes(buf[lo..hi])
  {
    assert buf[lo..hi][1..] == buf[lo + 1..hi];
  }

  /** A complete master transmission (twi.c:602-626, 170-229): START, the
      address with the write bit, the `len` bytes of `data` in order, then
      MS_TX_END is reported with nb_data == len and the length cleared. */
  lemma MasterTransmit(t: Twi, adr: u8, len: u8, data: seq<u8>)
    requires Valid(t) && (t.state == Idle || t.state == Error) && len <= |data|
    ensures MsRequest(t, DirWrite, adr, len, data, false).1
    ensures var r := Run(MsRequest(t, DirWrite, adr, len, data, false).0,
                         [Irq(0x08, 0, []), Irq(0x18, 0, [])] + Passive(len, 0x28));
      && r.state == MsTxEnd && r.msBufLen == 0 && r.nbData == len
      && r.trace == t.trace + [Start, Write(AddressByte(adr, DirWrite), true)]
                    + Writes(data[..len]) + [Report(MsTxEnd, len)]
  {
    var t1 := MsRequest(t, DirWrite, adr, len, data, false).0;
    TransmitAll(t1);
    assert t1.trace + [Write(t1.addr, true)] == t.trace + [Start, Write(AddressByte(adr, DirWrite), true)];
  }

  /** START, the address acknowledged, then one acknowledge per byte of the
      master buffer: every byte is sent in order, then MS_TX_END reported. */
  lemma TransmitAll(t: Twi)
    requires Valid(t)
    ensures var len := t.msBufLen;
      Run(t, [Irq(0x08, 0, []), Irq(0x18, 0, [])] + Passive(len, 0x28)) ==
      t.(nbData := len, msBufLen := 0, state := MsTxEnd,
         trace := t.trace + [Write(t.addr, true)] + Writes(t.msBuf[..len]) + [Report(MsTxEnd, len)])
  {
    var len := t.msBufLen;
    var head := [Irq(0x08, 0, []), Irq(0x18, 0, [])];
    RunAppend(t, head, Passive(len, 0x28));
    TransmitHead(t);
    var pre := t.trace + [Write(t.addr, true)];
    if len == 0 {
      assert Passive(len, 0x28) == [];
      assert head + [] == head;
      assert Writes(t.msBuf[..len]) == [];
    } else {
      var t3 := Run(t, head);
      assert Passive(len - 1 + 1, 0x28) == Passive(len, 0x28);
      MasterSendsRest(t3, len - 1);
      WritesCons(pre, t.msBuf, 0, len);
      assert t.msBuf[0..len] == t.msBuf[..len];
    }
  }

  /** START, then the address acknowledged: the first data byte is sent, or
      with nothing to send MS_TX_END is reported. */
  lemma TransmitHead(t: Twi)
    requires Valid(t)
    ensures var pre := t.trace + [Write(t.addr, true)];
      Run(t, [Irq(0x08, 0, []), Irq(0x18, 0, [])]) ==
        if t.msBufLen == 0 then
          t.(nbData := 0, msBufLen := 0, state := MsTxEnd, trace := pre + [Report(MsTxEnd, 0)])
        else
          t.(nbData := 1, trace := pre + [Write(t.msBuf[0], true)])
  {
    var t2 := t.(nbData := 0, trace := t.trace + [Write(t.addr, true)]);
    StartThen(t, 0x18);
    IsrMasterAck(t2, 0x18, 0, []);
    if t.msBufLen == 0 {
      NotifyPassive(t2.(msBufLen := 0), MsTxEnd);
    }
  }

  /** The START interrupt, then one more interrupt with status `twsr`. */
  lemma StartThen(t: Twi, twsr: u8)
    requires Valid(t)
    ensures var t2 := t.(nbData := 0, trace := t.trace + [Write(t.addr, true)]);
      Run(t, [Irq(0x08, 0, []), Irq(twsr, 0, [])]) == Isr(t2, twsr, 0, [])
  {
    var irqs := [Irq(0x08, 0, []), Irq(twsr, 0, [])];
    RunStep(t, irqs);
    IsrStart(t, 0x08, 0, []);
    var t2 := t.(nbData := 0, trace := t.trace + [Write(t.addr, true)]);
    assert irqs[1..] == [Irq(twsr, 0, [])];
    RunStep(t2, irqs[1..]);
    assert irqs[1..][1..] == [];
  }

  /** Address not acknowledged (twi.c:202-210, 268-277): NO_SL is reported
      and the length is cleared, so nothing is sent afterwards. */
  lemma NoSlaveAnswers(t: Twi, d: Dir, adr: u8, len: u8, data: seq<u8>)
    requires Valid(t) && (t.state == Idle || t.state == Error) && len <= |data|
    ensures var nack: u8 := if d == DirWrite then 0x20 else 0x48;
      var r := Run(MsRequest(t, d, adr, len, data, false).0, [Irq(0x08, 0, []), Irq(nack, 0, [])]);
      && r.state == NoSlave && r.msBufLen == 0
      && r.trace == t.trace + [Start, Write(AddressByte(adr, d), true), Report(NoSlave, 0)]
  {
    var t1 := MsRequest(t, d, adr, len, data, false).0;
    var nack: u8 := if d == DirWrite then 0x20 else 0x48;
    var irqs := [Irq(0x08, 0, []), Irq(nack, 0, [])];
    RunStep(t1, irqs);
    IsrStart(t1, 0x08, 0, []);
    var t2 := t1.(nbData := 0, trace := t1.trace + [Write(t1.addr, true)]);
    assert irqs[1..] == [Irq(nack, 0, [])];
    RunStep(t2, irqs[1..]);
    IsrAddressNack(t2, nack, 0, []);
  }

  /** Once the master length is cleared, an acknowledge interrupt writes no
      data byte: it reports MS_TX_END again (twi.c:197, 226). */
  lemma NoResend(t: Twi, twsr: u8, rx: u8, reaction: seq<Call>)
    requires Valid(t) && CallsOk(reaction) && t.msBufLen == 0
    requires twsr == 0x18 || twsr == 0x28
    ensures Isr(t, twsr, rx, reaction) == Notify(t, MsTxEnd, reaction)
  {
    IsrMasterAck(t, twsr, rx, reaction);
  }

  /** Lost arbitration (twi.c:246-252): only a new START is requested; the
      state and the pending transfer are kept, so it resumes later. */
  lemma ArbitrationLostRetries(t: Twi, rx: u8, reaction: seq<Call>)
    requires Valid(t) && CallsOk(reaction)
    ensures Isr(t, 0x38, rx, reaction) == t.(trace := t.trace + [Start])
  {
    assert StatusOf(0x38) / 8 == 7;
  }

  // ---------------------------------------------------------------------
  // Master receiver

  lemma {:induction false} MasterReceives(t: Twi, bs: seq<u8>)
    requires Valid(t) && t.nbData + |bs| <= t.msBufLen
    ensures Run(t, Received(0x50, bs)) ==
      t.(nbData := t.nbData + |bs|,
         msBuf := t.msBuf[..t.nbData] + bs + t.msBuf[t.nbData + |bs|..],
         trace := t.trace + AckRun(t.nbData + 1, |bs|, t.msBufLen))
    decreases |bs|
  {
    var nb: int := t.nbData;
    if bs == [] {
      assert t.msBuf[..nb] + bs + t.msBuf[nb..] == t.msBuf;
      assert AckRun(nb + 1, 0, t.msBufLen) == [];
    } else {
      ReceivedStep(t, 0x50, bs);
      MasterByteStored(t, bs[0]);
      var t1 := t.(nbData := nb + 1, msBuf := t.msBuf[nb := bs[0]],
                   trace := t.trace + [AckRule(nb + 1, t.msBufLen)]);
      MasterReceives(t1, bs[1..]);
      var r := Run(t1, Received(0x50, bs[1..]));
      MasterStepCompose(t, t1, r, bs);
    }
  }

  /** One byte stored as master, then the rest: the whole of `bs` stored. */
  lemma MasterStepCompose(t: Twi, t1: Twi, r: Twi, bs: seq<u8>)
    requires bs != [] && t.nbData + |bs| <= t.msBufLen <= |t.msBuf|
    requires t1 == t.(nbData := t.nbData + 1, msBuf := t.msBuf[t.nbData := bs[0]],
                      trace := t.trace + [AckRule(t.nbData + 1, t.msBufLen)])
    requires r == t1.(nbData := t1.nbData + |bs[1..]|,
                      msBuf := t1.msBuf[..t1.nbData] + bs[1..] + t1.msBuf[t1.nbData + |bs[1..]|..],
                      trace := t1.trace + AckRun(t1.nbData + 1, |bs[1..]|, t1.msBufLen))
    ensures r == t.(nbData := t.nbData + |bs|,
                    msBuf := t.msBuf[..t.nbData] + bs + t.msBuf[t.nbData + |bs|..],
                    trace := t.trace + AckRun(t.nbData + 1, |bs|, t.msBufLen))
  {
    Splice(t.msBuf, t.nbData, bs);
    AckRunCons(t.trace, t.nbData + 1, |bs|, t.msBufLen);
  }

  /** Storing `bs[0]` at `nb`, then the rest of `bs` after it, stores `bs` at `nb`. */
  lemma Splice(buf: seq<u8>, nb: nat, bs: seq<u8>)
    requires bs != [] && nb + |bs| <= |buf|
    ensures var b1 := buf[nb := bs[0]];
      b1[..nb + 1] + bs[1..] + b1[nb + 1 + |bs[1..]|..] == buf[..nb] + bs + buf[nb + |bs|..]
  {
    var b1 := buf[nb := bs[0]];
    assert b1[..nb + 1] == buf[..nb] + [bs[0]];
    assert [bs[0]] + bs[1..] == bs;
  }

  lemma AckRunCons(pre: seq<Event>, from: int, n: nat, len: int)
    requires n >= 1
    ensures pre + [AckRule(from, len)] + AckRun(from + 1, n - 1, len) == pre + AckRun(from, n, len)
  {
    assert [AckRule(from, len)] + AckRun(from + 1, n - 1, len) == AckRun(from, n, len);
  }

  /** A complete master reception of N >= 1 bytes (twi.c:629-653, 170-179,
      254-310): START, the address with the read bit, N-1 ACKs and one NACK,
      the bytes stored in order at the head of the buffer, then MS_RX_END
      reported with nb_data == N and the length cleared. */
  lemma MasterReceive(t: Twi, adr: u8, data: seq<u8>, bytes: seq<u8>)
    requires Valid(t) && (t.state == Idle || t.state == Error)
    requires 1 <= |bytes| <= |data| && |bytes| < 0x100
    ensures MsRequest(t, DirRead, adr, |bytes|, data, false).1
    ensures var n := |bytes|;
      var r := Run(MsRequest(t, DirRead, adr, n, data, false).0,
                   [Irq(0x08, 0, []), Irq(0x40, 0, [])] + Received(0x50, bytes[..n - 1])
                   + [Irq(0x58, bytes[n - 1], [])]);
      && r.state == MsRxEnd && r.msBufLen == 0 && r.nbData == n
      && r.msBuf == bytes + data[n..]
      && r.trace == t.trace + [Start, Write(AddressByte(adr, DirRead), true)]
                    + Repeat(Ack, n - 1) + [Nack, Report(MsRxEnd, n)]
  {
    var n: u8 := |bytes|;
    var t1 := MsRequest(t, DirRead, adr, n, data, false).0;
    var pre := t.trace + [Start, Write(AddressByte(adr, DirRead), true)];
    assert t1.trace + [Write(t1.addr, true)] == pre;
    var front := [Irq(0x08, 0, []), Irq(0x40, 0, [])] + Received(0x50, bytes[..n - 1]);
    var tail := [Irq(0x58, bytes[n - 1], [])];
    ReceiveAllButLast(t1, bytes);
    var t4 := Run(t1, front);
    RunAppend(t1, front, tail);
    ReceiveLast(t4, bytes[n - 1]);
    LastStored(bytes, data);
    var r := Run(t4, tail);
    assert r.trace == pre + Repeat(Ack, n - 1) + [Nack] + [Report(MsRxEnd, n)];
  }

  /** A master reception of `bytes` up to, not including, its last byte. */
  lemma ReceiveAllButLast(t: Twi, bytes: seq<u8>)
    requires Valid(t) && 1 <= |bytes| && t.msBufLen as int == |bytes|
    ensures var n := |bytes|;
      var r := Run(t, [Irq(0x08, 0, []), Irq(0x40, 0, [])] + Received(0x50, bytes[..n - 1]));
      && r.nbData == n - 1 && r.msBuf == bytes[..n - 1] + t.msBuf[n - 1..]
      && r.trace == t.trace + [Write(t.addr, true)] + (Repeat(Ack, n - 1) + [Nack])
      && r == t.(nbData := r.nbData, msBuf := r.msBuf, trace := r.trace)
  {
    var n := t.msBufLen;
    var pre := t.trace + [Write(t.addr, true)];
    var head := [Irq(0x08, 0, []), Irq(0x40, 0, [])];
    var body := Received(0x50, bytes[..n - 1]);
    ReceiveHead(t);
    var t3 := Run(t, head);
    assert t3 == t.(nbData := 0, trace := pre + [AckRule(0, n)]);
    RunAppend(t, head, body);
    MasterReceives(t3, bytes[..n - 1]);
    var r := Run(t3, body);
    assert Run(t, head + body) == r;
    FrontStored(t.msBuf, bytes[..n - 1]);
    assert r.trace == t3.trace + AckRun(1, n - 1, n);
    AckRunCons(pre, 0, n, n);
    AckPattern(n);
    assert r.trace == pre + (Repeat(Ack, n - 1) + [Nack]);
  }


  /** Storing `bs` from index 0 on. */
  lemma FrontStored(buf: seq<u8>, bs: seq<u8>)
    requires |bs| <= |buf|
    ensures buf[..0] + bs + buf[0 + |bs|..] == bs + buf[|bs|..]
  {
    assert buf[..0] == [];
  }

  lemma LastStored(bytes: seq<u8>, data: seq<u8>)
    requires 1 <= |bytes| <= |data|
    ensures var n := |bytes|;
      (bytes[..n - 1] + data[n - 1..])[n - 1 := bytes[n - 1]] == bytes + data[n..]
  {
  }

  /** START, then the address with the read bit acknowledged. */
  lemma ReceiveHead(t: Twi)
    requires Valid(t)
    ensures Run(t, [Irq(0x08, 0, []), Irq(0x40, 0, [])]) ==
      t.(nbData := 0, trace := t.trace + [Write(t.addr, true), AckRule(0, t.msBufLen)])
  {
    var t2 := t.(nbData := 0, trace := t.trace + [Write(t.addr, true)]);
    StartThen(t, 0x40);
    IsrReadAddressAck(t2, 0, []);
  }

  /** The last byte of a master reception, with the passive call-back. */
  lemma ReceiveLast(t: Twi, rx: u8)
    requires Valid(t) && t.nbData < |t.msBuf|
    ensures Run(t, [Irq(0x58, rx, [])]) ==
      t.(nbData := Inc8(t.nbData), msBuf := t.msBuf[t.nbData := rx], msBufLen := 0, state := MsRxEnd,
         trace := t.trace + [Report(MsRxEnd, Inc8(t.nbData))])
  {
    var irqs := [Irq(0x58, rx, [])];
    RunStep(t, irqs);
    assert irqs[1..] == [];
    IsrMasterLastData(t, rx, []);
    NotifyPassive(StoreMs(t, rx).(msBufLen := 0), MsRxEnd);
  }

  /** A zero-length master reception still NACKs and then stores the one byte
      the slave sends at ms_buf[0] (twi.c:254-266, 297-310): with an empty
      buffer that store lands outside it, and MS_RX_END reports one byte. */
  lemma ZeroLengthReceiveOverruns(t: Twi, adr: u8, rx: u8)
    requires Valid(t) && (t.state == Idle || t.state == Error)
    ensures var r := Run(MsRequest(t, DirRead, adr, 0, [], false).0,
                         [Irq(0x08, 0, []), Irq(0x40, 0, []), Irq(0x58, rx, [])]);
      r.trace == t.trace + [Start, Write(AddressByte(adr, DirRead), true), Nack, Overrun(0), Report(MsRxEnd, 1)]
  {
    var t1 := MsRequest(t, DirRead, adr, 0, [], false).0;
    var irqs := [Irq(0x08, 0, []), Irq(0x40, 0, []), Irq(0x58, rx, [])];
    RunStep(t1, irqs);
    IsrStart(t1, 0x08, 0, []);
    var t2 := t1.(nbData := 0, trace := t1.trace + [Write(t1.addr, true)]);
    assert irqs[1..] == [Irq(0x40, 0, []), Irq(0x58, rx, [])];
    RunStep(t2, irqs[1..]);
    IsrReadAddressAck(t2, 0, []);
    var t3 := t2.(trace := t2.trace + [Nack]);
    assert irqs[1..][1..] == [Irq(0x58, rx, [])];
    RunStep(t3, irqs[1..][1..]);
    IsrMasterLastData(t3, rx, []);
  }

  // ---------------------------------------------------------------------
  // Slave receiver

  /** A byte received as slave inside the buffer is stored at nb_data. */
  lemma SlaveByteStored(t: Twi, rx: u8)
    requires Valid(t) && t.nbData < t.slBufLen
    ensures Isr(t, 0x80, rx, []) ==
      t.(nbData := t.nbData + 1, slBuf := t.slBuf[t.nbData := rx],
         trace := t.trace + [AckRule(t.nbData + 1, t.slBufLen)])
  {
    IsrSlaveData(t, 0x80, rx, []);
  }

  /** One byte stored as slave, then the rest: the whole of `bs` stored. */
  lemma SlaveStepCompose(t: Twi, t1: Twi, r: Twi, bs: seq<u8>)
    requires bs != [] && t.nbData + |bs| <= t.slBufLen <= |t.slBuf|
    requires t1 == t.(nbData := t.nbData + 1, slBuf := t.slBuf[t.nbData := bs[0]],
                      trace := t.trace + [AckRule(t.nbData + 1, t.slBufLen)])
    requires r == t1.(nbData := t1.nbData + |bs[1..]|,
                      slBuf := t1.slBuf[..t1.nbData] + bs[1..] + t1.slBuf[t1.nbData + |bs[1..]|..],
                      trace := t1.trace + AckRun(t1.nbData + 1, |bs[1..]|, t1.slBufLen))
    ensures r == t.(nbData := t.nbData + |bs|,
                    slBuf := t.slBuf[..t.nbData] + bs + t.slBuf[t.nbData + |bs|..],
                    trace := t.trace + AckRun(t.nbData + 1, |bs|, t.slBufLen))
  {
    Splice(t.slBuf, t.nbData, bs);
    AckRunCons(t.trace, t.nbData + 1, |bs|, t.slBufLen);
  }

  lemma {:induction false} SlaveReceives(t: Twi, bs: seq<u8>)
    requires Valid(t) && t.nbData + |bs| <= t.slBufLen
    ensures Run(t, Received(0x80, bs)) ==
      t.(nbData := t.nbData + |bs|,
         slBuf := t.slBuf[..t.nbData] + bs + t.slBuf[t.nbData + |bs|..],
         trace := t.trace + AckRun(t.nbData + 1, |bs|, t.slBufLen))
    decreases |bs|
  {
    var nb: int := t.nbData;
    if bs == [] {
      assert t.slBuf[..nb] + bs + t.slBuf[nb..] == t.slBuf;
      assert AckRun(nb + 1, 0, t.slBufLen) == [];
    } else {
      ReceivedStep(t, 0x80, bs);
      SlaveByteStored(t, bs[0]);
      var t1 := t.(nbData := nb + 1, slBuf := t.slBuf[nb := bs[0]],
                   trace := t.trace + [AckRule(nb + 1, t.slBufLen)]);
      SlaveReceives(t1, bs[1..]);
      var r := Run(t1, Received(0x80, bs[1..]));
      SlaveStepCompose(t, t1, r, bs);
    }
  }

  /** Addressed as slave receiver, the call-back hands over a buffer of
      `len` bytes with nnk_twi_sl_rx, which is accepted. */
  lemma SlaveAddressedForReceive(t: Twi, len: u8, buf: seq<u8>)
    requires Valid(t) && len <= |buf|
    ensures Run(t, [Irq(0x60, 0, [CallSlRx(len, buf)])]) ==
      t.(nbData := 0, state := SlRxBegin, slBuf := buf, slBufLen := len,
         trace := t.trace + [Report(SlRxBegin, 0)] + [AckRule(0, len)])
  {
    var irqs := [Irq(0x60, 0, [CallSlRx(len, buf)])];
    assert irqs[1..] == [];
    IsrSlaveAddressedRx(t, len, buf);
  }

  lemma IsrSlaveAddressedRx(t: Twi, len: u8, buf: seq<u8>)
    requires Valid(t) && len <= |buf|
    ensures Isr(t, 0x60, 0, [CallSlRx(len, buf)]) ==
      t.(nbData := 0, state := SlRxBegin, slBuf := buf, slBufLen := len,
         trace := t.trace + [Report(SlRxBegin, 0)] + [AckRule(0, len)])
  {
    IsrSlaveAddressed(t, 0x60, 0, [CallSlRx(len, buf)]);
    var t1 := t.(nbData := 0, state := SlRxBegin, trace := t.trace + [Report(SlRxBegin, 0)]);
    assert [CallSlRx(len, buf)][..0] == [];
    assert ApplyAll(t1, [CallSlRx(len, buf)]) == Apply(t1, CallSlRx(len, buf));
  }

  /** The last byte received as slave (NACKed), the call-back then stops
      while the hardware still shows the data status. */
  lemma SlaveLastThenStop(t: Twi, rx: u8)
    requires Valid(t) && t.nbData < t.slBufLen && t.state == SlRxBegin
    ensures Run(t, [Irq(0x88, rx, [CallStop(false)])]) ==
      t.(nbData := t.nbData + 1, slBuf := t.slBuf[t.nbData := rx], state := Idle,
         trace := t.trace + [Report(SlRxEnd, t.nbData + 1), Release, Stop])
  {
    var irqs := [Irq(0x88, rx, [CallStop(false)])];
    RunStep(t, irqs);
    assert irqs[1..] == [];
    IsrSlaveLastStop(t, rx);
  }

  lemma IsrSlaveLastStop(t: Twi, rx: u8)
    requires Valid(t) && t.nbData < t.slBufLen
    ensures Isr(t, 0x88, rx, [CallStop(false)]) ==
      t.(nbData := t.nbData + 1, slBuf := t.slBuf[t.nbData := rx], state := Idle,
         trace := t.trace + [Report(SlRxEnd, t.nbData + 1), Release, Stop])
  {
    IsrSlaveLastData(t, 0x88, rx, [CallStop(false)]);
    var nb := t.nbData;
    var t1 := t.(nbData := nb + 1, slBuf := t.slBuf[nb := rx]);
    assert StoreSl(t, rx) == t1;
    NotifyThenStop(t1, SlRxEnd);
  }

  /** A report whose call-back only stops, while the hardware is not idle. */
  lemma NotifyThenStop(t: Twi, s: State)
    requires Valid(t)
    ensures Notify(t, s, [CallStop(false)]) ==
      t.(state := Idle, trace := t.trace + [Report(s, t.nbData)]
                                  + (if s == SlRxEnd || s == GenCallEnd then [Release] else []) + [Stop])
  {
    var t2 := t.(state := s, trace := t.trace + [Report(s, t.nbData)]);
    assert [CallStop(false)][..0] == [];
    assert ApplyAll(t2, [CallStop(false)]) == StopComm(t2, false);
  }

  /** A complete slave reception of N >= 1 bytes whose call-back accepts a
      buffer of N bytes, then stops after the last byte (twi.c:374-392,
      414-440, 582-599; twi.h:113-124): N-1 ACKs and one NACK, the bytes
      stored in order, SL_RX_END reported with N, the bus released. */
  lemma SlaveReceive(t: Twi, buf: seq<u8>, bytes: seq<u8>)
    requires Valid(t) && 1 <= |bytes| <= |buf| && |bytes| < 0x100
    ensures var n := |bytes|;
      var irqs := [Irq(0x60, 0, [CallSlRx(n, buf)])] + Received(0x80, bytes[..n - 1])
                  + [Irq(0x88, bytes[n - 1], [CallStop(false)])];
      var r := Run(t, irqs);
      && r.state == Idle && r.nbData == n && r.slBuf == bytes + buf[n..]
      && r.trace == t.trace + [Report(SlRxBegin, 0)] + (Repeat(Ack, n - 1) + [Nack])
                    + [Report(SlRxEnd, n), Release, Stop]
  {
    var n: u8 := |bytes|;
    var front := [Irq(0x60, 0, [CallSlRx(n, buf)])] + Received(0x80, bytes[..n - 1]);
    var tail := [Irq(0x88, bytes[n - 1], [CallStop(false)])];
    SlaveReceiveAllButLast(t, buf, bytes);
    var t2 := Run(t, front);
    RunAppend(t, front, tail);
    SlaveLastThenStop(t2, bytes[n - 1]);
    LastStored(bytes, buf);
  }

  /** A slave reception of `bytes` up to, not including, its last byte. */
  lemma SlaveReceiveAllButLast(t: Twi, buf: seq<u8>, bytes: seq<u8>)
    requires Valid(t) && 1 <= |bytes| <= |buf| && |bytes| < 0x100
    ensures var n := |bytes|;
      var front := [Irq(0x60, 0, [CallSlRx(n, buf)])] + Received(0x80, bytes[..n - 1]);
      var r := Run(t, front);
      && r.state == SlRxBegin && r.nbData == n - 1 && r.slBufLen == n
      && r.slBuf == bytes[..n - 1] + buf[n - 1..]
      && r.trace == t.trace + [Report(SlRxBegin, 0)] + (Repeat(Ack, n - 1) + [Nack])
  {
    var n: u8 := |bytes|;
    var head := [Irq(0x60, 0, [CallSlRx(n, buf)])];
    var body := Received(0x80, bytes[..n - 1]);
    SlaveAddressedForReceive(t, n, buf);
    var t1 := Run(t, head);
    RunAppend(t, head, body);
    SlaveReceives(t1, bytes[..n - 1]);
    var r := Run(t1, body);
    assert Run(t, head + body) == r;
    FrontStored(buf, bytes[..n - 1]);
    var pre := t.trace + [Report(SlRxBegin, 0)];
    AckRunCons(pre, 0, n, n);
    AckPattern(n);
  }


  /** Addressed by a general call, the call-back uses nnk_twi_sl_rx, which
      is accepted in GENCALL_BEGIN (twi.h:126-130, twi.c:394-412, 677). */
  lemma GeneralCallUsesSlRx(t: Twi, len: u8, buf: seq<u8>)
    requires Valid(t) && len <= |buf|
    ensures Isr(t, 0x70, 0, [CallSlRx(len, buf)]) ==
      t.(nbData := 0, state := GenCallBegin, slBuf := buf, slBufLen := len,
         trace := t.trace + [Report(GenCallBegin, 0), AckRule(0, len)])
  {
    IsrSlaveAddressed(t, 0x70, 0, [CallSlRx(len, buf)]);
    var t1 := t.(nbData := 0, state := GenCallBegin, trace := t.trace + [Report(GenCallBegin, 0)]);
    assert [CallSlRx(len, buf)][..0] == [];
    assert ApplyAll(t1, [CallSlRx(len, buf)]) == Apply(t1, CallSlRx(len, buf));
  }

  /** STOP or repeated START after a slave reception (twi.c:470-484): the
      end is reported as SL_RX_END when the reception began as own-address,
      as GENCALL_END otherwise; a pending master transfer restarts. */
  lemma SlaveStopReported(t: Twi, rx: u8)
    requires Valid(t)
    ensures var s := if t.state == SlRxBegin then SlRxEnd else GenCallEnd;
      var rest := if t.msBufLen != 0 then [Restart] else [];
      Isr(t, 0xA0, rx, []) == t.(state := s, trace := t.trace + [Report(s, t.nbData)] + rest)
  {
    assert StatusOf(0xA0) / 8 == 20;
  }

  // ---------------------------------------------------------------------
  // Slave transmitter

  /** Addressed as slave transmitter, the call-back hands over `data` with
      nnk_twi_sl_tx, which is accepted; its first byte goes out at once. */
  lemma SlaveAddressedForTransmit(t: Twi, data: seq<u8>)
    requires Valid(t) && 1 <= |data| < 0x100
    ensures Isr(t, 0xA8, 0, [CallSlTx(|data|, data)]) ==
      t.(nbData := 1, state := SlTxBegin, slBuf := data, slBufLen := |data|,
         trace := t.trace + [Report(SlTxBegin, 0), Write(data[0], true)])
  {
    IsrSlaveTransmitBegin(t, 0xA8, 0, [CallSlTx(|data|, data)]);
    var t1 := t.(nbData := 0, state := SlTxBegin, trace := t.trace + [Report(SlTxBegin, 0)]);
    assert [CallSlTx(|data|, data)][..0] == [];
    assert ApplyAll(t1, [CallSlTx(|data|, data)]) == Apply(t1, CallSlTx(|data|, data));
  }

  lemma {:induction false} SlaveSendsRest(t: Twi, n: nat)
    requires Valid(t) && t.nbData + n == t.slBufLen
    ensures Run(t, Passive(n, 0xB8)) ==
      t.(nbData := t.slBufLen, trace := t.trace + Writes(t.slBuf[t.nbData..t.slBufLen]))
    decreases n
  {
    var irqs := Passive(n, 0xB8);
    if n == 0 {
      assert t.slBuf[t.nbData..t.slBufLen] == [];
      assert t.trace + [] == t.trace;
    } else {
      var nb := t.nbData;
      RunStep(t, irqs);
      assert irqs[0] == Irq(0xB8, 0, []);
      IsrSlaveTransmitMore(t, 0, []);
      var t1 := t.(nbData := nb + 1, trace := t.trace + [Write(t.slBuf[nb], true)]);
      assert irqs[1..] == Passive(n - 1, 0xB8);
      SlaveSendsRest(t1, n - 1);
      WritesCons(t.trace, t.slBuf, nb, t.slBufLen);
    }
  }

  /** With its buffer exhausted, a slave transmitter sends the filler byte
      and announces it as the last one (twi.c:337-350). */
  lemma SlaveSendsFiller(t: Twi, rx: u8, reaction: seq<Call>)
    requires Valid(t) && CallsOk(reaction) && t.nbData >= t.slBufLen
    ensures Isr(t, 0xB8, rx, reaction) == t.(trace := t.trace + [Write(Filler, false)])
  {
    IsrSlaveTransmitMore(t, rx, reaction);
  }

  /** The end of a slave transmission with no master transfer pending:
      SL_TX_END is reported, the bus released and the state IDLE. */
  lemma SlaveTransmitReleases(t: Twi, twsr: u8)
    requires Valid(t) && t.msBufLen == 0 && (twsr == 0xC0 || twsr == 0xC8)
    ensures Run(t, [Irq(twsr, 0, [])]) ==
      t.(state := Idle, trace := t.trace + [Report(SlTxEnd, t.nbData), Release])
  {
    var irqs := [Irq(twsr, 0, [])];
    RunStep(t, irqs);
    assert irqs[1..] == [];
    IsrSlaveTransmitEnd(t, twsr, 0, []);
    NotifyPassive(t, SlTxEnd);
  }

  /** The end of a slave transmission while a master transfer is pending (it
      was requested before arbitration was lost): a repeated START is
      requested instead of releasing the bus (twi.c:352-370). */
  lemma SlaveTransmitRestarts(t: Twi, twsr: u8)
    requires Valid(t) && t.msBufLen != 0 && (twsr == 0xC0 || twsr == 0xC8)
    ensures Isr(t, twsr, 0, []) ==
      t.(state := SlTxEnd, trace := t.trace + [Report(SlTxEnd, t.nbData), Restart])
  {
    IsrSlaveTransmitEnd(t, twsr, 0, []);
    NotifyPassive(t, SlTxEnd);
  }

  /** A complete slave transmission of N >= 1 bytes read by the master, who
      NACKs the last one (twi.c:314-370, 656-670): the call-back's bytes go
      out in order, SL_TX_END is reported with N and the bus released. */
  lemma SlaveTransmit(t: Twi, data: seq<u8>)
    requires Valid(t) && t.msBufLen == 0 && 1 <= |data| < 0x100
    ensures var n := |data|;
      var irqs := [Irq(0xA8, 0, [CallSlTx(n, data)])] + Passive(n - 1, 0xB8) + [Irq(0xC0, 0, [])];
      var r := Run(t, irqs);
      && r.state == Idle && r.nbData == n
      && r.trace == t.trace + [Report(SlTxBegin, 0)] + Writes(data) + [Report(SlTxEnd, n), Release]
  {
    var n: u8 := |data|;
    var head := [Irq(0xA8, 0, [CallSlTx(n, data)])];
    var body := Passive(n - 1, 0xB8);
    var tail := [Irq(0xC0, 0, [])];
    RunStep(t, head);
    assert head[1..] == [];
    SlaveAddressedForTransmit(t, data);
    var t1 := Run(t, head);
    var pre := t.trace + [Report(SlTxBegin, 0)];
    assert t1.trace == pre + [Write(data[0], true)];
    RunAppend(t, head, body);
    SlaveSendsRest(t1, n - 1);
    WritesCons(pre, data, 0, n);
    assert data[0..n] == data;
    var t2 := Run(t1, body);
    assert t2.trace == pre + Writes(data);
    RunAppend(t, head + body, tail);
    SlaveTransmitReleases(t2, 0xC0);
  }

  // ---------------------------------------------------------------------
  // Other statuses

  /** TW_NO_INFO (twi.c:488-495): the interface is re-armed and IDLE is
      reported to the call-back, although twi.h:139-141 says that never
      happens. */
  lemma IdleIsReported(t: Twi, twsr: u8, rx: u8)
    requires Valid(t) && twsr >= 0xF8
    ensures Isr(t, twsr, rx, []) == t.(state := Idle, trace := t.trace + [Release, Report(Idle, t.nbData)])
  {
    NotifyPassive(t.(trace := t.trace + [Release]), Idle);
  }

  /** A bus error (0x00) and any status outside the table are reported as
      ERROR and nothing else is done (twi.c:157-158, 497-511). */
  lemma UnknownStatusIsError(t: Twi, twsr: u8, rx: u8, reaction: seq<Call>)
    requires Valid(t) && CallsOk(reaction)
    requires StatusOf(twsr) == 0 || (TwStLastData < StatusOf(twsr) < TwNoInfo)
    ensures Isr(t, twsr, rx, reaction) == Notify(t, Error, reaction)
  {
  }

  /** Only the five status bits select the handler: the prescaler bits of
      TWSR are ignored (twi.c:152, TW_STATUS). */
  lemma PrescalerIgnored(t: Twi, twsr: u8, rx: u8, reaction: seq<Call>)
    requires Valid(t) && CallsOk(reaction)
    ensures Isr(t, twsr, rx, reaction) == Isr(t, StatusOf(twsr), rx, reaction)
  {
    assert StatusOf(StatusOf(twsr)) == StatusOf(twsr);
  }
}
