/** The rules of drivers/twi.h that concern the own address and the
    call-back, checked against what drivers/twi.c actually does. */
module TwiRules {
  import opened TypeDef
  import opened TwiSpec

  // ---------------------------------------------------------------------
  // Own address and general call (twi.h:48-53, 78-90)

  /** After nnk_twi_init the device answers no address at all: neither an
      own address nor the general call, so it can only act as master. */
  lemma InitAnswersNobody(t: Twi, sla: u8)
    ensures !Answers(Init(t).twar, sla)
  {
  }

  /** nnk_twi_sl_addr_get returns the 7-bit address nnk_twi_sl_addr_set stored. */
  lemma OwnAddressRoundTrip(twar: u8, slAddr: u8)
    requires slAddr <= LastAddr
    ensures OwnAddress(SetOwnAddress(twar, slAddr)) == slAddr
  {
    assert SetOwnAddress(twar, slAddr) / 2 == slAddr % 128;
  }

  /** Setting the own address keeps whether the general call is answered,
      and switching the general call keeps the own address. */
  lemma AddressAndGeneralCallIndependent(twar: u8, slAddr: u8, genCall: u8, sla: u8)
    requires sla != BroadcastAddr
    ensures Answers(SetOwnAddress(twar, slAddr), BroadcastAddr) <==> Answers(twar, BroadcastAddr)
    ensures Answers(GenCall(twar, genCall), sla) <==> Answers(twar, sla)
    ensures Answers(GenCall(twar, genCall), BroadcastAddr) <==> genCall != 0
  {
  }

  /** With own address 0 the device answers only the general call, and only
      when that is enabled. */
  lemma AddressZeroIsGeneralCallOnly(twar: u8, sla: u8)
    ensures Answers(SetOwnAddress(twar, BroadcastAddr), sla) <==> sla == BroadcastAddr && twar % 2 == 1
  {
    assert SetOwnAddress(twar, BroadcastAddr) == twar % 2;
  }

  // ---------------------------------------------------------------------
  // nnk_twi_stop

  /** A second nnk_twi_stop on an idle bus changes nothing. */
  lemma StopIdempotent(t: Twi, busIdle: bool)
    ensures StopComm(StopComm(t, busIdle), true) == StopComm(t, busIdle)
  {
    var r := StopComm(t, busIdle);
    assert r.state == Idle;
    assert r.trace + [] + [] == r.trace;
  }

  // ---------------------------------------------------------------------
  // The call-back contract of twi.h:133-197 against the code

  /** MS_TX_END after a data NACK (status 0x30). */
  lemma IsrMasterDataNack(t: Twi, rx: u8, reaction: seq<Call>)
    requires Valid(t) && CallsOk(reaction)
    ensures Isr(t, 0x30, rx, reaction) == Notify(t.(msBufLen := 0), MsTxEnd, reaction)
  {
    assert StatusOf(0x30) / 8 == 6;
  }

  /** twi.h:155-159 offers nnk_twi_ms_tx from the MS_TX_END call-back, but
      the request is refused there: the state is MS_TX_END, not IDLE or
      ERROR (twi.c:605). Only the report is left. */
  lemma MsTxEndRefusesTransfer(t: Twi, rx: u8, adr: u8, len: u8, data: seq<u8>, stopPending: bool)
    requires Valid(t) && len <= |data|
    ensures Isr(t, 0x30, rx, [CallMsTx(adr, len, data, stopPending)]) ==
      t.(msBufLen := 0, state := MsTxEnd, trace := t.trace + [Report(MsTxEnd, t.nbData)])
  {
    var c := CallMsTx(adr, len, data, stopPending);
    IsrMasterDataNack(t, rx, [c]);
    var t1 := t.(msBufLen := 0, state := MsTxEnd, trace := t.trace + [Report(MsTxEnd, t.nbData)]);
    assert [c][..0] == [];
    assert ApplyAll(t1, [c]) == Apply(t1, c);
  }

  /** Calling nnk_twi_stop first makes the state IDLE; when the following
      nnk_twi_ms_tx reads the TWSTO bit still set (the STOP just requested
      has not gone out yet; the bit is an input of the call), that transfer
      is refused as well (twi.c:609). */
  lemma StopThenTransferRefused(t: Twi, rx: u8, adr: u8, len: u8, data: seq<u8>)
    requires Valid(t) && len <= |data|
    ensures Isr(t, 0x30, rx, [CallStop(false), CallMsTx(adr, len, data, true)]) ==
      t.(msBufLen := 0, state := Idle, trace := t.trace + [Report(MsTxEnd, t.nbData), Stop])
  {
    var cs := [CallStop(false), CallMsTx(adr, len, data, true)];
    IsrMasterDataNack(t, rx, cs);
    var t1 := t.(msBufLen := 0, state := MsTxEnd, trace := t.trace + [Report(MsTxEnd, t.nbData)]);
    assert cs[..1] == [CallStop(false)] && cs[..1][..0] == [];
    var t2 := StopComm(t1, false);
    assert t2 == t1.(state := Idle, trace := t1.trace + [Stop]);
    assert ApplyAll(t1, cs[..1]) == t2;
    assert ApplyAll(t1, cs) == Apply(t2, cs[1]);
  }

  /** Addressed as slave transmitter (0xA8) with a call-back that uses
      nnk_twi_sl_rx, as twi.h:172-175 suggests: the request is refused
      (twi.c:677), the slave buffer stays the previous one, and the next
      byte is taken from it, or the filler byte when it is exhausted. */
  lemma SlaveTransmitIgnoresSlRx(t: Twi, rx: u8, len: u8, buf: seq<u8>)
    requires Valid(t) && len <= |buf|
    ensures Isr(t, 0xA8, rx, [CallSlRx(len, buf)]) ==
      SlaveSendNext(t.(nbData := 0, state := SlTxBegin, trace := t.trace + [Report(SlTxBegin, 0)]))
  {
    var c := CallSlRx(len, buf);
    assert StatusOf(0xA8) / 8 == 21;
    var t1 := t.(nbData := 0, state := SlTxBegin, trace := t.trace + [Report(SlTxBegin, 0)]);
    assert [c][..0] == [];
    assert ApplyAll(t1, [c]) == Apply(t1, c);
  }

  /** Addressed by a general call (0x70), nnk_twi_sl_tx is refused
      (twi.c:659): the old slave buffer stays and the first byte is ACKed or
      NACKed by its announced length (twi.h:126-130). */
  lemma GeneralCallRefusesSlTx(t: Twi, rx: u8, len: u8, data: seq<u8>)
    requires Valid(t) && len <= |data|
    ensures Isr(t, 0x70, rx, [CallSlTx(len, data)]) ==
      t.(nbData := 0, state := GenCallBegin,
         trace := t.trace + [Report(GenCallBegin, 0), AckRule(0, t.slBufLen)])
  {
    var c := CallSlTx(len, data);
    assert StatusOf(0x70) / 8 == 14;
    var t1 := t.(nbData := 0, state := GenCallBegin, trace := t.trace + [Report(GenCallBegin, 0)]);
    assert [c][..0] == [];
    assert ApplyAll(t1, [c]) == Apply(t1, c);
  }
}
