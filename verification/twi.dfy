/** The two-wire interface driver of drivers/twi.c as an object: the static
    `twi` record and the TWAR register are fields, the public functions and
    the interrupt handler are methods that update them in place. Every
    method is proved to do exactly what the corresponding function of
    TwiSpec does to the engine's view. */
module Twi {
  import opened TypeDef
  import opened TwiSpec

  class TwiEngine {
    var state: State
    var addr: u8
    var nbData: u8
    var msBufLen: u8
    var msBuf: seq<u8>
    var slBufLen: u8
    var slBuf: seq<u8>
    var twar: u8
    /** Everything the engine did that is visible outside it, in order. */
    var trace: seq<Event>

    function View(): Twi
      reads this
    {
      Twi(state, addr, nbData, msBufLen, msBuf, slBufLen, slBuf, twar, trace)
    }

    predicate Valid()
      reads this
    {
      TwiSpec.Valid(View())
    }

    /** The zeroed static storage. */
    constructor ()
      ensures View() == PowerOn && Valid()
    {
      state, addr, nbData := Idle, 0, 0;
      msBufLen, msBuf, slBufLen, slBuf := 0, [], 0, [];
      twar, trace := 0, [];
    }

    /** nnk_twi_init (twi.c:519-554); the call-back pointer is left out. */
    method Init()
      modifies this
      ensures View() == TwiSpec.Init(old(View()))
    {
      trace := trace + [Disable];
      state := Idle;
      trace := trace + [Release];
      twar := 0;
    }

    /** nnk_twi_sl_addr_set (twi.c:557-561). */
    method SetOwnAddress(slAddr: u8)
      modifies this
      ensures twar == TwiSpec.SetOwnAddress(old(twar), slAddr)
      ensures View() == old(View()).(twar := twar)
    {
      twar := twar % 2;
      twar := twar + (slAddr * 2) % 0x100;
    }

    /** nnk_twi_sl_addr_get (twi.c:564-567). */
    method OwnAddress() returns (a: u8)
      ensures a == TwiSpec.OwnAddress(twar)
    {
      a := twar / 2;
    }

    /** nnk_twi_gen_call (twi.c:570-579). */
    method GenCall(genCall: u8)
      modifies this
      ensures twar == TwiSpec.GenCall(old(twar), genCall)
      ensures View() == old(View()).(twar := twar)
    {
      if genCall != 0 {
        twar := twar - twar % 2 + 1;
      } else {
        twar := twar - twar % 2;
      }
    }

    /** nnk_twi_stop (twi.c:582-599); `busIdle` is TW_STATUS == TW_NO_INFO. */
    method Stop(busIdle: bool)
      modifies this
      ensures View() == StopComm(old(View()), busIdle)
    {
      if state == SlRxEnd || state == GenCallEnd {
        trace := trace + [Release];
      }
      if !busIdle {
        trace := trace + [Event.Stop];
      }
      state := Idle;
    }

    /** The common body of nnk_twi_ms_tx and nnk_twi_ms_rx (twi.c:602-653);
        `stopPending` is TWCR & TWSTO. */
    method MsRequest(d: Dir, adr: u8, len: u8, data: seq<u8>, stopPending: bool) returns (ok: Answer)
      modifies this
      ensures (View(), ok == OK) == TwiSpec.MsRequest(old(View()), d, adr, len, data, stopPending)
    {
      if state != Idle && state != Error {
        return KO;
      }
      if stopPending {
        return KO;
      }
      state := if d == DirWrite then MsTxBegin else MsRxBegin;
      msBuf := data;
      msBufLen := len;
      addr := AddressByte(adr, d);
      trace := trace + [Start];
      ok := OK;
    }

    /** nnk_twi_ms_tx (twi.c:602-626). */
    method MsTx(adr: u8, len: u8, data: seq<u8>, stopPending: bool) returns (ok: Answer)
      modifies this
      ensures (View(), ok == OK) == TwiSpec.MsRequest(old(View()), DirWrite, adr, len, data, stopPending)
    {
      ok := MsRequest(DirWrite, adr, len, data, stopPending);
    }

    /** nnk_twi_ms_rx (twi.c:629-653). */
    method MsRx(adr: u8, len: u8, data: seq<u8>, stopPending: bool) returns (ok: Answer)
      modifies this
      ensures (View(), ok == OK) == TwiSpec.MsRequest(old(View()), DirRead, adr, len, data, stopPending)
    {
      ok := MsRequest(DirRead, adr, len, data, stopPending);
    }

    /** nnk_twi_sl_tx (twi.c:656-670). */
    method SlTx(len: u8, data: seq<u8>) returns (ok: Answer)
      modifies this
      ensures (View(), ok == OK) == TwiSpec.SlTx(old(View()), len, data)
    {
      if state != SlTxBegin {
        return KO;
      }
      slBuf := data;
      slBufLen := len;
      ok := OK;
    }

    /** nnk_twi_sl_rx (twi.c:673-688). */
    method SlRx(len: u8, data: seq<u8>) returns (ok: Answer)
      modifies this
      ensures (View(), ok == OK) == TwiSpec.SlRx(old(View()), len, data)
    {
      if state != SlRxBegin && state != GenCallBegin {
        return KO;
      }
      slBuf := data;
      slBufLen := len;
      ok := OK;
    }

    /** One call made by the application from its call-back. */
    method ApplyCall(c: Call)
      requires Valid() && CallOk(c)
      modifies this
      ensures View() == Apply(old(View()), c)
    {
      match c {
        case CallStop(busIdle) =>
          Stop(busIdle);
        case CallMsTx(adr, len, data, stopPending) =>
          var _ := MsTx(adr, len, data, stopPending);
        case CallMsRx(adr, len, data, stopPending) =>
          var _ := MsRx(adr, len, data, stopPending);
        case CallSlTx(len, data) =>
          var _ := SlTx(len, data);
        case CallSlRx(len, data) =>
          var _ := SlRx(len, data);
      }
    }

    /** The application's call-back, running the calls of `reaction`. */
    method CallBack(reaction: seq<Call>)
      requires Valid() && CallsOk(reaction)
      modifies this
      ensures View() == ApplyAll(old(View()), reaction)
    {
      var i := 0;
      while i < |reaction|
        invariant 0 <= i <= |reaction|
        invariant View() == ApplyAll(old(View()), reaction[..i])
        invariant Valid()
      {
        assert reaction[..i + 1][..i] == reaction[..i];
        ApplyCall(reaction[i]);
        i := i + 1;
      }
      assert reaction[..|reaction|] == reaction;
    }

    /** nnk_twi_call_back_call (twi.c:109-113). */
    method CallBackCall(s: State, reaction: seq<Call>)
      requires Valid() && CallsOk(reaction)
      modifies this
      ensures View() == Notify(old(View()), s, reaction)
    {
      state := s;
      trace := trace + [Report(s, nbData)];
      CallBack(reaction);
    }

    /** nnk_twi_write (twi.c:98-107). */
    method SendByte(b: u8, ack: bool)
      modifies this
      ensures View() == old(View()).(trace := old(trace) + [Write(b, ack)])
    {
      trace := trace + [Write(b, ack)];
    }

    /** ACK the next byte if more than one is still expected, else NACK it. */
    method AckOrNack(len: u8)
      modifies this
      ensures View() == old(View()).(trace := old(trace) + [AckRule(nbData, len)])
    {
      if nbData + 1 < len {
        trace := trace + [Ack];
      } else {
        trace := trace + [Nack];
      }
    }

    /** Store the received byte in the master buffer at nb_data, then count it. */
    method StoreMs(rx: u8)
      modifies this
      ensures View() == TwiSpec.StoreMs(old(View()), rx)
    {
      if nbData < |msBuf| {
        msBuf := msBuf[nbData := rx];
      } else {
        trace := trace + [Overrun(nbData)];
      }
      nbData := Inc8(nbData);
    }

    /** Store the received byte in the slave buffer at nb_data, then count it. */
    method StoreSl(rx: u8)
      modifies this
      ensures View() == TwiSpec.StoreSl(old(View()), rx)
    {
      if nbData < |slBuf| {
        slBuf := slBuf[nbData := rx];
      } else {
        trace := trace + [Overrun(nbData)];
      }
      nbData := Inc8(nbData);
    }

    /** Status codes 0x08 to 0x58: the master handlers. */
    method MasterHandler(code: nat, rx: u8, reaction: seq<Call>)
      requires Valid() && CallsOk(reaction) && 1 <= code <= 11
      modifies this
      ensures View() == TwiSpec.MasterHandler(old(View()), code, rx, reaction)
    {
      if code <= 2 {
        nbData := 0;
        SendByte(addr, true);
      } else if code == 3 || code == 5 {
        if nbData < msBufLen {
          var b := nbData;
          nbData := nbData + 1;
          SendByte(msBuf[b], true);
        } else {
          msBufLen := 0;
          CallBackCall(MsTxEnd, reaction);
        }
      } else if code == 4 || code == 9 {
        msBufLen := 0;
        CallBackCall(NoSlave, reaction);
      } else if code == 6 {
        msBufLen := 0;
        CallBackCall(MsTxEnd, reaction);
      } else if code == 7 {
        trace := trace + [Start];
      } else if code == 8 {
        AckOrNack(msBufLen);
      } else if code == 10 {
        StoreMs(rx);
        AckOrNack(msBufLen);
      } else {
        StoreMs(rx);
        msBufLen := 0;
        CallBackCall(MsRxEnd, reaction);
      }
    }

    /** Status codes 0x60 to 0xA0: the slave receiver handlers. */
    method SlaveReceiveHandler(code: nat, rx: u8, reaction: seq<Call>)
      requires Valid() && CallsOk(reaction) && 12 <= code <= 20
      modifies this
      ensures View() == TwiSpec.SlaveReceiveHandler(old(View()), code, rx, reaction)
    {
      if code <= 15 {
        nbData := 0;
        CallBackCall(if code <= 13 then SlRxBegin else GenCallBegin, reaction);
        AckOrNack(slBufLen);
      } else if code == 16 || code == 18 {
        StoreSl(rx);
        AckOrNack(slBufLen);
      } else if code == 17 || code == 19 {
        StoreSl(rx);
        CallBackCall(if code == 17 then SlRxEnd else GenCallEnd, reaction);
      } else {
        if state == SlRxBegin {
          CallBackCall(SlRxEnd, reaction);
        } else {
          CallBackCall(GenCallEnd, reaction);
        }
        if msBufLen != 0 {
          trace := trace + [Restart];
        }
      }
    }

    /** Status codes 0xA8 to 0xC8: the slave transmitter handlers. */
    method SlaveTransmitHandler(code: nat, reaction: seq<Call>)
      requires Valid() && CallsOk(reaction) && 21 <= code <= 25
      modifies this
      ensures View() == TwiSpec.SlaveTransmitHandler(old(View()), code, reaction)
    {
      if code <= 23 {
        if code <= 22 {
          nbData := 0;
          CallBackCall(SlTxBegin, reaction);
        }
        if nbData < slBufLen {
          var b := nbData;
          nbData := nbData + 1;
          SendByte(slBuf[b], true);
        } else {
          SendByte(Filler, false);
        }
      } else {
        CallBackCall(SlTxEnd, reaction);
        if msBufLen != 0 {
          trace := trace + [Restart];
        } else {
          trace := trace + [Release];
          state := Idle;
        }
      }
    }

    /** ISR(TWI_vect) (twi.c:116-512): `twsr` is TWSR, `rx` is TWDR as the
        receive handlers read it, `reaction` what the call-back does. */
    method Isr(twsr: u8, rx: u8, reaction: seq<Call>)
      requires Valid() && CallsOk(reaction)
      modifies this
      ensures View() == TwiSpec.Isr(old(View()), twsr, rx, reaction)
      ensures Valid()
    {
      var status: u8 := twsr - twsr % 8;
      if status == TwNoInfo {
        trace := trace + [Release];
        CallBackCall(Idle, reaction);
        return;
      }
      if status > TwStLastData {
        CallBackCall(Error, reaction);
        return;
      }
      var code := status / 8;
      if code == 0 {
        CallBackCall(Error, reaction);
      } else if code <= 11 {
        MasterHandler(code, rx, reaction);
      } else if code <= 20 {
        SlaveReceiveHandler(code, rx, reaction);
      } else {
        SlaveTransmitHandler(code, reaction);
      }
    }
  }
}
