/** The two-wire (I2C-compatible) bus protocol engine of drivers/twi.c as
    values and functions: one engine state, the public requests, the
    application call-back, and the interrupt handler's status dispatch.
    The class `Twi.TwiEngine` runs the same steps imperatively and is proved
    equal to these functions; TwiRuns proves what whole transfers do. */
module TwiSpec {
  import opened TypeDef

  // Address range of twi.h:27-29.
  const BroadcastAddr: u8 := 0x00
  const FirstAddr: u8 := 0x01
  const LastAddr: u8 := 0x7F

  /** The byte a slave transmitter sends when it has no data left. */
  const Filler: u8 := 0x33

  /** TW_NO_INFO: no relevant state information, the bus is idle. */
  const TwNoInfo: u8 := 0xF8
  /** TW_ST_LAST_DATA: the highest status code of the dispatch table. */
  const TwStLastData: u8 := 0xC8

  /** `enum nnk_twi_state`: the software state reported to the application. */
  datatype State =
    | Idle | NoSlave
    | MsRxBegin | MsRxEnd | MsTxBegin | MsTxEnd
    | SlRxBegin | SlRxEnd | SlTxBegin | SlTxEnd
    | GenCallBegin | GenCallEnd
    | Error

  /** The enumerator value of each state. */
  function Code(s: State): (c: nat)
    ensures c < 13
    ensures c == 0 <==> s == Idle
    ensures c == 12 <==> s == Error
  {
    match s
    case Idle => 0
    case NoSlave => 1
    case MsRxBegin => 2
    case MsRxEnd => 3
    case MsTxBegin => 4
    case MsTxEnd => 5
    case SlRxBegin => 6
    case SlRxEnd => 7
    case SlTxBegin => 8
    case SlTxEnd => 9
    case GenCallBegin => 10
    case GenCallEnd => 11
    case Error => 12
  }

  /** Direction bit of the address byte: TW_WRITE is 0, TW_READ is 1. */
  datatype Dir = DirWrite | DirRead

  /** The address byte `(adr << 1) | dir` truncated to 8 bits: a 7-bit
      address followed by the R/W bit (UM10204, section 3.1.10). */
  function AddressByte(adr: u8, d: Dir): (b: u8)
    ensures b / 2 == adr % 128
    ensures b % 2 == (if d == DirRead then 1 else 0)
  {
    (adr * 2) % 0x100 + (if d == DirRead then 1 else 0)
  }

  /** What the engine does that the outside world can see, in order: each
      write of the control register (with the data register for Write),
      each call-back invocation, and each received byte stored past the end
      of the buffer it was meant for. Release, Ack and the re-arm of status
      0xF8 write the same control value (TWINT|TWEA|TWEN|TWIE); they are
      named after what the code means by them. */
  datatype Event =
    | Disable                   // TWCR := 0
    | Start                     // generate a START (or retry it)
    | Ack                       // go on, acknowledge the next byte
    | Nack                      // go on, do not acknowledge the next byte
    | Write(b: u8, ack: bool)   // TWDR := b, then go on with or without TWEA
    | Restart                   // repeated START after a slave transfer
    | Release                   // leave the bus, listen for own address
    | Stop                      // generate a STOP
    | Report(s: State, count: u8)   // call-back(state, nb_data)
    | Overrun(index: nat)       // store at ms_buf/sl_buf[index], past the end

  /** The engine's fields (twi.c:41-56) and TWAR, the own-address register.
      msBuf and slBuf are the contents of the buffers the application handed
      over; msBufLen and slBufLen are the lengths it announced. */
  datatype Twi = Twi(
    state: State,
    addr: u8,
    nbData: u8,
    msBufLen: u8,
    msBuf: seq<u8>,
    slBufLen: u8,
    slBuf: seq<u8>,
    twar: u8,
    trace: seq<Event>)

  /** A buffer holds at least as many bytes as its announced length. */
  predicate Valid(t: Twi)
  {
    t.msBufLen <= |t.msBuf| && t.slBufLen <= |t.slBuf|
  }

  /** `r` is a later state of `t`: still valid, same own address. */
  predicate Follows(t: Twi, r: Twi)
  {
    Valid(r) && r.twar == t.twar
  }

  /** Static storage before nnk_twi_init: every field zero, NULL buffers. */
  const PowerOn: Twi := Twi(Idle, 0, 0, 0, [], 0, [], 0, [])

  // ---------------------------------------------------------------------
  // Public requests (twi.c:519-688)

  /** nnk_twi_init: interface off, then on with acknowledge enabled; state
      IDLE; address recognition off (TWAR := 0). Nothing else is reset. */
  function Init(t: Twi): (r: Twi)
    ensures r.state == Idle && r.twar == 0
    ensures r.nbData == t.nbData && r.msBufLen == t.msBufLen && r.slBufLen == t.slBufLen
    ensures r.trace == t.trace + [Disable, Release]
  {
    t.(state := Idle, twar := 0, trace := t.trace + [Disable, Release])
  }

  /** nnk_twi_sl_addr_set: keep only the general-call bit, then put the
      address in bits 7..1. */
  function SetOwnAddress(twar: u8, slAddr: u8): (r: u8)
    ensures r / 2 == slAddr % 128
    ensures r % 2 == twar % 2
  {
    twar % 2 + (slAddr * 2) % 0x100
  }

  /** nnk_twi_sl_addr_get. */
  function OwnAddress(twar: u8): (a: u8)
    ensures a < 128
    ensures SetOwnAddress(twar, a) == twar
  {
    twar / 2
  }

  /** nnk_twi_gen_call: set (any non-zero argument) or clear TWGCE, bit 0. */
  function GenCall(twar: u8, genCall: u8): (r: u8)
    ensures r / 2 == twar / 2
    ensures r % 2 == 1 <==> genCall != 0
  {
    if genCall != 0 then twar - twar % 2 + 1 else twar - twar % 2
  }

  /** Whether the hardware answers the 7-bit address `sla` with TWAR set as
      it is, as twi.h:78-81 describes it: address 0 is the general call,
      answered only when TWGCE is set; any other address is answered when it
      is the own address. */
  predicate Answers(twar: u8, sla: u8)
  {
    if sla == BroadcastAddr then twar % 2 == 1 else sla == twar / 2
  }

  /** nnk_twi_stop. `busIdle` is the hardware read TW_STATUS == TW_NO_INFO. */
  function StopComm(t: Twi, busIdle: bool): (r: Twi)
    ensures r.state == Idle
    ensures r == t.(state := Idle, trace := r.trace)
    ensures |r.trace| >= |t.trace| && r.trace[..|t.trace|] == t.trace
    ensures Stop in r.trace[|t.trace|..] <==> !busIdle
  {
    var released := if t.state == SlRxEnd || t.state == GenCallEnd then [Release] else [];
    var stopped := if busIdle then [] else [Stop];
    var r := t.(state := Idle, trace := t.trace + released + stopped);
    assert r.trace[|t.trace|..] == released + stopped;
    r
  }

  /** nnk_twi_ms_tx (DirWrite) and nnk_twi_ms_rx (DirRead); the boolean is
      OK. `stopPending` is the hardware read TWCR & TWSTO. */
  function MsRequest(t: Twi, d: Dir, adr: u8, len: u8, data: seq<u8>, stopPending: bool): (r: (Twi, bool))
    ensures r.1 <==> (t.state == Idle || t.state == Error) && !stopPending
    ensures !r.1 ==> r.0 == t
    ensures r.1 ==> r.0 == t.(state := if d == DirWrite then MsTxBegin else MsRxBegin,
                               msBuf := data, msBufLen := len,
                               addr := AddressByte(adr, d),
                               trace := t.trace + [Start])
  {
    if t.state != Idle && t.state != Error then (t, false)
    else if stopPending then (t, false)
    else
      var state := if d == DirWrite then MsTxBegin else MsRxBegin;
      (t.(state := state, msBuf := data, msBufLen := len, addr := AddressByte(adr, d),
          trace := t.trace + [Start]), true)
  }

  /** nnk_twi_sl_tx: accepted only while SL_TX_BEGIN is being reported. */
  function SlTx(t: Twi, len: u8, data: seq<u8>): (r: (Twi, bool))
    ensures r.1 <==> t.state == SlTxBegin
    ensures r.0 == if r.1 then t.(slBufLen := len, slBuf := data) else t
  {
    if t.state != SlTxBegin then (t, false)
    else (t.(slBuf := data, slBufLen := len), true)
  }

  /** nnk_twi_sl_rx: accepted only while SL_RX_BEGIN or GENCALL_BEGIN is
      being reported. */
  function SlRx(t: Twi, len: u8, data: seq<u8>): (r: (Twi, bool))
    ensures r.1 <==> t.state == SlRxBegin || t.state == GenCallBegin
    ensures r.0 == if r.1 then t.(slBufLen := len, slBuf := data) else t
  {
    if t.state != SlRxBegin && t.state != GenCallBegin then (t, false)
    else (t.(slBuf := data, slBufLen := len), true)
  }

  // ---------------------------------------------------------------------
  // The application call-back

  /** One call the application makes from inside its call-back, with the
      hardware bits that call reads. */
  datatype Call =
    | CallStop(busIdle: bool)
    | CallMsTx(adr: u8, len: u8, data: seq<u8>, stopPending: bool)
    | CallMsRx(adr: u8, len: u8, data: seq<u8>, stopPending: bool)
    | CallSlTx(len: u8, data: seq<u8>)
    | CallSlRx(len: u8, data: seq<u8>)

  /** A buffer handed over holds at least `len` bytes (twi.h:103, 119). */
  predicate CallOk(c: Call)
  {
    match c
    case CallStop(_) => true
    case CallMsTx(_, len, data, _) => len <= |data|
    case CallMsRx(_, len, data, _) => len <= |data|
    case CallSlTx(len, data) => len <= |data|
    case CallSlRx(len, data) => len <= |data|
  }

  predicate CallsOk(cs: seq<Call>)
  {
    forall i :: 0 <= i < |cs| ==> CallOk(cs[i])
  }

  /** The default call-back (twi.c:62-71) calls nnk_twi_stop and nothing else. */
  function DefaultReaction(busIdle: bool): (cs: seq<Call>)
    ensures CallsOk(cs)
  {
    [CallStop(busIdle)]
  }

  /** The effect of one call on the engine (its answer is the application's). */
  function Apply(t: Twi, c: Call): (r: Twi)
    requires Valid(t) && CallOk(c)
    ensures Valid(r)
    ensures r.nbData == t.nbData && r.twar == t.twar
  {
    match c
    case CallStop(busIdle) => StopComm(t, busIdle)
    case CallMsTx(adr, len, data, stopPending) => MsRequest(t, DirWrite, adr, len, data, stopPending).0
    case CallMsRx(adr, len, data, stopPending) => MsRequest(t, DirRead, adr, len, data, stopPending).0
    case CallSlTx(len, data) => SlTx(t, len, data).0
    case CallSlRx(len, data) => SlRx(t, len, data).0
  }

  /** The calls made one after the other. */
  function ApplyAll(t: Twi, cs: seq<Call>): (r: Twi)
    requires Valid(t) && CallsOk(cs)
    ensures Valid(r)
    ensures r.nbData == t.nbData && r.twar == t.twar
    decreases |cs|
  {
    if cs == [] then t else Apply(ApplyAll(t, cs[..|cs| - 1]), cs[|cs| - 1])
  }

  /** nnk_twi_call_back_call: the state becomes the reported one, then the
      call-back runs with (state, nb_data). */
  function Notify(t: Twi, s: State, reaction: seq<Call>): (r: Twi)
    requires Valid(t) && CallsOk(reaction)
    ensures Valid(r)
    ensures r.nbData == t.nbData && r.twar == t.twar
  {
    ApplyAll(t.(state := s, trace := t.trace + [Report(s, t.nbData)]), reaction)
  }

  // ---------------------------------------------------------------------
  // The interrupt handler (twi.c:116-512)

  /** ACK the next byte when more than one remains to be received. */
  function AckRule(nb: int, len: int): (e: Event)
    ensures e == Ack || e == Nack
    ensures e == Ack <==> nb + 1 < len
    ensures e == Nack <==> nb + 1 >= len
  {
    if nb + 1 < len then Ack else Nack
  }

  /** Store a byte received as master at ms_buf[nb_data], then nb_data++. */
  function StoreMs(t: Twi, rx: u8): (r: Twi)
    ensures r.nbData == Inc8(t.nbData) && r.msBufLen == t.msBufLen && |r.msBuf| == |t.msBuf|
    ensures r.slBuf == t.slBuf && r.slBufLen == t.slBufLen && r.state == t.state
    ensures Valid(t) ==> Follows(t, r)
  {
    var t1 := if t.nbData < |t.msBuf| then t.(msBuf := t.msBuf[t.nbData := rx])
              else t.(trace := t.trace + [Overrun(t.nbData)]);
    t1.(nbData := Inc8(t.nbData))
  }

  /** Store a byte received as slave at sl_buf[nb_data], then nb_data++. */
  function StoreSl(t: Twi, rx: u8): (r: Twi)
    ensures r.nbData == Inc8(t.nbData) && r.slBufLen == t.slBufLen && |r.slBuf| == |t.slBuf|
    ensures r.msBuf == t.msBuf && r.msBufLen == t.msBufLen && r.state == t.state
    ensures Valid(t) ==> Follows(t, r)
  {
    var t1 := if t.nbData < |t.slBuf| then t.(slBuf := t.slBuf[t.nbData := rx])
              else t.(trace := t.trace + [Overrun(t.nbData)]);
    t1.(nbData := Inc8(t.nbData))
  }

  /** Master transmitter after an ACK: send ms_buf[nb_data] while bytes
      remain, else clear the length (nothing is resent) and report MS_TX_END. */
  function MasterSendNext(t: Twi, reaction: seq<Call>): (r: Twi)
    requires Valid(t) && CallsOk(reaction)
    ensures Follows(t, r)
  {
    if t.nbData < t.msBufLen then
      t.(nbData := t.nbData + 1, trace := t.trace + [Write(t.msBuf[t.nbData], true)])
    else
      Notify(t.(msBufLen := 0), MsTxEnd, reaction)
  }

  /** Slave transmitter: send sl_buf[nb_data] expecting more, or the filler
      byte as the last one. */
  function SlaveSendNext(t: Twi): (r: Twi)
    requires Valid(t)
    ensures Follows(t, r)
  {
    if t.nbData < t.slBufLen then
      t.(nbData := t.nbData + 1, trace := t.trace + [Write(t.slBuf[t.nbData], true)])
    else
      t.(trace := t.trace + [Write(Filler, false)])
  }

  /** Addressed as slave receiver or by a general call: reset the count,
      report, then ACK or NACK the first byte. */
  function SlaveReceiveBegin(t: Twi, s: State, reaction: seq<Call>): (r: Twi)
    requires Valid(t) && CallsOk(reaction)
    ensures Follows(t, r)
  {
    var t1 := Notify(t.(nbData := 0), s, reaction);
    t1.(trace := t1.trace + [AckRule(t1.nbData, t1.slBufLen)])
  }

  /** STOP or repeated START after a slave reception. */
  function SlaveStop(t: Twi, reaction: seq<Call>): (r: Twi)
    requires Valid(t) && CallsOk(reaction)
    ensures Follows(t, r)
  {
    var t1 := Notify(t, if t.state == SlRxBegin then SlRxEnd else GenCallEnd, reaction);
    if t1.msBufLen != 0 then t1.(trace := t1.trace + [Restart]) else t1
  }

  /** End of a slave transmission: report, then restart for a pending master
      transfer or release the bus and become IDLE. */
  function SlaveTransmitEnd(t: Twi, reaction: seq<Call>): (r: Twi)
    requires Valid(t) && CallsOk(reaction)
    ensures Follows(t, r)
  {
    var t1 := Notify(t, SlTxEnd, reaction);
    if t1.msBufLen != 0 then t1.(trace := t1.trace + [Restart])
    else t1.(trace := t1.trace + [Release], state := Idle)
  }

  /** START sent: reset the count, send the address byte. */
  function SendAddress(t: Twi): (r: Twi)
    ensures Valid(t) ==> Follows(t, r)
  {
    t.(nbData := 0, trace := t.trace + [Write(t.addr, true)])
  }

  /** A byte received as master and ACKed: store it, then ACK or NACK the next. */
  function MasterByteReceived(t: Twi, rx: u8): (r: Twi)
    requires Valid(t)
    ensures Follows(t, r)
  {
    var t1 := StoreMs(t, rx);
    t1.(trace := t1.trace + [AckRule(t1.nbData, t1.msBufLen)])
  }

  /** The last byte received as master (NACKed): store it, clear the length,
      report MS_RX_END. */
  function MasterLastByteReceived(t: Twi, rx: u8, reaction: seq<Call>): (r: Twi)
    requires Valid(t) && CallsOk(reaction)
    ensures Follows(t, r)
  {
    Notify(StoreMs(t, rx).(msBufLen := 0), MsRxEnd, reaction)
  }

  /** Status codes 0x08 to 0x58 (code = status >> 3): the master handlers. */
  function MasterHandler(t: Twi, code: nat, rx: u8, reaction: seq<Call>): (r: Twi)
    requires Valid(t) && CallsOk(reaction) && 1 <= code <= 11
    ensures Follows(t, r)
  {
    if code <= 2 then SendAddress(t)                                      // 0x08, 0x10
    else if code == 3 || code == 5 then MasterSendNext(t, reaction)        // 0x18, 0x28
    else if code == 4 || code == 9 then Notify(t.(msBufLen := 0), NoSlave, reaction)  // 0x20, 0x48
    else if code == 6 then Notify(t.(msBufLen := 0), MsTxEnd, reaction)   // 0x30
    else if code == 7 then t.(trace := t.trace + [Start])                  // 0x38
    else if code == 8 then t.(trace := t.trace + [AckRule(t.nbData, t.msBufLen)])  // 0x40
    else if code == 10 then MasterByteReceived(t, rx)                     // 0x50
    else MasterLastByteReceived(t, rx, reaction)                           // 0x58
  }

  /** A byte received as slave and ACKed: store it, then ACK or NACK the next. */
  function SlaveByteReceived(t: Twi, rx: u8): (r: Twi)
    requires Valid(t)
    ensures Follows(t, r)
  {
    var t1 := StoreSl(t, rx);
    t1.(trace := t1.trace + [AckRule(t1.nbData, t1.slBufLen)])
  }

  /** The last byte received as slave (NACKed): store it, report `s`. */
  function SlaveLastByteReceived(t: Twi, rx: u8, s: State, reaction: seq<Call>): (r: Twi)
    requires Valid(t) && CallsOk(reaction)
    ensures Follows(t, r)
  {
    Notify(StoreSl(t, rx), s, reaction)
  }

  /** Status codes 0x60 to 0xA0: the slave receiver handlers. */
  function SlaveReceiveHandler(t: Twi, code: nat, rx: u8, reaction: seq<Call>): (r: Twi)
    requires Valid(t) && CallsOk(reaction) && 12 <= code <= 20
    ensures Follows(t, r)
  {
    if code == 12 || code == 13 then SlaveReceiveBegin(t, SlRxBegin, reaction)   // 0x60, 0x68
    else if code == 14 || code == 15 then SlaveReceiveBegin(t, GenCallBegin, reaction) // 0x70, 0x78
    else if code == 16 || code == 18 then SlaveByteReceived(t, rx)        // 0x80, 0x90
    else if code == 17 then SlaveLastByteReceived(t, rx, SlRxEnd, reaction)    // 0x88
    else if code == 19 then SlaveLastByteReceived(t, rx, GenCallEnd, reaction) // 0x98
    else SlaveStop(t, reaction)                                            // 0xA0
  }

  /** Status codes 0xA8 to 0xC8: the slave transmitter handlers. */
  function SlaveTransmitHandler(t: Twi, code: nat, reaction: seq<Call>): (r: Twi)
    requires Valid(t) && CallsOk(reaction) && 21 <= code <= 25
    ensures Follows(t, r)
  {
    if code == 21 || code == 22 then                                       // 0xA8, 0xB0
      SlaveSendNext(Notify(t.(nbData := 0), SlTxBegin, reaction))
    else if code == 23 then SlaveSendNext(t)                               // 0xB8
    else SlaveTransmitEnd(t, reaction)                                     // 0xC0, 0xC8
  }

  /** The handler selected by `code` = status >> 3 (the table of twi.c:118-146). */
  function Dispatch(t: Twi, code: nat, rx: u8, reaction: seq<Call>): (r: Twi)
    requires Valid(t) && CallsOk(reaction) && code <= 25
    ensures Follows(t, r)
  {
    if code == 0 then Notify(t, Error, reaction)                           // 0x00 bus error
    else if code <= 11 then MasterHandler(t, code, rx, reaction)
    else if code <= 20 then SlaveReceiveHandler(t, code, rx, reaction)
    else SlaveTransmitHandler(t, code, reaction)
  }

  /** TW_STATUS: TWSR with its three prescaler bits masked off. */
  function StatusOf(twsr: u8): (s: u8)
    ensures s % 8 == 0 && s <= twsr && twsr - s < 8
  {
    twsr - twsr % 8
  }

  /** One run of ISR(TWI_vect): `twsr` is the status register, `rx` the data
      register (read by the receive handlers), `reaction` what the call-back
      does if the handler reports. */
  function Isr(t: Twi, twsr: u8, rx: u8, reaction: seq<Call>): (r: Twi)
    requires Valid(t) && CallsOk(reaction)
    ensures Follows(t, r)
  {
    var status := StatusOf(twsr);
    if status == TwNoInfo then Notify(t.(trace := t.trace + [Release]), Idle, reaction)
    else if status > TwStLastData then Notify(t, Error, reaction)
    else
      Dispatch(t, status / 8, rx, reaction)
  }
}
