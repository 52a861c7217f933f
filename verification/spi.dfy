/** The SPI driver of drivers/spi.c: a configuration routine that checks
    every setting before enabling the block, and an interrupt-driven
    transfer engine, as master (byte by byte through both buffers) or as
    slave (into one receive buffer). The value `Record` is the static `SPI`
    record together with the SPCR/SPSR registers and a trace of what the
    driver makes visible: bytes loaded into SPDR, the slave-select line
    and the call-back reports. */
module SpiSpec {
  import opened TypeDef

  datatype Behaviour = Reset | Master | Slave

  /** enum nnk_spi_state (spi.h:44-51). */
  datatype SpiState = Idle | Running | MasterEnd | SlaveBegin | SlaveEnd | Error

  datatype Event =
    | Load(b: u8)          // a byte written to SPDR, which starts a transfer
    | LoadBeyond           // the byte one past the transmit buffer written to SPDR
    | Select               // /SS driven low
    | Deselect             // /SS driven high
    | Report(st: SpiState) // the call-back invoked with `st`

  /** A caller's buffer (`rx_buf`/`tx_buf`) with the length given with it
      (`rx_len`/`tx_len`). */
  datatype Buffer = Buffer(bytes: seq<u8>, len: u8)

  /** The bits of the SPI control register (SPCR). */
  datatype CtrlBit = Spie | Spe | Dord | Mstr | Cpol | Cpha | Spr1 | Spr0

  /** The registers the driver writes: SPCR as the set of its bits that are
      set, and the SPI2X bit of SPSR. */
  datatype Regs = Regs(spcr: set<CtrlBit>, spi2x: bool)

  datatype Record = Record(
    behaviour: Behaviour,
    state: SpiState,
    rx: Buffer,
    tx: Buffer,
    index: u8,
    defaultCallBack: bool,
    fini: Answer,
    falseTriggers: u16,
    regs: Regs,
    trace: seq<Event>)

  /** The caller's buffers hold the lengths given with them. */
  predicate Valid(s: Record)
  {
    |s.rx.bytes| >= s.rx.len as int && |s.tx.bytes| >= s.tx.len as int
  }

  /** The zeroed static storage and the registers after reset. */
  const PowerOn := Record(Reset, Idle, Buffer([], 0), Buffer([], 0), 0, false, KO, 0, Regs({}, false), [])

  // ---------------------------------------------------------------------
  // SPI_init (spi.c:155-267)

  /** The mode switch (spi.c:182-202): the CPOL/CPHA bits, or nothing for an
      unknown mode. */
  function ModeBits(mode: u8): Option<set<CtrlBit>>
  {
    if mode == 0 then Some({})
    else if mode == 1 then Some({Cpha})
    else if mode == 2 then Some({Cpol})
    else if mode == 3 then Some({Cpol, Cpha})
    else None
  }

  /** The clock switch (spi.c:217-251): whether SPI2X is set in SPSR and the
      SPR1/SPR0 bits of SPCR, or nothing for an unknown divisor. */
  function ClockBits(div: u8): Option<(bool, set<CtrlBit>)>
  {
    if div == 0 then Some((true, {}))
    else if div == 1 then Some((false, {}))
    else if div == 2 then Some((true, {Spr0}))
    else if div == 3 then Some((false, {Spr0}))
    else if div == 4 then Some((true, {Spr1}))
    else if div == 5 then Some((false, {Spr1}))
    else if div == 6 then Some((false, {Spr0, Spr1}))
    else None
  }

  /** SPI_init: the behaviour is RESET until every argument has been
      checked; each switch returns early on an unknown value, keeping the
      register bits already set; once all are known the behaviour is taken,
      the transfer state is reset, the default call-back installed and the
      block and its interrupt enabled. SPI2X is only ever set, never
      cleared. The enumerators are numbered as in spi.h. */
  function Init(s: Record, behaviour: u8, mode: u8, order: u8, div: u8): Record
  {
    var trace := if behaviour == 1 then s.trace + [Deselect] else s.trace;
    var spcr0: set<CtrlBit> := if behaviour == 1 then {Mstr} else {};
    if behaviour != 1 && behaviour != 2 then s.(behaviour := Reset, regs := s.regs.(spcr := {}))
    else if ModeBits(mode).None? then s.(behaviour := Reset, regs := s.regs.(spcr := spcr0), trace := trace)
    else
      var spcr1 := spcr0 + ModeBits(mode).value;
      if order > 1 then s.(behaviour := Reset, regs := s.regs.(spcr := spcr1), trace := trace)
      else
        var spcr2 := if order == 0 then spcr1 + {Dord} else spcr1;
        if ClockBits(div).None? then s.(behaviour := Reset, regs := s.regs.(spcr := spcr2), trace := trace)
        else
          s.(behaviour := if behaviour == 1 then Master else Slave,
             state := Idle, index := 0, defaultCallBack := true, falseTriggers := 0,
             regs := Regs(spcr2 + ClockBits(div).value.1 + {Spe, Spie}, s.regs.spi2x || ClockBits(div).value.0),
             trace := trace)
  }

  /** The divisor of the CPU clock that SPI2X/SPR1/SPR0 select, from the
      table of the AVR SPI block. */
  function Divisor(regs: Regs): nat
  {
    var spcr := regs.spcr;
    var base :=
      if Spr1 !in spcr && Spr0 !in spcr then 4
      else if Spr1 !in spcr then 16
      else if Spr0 !in spcr then 64
      else 128;
    if regs.spi2x then base / 2 else base
  }

  /** The nominal divisor of each enum nnk_spi_clock_div value. */
  function NominalDivisor(div: u8): nat
    requires div <= 6
  {
    [2, 4, 8, 16, 32, 64, 128][div]
  }

  /** The registers a complete configuration leaves. */
  lemma InitRegs(s: Record, behaviour: u8, mode: u8, order: u8, div: u8)
    requires 1 <= behaviour <= 2 && mode <= 3 && order <= 1 && div <= 6
    ensures ModeBits(mode).Some? && ClockBits(div).Some?
    ensures Init(s, behaviour, mode, order, div).regs == Regs(
      (if behaviour == 1 then {Mstr} else {}) + ModeBits(mode).value + (if order == 0 then {Dord} else {})
        + ClockBits(div).value.1 + {Spe, Spie},
      s.regs.spi2x || ClockBits(div).value.0)
  {
  }

  /** A complete configuration selects the behaviour asked for, resets the
      transfer state and the counter, installs the default call-back, and
      enables the block and its interrupt, as master (MSTR) only when asked
      to. */
  lemma InitConfigures(s: Record, behaviour: u8, mode: u8, order: u8, div: u8)
    requires 1 <= behaviour <= 2 && mode <= 3 && order <= 1 && div <= 6
    ensures var r := Init(s, behaviour, mode, order, div);
      && r.behaviour == (if behaviour == 1 then Master else Slave)
      && r.state == Idle && r.index == 0 && r.defaultCallBack && r.falseTriggers == 0
      && Spe in r.regs.spcr && Spie in r.regs.spcr
      && (Mstr in r.regs.spcr <==> behaviour == 1)
  {
    InitRegs(s, behaviour, mode, order, div);
    ModeSelects(mode);
    ClockSelects(div, {});
  }

  /** It sets CPOL for modes 2 and 3, CPHA for modes 1 and 3, and DORD for
      LSB first. */
  lemma InitSetsFormat(s: Record, behaviour: u8, mode: u8, order: u8, div: u8)
    requires 1 <= behaviour <= 2 && mode <= 3 && order <= 1 && div <= 6
    ensures var r := Init(s, behaviour, mode, order, div);
      && (Cpol in r.regs.spcr <==> mode >= 2)
      && (Cpha in r.regs.spcr <==> mode % 2 == 1)
      && (Dord in r.regs.spcr <==> order == 0)
  {
    InitRegs(s, behaviour, mode, order, div);
    ModeSelects(mode);
    ClockSelects(div, {});
  }

  /** From a cleared SPI2X, it sets the clock bits that select exactly the
      divisor asked for (/2 to /128). */
  lemma InitSetsClock(s: Record, behaviour: u8, mode: u8, order: u8, div: u8)
    requires 1 <= behaviour <= 2 && mode <= 3 && order <= 1 && div <= 6
    requires !s.regs.spi2x
    ensures Divisor(Init(s, behaviour, mode, order, div).regs) == NominalDivisor(div)
  {
    InitRegs(s, behaviour, mode, order, div);
    ModeSelects(mode);
    var others := (if behaviour == 1 then {Mstr} else {}) + ModeBits(mode).value
      + (if order == 0 then {Dord} else {}) + {Spe, Spie};
    ClockSelects(div, others);
    assert others + ClockBits(div).value.1 ==
      (if behaviour == 1 then {Mstr} else {}) + ModeBits(mode).value + (if order == 0 then {Dord} else {})
        + ClockBits(div).value.1 + {Spe, Spie};
  }

  /** As written, SPI2X is never cleared: a configuration with a divisor that
      needs it cleared (/4, /16, /64, /128), made after one that set it,
      runs the bus at half the divisor asked for, i.e. twice as fast. */
  lemma ReinitHalvesDivisor(s: Record, behaviour: u8, mode: u8, order: u8, div: u8)
    requires 1 <= behaviour <= 2 && mode <= 3 && order <= 1
    requires div == 1 || div == 3 || div == 5 || div == 6
    requires s.regs.spi2x
    ensures Init(s, behaviour, mode, order, div).regs.spi2x
    ensures Divisor(Init(s, behaviour, mode, order, div).regs) == NominalDivisor(div) / 2
    ensures Divisor(Init(s, behaviour, mode, order, div).regs) != NominalDivisor(div)
  {
    InitRegs(s, behaviour, mode, order, div);
    ModeSelects(mode);
  }

  /** SPI_init as intended: a complete configuration writes SPI2X with the
      value its divisor needs, setting or clearing it, and is otherwise Init. */
  function InitIntended(s: Record, behaviour: u8, mode: u8, order: u8, div: u8): Record
  {
    var r := Init(s, behaviour, mode, order, div);
    if 1 <= behaviour <= 2 && mode <= 3 && order <= 1 && div <= 6
    then r.(regs := r.regs.(spi2x := ClockBits(div).value.0))
    else r
  }

  /** Whatever SPI2X was before, the intended configuration selects exactly
      the divisor asked for, and differs from Init only in SPI2X. */
  lemma IntendedInitSetsClock(s: Record, behaviour: u8, mode: u8, order: u8, div: u8)
    requires 1 <= behaviour <= 2 && mode <= 3 && order <= 1 && div <= 6
    ensures Divisor(InitIntended(s, behaviour, mode, order, div).regs) == NominalDivisor(div)
    ensures InitIntended(s, behaviour, mode, order, div)
      == Init(s, behaviour, mode, order, div).(regs := InitIntended(s, behaviour, mode, order, div).regs)
    ensures InitIntended(s, behaviour, mode, order, div).regs.spcr == Init(s, behaviour, mode, order, div).regs.spcr
  {
    InitSetsClock(s.(regs := s.regs.(spi2x := false)), behaviour, mode, order, div);
    InitRegs(s, behaviour, mode, order, div);
    InitRegs(s.(regs := s.regs.(spi2x := false)), behaviour, mode, order, div);
  }

  /** The mode bits of each mode: CPOL for modes 2 and 3, CPHA for the odd
      ones, and no other bit. */
  lemma ModeSelects(mode: u8)
    requires mode <= 3
    ensures ModeBits(mode).Some? && ModeBits(mode).value <= {Cpol, Cpha}
    ensures Cpol in ModeBits(mode).value <==> mode >= 2
    ensures Cpha in ModeBits(mode).value <==> mode % 2 == 1
  {
  }

  /** The clock bits of each divisor select that divisor, whatever other
      bits of SPCR are set. */
  lemma ClockSelects(div: u8, others: set<CtrlBit>)
    requires div <= 6 && Spr0 !in others && Spr1 !in others
    ensures ClockBits(div).Some? && ClockBits(div).value.1 <= {Spr0, Spr1}
    ensures Divisor(Regs(others + ClockBits(div).value.1, ClockBits(div).value.0)) == NominalDivisor(div)
  {
  }

  /** Any unknown argument leaves the behaviour RESET, does not enable the
      block, and keeps the transfer state, the call-back and the counters. */
  lemma InitRejects(s: Record, behaviour: u8, mode: u8, order: u8, div: u8)
    requires !(1 <= behaviour <= 2 && mode <= 3 && order <= 1 && div <= 6)
    ensures var r := Init(s, behaviour, mode, order, div);
      && r.behaviour == Reset && Spe !in r.regs.spcr && Spie !in r.regs.spcr
      && r == s.(behaviour := Reset, regs := r.regs, trace := r.trace)
  {
  }

  // ---------------------------------------------------------------------
  // Requests

  /** SPI_call_back_set (spi.c:271-275): the application's own call-back
      replaces the default one. */
  function CallBackSet(s: Record): Record
  {
    s.(defaultCallBack := false)
  }

  /** SPI_master (spi.c:279-299): refused unless idle and configured as
      master; otherwise both buffers are taken, the slave is selected and
      the first byte is loaded. `tx_buf[0]` is read whatever `tx_len` is, so
      the transmit buffer holds at least one byte. */
  function MasterRequest(s: Record, tx: Buffer, rx: Buffer): (Answer, Record)
    requires |tx.bytes| >= tx.len as int && |tx.bytes| >= 1 && |rx.bytes| >= rx.len as int
  {
    if s.state != Idle || s.behaviour != Master then (KO, s)
    else (OK, s.(tx := tx, rx := rx, state := Running, trace := s.trace + [Select, Load(tx.bytes[0])]))
  }

  /** SPI_slave (spi.c:331-349): refused unless idle and configured as
      slave; otherwise there is nothing to send (NULL, length 0) and the
      receive buffer is taken. */
  function SlaveRequest(s: Record, rx: Buffer): (Answer, Record)
    requires |rx.bytes| >= rx.len as int
  {
    if s.state != Idle || s.behaviour != Slave then (KO, s)
    else (OK, s.(tx := Buffer([], 0), rx := rx, state := Running))
  }

  /** A request is accepted exactly in the idle state of the matching
      behaviour, and a refused one changes nothing. An accepted master
      request selects the slave and loads the first byte to send. */
  lemma RequestsGuarded(s: Record, tx: Buffer, rx: Buffer)
    requires |tx.bytes| >= tx.len as int && |tx.bytes| >= 1 && |rx.bytes| >= rx.len as int
    ensures var (ok, r) := MasterRequest(s, tx, rx);
      && (ok == OK <==> s.state == Idle && s.behaviour == Master)
      && (ok == KO ==> r == s)
      && (ok == OK ==> (r.state == Running && r.rx == rx && r.tx == tx
            && r.trace == s.trace + [Select, Load(tx.bytes[0])]))
    ensures var (ok, r) := SlaveRequest(s, rx);
      && (ok == OK <==> s.state == Idle && s.behaviour == Slave)
      && (ok == KO ==> r == s)
      && (ok == OK ==> r.state == Running && r.rx == rx && r.tx.len == 0)
  {
  }

  // ---------------------------------------------------------------------
  // The interrupt (spi.c:41-139)

  /** The call-back reporting `st`; the default one sets the `fini` flag. */
  function Notify(s: Record, st: SpiState): Record
  {
    s.(trace := s.trace + [Report(st)], fini := if s.defaultCallBack then OK else s.fini)
  }

  /** An interrupt that is not awaited: counted, reported as an error, and
      the state set to `next`. */
  function FalseTrigger(s: Record, next: SpiState): Record
  {
    s.(falseTriggers := Inc16(s.falseTriggers), trace := s.trace + [Report(Error)],
       fini := if s.defaultCallBack then OK else s.fini, state := next)
  }

  /** What the master loads into SPDR after byte `index` has gone. */
  datatype Loaded = FromTx(i: nat) | Filler | Nothing

  /** The master's choice as written (spi.c:59-67): `tx_buf[index + 1]`
      while `index < tx_len`, otherwise the filler 0xFF; a byte is loaded
      in every case. */
  function NextLoadAsWritten(index: u8, txLen: u8): (l: Loaded)
    ensures l != Nothing
    ensures l.FromTx? <==> index < txLen
    ensures l.FromTx? ==> 1 <= l.i <= txLen as int
  {
    if index < txLen then FromTx(index as nat + 1) else Filler
  }

  /** The SPDR write, if any, for a load choice; a place at or past the
      transmit length is read from beyond the caller's buffer. */
  function Loading(tx: Buffer, l: Loaded): (e: seq<Event>)
    requires |tx.bytes| >= tx.len as int
    ensures |e| == if l == Nothing then 0 else 1
  {
    match l
    case FromTx(i) => if i < tx.len as nat then [Load(tx.bytes[i])] else [LoadBeyond]
    case Filler => [Load(0xFF)]
    case Nothing => []
  }

  /** As written, the interrupt of the last byte of a transmission reads
      `tx_buf[tx_len]`, one past the buffer, and loads it. */
  lemma LastByteReadsPastBuffer(tx: Buffer)
    requires |tx.bytes| >= tx.len as int && tx.len >= 1
    ensures NextLoadAsWritten(tx.len - 1, tx.len) == FromTx(tx.len as nat)
    ensures Loading(tx, NextLoadAsWritten(tx.len - 1, tx.len)) == [LoadBeyond]
  {
  }

  /** The choice the comments of spi.c:58-67 describe: the next byte to
      send while one is left, the filler while bytes are still to be
      received, and nothing once the transfer is over. */
  function NextLoad(index: u8, txLen: u8, rxLen: u8): (l: Loaded)
    ensures l.FromTx? ==> l.i < txLen as int && l.i == index as int + 1
    ensures l == Nothing <==> index as int + 1 >= txLen as int && index as int + 1 >= rxLen as int
  {
    if index as int + 1 < txLen as int then FromTx(index as nat + 1)
    else if index as int + 1 < rxLen as int then Filler
    else Nothing
  }

  /** The receive buffer with `b` stored at `at` when that is within its
      length. */
  function Store(rx: Buffer, at: u8, b: u8): (r: Buffer)
    requires |rx.bytes| >= rx.len as int
    ensures r.len == rx.len && |r.bytes| == |rx.bytes|
  {
    if at < rx.len then rx.(bytes := rx.bytes[at := b]) else rx
  }

  /** The rest of a running master step once `load` has been written to
      SPDR (spi.c:69-88): the byte that came in is stored while the receive
      buffer is not full, the index advances, and once it has reached both
      lengths the transfer ends: idle state, index 0, MASTER_END reported
      and the slave deselected. */
  function MasterAdvance(s: Record, spdr: u8, load: seq<Event>): (r: Record)
    requires Valid(s)
    ensures Keeps(s, r)
  {
    var i := Inc8(s.index);
    if i >= s.tx.len && i >= s.rx.len then
      s.(rx := Store(s.rx, s.index, spdr), index := 0, state := Idle,
         trace := s.trace + load + [Report(MasterEnd), Deselect],
         fini := if s.defaultCallBack then OK else s.fini)
    else s.(rx := Store(s.rx, s.index, spdr), index := i, trace := s.trace + load)
  }

  /** The master step as written (spi.c:45-89): an interrupt while no
      transfer runs is a false trigger leaving ERROR; otherwise the byte
      NextLoadAsWritten chooses is loaded and the step goes on. */
  function MasterStepAsWritten(s: Record, spdr: u8): (r: Record)
    requires Valid(s)
    ensures Keeps(s, r)
  {
    if s.state != Running then FalseTrigger(s, Error)
    else MasterAdvance(s, spdr, Loading(s.tx, NextLoadAsWritten(s.index, s.tx.len)))
  }

  /** The master step with the loads the comments describe (NextLoad):
      nothing is loaded at the last interrupt, so no further transfer
      starts. */
  function MasterStep(s: Record, spdr: u8): (r: Record)
    requires Valid(s)
    ensures Keeps(s, r)
  {
    if s.state != Running then FalseTrigger(s, Error)
    else MasterAdvance(s, spdr, Loading(s.tx, NextLoad(s.index, s.tx.len, s.rx.len)))
  }

  /** The guard of the slave step as written (spi.c:93): true for every
      state, since no state is both IDLE and RUNNING. */
  predicate SlaveUnexpectedAsWritten(st: SpiState)
  {
    st != Idle || st != Running
  }

  /** The guard the comment describes: an interrupt is unexpected unless the
      slave is idle or receiving. */
  predicate SlaveUnexpected(st: SpiState)
  {
    st != Idle && st != Running
  }

  /** The slave step (spi.c:91-131) with the guard the comment describes:
      the first byte of a transfer (index 0) reports SLAVE_BEGIN and starts
      receiving; a byte that fits is stored and the filler loaded; the index
      advances; once it has reached the length SLAVE_END is reported and the
      state is IDLE. The index is not reset. */
  function SlaveStep(s: Record, spdr: u8): (r: Record)
    requires Valid(s)
    ensures Keeps(s, r)
  {
    if SlaveUnexpected(s.state) then FalseTrigger(s, Error)
    else
      var begins := s.index == 0;
      var stores := s.index < s.rx.len;
      var i := Inc8(s.index);
      var ends := i >= s.rx.len;
      s.(rx := Store(s.rx, s.index, spdr), index := i,
         state := if ends then Idle else if begins then Running else s.state,
         trace := s.trace + (if begins then [Report(SlaveBegin)] else [])
                  + (if stores then [Load(0xFF)] else [])
                  + (if ends then [Report(SlaveEnd)] else []),
         fini := if (begins || ends) && s.defaultCallBack then OK else s.fini)
  }

  /** The slave step as written: its guard holds in every state, so every
      interrupt is a false trigger leaving ERROR, and lines 104-130 are
      never reached. */
  function SlaveStepAsWritten(s: Record, spdr: u8): (r: Record)
    requires Valid(s)
    ensures Keeps(s, r)
  {
    if SlaveUnexpectedAsWritten(s.state) then FalseTrigger(s, Error)
    else SlaveStep(s, spdr)
  }

  /** What an interrupt does not change: the configuration and the
      buffers' extent, so the buffers still hold their lengths. */
  predicate Keeps(s: Record, r: Record)
  {
    && r.tx == s.tx && r.rx.len == s.rx.len && |r.rx.bytes| == |s.rx.bytes|
    && r.behaviour == s.behaviour && r.regs == s.regs
  }

  /** The SPI interrupt as written (spi.c:41-139); `spdr` is the byte just
      received. In RESET behaviour the interrupt is a false trigger that
      leaves the state IDLE. */
  function IsrAsWritten(s: Record, spdr: u8): (r: Record)
    requires Valid(s)
    ensures Keeps(s, r)
  {
    match s.behaviour
    case Master => MasterStepAsWritten(s, spdr)
    case Slave => SlaveStepAsWritten(s, spdr)
    case Reset => FalseTrigger(s, Idle)
  }

  /** The SPI interrupt with the master loads and the slave guard the
      comments describe. */
  function Isr(s: Record, spdr: u8): (r: Record)
    requires Valid(s)
    ensures Keeps(s, r)
  {
    match s.behaviour
    case Master => MasterStep(s, spdr)
    case Slave => SlaveStep(s, spdr)
    case Reset => FalseTrigger(s, Idle)
  }

  /** An interrupt in RESET behaviour is counted as a false trigger,
      reported as an error, and leaves the state IDLE. */
  lemma ResetInterruptCounted(s: Record, spdr: u8)
    requires Valid(s) && s.behaviour == Reset
    ensures var r := IsrAsWritten(s, spdr);
      r.falseTriggers == Inc16(s.falseTriggers) && r.state == Idle
      && r.trace == s.trace + [Report(Error)] && r.rx == s.rx
  {
  }

  /** A master interrupt when no transfer is running is counted, reported
      as an error and leaves the state ERROR. */
  lemma UnexpectedMasterInterrupt(s: Record, spdr: u8)
    requires Valid(s) && s.behaviour == Master && s.state != Running
    ensures var r := IsrAsWritten(s, spdr);
      r.falseTriggers == Inc16(s.falseTriggers) && r.state == Error
      && r.trace == s.trace + [Report(Error)] && r.rx == s.rx && r.index == s.index
  {
  }

  /** As written, every slave interrupt, whatever the state, is a false
      trigger: counted, reported as an error, the state set to ERROR and
      nothing received. A slave request, once accepted, thus ends at its
      first interrupt in ERROR, and every later request is refused. */
  lemma SlaveAlwaysRejectedAsWritten(s: Record, spdr: u8, rx: Buffer)
    requires Valid(s) && s.behaviour == Slave && |rx.bytes| >= rx.len as int
    ensures SlaveUnexpectedAsWritten(s.state)
    ensures var r := IsrAsWritten(s, spdr);
      && r.falseTriggers == Inc16(s.falseTriggers) && r.state == Error
      && r.trace == s.trace + [Report(Error)] && r.rx == s.rx && r.index == s.index
      && SlaveRequest(r, rx) == (KO, r)
  {
  }

  /** As written, the last interrupt of a master transfer ends it and still
      loads one byte (one past the transmit buffer, or the filler), which
      starts one more transfer. The interrupt of that transfer finds the
      driver idle: it is counted as a false trigger, reported as an error
      and leaves the state ERROR, in which every later request is
      refused. */
  lemma TrailingTransferEndsInError(s: Record, b: u8, trailing: u8, tx: Buffer, rx: Buffer)
    requires Valid(s) && s.behaviour == Master && s.state == Running
    requires Inc8(s.index) >= s.tx.len && Inc8(s.index) >= s.rx.len
    requires |tx.bytes| >= tx.len as int && |tx.bytes| >= 1 && |rx.bytes| >= rx.len as int
    ensures var r := IsrAsWritten(s, b);
      && r.state == Idle && r.index == 0
      && |Loading(s.tx, NextLoadAsWritten(s.index, s.tx.len))| == 1
      && r.trace == s.trace + Loading(s.tx, NextLoadAsWritten(s.index, s.tx.len)) + [Report(MasterEnd), Deselect]
    ensures var e := IsrAsWritten(IsrAsWritten(s, b), trailing);
      && e.state == Error && e.falseTriggers == Inc16(s.falseTriggers)
      && e.trace == IsrAsWritten(s, b).trace + [Report(Error)]
      && MasterRequest(e, tx, rx) == (KO, e)
  {
  }

  /** A slave interrupt while receiving stores the byte when it fits and
      reports SLAVE_END exactly when the length is reached; the first byte
      of a transfer reports SLAVE_BEGIN first. */
  lemma SlaveReceives(s: Record, spdr: u8)
    requires Valid(s) && s.behaviour == Slave && (s.state == Idle || s.state == Running)
    requires s.index < 0xFF
    ensures var r := Isr(s, spdr);
      && r.index == s.index + 1
      && (s.index < s.rx.len ==> r.rx.bytes == s.rx.bytes[s.index := spdr])
      && (s.index >= s.rx.len ==> r.rx == s.rx)
      && (r.state == Idle <==> s.index + 1 >= s.rx.len || (s.index != 0 && s.state == Idle))
      && (Report(SlaveEnd) in r.trace[|s.trace|..] <==> s.index + 1 >= s.rx.len)
      && (Report(SlaveBegin) in r.trace[|s.trace|..] <==> s.index == 0)
  {
    var r := Isr(s, spdr);
    var added := r.trace[|s.trace|..];
    assert added == (if s.index == 0 then [Report(SlaveBegin)] else [])
      + (if s.index < s.rx.len then [Load(0xFF)] else [])
      + (if s.index + 1 >= s.rx.len then [Report(SlaveEnd)] else []);
  }

  // ---------------------------------------------------------------------
  // A whole master transfer

  /** The interrupts of a transfer, one received byte each. */
  function Run(s: Record, ins: seq<u8>): (r: Record)
    requires Valid(s)
    ensures Valid(r)
    decreases |ins|
  {
    if ins == [] then s else Run(Isr(s, ins[0]), ins[1..])
  }

  /** The loads of the interrupts `from` .. `to - 1` of a master transfer. */
  function Loads(tx: Buffer, rxLen: u8, from: nat, to: nat): seq<Event>
    requires |tx.bytes| >= tx.len as int && from <= to < 0x100
    decreases 0x100 - from
  {
    if from == to then []
    else Loading(tx, NextLoad(from as u8, tx.len, rxLen)) + Loads(tx, rxLen, from + 1, to)
  }

  /** The receive buffer once the bytes `ins` arrived from position `at`
      on, each stored only while it fits. */
  function Stored(buf: seq<u8>, rxLen: u8, at: nat, ins: seq<u8>): (r: seq<u8>)
    requires |buf| >= rxLen as int
    ensures |r| == |buf|
    decreases |ins|
  {
    if ins == [] then buf
    else Stored(if at < rxLen as nat then buf[at := ins[0]] else buf, rxLen, at + 1, ins[1..])
  }

  /** The number of interrupts of a master transfer: one per byte of the
      longer buffer, and one at least. */
  function Bytes(txLen: u8, rxLen: u8): nat
  {
    if txLen == 0 && rxLen == 0 then 1 else if txLen >= rxLen then txLen as nat else rxLen as nat
  }

  /** One interrupt before the last one of a master transfer. */
  lemma MasterMidStep(s: Record, b: u8)
    requires Valid(s) && s.behaviour == Master && s.state == Running
    requires s.index as nat + 1 < Bytes(s.tx.len, s.rx.len)
    ensures Isr(s, b) == s.(index := s.index + 1, rx := Store(s.rx, s.index, b),
      trace := s.trace + Loading(s.tx, NextLoad(s.index, s.tx.len, s.rx.len)))
  {
  }

  /** The interrupts before the last one of a master transfer keep it
      running and advance the index by one each. */
  lemma {:induction false} MasterMiddle(s: Record, ins: seq<u8>)
    requires Valid(s) && s.behaviour == Master && s.state == Running
    requires s.index as nat + |ins| < Bytes(s.tx.len, s.rx.len)
    ensures Run(s, ins).behaviour == Master && Run(s, ins).state == Running
    ensures Run(s, ins).tx == s.tx && Run(s, ins).rx.len == s.rx.len
    ensures Run(s, ins).defaultCallBack == s.defaultCallBack
    ensures Run(s, ins).index as nat == s.index as nat + |ins|
    decreases |ins|
  {
    if ins != [] {
      MasterMidStep(s, ins[0]);
      MasterMiddle(Isr(s, ins[0]), ins[1..]);
    }
  }

  /** Meanwhile they store the incoming bytes in order ... */
  lemma {:induction false} MasterMiddleStores(s: Record, ins: seq<u8>)
    requires Valid(s) && s.behaviour == Master && s.state == Running
    requires s.index as nat + |ins| < Bytes(s.tx.len, s.rx.len)
    ensures Run(s, ins).rx.bytes == Stored(s.rx.bytes, s.rx.len, s.index as nat, ins)
    decreases |ins|
  {
    if ins != [] {
      MasterMidStep(s, ins[0]);
      var s1 := Isr(s, ins[0]);
      MasterMiddleStores(s1, ins[1..]);
      assert Run(s, ins) == Run(s1, ins[1..]);
    }
  }

  /** ... and load the outgoing ones in order. */
  lemma {:induction false} MasterMiddleLoads(s: Record, ins: seq<u8>)
    requires Valid(s) && s.behaviour == Master && s.state == Running
    requires s.index as nat + |ins| < Bytes(s.tx.len, s.rx.len)
    ensures Run(s, ins).trace == s.trace + Loads(s.tx, s.rx.len, s.index as nat, s.index as nat + |ins|)
    decreases |ins|
  {
    if ins != [] {
      var i := s.index as nat;
      MasterMidStep(s, ins[0]);
      var s1 := Isr(s, ins[0]);
      MasterMiddleLoads(s1, ins[1..]);
      assert Run(s, ins) == Run(s1, ins[1..]);
      assert Loads(s.tx, s.rx.len, i, i + |ins|)
        == Loading(s.tx, NextLoad(s.index, s.tx.len, s.rx.len)) + Loads(s.tx, s.rx.len, i + 1, i + |ins|);
    }
  }

  /** The last interrupt of a master transfer ends it. */
  lemma MasterLastStep(s: Record, b: u8)
    requires Valid(s) && s.behaviour == Master && s.state == Running
    requires s.index as nat + 1 == Bytes(s.tx.len, s.rx.len)
    ensures Isr(s, b) == s.(index := 0, state := Idle, rx := Store(s.rx, s.index, b),
      fini := if s.defaultCallBack then OK else s.fini,
      trace := s.trace + [Report(MasterEnd), Deselect])
  {
  }

  /** The bytes loaded during a master transfer: after the first one (loaded
      by the request) come the rest of the transmit buffer, then the filler
      while bytes are still to be received, and nothing after the last. */
  lemma {:induction false} LoadsAre(tx: Buffer, rxLen: u8, from: nat, to: nat)
    requires |tx.bytes| >= tx.len as int && from <= to < 0x100
    requires to + 1 <= Bytes(tx.len, rxLen)
    ensures Loads(tx, rxLen, from, to) ==
      seq(to - from, k requires 0 <= k < to - from =>
        Load(if from + k + 1 < tx.len as nat then tx.bytes[from + k + 1] else 0xFF))
    decreases 0x100 - from
  {
    if from < to {
      LoadsAre(tx, rxLen, from + 1, to);
    }
  }

  /** The receive buffer after a transfer holds the incoming bytes in its
      first `rx_len` places and is untouched beyond. */
  lemma {:induction false} StoredIs(buf: seq<u8>, rxLen: u8, at: nat, ins: seq<u8>)
    requires |buf| >= rxLen as int && at + |ins| >= rxLen as int && at <= rxLen as int
    ensures Stored(buf, rxLen, at, ins) == buf[..at] + ins[..rxLen as int - at] + buf[rxLen..]
    decreases |ins|
  {
    if ins != [] {
      var next := if at < rxLen as nat then buf[at := ins[0]] else buf;
      if at < rxLen as nat {
        StoredIs(next, rxLen, at + 1, ins[1..]);
        assert next[..at + 1] == buf[..at] + [ins[0]];
        assert ins[..rxLen as int - at] == [ins[0]] + ins[1..][..rxLen as int - (at + 1)];
        assert next[rxLen..] == buf[rxLen..];
      } else {
        StoredAfter(buf, rxLen, at + 1, ins[1..]);
      }
    }
  }

  /** Bytes arriving past the end of the receive buffer are not stored. */
  lemma {:induction false} StoredAfter(buf: seq<u8>, rxLen: u8, at: nat, ins: seq<u8>)
    requires |buf| >= rxLen as int && at >= rxLen as int
    ensures Stored(buf, rxLen, at, ins) == buf
    decreases |ins|
  {
    if ins != [] {
      StoredAfter(buf, rxLen, at + 1, ins[1..]);
    }
  }

  lemma {:induction false} StoredAppend(buf: seq<u8>, rxLen: u8, at: nat, ins: seq<u8>, b: u8)
    requires |buf| >= rxLen as int
    ensures var m := Stored(buf, rxLen, at, ins);
      Stored(buf, rxLen, at, ins + [b]) ==
        if at + |ins| < rxLen as nat then m[at + |ins| := b] else m
    decreases |ins|
  {
    if ins == [] {
      assert Stored(buf, rxLen, at, [b]) == Stored(if at < rxLen as nat then buf[at := b] else buf, rxLen, at + 1, []);
    } else {
      assert (ins + [b])[1..] == ins[1..] + [b];
      StoredAppend(if at < rxLen as nat then buf[at := ins[0]] else buf, rxLen, at + 1, ins[1..], b);
    }
  }

  lemma {:induction false} RunAppend(s: Record, a: seq<u8>, b: seq<u8>)
    requires Valid(s)
    ensures Run(s, a + b) == Run(Run(s, a), b)
    decreases |a|
  {
    if a == [] {
      assert a + b == b;
    } else {
      assert (a + b)[0] == a[0];
      assert (a + b)[1..] == a[1..] + b;
      RunAppend(Isr(s, a[0]), a[1..], b);
    }
  }

  /** The state after all but the last interrupt of a master transfer. */
  lemma MasterBeforeLast(t: Record, front: seq<u8>)
    requires Valid(t) && t.behaviour == Master && t.state == Running && t.index == 0
    requires |front| + 1 == Bytes(t.tx.len, t.rx.len)
    ensures var m := Run(t, front);
      && m.behaviour == Master && m.state == Running && m.index as nat == |front|
      && m.tx == t.tx && m.rx.len == t.rx.len && m.defaultCallBack == t.defaultCallBack
      && m.rx.bytes == Stored(t.rx.bytes, t.rx.len, 0, front)
      && m.trace == t.trace + seq(|front|, k requires 0 <= k < |front| =>
           Load(if k + 1 < t.tx.len as nat then t.tx.bytes[k + 1] else 0xFF))
  {
    MasterMiddle(t, front);
    MasterMiddleStores(t, front);
    MasterMiddleLoads(t, front);
    LoadsAre(t.tx, t.rx.len, 0, |front|);
  }

  /** The interrupts of a running master transfer, from index 0 to its
      end. */
  lemma MasterRun(t: Record, ins: seq<u8>)
    requires Valid(t) && t.behaviour == Master && t.state == Running && t.index == 0
    requires |ins| == Bytes(t.tx.len, t.rx.len)
    ensures Run(t, ins).state == Idle && Run(t, ins).index == 0
    ensures Run(t, ins).rx.bytes == Stored(t.rx.bytes, t.rx.len, 0, ins)
    ensures Run(t, ins).trace == t.trace
      + seq(|ins| - 1, k requires 0 <= k < |ins| - 1 =>
          Load(if k + 1 < t.tx.len as nat then t.tx.bytes[k + 1] else 0xFF))
      + [Report(MasterEnd), Deselect]
  {
    var n := |ins|;
    var front, last := ins[..n - 1], ins[n - 1];
    assert ins == front + [last];
    RunAppend(t, front, [last]);
    MasterBeforeLast(t, front);
    var m := Run(t, front);
    MasterLastStep(m, last);
    var r := Isr(m, last);
    assert Run(t, ins) == r by {
      assert Run(m, [last]) == Run(r, []);
    }
    StoredAppend(t.rx.bytes, t.rx.len, 0, front, last);
  }

  /** A whole master transfer: accepted from the idle master state, it runs
      for one interrupt per byte of the longer buffer; afterwards the driver
      is idle again with index 0, the first `rx_len` bytes received are in
      the receive buffer, the transmit buffer went out in order followed by
      the filler, MASTER_END was reported and the slave deselected. */
  lemma MasterTransfer(s: Record, tx: Buffer, rx: Buffer, ins: seq<u8>)
    requires Valid(s) && s.behaviour == Master && s.state == Idle && s.index == 0
    requires |tx.bytes| >= tx.len as int && |tx.bytes| >= 1 && |rx.bytes| >= rx.len as int
    requires |ins| == Bytes(tx.len, rx.len)
    ensures MasterRequest(s, tx, rx).0 == OK
    ensures Run(MasterRequest(s, tx, rx).1, ins).state == Idle
    ensures Run(MasterRequest(s, tx, rx).1, ins).index == 0
    ensures Run(MasterRequest(s, tx, rx).1, ins).rx.bytes == ins[..rx.len] + rx.bytes[rx.len..]
    ensures Run(MasterRequest(s, tx, rx).1, ins).trace == s.trace + [Select, Load(tx.bytes[0])]
      + seq(|ins| - 1, k requires 0 <= k < |ins| - 1 =>
          Load(if k + 1 < tx.len as nat then tx.bytes[k + 1] else 0xFF))
      + [Report(MasterEnd), Deselect]
  {
    var t := MasterRequest(s, tx, rx).1;
    MasterRun(t, ins);
    StoredIs(rx.bytes, rx.len, 0, ins);
  }
}

/** The driver object of drivers/spi.c. */
module Spi {
  import opened TypeDef
  import opened SpiSpec

  /** The static `SPI` record with the SPI registers; every method does to
      `View()` what the function of the same name does. */
  class SpiDriver {
    var behaviour: Behaviour
    var state: SpiState
    var rx: Buffer
    var tx: Buffer
    var index: u8
    var defaultCallBack: bool
    var fini: Answer
    var falseTriggers: u16
    var regs: Regs
    var trace: seq<Event>

    function View(): Record
      reads this
    {
      Record(behaviour, state, rx, tx, index, defaultCallBack, fini, falseTriggers, regs, trace)
    }

    constructor ()
      ensures View() == PowerOn
    {
      behaviour, state, rx, tx, index := Reset, Idle, Buffer([], 0), Buffer([], 0), 0;
      defaultCallBack, fini, falseTriggers, regs, trace := false, KO, 0, Regs({}, false), [];
    }

    /** SPI_init (spi.c:155-267). */
    method Init(b: u8, mode: u8, order: u8, div: u8)
      modifies this
      ensures View() == SpiSpec.Init(old(View()), b, mode, order, div)
    {
      ghost var before := View();
      behaviour := Reset;
      var spcr: set<CtrlBit>;
      if b == 1 {
        spcr := {Mstr};
        trace := trace + [Deselect];
      } else if b == 2 {
        spcr := {};
      } else {
        regs := regs.(spcr := {});
        return;
      }
      var m := ModeBits(mode);
      if m.None? {
        regs := regs.(spcr := spcr);
        return;
      }
      spcr := spcr + m.value;
      if order == 0 {
        spcr := spcr + {Dord};
      } else if order != 1 {
        regs := regs.(spcr := spcr);
        return;
      }
      var clock := ClockBits(div);
      if clock.None? {
        regs := regs.(spcr := spcr);
        return;
      }
      spcr := spcr + clock.value.1;
      InitRegs(before, b, mode, order, div);
      behaviour := if b == 1 then Master else Slave;
      state, index, defaultCallBack, falseTriggers := Idle, 0, true, 0;
      regs := Regs(spcr + {Spe, Spie}, regs.spi2x || clock.value.0);
    }

    /** SPI_call_back_set (spi.c:271-275). */
    method CallBackSet()
      modifies this
      ensures View() == SpiSpec.CallBackSet(old(View()))
    {
      defaultCallBack := false;
    }

    /** SPI_master (spi.c:279-299). */
    method MasterRequest(txBuf: Buffer, rxBuf: Buffer) returns (ok: Answer)
      requires |txBuf.bytes| >= txBuf.len as int && |txBuf.bytes| >= 1 && |rxBuf.bytes| >= rxBuf.len as int
      modifies this
      ensures (ok, View()) == SpiSpec.MasterRequest(old(View()), txBuf, rxBuf)
    {
      if state != Idle || behaviour != Master {
        return KO;
      }
      tx, rx := txBuf, rxBuf;
      state := Running;
      trace := trace + [Select, Load(tx.bytes[0])];
      return OK;
    }

    /** SPI_slave (spi.c:331-349). */
    method SlaveRequest(rxBuf: Buffer) returns (ok: Answer)
      requires |rxBuf.bytes| >= rxBuf.len as int
      modifies this
      ensures (ok, View()) == SpiSpec.SlaveRequest(old(View()), rxBuf)
    {
      if state != Idle || behaviour != Slave {
        return KO;
      }
      tx, rx := Buffer([], 0), rxBuf;
      state := Running;
      return OK;
    }

    /** The call-back reporting `st`. */
    method CallBack(st: SpiState)
      modifies this
      ensures View() == Notify(old(View()), st)
    {
      trace := trace + [Report(st)];
      if defaultCallBack {
        fini := OK;
      }
    }

    /** An interrupt that is not awaited (spi.c:47-56, 93-101, 133-137). */
    method FalseTriggered(next: SpiState)
      modifies this
      ensures View() == FalseTrigger(old(View()), next)
    {
      falseTriggers := Inc16(falseTriggers);
      CallBack(Error);
      state := next;
    }

    /** The master branch of the interrupt (spi.c:45-89), as written. */
    method MasterInterrupt(spdr: u8)
      requires Valid(View())
      modifies this
      ensures View() == MasterStepAsWritten(old(View()), spdr)
    {
      if state != Running {
        FalseTriggered(Error);
        return;
      }
      if index < tx.len {
        if index as int + 1 < tx.len as int {
          trace := trace + [Load(tx.bytes[index as int + 1])];
        } else {
          trace := trace + [LoadBeyond];
        }
      } else {
        trace := trace + [Load(0xFF)];
      }
      if index < rx.len {
        rx := rx.(bytes := rx.bytes[index := spdr]);
      }
      index := Inc8(index);
      if index >= tx.len && index >= rx.len {
        state := Idle;
        index := 0;
        CallBack(MasterEnd);
        trace := trace + [Deselect];
        state := Idle;
      }
    }

    /** The slave branch of the interrupt (spi.c:91-131), as written: the
        guard holds in every state, so the rest of the branch is never
        reached. */
    method SlaveInterrupt(spdr: u8)
      requires Valid(View())
      modifies this
      ensures View() == SlaveStepAsWritten(old(View()), spdr)
    {
      if state != Idle || state != Running {
        FalseTriggered(Error);
        return;
      }
      assert false;
    }

    /** The SPI_STC interrupt (spi.c:41-139); `spdr` is the byte just
        received. */
    method Isr(spdr: u8)
      requires Valid(View())
      modifies this
      ensures View() == IsrAsWritten(old(View()), spdr)
    {
      match behaviour
      case Master => MasterInterrupt(spdr);
      case Slave => SlaveInterrupt(spdr);
      case Reset => FalseTriggered(Idle);
    }
  }
}
