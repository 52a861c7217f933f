/** The EEPROM driver of drivers/eeprom.c: reads copy bytes out at once,
    writes program the first byte and let the "EEPROM ready" interrupt
    program the others one by one. The EEPROM is an abstract memory of
    2^16 bytes (the width of the address register); programming a byte is
    taken to happen at once, and whether the EEPROM is busy (the EEPE bit)
    is an input of each request. */
module Eeprom {
  import opened TypeDef

  const RomSize := 0x1_0000

  /** The `len` bytes from address `addr` on; the 16-bit address register
      wraps around. */
  function Window(rom: seq<u8>, addr: u16, len: nat): (w: seq<u8>)
    requires |rom| == RomSize
    ensures |w| == len
    ensures forall i :: 0 <= i < len ==> w[i] == rom[(addr + i) % RomSize]
  {
    seq(len, i requires 0 <= i < len => rom[(addr + i) % RomSize])
  }

  /** The memory `before` once the first `k` bytes of `data` have been
      programmed from address `start` on: address `j` holds `data[i]` when it
      is the `i`-th address of the walk with `i < k`, and keeps its old byte
      otherwise. */
  function Programmed(before: seq<u8>, start: u16, data: seq<u8>, k: nat): (r: seq<u8>)
    requires |before| == RomSize && k <= |data| && k <= 0x100
    ensures |r| == RomSize
  {
    seq(RomSize, j requires 0 <= j < RomSize =>
      var i := (j - start) % RomSize;
      if i < k then data[i] else before[j])
  }

  /** Programming one more byte of the walk: the (k+1)-th byte goes to the
      address `start + k` and nothing else changes. */
  lemma ProgrammedStep(before: seq<u8>, start: u16, data: seq<u8>, k: nat)
    requires |before| == RomSize && k < |data| && k < 0x100
    ensures Programmed(before, start, data, k + 1) ==
      Programmed(before, start, data, k)[(start + k) % RomSize := data[k]]
  {
    var a := (start + k) % RomSize;
    var p, q := Programmed(before, start, data, k), Programmed(before, start, data, k + 1);
    forall j | 0 <= j < RomSize
      ensures q[j] == p[a := data[k]][j]
    {
      WalkIndex(start, k, j);
    }
  }

  /** Address `j` is the `k`-th one of the walk from `start` exactly when
      `(j - start) mod 2^16 == k`. */
  lemma WalkIndex(start: u16, k: nat, j: int)
    requires k < 0x100 && 0 <= j < RomSize
    ensures (j - start) % RomSize == k <==> j == (start + k) % RomSize
  {
  }

  /** Once the first `k` bytes are programmed, reading `k` bytes from the
      start address gives them back, and every address outside the walk
      keeps its old byte. */
  lemma ProgrammedReadBack(before: seq<u8>, start: u16, data: seq<u8>, k: nat)
    requires |before| == RomSize && k <= |data| && k <= 0x100
    ensures Window(Programmed(before, start, data, k), start, k) == data[..k]
    ensures forall j :: 0 <= j < RomSize && (j - start) % RomSize >= k ==>
      Programmed(before, start, data, k)[j] == before[j]
  {
    var r := Programmed(before, start, data, k);
    var w := Window(r, start, k);
    forall i | 0 <= i < k
      ensures w[i] == data[i]
    {
      WalkIndex(start, i, (start + i) % RomSize);
    }
    assert w == data[..k];
  }

  /** The static `eep` record, the enable bit of the interrupt and the
      EEPROM contents. `data` is the buffer the `eep.data` pointer walks
      (`hasData` is false for NULL); `eep.data + n` is `data[n]`. `start`
      and `before` remember the accepted write, for the statement of what
      has been programmed. */
  class EepromDriver {
    var rom: seq<u8>
    var addr: u16
    var data: seq<u8>
    var hasData: bool
    var len: u8
    var n: u8
    var irqEnabled: bool
    ghost var start: u16
    ghost var before: seq<u8>

    /** How many bytes of the accepted write have been programmed: one per
        interrupt while `n < len`, and the first byte is programmed even
        when `len` is 0. */
    ghost function Done(): nat
      reads this
    {
      if n < len then n as nat + 1 else if len == 0 then 1 else len as nat
    }

    ghost predicate Valid()
      reads this
    {
      && |rom| == RomSize && |before| == RomSize
      && (irqEnabled ==> hasData && (n < len || n == 0))
      && (hasData ==>
            && |data| >= len && |data| >= 1
            && n as nat <= Done()
            && rom == Programmed(before, start, data, Done())
            && addr as int == (start + Done() - 1) % RomSize)
    }

    /** The storage before nnk_eep_init: no write in progress. */
    constructor (contents: seq<u8>)
      requires |contents| == RomSize
      ensures Valid() && rom == contents && !hasData && n == 0 && !irqEnabled
    {
      rom, addr, data, hasData, len, n, irqEnabled := contents, 0, [], false, 0, 0, false;
      start, before := 0, contents;
    }

    /** nnk_eep_init (eeprom.c:80-88): the index is cleared, the buffer
        pointer becomes NULL and the interrupt is disabled (EECR = 0). */
    method Init()
      requires Valid()
      modifies this
      ensures Valid() && !hasData && n == 0 && !irqEnabled
      ensures rom == old(rom) && addr == old(addr) && len == old(len)
    {
      n, hasData, irqEnabled := 0, false, false;
    }

    /** nnk_eep_read (eeprom.c:92-115): refused while the EEPROM is busy;
        otherwise the `count` bytes from `from` on are copied into `dst`, in
        order, and nothing else changes. */
    method Read(busy: bool, from: u16, dst: array<u8>, count: u8) returns (ok: Answer)
      requires Valid() && dst.Length >= count
      modifies dst
      ensures ok == OK <==> !busy
      ensures ok == OK ==> dst[..count] == Window(rom, from, count as nat)
      ensures dst[count..] == old(dst[count..])
      ensures ok == KO ==> dst[..] == old(dst[..])
    {
      if busy {
        return KO;
      }
      var i: u8 := 0;
      while i < count
        invariant i <= count
        invariant forall k :: 0 <= k < i ==> dst[k] == rom[(from + k) % RomSize]
        invariant forall k :: i <= k < dst.Length ==> dst[k] == old(dst[k])
      {
        dst[i] := rom[(from + i) % RomSize];
        i := i + 1;
      }
      return OK;
    }

    /** nnk_eep_write (eeprom.c:119-143): refused while the EEPROM is busy or
        a buffer is recorded; otherwise the request is recorded, the first
        byte is programmed at once, even when `count` is 0, and the interrupt
        is enabled. The C code reads `buf[0]` in every case, so the buffer
        has at least one byte. */
    method Write(busy: bool, to: u16, buf: seq<u8>, count: u8) returns (ok: Answer)
      requires Valid() && |buf| >= count && |buf| >= 1
      modifies this
      ensures Valid()
      ensures ok == OK <==> !busy && !old(hasData)
      ensures ok == KO ==> (rom == old(rom) && addr == old(addr) && data == old(data)
        && hasData == old(hasData) && len == old(len) && n == old(n) && irqEnabled == old(irqEnabled))
      ensures ok == OK ==> (addr == to && data == buf && hasData && len == count && n == 0
        && irqEnabled && rom == old(rom)[to := buf[0]])
    {
      if busy || hasData {
        return KO;
      }
      start, before := to, rom;
      addr, data, hasData, len, n := to, buf, true, count, 0;
      ProgrammedStep(rom, to, buf, 0);
      assert Programmed(rom, to, buf, 0) == rom;
      rom := rom[to := buf[0]];
      irqEnabled := true;
      return OK;
    }

    /** The EE_READY interrupt (eeprom.c:51-72), which fires while it is
        enabled: one more byte is done; the next one is programmed at the
        next address while the index is below the length, otherwise the
        interrupt is disabled. */
    method ReadyIsr()
      requires Valid() && irqEnabled
      modifies this
      ensures Valid() && data == old(data) && hasData && len == old(len)
      ensures n == old(n) + 1
      ensures n < len ==> addr == Inc16(old(addr)) && rom == old(rom)[addr := data[n]] && irqEnabled
      ensures n >= len ==> addr == old(addr) && rom == old(rom) && !irqEnabled
    {
      n := n + 1;
      if n < len {
        ProgrammedStep(before, start, data, n as nat);
        ghost var next := (start + n) % RomSize;
        addr := Inc16(addr);
        assert addr as int == next;
        rom := rom[addr := data[n]];
        assert Done() == n as nat + 1;
      } else {
        irqEnabled := false;
        assert Done() == old(Done());
      }
    }

    /** The EE_READY interrupt as intended: as ReadyIsr, and once the last
        byte is done the buffer pointer is dropped (set to NULL), so that the
        next nnk_eep_write is accepted. */
    method ReadyIsrReleasing()
      requires Valid() && irqEnabled
      modifies this
      ensures Valid() && data == old(data) && len == old(len)
      ensures n == old(n) + 1
      ensures n < len ==> addr == Inc16(old(addr)) && rom == old(rom)[addr := data[n]] && irqEnabled && hasData
      ensures n >= len ==> addr == old(addr) && rom == old(rom) && !irqEnabled && !hasData
    {
      ReadyIsr();
      if n >= len {
        hasData := false;
      }
    }

    /** nnk_eep_is_fini (eeprom.c:145-154): OK once the index has reached the
        length; at that point every byte of the accepted write is in the
        EEPROM at its address. */
    method IsFini() returns (ok: Answer)
      requires Valid()
      ensures ok == OK <==> n >= len
      ensures ok == OK && hasData ==> Window(rom, start, len as nat) == data[..len]
    {
      if n < len {
        return KO;
      }
      if hasData {
        ProgrammedReadBack(before, start, data, len as nat);
        if len == 0 {
          assert Window(rom, start, 0) == [] == data[..0];
        }
      }
      return OK;
    }
  }

  /** As written, the EE_READY interrupt never drops the buffer pointer: a
      one-byte write from nnk_eep_init is accepted and finishes, and the next
      write, with the EEPROM idle, is still refused. */
  method SecondWriteRefused(contents: seq<u8>, to: u16, buf: seq<u8>) returns (first: Answer, fini: Answer, second: Answer)
    requires |contents| == RomSize && |buf| == 1
    ensures first == OK && fini == OK && second == KO
  {
    var d := new EepromDriver(contents);
    d.Init();
    first := d.Write(false, to, buf, 1);
    d.ReadyIsr();
    fini := d.IsFini();
    second := d.Write(false, to, buf, 1);
  }

  /** With the interrupt that drops the buffer at the end, the same sequence
      has the second write accepted. */
  method SecondWriteAccepted(contents: seq<u8>, to: u16, buf: seq<u8>) returns (first: Answer, fini: Answer, second: Answer)
    requires |contents| == RomSize && |buf| == 1
    ensures first == OK && fini == OK && second == OK
  {
    var d := new EepromDriver(contents);
    d.Init();
    first := d.Write(false, to, buf, 1);
    d.ReadyIsrReleasing();
    fini := d.IsFini();
    second := d.Write(false, to, buf, 1);
  }
}
