/** The sleep rendezvous of drivers/sleep.c: every client registers and gets
    one bit of a 16-bit mask; the processor sleeps when the clients that
    currently request sleep cover exactly the registered mask. The `sleep`
    instruction itself is a no-op here. Bit numbers are 8-bit like the
    `mask_bit` counter, so its wrap-around is the bit-vector's own. */
module Sleep {
  import opened TypeDef

  /** The mask `1 << mask_bit` handed to a client (sleep.c:76). The shift is
      done on a 16-bit `int`, and a shift by 16 or more positions is
      undefined behaviour in C. The model takes 0 for those, as the
      one-position-at-a-time shift loop of the AVR compiler gives: only the
      first 16 clients get a usable mask. */
  function MaskOf(bit: bv8): bv16
  {
    if bit < 16 then (1 as bv16) << bit else 0
  }

  /** The register mask after the first `n <= 16` registrations since init. */
  function Registered(n: bv8): bv16
    requires n <= 16
    decreases n as int
  {
    if n == 0 then 0 else Registered(n - 1) | MaskOf(n - 1)
  }

  /** The union of the masks of the clients numbered in `cs`: the current
      mask once they have all requested sleep, starting from none. */
  function Union(cs: seq<bv8>): bv16
  {
    if cs == [] then 0 else Union(cs[..|cs| - 1]) | MaskOf(cs[|cs| - 1])
  }

  /** The low `n` bits, or all 16 bits from `n = 16` on. */
  function LowBits(n: bv8): bv16
  {
    if n >= 16 then 0xFFFF else ((1 as bv16) << n) - 1
  }

  /** The masks of the first 16 clients are single bits, and two different
      clients never share one (sleep.c:76). */
  lemma MasksAreDistinctBits(i: bv8, j: bv8)
    requires i < 16 && j < 16
    ensures MaskOf(i) != 0 && MaskOf(i) & (MaskOf(i) - 1) == 0
    ensures i != j ==> MaskOf(i) & MaskOf(j) == 0
  {
  }

  /** After `n <= 16` registrations the register mask is the low `n` bits,
      as the class invariant of SleepControl says. */
  lemma {:induction false} RegisteredLowBits(n: bv8)
    requires n <= 16
    ensures Registered(n) == LowBits(n)
  {
    if n > 0 {
      RegisteredLowBits(n - 1);
    }
  }

  /** A client that requested sleep is part of the current mask. */
  lemma {:induction false} UnionHas(cs: seq<bv8>, c: bv8)
    requires c in cs
    ensures MaskOf(c) | Union(cs) == Union(cs)
  {
    var front, last := cs[..|cs| - 1], cs[|cs| - 1];
    assert cs == front + [last];
    if c != last {
      UnionHas(front, c);
    }
  }

  /** Requests from registered clients stay within the register mask. */
  lemma {:induction false} UnionWithin(cs: seq<bv8>, n: bv8)
    requires n <= 16
    requires forall k :: 0 <= k < |cs| ==> cs[k] < n
    ensures Union(cs) | Registered(n) == Registered(n)
  {
    if cs != [] {
      var front, last := cs[..|cs| - 1], cs[|cs| - 1];
      UnionWithin(front, n);
      RegisteredHas(n, last);
    }
  }

  /** Every registered client is part of the register mask. */
  lemma {:induction false} RegisteredHas(n: bv8, i: bv8)
    requires i < n <= 16
    ensures MaskOf(i) | Registered(n) == Registered(n)
  {
    if i < n - 1 {
      RegisteredHas(n - 1, i);
    }
  }

  /** When every registered client has requested, the current mask covers the
      register mask. */
  lemma {:induction false} RegisteredWithin(n: bv8, cs: seq<bv8>)
    requires n <= 16
    requires forall i: bv8 :: i < n ==> i in cs
    ensures Registered(n) | Union(cs) == Union(cs)
  {
    if n > 0 {
      RegisteredWithin(n - 1, cs);
      UnionHas(cs, n - 1);
    }
  }

  /** A client that did not request sleep is missing from the current mask. */
  lemma {:induction false} UnionMissing(cs: seq<bv8>, i: bv8)
    requires i < 16 && i !in cs
    requires forall k :: 0 <= k < |cs| ==> cs[k] < 16
    ensures Union(cs) & MaskOf(i) == 0
  {
    if cs != [] {
      var front, last := cs[..|cs| - 1], cs[|cs| - 1];
      assert cs == front + [last];
      UnionMissing(front, i);
      MasksAreDistinctBits(last, i);
    }
  }

  /** The rendezvous of nnk_slp_request (sleep.c:90-109): once `n <= 16`
      clients are registered and the clients `cs` have requested sleep (none
      withdrawn), the current mask equals the register mask exactly when every
      registered client is among them. */
  lemma RendezvousIffAllRequested(n: bv8, cs: seq<bv8>)
    requires n <= 16
    requires forall k :: 0 <= k < |cs| ==> cs[k] < n
    ensures Union(cs) == Registered(n) <==> forall i: bv8 :: i < n ==> i in cs
  {
    if forall i: bv8 :: i < n ==> i in cs {
      UnionWithin(cs, n);
      RegisteredWithin(n, cs);
    } else {
      var i: bv8 :| i < n && i !in cs;
      UnionMissing(cs, i);
      RegisteredHas(n, i);
      MasksAreDistinctBits(i, i);
    }
  }

  /** What the register mask holds given the client counter: the masks of
      every client registered so far, that is the low `mask_bit` bits, or
      all 16 once the 8-bit counter has gone round (`wrapped`). */
  ghost predicate MaskHolds(registerMask: bv16, maskBit: bv8, wrapped: bool)
  {
    registerMask == if wrapped then 0xFFFF else LowBits(maskBit)
  }

  /** One more registration keeps the register mask what it should be. */
  lemma RegisterStep(registerMask: bv16, maskBit: bv8, wrapped: bool)
    requires MaskHolds(registerMask, maskBit, wrapped)
    ensures MaskHolds(registerMask | MaskOf(maskBit), maskBit + 1, wrapped || maskBit == 0xFF)
  {
  }

  /** A request with a bit that nobody registered can never complete the
      rendezvous, whatever the other clients do. */
  lemma UnregisteredBitBlocks(current: bv16, registered: bv16, mask: bv16)
    requires mask & !registered != 0
    ensures current | mask != registered
  {
  }

  /** The static `slp` record. `wrapped` records whether the 8-bit client
      counter has gone round; it exists only to state what the register mask
      holds. */
  class SleepControl {
    var registerMask: bv16
    var currentMask: bv16
    var maskBit: bv8
    var stat: u16
    ghost var wrapped: bool

    /** The register mask holds the masks of every client registered so far:
        the low `mask_bit` bits, or all 16 once 16 clients have registered. */
    ghost predicate Valid()
      reads this
    {
      MaskHolds(registerMask, maskBit, wrapped)
    }

    /** The zeroed static storage, which is also what nnk_slp_init leaves. */
    constructor ()
      ensures Valid() && !wrapped
      ensures registerMask == 0 && currentMask == 0 && maskBit == 0 && stat == 0
    {
      registerMask, currentMask, maskBit, stat := 0, 0, 0, 0;
      wrapped := false;
    }

    /** nnk_slp_init (sleep.c:57-67): every field is zeroed. */
    method Init()
      modifies this
      ensures Valid() && !wrapped
      ensures registerMask == 0 && currentMask == 0 && maskBit == 0 && stat == 0
    {
      registerMask, currentMask, maskBit, stat := 0, 0, 0, 0;
      wrapped := false;
    }

    /** nnk_slp_register (sleep.c:71-86): hands out the mask of the client
        counter, adds it to the register mask and advances the counter. */
    method Register() returns (mask: bv16)
      requires Valid()
      modifies this
      ensures Valid()
      ensures mask == MaskOf(old(maskBit))
      ensures registerMask == old(registerMask) | mask
      ensures maskBit == old(maskBit) + 1
      ensures currentMask == old(currentMask) && stat == old(stat)
    {
      mask := MaskOf(maskBit);
      ghost var wrapsNow := wrapped || maskBit == 0xFF;
      RegisterStep(registerMask, maskBit, wrapped);
      registerMask, maskBit := registerMask | mask, maskBit + 1;
      wrapped := wrapsNow;
    }

    /** nnk_slp_request (sleep.c:90-109): the mask joins the current mask;
        the processor sleeps, counts it and answers OK exactly when the
        current mask then equals the register mask. */
    method Request(mask: bv16) returns (ok: Answer)
      requires Valid()
      modifies this
      ensures Valid()
      ensures currentMask == old(currentMask) | mask
      ensures ok == OK <==> currentMask == registerMask
      ensures stat == if ok == OK then Inc16(old(stat)) else old(stat)
      ensures registerMask == old(registerMask) && maskBit == old(maskBit)
      ensures wrapped == old(wrapped)
    {
      currentMask := currentMask | mask;
      if currentMask == registerMask {
        stat := Inc16(stat);
        return OK;
      }
      return KO;
    }

    /** nnk_slp_unrequest (sleep.c:113-117): exactly the given bits leave the
        current mask. */
    method Unrequest(mask: bv16)
      requires Valid()
      modifies this
      ensures Valid()
      ensures currentMask == old(currentMask) & !mask
      ensures registerMask == old(registerMask) && maskBit == old(maskBit)
      ensures stat == old(stat) && wrapped == old(wrapped)
    {
      currentMask := currentMask & !mask;
    }
  }
}
