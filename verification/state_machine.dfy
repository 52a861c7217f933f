/** The generic state machine of utils/state_machine.c. States and
    transitions live in a constant table (program memory); a state names the
    protothread action to run in it, that action's argument and the head of
    its chain of transitions; a transition names its event, its target state
    and the next transition of the chain. Pointers into the table are
    indices, and a NULL pointer is `None`. */
module StateMachine {
  import opened TypeDef

  /** A state (struct nnk_stm_state): `action` and `args` are pointers the
      model only compares, so they are identifiers. */
  datatype StateDesc = StateDesc(action: Option<nat>, args: nat, tr: Option<nat>)

  /** A transition (struct nnk_stm_transition). */
  datatype Transition = Transition(ev: u8, st: nat, next: Option<nat>)

  datatype Table = Table(states: seq<StateDesc>, transitions: seq<Transition>)

  /** Every pointer of the table points into it, and every chain of
      transitions ends: each link points further down the table. An
      acyclic chain can always be numbered that way; a cyclic one would make
      STM_event loop for ever on an event it does not list. */
  predicate WellFormed(t: Table)
  {
    && (forall s :: 0 <= s < |t.states| ==> Link(t, t.states[s].tr))
    && (forall k :: 0 <= k < |t.transitions| ==>
          && t.transitions[k].st < |t.states|
          && Link(t, t.transitions[k].next)
          && (t.transitions[k].next.Some? ==> t.transitions[k].next.value > k))
  }

  predicate Link(t: Table, tr: Option<nat>)
  {
    tr.Some? ==> tr.value < |t.transitions|
  }

  /** What is left of a chain from `tr` on, as a termination measure. */
  function Rank(t: Table, tr: Option<nat>): nat
    requires Link(t, tr)
  {
    if tr.None? then 0 else |t.transitions| - tr.value
  }

  /** The transitions of the chain that starts at `tr`, in list order. */
  function Chain(t: Table, tr: Option<nat>): (c: seq<nat>)
    requires WellFormed(t) && Link(t, tr)
    ensures forall p :: 0 <= p < |c| ==> c[p] < |t.transitions|
    decreases Rank(t, tr)
  {
    if tr.None? then [] else [tr.value] + Chain(t, t.transitions[tr.value].next)
  }

  /** The transition STM_event takes for `ev` when the chain starts at `tr`:
      the first one of the chain whose event is `ev`, if any. */
  function FirstMatch(t: Table, tr: Option<nat>, ev: u8): (r: Option<nat>)
    requires WellFormed(t) && Link(t, tr)
    ensures r.Some? ==> r.value < |t.transitions| && t.transitions[r.value].ev == ev
    decreases Rank(t, tr)
  {
    if tr.None? then None
    else if t.transitions[tr.value].ev == ev then tr
    else FirstMatch(t, t.transitions[tr.value].next, ev)
  }

  /** FirstMatch is the first transition of the chain, in list order, whose
      event is `ev`; and there is none exactly when no transition of the
      chain has that event. */
  lemma {:induction false} FirstMatchIsFirst(t: Table, tr: Option<nat>, ev: u8)
    requires WellFormed(t) && Link(t, tr)
    ensures FirstMatch(t, tr, ev).None? ==>
      forall p :: 0 <= p < |Chain(t, tr)| ==> t.transitions[Chain(t, tr)[p]].ev != ev
    ensures FirstMatch(t, tr, ev).Some? ==>
      exists p :: 0 <= p < |Chain(t, tr)| && Chain(t, tr)[p] == FirstMatch(t, tr, ev).value
        && forall q :: 0 <= q < p ==> t.transitions[Chain(t, tr)[q]].ev != ev
    decreases Rank(t, tr)
  {
    if tr.Some? {
      var i := tr.value;
      var rest := t.transitions[i].next;
      FirstMatchIsFirst(t, rest, ev);
      var c, cr := Chain(t, tr), Chain(t, rest);
      assert c == [i] + cr;
      if t.transitions[i].ev != ev {
        if FirstMatch(t, rest, ev).None? {
          forall p | 0 <= p < |c| ensures t.transitions[c[p]].ev != ev {
            if p > 0 { assert c[p] == cr[p - 1]; } else { assert c[p] == i; }
          }
        } else {
          var p :| 0 <= p < |cr| && cr[p] == FirstMatch(t, rest, ev).value
            && forall q :: 0 <= q < p ==> t.transitions[cr[q]].ev != ev;
          assert c[p + 1] == cr[p];
          forall q | 0 <= q < p + 1 ensures t.transitions[c[q]].ev != ev {
            if q > 0 { assert c[q] == cr[q - 1]; } else { assert c[q] == i; }
          }
        }
      } else {
        assert c[0] == i;
      }
    }
  }

  /** The fields of a machine (struct nnk_stm) the model follows: the
      current state, the protothread context (0 after PT_INIT), the argument
      and the thread. */
  datatype Config = Config(state: nat, pt: nat, args: nat, thread: Option<nat>)

  /** STM_event on a machine in configuration `m`: the first transition of
      the current state's chain whose event is `ev` is taken; the new
      state's action, when it has one, becomes the thread with a fresh
      context and the state's argument; with no action the old thread and
      argument stay. No matching transition: KO and no change. */
  function Event(t: Table, m: Config, ev: u8): (Answer, Config)
    requires WellFormed(t) && m.state < |t.states|
  {
    match FirstMatch(t, t.states[m.state].tr, ev)
    case None => (KO, m)
    case Some(k) =>
      var target := t.transitions[k].st;
      var s := t.states[target];
      if s.action.Some? then (OK, Config(target, 0, s.args, s.action))
      else (OK, m.(state := target))
  }

  /** STM_event answers OK exactly when the current state lists a
      transition for `ev`; the machine then is in the target of the first
      such transition, and otherwise it has not moved. A state without
      action keeps the running thread, its context and its argument. */
  lemma EventTakesFirstTransition(t: Table, m: Config, ev: u8)
    requires WellFormed(t) && m.state < |t.states|
    ensures var (ok, m') := Event(t, m, ev);
      var c := Chain(t, t.states[m.state].tr);
      && (ok == OK <==> exists p :: 0 <= p < |c| && t.transitions[c[p]].ev == ev)
      && (ok == KO ==> m' == m)
      && (ok == OK ==> exists p :: (0 <= p < |c| && t.transitions[c[p]].ev == ev
            && m'.state == t.transitions[c[p]].st
            && forall q :: 0 <= q < p ==> t.transitions[c[q]].ev != ev))
      && m'.state < |t.states|
      && (t.states[m'.state].action.None? ==> m'.pt == m.pt && m'.args == m.args && m'.thread == m.thread)
  {
    FirstMatchIsFirst(t, t.states[m.state].tr, ev);
  }

  /** A machine object (struct nnk_stm). */
  class Machine {
    var state: nat
    var pt: nat
    var args: nat
    var thread: Option<nat>

    function View(): Config
      reads this
    {
      Config(state, pt, args, thread)
    }

    /** The zeroed static storage of a struct nnk_stm. In C its `state`
        pointer is then NULL; the model has no NULL state and stands for it
        by index 0, the table's first state. So a PostEvent before STM_init
        walks state 0's chain here, where the C code dereferences NULL. */
    constructor ()
      ensures View() == Config(0, 0, 0, None)
    {
      state, pt, args, thread := 0, 0, 0, None;
    }
  }

  /** STM_init (state_machine.c:48-68): KO and no change for a NULL machine
      or a NULL initial state; otherwise the machine enters the state, with
      a fresh protothread context, the state's argument and its action as
      thread, even a NULL one. */
  method Init(t: Table, stm: Machine?, st: Option<nat>) returns (ok: Answer)
    requires WellFormed(t) && (st.Some? ==> st.value < |t.states|)
    modifies stm
    ensures ok == OK <==> stm != null && st.Some?
    ensures ok == OK ==> stm.View() == Config(st.value, 0, t.states[st.value].args, t.states[st.value].action)
    ensures ok == KO && stm != null ==> stm.View() == old(stm.View())
  {
    if stm == null {
      return KO;
    }
    if st.None? {
      return KO;
    }
    stm.state := st.value;
    stm.pt := 0;
    stm.args := t.states[stm.state].args;
    stm.thread := t.states[st.value].action;
    return OK;
  }

  /** STM_event (state_machine.c:79-108): KO for a NULL machine; otherwise
      the chain of the current state is walked in order until a transition
      for `ev` is found, and the machine takes it as Event says. */
  method PostEvent(t: Table, stm: Machine?, ev: u8) returns (ok: Answer)
    requires WellFormed(t) && (stm != null ==> stm.state < |t.states|)
    modifies stm
    ensures stm == null ==> ok == KO
    ensures stm != null ==> (ok, stm.View()) == Event(t, old(stm.View()), ev)
  {
    if stm == null {
      return KO;
    }
    var tr := t.states[stm.state].tr;
    while tr.Some?
      invariant Link(t, tr) && stm.View() == old(stm.View())
      invariant FirstMatch(t, tr, ev) == FirstMatch(t, t.states[stm.state].tr, ev)
      decreases Rank(t, tr)
    {
      var k := tr.value;
      if ev == t.transitions[k].ev {
        stm.state := t.transitions[k].st;
        var action := t.states[stm.state].action;
        if action.Some? {
          stm.pt := 0;
          stm.args := t.states[stm.state].args;
          stm.thread := action;
        }
        return OK;
      }
      tr := t.transitions[k].next;
    }
    return KO;
  }
}
