/** The tap/hold decision engine of quantum/action_tapping.c, written as functions on values.

    `Process` is process_tapping, `Step` is one call of action_tapping_process. The class in
    TappingEngine.dfy is the imperative form; its methods are proved to compute these functions. The modules
    TappingFlow, TappingOrder, TappingPairing, TappingProgress and TappingTerm prove what the functions promise
    on every run.

    The configuration is the one in which process_record never writes back into a record:
    IGNORE_MOD_TAP_INTERRUPT and NO_ACTION_ONESHOT, without COMBO, SWAP_HANDS, RETRO_SHIFT and
    HOLD_ON_OTHER_KEY_PRESS_PER_KEY. */
module Tapping {

  import opened Keys
  import opened Widths

  datatype Event = Event(key: Key, pressed: bool, time: U16)

  datatype Tap = Tap(interrupted: bool, count: nat)

  datatype Record = Record(event: Event, tap: Tap)

  const TICK_KEY := Key(255, 255)
  const EMPTY := Record(Event(Key(0, 0), false, 0), Tap(false, 0))
  const WAITING_BUFFER_SIZE := 8
  const MAX_TAP_COUNT := 15

  predicate IsNoEvent(e: Event) {
    e.time == 0 || e.key == TICK_KEY
  }

  predicate IsReleased(e: Event) {
    !IsNoEvent(e) && !e.pressed
  }

  /** TIMER_DIFF_16. */
  function Elapsed(later: U16, earlier: U16): U16 {
    (later - earlier) % 0x1_0000
  }

  /** How a record came to process_record: in turn, ahead of the undecided key and its queue
      (line 271), or made up by the engine (lines 303-311 and 349-357). The kind is only a label. */
  datatype Kind = Ordered | Overtaking | Synthesized

  datatype Dispatch = Dispatch(rec: Record, kind: Kind)

  /** Everything the host side has seen: the sessions ended by clear_keyboard(), and the current one. */
  datatype Host = Host(cleared: seq<seq<Dispatch>>, out: seq<Dispatch>)

  /** What the keymap and the user hooks decide. Layers change as records are processed, so whether a
      key is a tap key, whether a release is retained (lines 246-268) and the permissive-hold hook may
      depend on everything the host has seen. */
  datatype Config = Config(
    term: Key -> nat,
    quickTerm: Key -> nat,
    permissive: (Host, Record) -> bool,
    holdOnOther: bool,
    tapAction: (Host, Key) -> bool,
    retain: (Host, Record) -> bool)

  predicate IsTapRecord(cfg: Config, h: Host, r: Record) {
    !IsNoEvent(r.event) && cfg.tapAction(h, r.event.key)
  }

  predicate IsTapping(tk: Record) {
    !IsNoEvent(tk.event)
  }

  predicate IsPressing(tk: Record) {
    IsTapping(tk) && tk.event.pressed
  }

  /** A tap key is down and neither tap nor hold has been chosen yet. */
  predicate IsUndecided(tk: Record) {
    IsPressing(tk) && tk.tap.count == 0
  }

  predicate Within(cfg: Config, tk: Record, e: Event) {
    Elapsed(e.time, tk.event.time) < cfg.term(tk.event.key)
  }

  predicate WithinQuick(cfg: Config, tk: Record, e: Event) {
    Elapsed(e.time, tk.event.time) < cfg.quickTerm(tk.event.key)
  }

  /** process_record, seen from outside: no-events are dropped, the rest is appended to the trace. */
  function Dispatched(h: Host, r: Record, kind: Kind): Host {
    if IsNoEvent(r.event) then h else h.(out := h.out + [Dispatch(r, kind)])
  }

  /** waiting_buffer_typed: the queue holds the other half of this key's press and release. */
  predicate Typed(q: seq<Record>, e: Event) {
    exists i :: 0 <= i < |q| && q[i].event.key == e.key && q[i].event.pressed != e.pressed
  }

  predicate IsTapRelease(cfg: Config, tk: Record, r: Record) {
    IsTapping(tk) && tk.event.key == r.event.key && !r.event.pressed && Within(cfg, tk, r.event)
  }

  /** The index waiting_buffer_scan_tap stops at; |q| when there is none. */
  function FirstTapRelease(cfg: Config, tk: Record, q: seq<Record>): (i: nat)
    ensures i <= |q|
    ensures i < |q| ==> IsTapRelease(cfg, tk, q[i])
    ensures forall j :: 0 <= j < i ==> !IsTapRelease(cfg, tk, q[j])
  {
    if q == [] || IsTapRelease(cfg, tk, q[0]) then 0 else 1 + FirstTapRelease(cfg, tk, q[1..])
  }

  /** Outcome of process_tapping: the new tapping key, queue and host, the record written back through
      `keyp`, and whether the event was consumed. */
  datatype Verdict = Verdict(tk: Record, q: seq<Record>, host: Host, keyp: Record, consumed: bool)

  function Marked(r: Record): Record {
    r.(tap := r.tap.(count := 1))
  }

  /** `tapping_key = *keyp; waiting_buffer_scan_tap()` */
  function StartTap(cfg: Config, q: seq<Record>, h: Host, k: Record): Verdict {
    if k.tap.count > 0 || !k.event.pressed then
      Verdict(k, q, h, k, true)
    else
      var i := FirstTapRelease(cfg, k, q);
      if i == |q| then
        Verdict(k, q, h, k, true)
      else
        Verdict(Marked(k), q[i := Marked(q[i])], Dispatched(h, Marked(k), Ordered), k, true)
  }

  predicate IsReleaseOf(tk: Record, k: Record) {
    IsTapping(tk) && tk.event.key == k.event.key && !k.event.pressed
  }

  /** Lines 185-289: within the term, neither tap nor hold decided. */
  function ProcessUndecided(cfg: Config, tk: Record, q: seq<Record>, h: Host, k: Record): Verdict {
    if IsReleaseOf(tk, k) then
      var tk' := Marked(tk);
      Verdict(tk', q, Dispatched(h, tk', Ordered), k.(tap := tk'.tap), false)
    else if IsReleased(k.event) && Typed(q, k.event) && cfg.permissive(h, tk) then
      Verdict(EMPTY, q, Dispatched(h, tk, Ordered), k, false)
    else if IsReleased(k.event) && !Typed(q, k.event) then
      if cfg.retain(h, k) then
        Verdict(tk, q, h, k, false)
      else
        Verdict(tk, q, Dispatched(h, k, Overtaking), k, true)
    else if k.event.pressed then
      var tk' := tk.(tap := tk.tap.(interrupted := true));
      if cfg.holdOnOther then
        Verdict(EMPTY, q, Dispatched(h, tk', Ordered), k, false)
      else
        Verdict(tk', q, h, k, false)
    else
      Verdict(tk, q, h, k, false)
  }

  function SynthesizedRelease(tk: Record, time: U16): Record {
    Record(Event(tk.event.key, false, time), tk.tap)
  }

  /** Lines 291-331 and 343-376: the tapping key is down and is known to be a tap. */
  function ProcessTapped(cfg: Config, tk: Record, q: seq<Record>, h: Host, k: Record, inTerm: bool): Verdict {
    if IsReleaseOf(tk, k) then
      var k' := k.(tap := tk.tap);
      Verdict(if inTerm then k' else EMPTY, q, Dispatched(h, k', Ordered), k', true)
    else if IsTapRecord(cfg, h, k) && k.event.pressed then
      var h' := if tk.tap.count > 1
                then Dispatched(h, SynthesizedRelease(tk, k.event.time), Synthesized)
                else h;
      StartTap(cfg, q, h', k)
    else
      Verdict(tk, q, Dispatched(h, k, Ordered), k, true)
  }

  predicate IsSequential(cfg: Config, tk: Record, k: Record) {
    WithinQuick(cfg, tk, k.event) && !tk.tap.interrupted && tk.tap.count > 0
  }

  /** Lines 374-420: the tapping key was released and its term may still be running. */
  function ProcessAfterTap(cfg: Config, tk: Record, q: seq<Record>, h: Host, k: Record): Verdict {
    if !Within(cfg, tk, k.event) then
      Verdict(EMPTY, q, h, k, false)
    else if !k.event.pressed then
      Verdict(tk, q, Dispatched(h, k, Ordered), k, true)
    else if tk.event.key == k.event.key then
      if IsSequential(cfg, tk, k) then
        var n := tk.tap.count;
        var k' := k.(tap := tk.tap.(count := if n < MAX_TAP_COUNT then n + 1 else n));
        Verdict(k', q, Dispatched(h, k', Ordered), k', true)
      else
        Verdict(k, q, h, k, true)
    else if IsTapRecord(cfg, h, k) then
      StartTap(cfg, q, h, k)
    else
      Verdict(tk.(tap := tk.tap.(interrupted := true)), q, Dispatched(h, k, Ordered), k, true)
  }

  /** Lines 422-434. */
  function ProcessIdle(cfg: Config, tk: Record, q: seq<Record>, h: Host, k: Record): Verdict {
    if k.event.pressed && IsTapRecord(cfg, h, k) then
      StartTap(cfg, q, h, k)
    else
      Verdict(tk, q, Dispatched(h, k, Ordered), k, true)
  }

  /** process_tapping. `q` is the waiting buffer without the record `k` itself. */
  function Process(cfg: Config, tk: Record, q: seq<Record>, h: Host, k: Record): Verdict {
    if IsPressing(tk) then
      if tk.tap.count > 0 then
        ProcessTapped(cfg, tk, q, h, k, Within(cfg, tk, k.event))
      else if Within(cfg, tk, k.event) then
        ProcessUndecided(cfg, tk, q, h, k)
      else
        Verdict(EMPTY, q, Dispatched(h, tk, Ordered), k, false)
    else if IsTapping(tk) then
      ProcessAfterTap(cfg, tk, q, h, k)
    else
      ProcessIdle(cfg, tk, q, h, k)
  }

  lemma {:induction false} ProcessKeepsQueueEvents(cfg: Config, tk: Record, q: seq<Record>, h: Host, k: Record)
    ensures var v := Process(cfg, tk, q, h, k);
            && v.keyp.event == k.event
            && |v.q| == |q|
            && (!v.consumed ==> v.q == q)
            && (forall i :: 0 <= i < |q| ==> v.q[i].event == q[i].event)
  {
  }

  /** The engine between two calls: the tapping key, the waiting buffer and the host. */
  datatype State = State(tk: Record, q: seq<Record>, host: Host)

  const INIT := State(EMPTY, [], Host([], []))

  /** The loop of lines 108-116: feed the queue back until an element is not consumed. */
  function Drain(cfg: Config, s: State): State
    decreases |s.q|
  {
    if s.q == [] then s
    else
      ProcessKeepsQueueEvents(cfg, s.tk, s.q[1..], s.host, s.q[0]);
      var v := Process(cfg, s.tk, s.q[1..], s.host, s.q[0]);
      if v.consumed then Drain(cfg, State(v.tk, v.q, v.host))
      else State(v.tk, [v.keyp] + v.q, v.host)
  }

  /** A key event as action_exec hands it on: no tap state yet. */
  function Fresh(e: Event): Record {
    Record(e, Tap(false, 0))
  }

  predicate IsFull(q: seq<Record>) {
    |q| + 1 >= WAITING_BUFFER_SIZE
  }

  predicate Overflows(cfg: Config, s: State, e: Event) {
    !Process(cfg, s.tk, s.q, s.host, Fresh(e)).consumed && !IsNoEvent(e) && IsFull(s.q)
  }

  /** Lines 88-102: the new event itself, before the queue is fed back. */
  function Arrive(cfg: Config, s: State, e: Event): State {
    var v := Process(cfg, s.tk, s.q, s.host, Fresh(e));
    if v.consumed || IsNoEvent(e) then
      State(v.tk, v.q, v.host)
    else if IsFull(v.q) then
      State(EMPTY, [], Host(v.host.cleared + [v.host.out], []))
    else
      State(v.tk, v.q + [v.keyp], v.host)
  }

  /** action_tapping_process. */
  function Step(cfg: Config, s: State, e: Event): State {
    Drain(cfg, Arrive(cfg, s, e))
  }

  /** All calls so far, with the key events received since the last overflow wipe. */
  datatype Run = Run(s: State, input: seq<Event>)

  const START := Run(INIT, [])

  function Advance(cfg: Config, r: Run, e: Event): Run {
    Run(Step(cfg, r.s, e),
        if Overflows(cfg, r.s, e) then [] else if IsNoEvent(e) then r.input else r.input + [e])
  }

  function RunOf(cfg: Config, es: seq<Event>): Run {
    if es == [] then START else Advance(cfg, RunOf(cfg, es[..|es| - 1]), es[|es| - 1])
  }
}
