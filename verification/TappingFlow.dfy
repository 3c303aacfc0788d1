/** Conservation and order of the key events that pass through the tapping engine, on every run. */
module TappingFlow {
  import opened Tapping

  ghost function Events(q: seq<Record>): seq<Event> {
    seq(|q|, i requires 0 <= i < |q| => q[i].event)
  }

  /** The physical events dispatched so far, in dispatch order; synthesized releases are left out. */
  ghost function Physical(out: seq<Dispatch>): seq<Event> {
    if out == [] then []
    else
      var d := out[|out| - 1];
      Physical(out[..|out| - 1]) + (if d.kind == Synthesized then [] else [d.rec.event])
  }

  ghost function OfKind(out: seq<Dispatch>, kind: Kind): seq<Event> {
    if out == [] then []
    else
      var d := out[|out| - 1];
      OfKind(out[..|out| - 1], kind) + (if d.kind == kind then [d.rec.event] else [])
  }

  /** The press the engine holds back while it is undecided. */
  ghost function Undecided(tk: Record): seq<Event> {
    if IsUndecided(tk) then [tk.event] else []
  }

  /** What was dispatched in turn, then what is still held: the order the engine commits itself to. */
  ghost function Committed(s: State): seq<Event> {
    OfKind(s.host.out, Ordered) + Undecided(s.tk) + Events(s.q)
  }

  /** Records wait without tap state unless they are releases, and no-events never wait. */
  ghost predicate WellQueued(q: seq<Record>) {
    forall i :: 0 <= i < |q| ==> !IsNoEvent(q[i].event) && (q[i].event.pressed ==> q[i].tap.count == 0)
  }

  /** Line 271 is reached: a release of a key that is not queued goes out while a tap key is undecided. */
  ghost predicate Overtakes(cfg: Config, tk: Record, q: seq<Record>, h: Host, k: Record) {
    && IsUndecided(tk) && Within(cfg, tk, k.event)
    && k.event.key != tk.event.key
    && IsReleased(k.event) && !Typed(q, k.event) && !cfg.retain(h, k)
  }

  ghost function IfConsumed(v: Verdict): seq<Event> {
    if v.consumed && !IsNoEvent(v.keyp.event) then [v.keyp.event] else []
  }

  lemma {:induction false} DispatchedFlow(h: Host, r: Record, kind: Kind)
    ensures var sent := if IsNoEvent(r.event) then [] else [r.event];
            var out := Dispatched(h, r, kind).out;
            && Physical(out) == Physical(h.out) + (if kind == Synthesized then [] else sent)
            && OfKind(out, Ordered) == OfKind(h.out, Ordered) + (if kind == Ordered then sent else [])
            && OfKind(out, Overtaking) == OfKind(h.out, Overtaking) + (if kind == Overtaking then sent else [])
  {
    var out := h.out + [Dispatch(r, kind)];
    assert out[..|out| - 1] == h.out;
  }

  /** A verdict that leaves the order alone: a consumed record comes directly after everything
      committed before it, and an unconsumed one at most lets the undecided press go. */
  ghost predicate InOrder(tk: Record, h: Host, v: Verdict) {
    && OfKind(v.host.out, Overtaking) == OfKind(h.out, Overtaking)
    && OfKind(v.host.out, Ordered) + Undecided(v.tk) == OfKind(h.out, Ordered) + Undecided(tk) + IfConsumed(v)
    && Physical(v.host.out) + Undecided(v.tk) == Physical(h.out) + Undecided(tk) + IfConsumed(v)
  }

  lemma {:induction false} PassedOn(tk: Record, tk': Record, q: seq<Record>, h: Host, k: Record)
    requires !IsUndecided(tk) && !IsUndecided(tk')
    ensures InOrder(tk, h, Verdict(tk', q, Dispatched(h, k, Ordered), k, true))
  {
    DispatchedFlow(h, k, Ordered);
  }

  lemma {:induction false} LetGo(tk: Record, sent: Record, tk': Record, q: seq<Record>, h: Host, k: Record)
    requires IsUndecided(tk) && sent.event == tk.event && !IsUndecided(tk')
    ensures InOrder(tk, h, Verdict(tk', q, Dispatched(h, sent, Ordered), k, false))
  {
    DispatchedFlow(h, sent, Ordered);
  }

  lemma {:induction false} HeldOn(tk: Record, tk': Record, q: seq<Record>, h: Host, k: Record)
    requires Undecided(tk) == Undecided(tk')
    ensures InOrder(tk, h, Verdict(tk', q, h, k, false))
  {
  }

  lemma {:induction false} TakenUp(tk: Record, q: seq<Record>, h: Host, k: Record)
    requires !IsUndecided(tk) && k.event.pressed && k.tap.count == 0
    ensures InOrder(tk, h, Verdict(k, q, h, k, true))
  {
  }

  lemma {:induction false} AfterSynthesized(tk: Record, h: Host, r: Record, v: Verdict)
    requires InOrder(tk, Dispatched(h, r, Synthesized), v)
    ensures InOrder(tk, h, v)
  {
    hide OfKind, Physical, Undecided, Dispatched;
    DispatchedFlow(h, r, Synthesized);
    NothingAdded(OfKind(h.out, Ordered));
    NothingAdded(OfKind(h.out, Overtaking));
    NothingAdded(Physical(h.out));
  }

  lemma {:induction false} NothingAdded(es: seq<Event>)
    ensures es + [] == es
  {
  }

  /** Of the record handed back only the event matters. */
  lemma {:induction false} SameKeyp(tk: Record, h: Host, v: Verdict, keyp: Record)
    requires InOrder(tk, h, v) && keyp.event == v.keyp.event
    ensures InOrder(tk, h, v.(keyp := keyp))
  {
    hide OfKind, Physical, Undecided;
  }

  lemma {:induction false} StartTapFlow(cfg: Config, tk: Record, q: seq<Record>, h: Host, k: Record)
    requires k.event.pressed && k.tap.count == 0 && !IsUndecided(tk)
    ensures InOrder(tk, h, StartTap(cfg, q, h, k))
    ensures WellQueued(q) ==> WellQueued(StartTap(cfg, q, h, k).q)
  {
    hide InOrder, Within, Dispatched;
    var v := StartTap(cfg, q, h, k);
    TakenUp(tk, q, h, k);
    PassedOn(tk, Marked(k), v.q, h, Marked(k));
    SameKeyp(tk, h, Verdict(Marked(k), v.q, Dispatched(h, Marked(k), Ordered), Marked(k), true), k);
  }

  lemma {:induction false} TappedFlow(cfg: Config, tk: Record, q: seq<Record>, h: Host, k: Record, inTerm: bool)
    requires k.event.pressed ==> k.tap.count == 0
    requires IsPressing(tk) && tk.tap.count > 0
    ensures InOrder(tk, h, ProcessTapped(cfg, tk, q, h, k, inTerm))
    ensures WellQueued(q) ==> WellQueued(ProcessTapped(cfg, tk, q, h, k, inTerm).q)
  {
    hide InOrder;
    hide StartTap;
    if IsReleaseOf(tk, k) {
      PassedOn(tk, if inTerm then k.(tap := tk.tap) else EMPTY, q, h, k.(tap := tk.tap));
    } else if IsTapRecord(cfg, h, k) && k.event.pressed {
      var r := SynthesizedRelease(tk, k.event.time);
      var h' := if tk.tap.count > 1 then Dispatched(h, r, Synthesized) else h;
      StartTapFlow(cfg, tk, q, h', k);
      if tk.tap.count > 1 {
        AfterSynthesized(tk, h, r, StartTap(cfg, q, h', k));
      }
    } else {
      PassedOn(tk, tk, q, h, k);
    }
  }

  lemma {:induction false} AfterTapFlow(cfg: Config, tk: Record, q: seq<Record>, h: Host, k: Record)
    requires k.event.pressed ==> k.tap.count == 0
    requires IsTapping(tk) && !tk.event.pressed
    ensures InOrder(tk, h, ProcessAfterTap(cfg, tk, q, h, k))
    ensures WellQueued(q) ==> WellQueued(ProcessAfterTap(cfg, tk, q, h, k).q)
  {
    hide InOrder;
    hide StartTap;
    var v := ProcessAfterTap(cfg, tk, q, h, k);
    if !Within(cfg, tk, k.event) {
      HeldOn(tk, EMPTY, q, h, k);
    } else if k.event.pressed && tk.event.key == k.event.key && !IsSequential(cfg, tk, k) {
      TakenUp(tk, q, h, k);
    } else if k.event.pressed && tk.event.key != k.event.key && IsTapRecord(cfg, h, k) {
      StartTapFlow(cfg, tk, q, h, k);
    } else {
      PassedOn(tk, v.tk, q, h, v.keyp);
    }
  }

  lemma {:induction false} UndecidedFlow(cfg: Config, tk: Record, q: seq<Record>, h: Host, k: Record)
    requires IsUndecided(tk) && Within(cfg, tk, k.event) && !Overtakes(cfg, tk, q, h, k)
    ensures var v := ProcessUndecided(cfg, tk, q, h, k); InOrder(tk, h, v) && !v.consumed && v.q == q
  {
    hide InOrder;
    var v := ProcessUndecided(cfg, tk, q, h, k);
    if v.host == h {
      HeldOn(tk, v.tk, q, h, v.keyp);
    } else {
      LetGo(tk, Marked(tk), v.tk, q, h, v.keyp);
      LetGo(tk, tk, v.tk, q, h, v.keyp);
      LetGo(tk, tk.(tap := tk.tap.(interrupted := true)), v.tk, q, h, v.keyp);
    }
  }

  lemma {:induction false} ProcessFrame(cfg: Config, tk: Record, q: seq<Record>, h: Host, k: Record)
    requires k.event.pressed ==> k.tap.count == 0
    ensures var v := Process(cfg, tk, q, h, k);
            && v.keyp.event == k.event
            && v.host.cleared == h.cleared
            && (!v.consumed && k.event.pressed ==> v.keyp.tap.count == 0)
  {
  }

  /** What one process_tapping call does to the stream of events: a record that overtakes changes
      nothing else, and any other call keeps the order. */
  lemma {:induction false} ProcessFlow(cfg: Config, tk: Record, q: seq<Record>, h: Host, k: Record)
    requires k.event.pressed ==> k.tap.count == 0
    ensures var v := Process(cfg, tk, q, h, k);
            && (WellQueued(q) ==> WellQueued(v.q))
            && if Overtakes(cfg, tk, q, h, k) then
                 v == Verdict(tk, q, h.(out := h.out + [Dispatch(k, Overtaking)]), k, true)
               else
                 InOrder(tk, h, v) && (v.consumed ==> !IsUndecided(tk))
  {
    hide InOrder;
    hide StartTap;
    if Overtakes(cfg, tk, q, h, k) {
    } else if IsPressing(tk) {
      if tk.tap.count > 0 {
        TappedFlow(cfg, tk, q, h, k, Within(cfg, tk, k.event));
      } else if Within(cfg, tk, k.event) {
        UndecidedFlow(cfg, tk, q, h, k);
      } else {
        LetGo(tk, tk, EMPTY, q, h, k);
      }
    } else if IsTapping(tk) {
      AfterTapFlow(cfg, tk, q, h, k);
    } else if k.event.pressed && IsTapRecord(cfg, h, k) {
      StartTapFlow(cfg, tk, q, h, k);
    } else {
      PassedOn(tk, tk, q, h, k);
    }
  }

  // ---------- subsequences ----------

  /** `a` is `b` with some elements left out. */
  ghost predicate IsSubseq(a: seq<Event>, b: seq<Event>) {
    a == [] ||
    (b != [] &&
     (IsSubseq(a, b[..|b| - 1]) ||
      (a[|a| - 1] == b[|b| - 1] && IsSubseq(a[..|a| - 1], b[..|b| - 1]))))
  }

  lemma {:induction false} SubseqReflexive(a: seq<Event>)
    ensures IsSubseq(a, a)
    decreases |a|
  {
    if a != [] {
      SubseqReflexive(a[..|a| - 1]);
    }
  }

  lemma {:induction false} SubseqTransitive(a: seq<Event>, b: seq<Event>, c: seq<Event>)
    requires IsSubseq(a, b) && IsSubseq(b, c)
    ensures IsSubseq(a, c)
    decreases |c|
  {
    if a != [] {
      var b', c' := b[..|b| - 1], c[..|c| - 1];
      if IsSubseq(b, c') {
        SubseqTransitive(a, b, c');
      } else if IsSubseq(a, b') {
        SubseqTransitive(a, b', c');
      } else {
        SubseqTransitive(a[..|a| - 1], b', c');
      }
    }
  }

  lemma {:induction false} SubseqAppend(a: seq<Event>, b: seq<Event>, e: Event)
    requires IsSubseq(a, b)
    ensures IsSubseq(a + [e], b + [e])
    ensures IsSubseq(a, b + [e])
  {
    assert (a + [e])[..|a|] == a && (b + [e])[..|b|] == b;
  }

  lemma {:induction false} SubseqWithout(a: seq<Event>, e: Event, c: seq<Event>)
    ensures IsSubseq(a + c, a + [e] + c)
    decreases |c|
  {
    var whole := a + [e] + c;
    if c == [] {
      assert a + c == a && whole[..|whole| - 1] == a;
      SubseqReflexive(a);
    } else {
      var c' := c[..|c| - 1];
      SubseqWithout(a, e, c');
      assert (a + c)[..|a + c| - 1] == a + c' && whole[..|whole| - 1] == a + [e] + c';
    }
  }

  // ---------- one call ----------

  ghost predicate OnlyReleases(es: seq<Event>) {
    forall i :: 0 <= i < |es| ==> !es[i].pressed
  }

  /** Between `s` and `s'` exactly the events `c` were held or dispatched; the host was not cleared, and
      what overtook or is queued stays well-formed. */
  ghost predicate Conserves(s: State, c: multiset<Event>, s': State) {
    && s'.host.cleared == s.host.cleared
    && multiset(Committed(s')) + multiset(OfKind(s'.host.out, Overtaking))
       == c + multiset(OfKind(s.host.out, Overtaking))
    && (WellQueued(s.q) ==> WellQueued(s'.q))
    && (OnlyReleases(OfKind(s.host.out, Overtaking)) ==> OnlyReleases(OfKind(s'.host.out, Overtaking)))
  }

  /** `s'` still holds or has dispatched all of `committed`: in the same order, except for releases that
      overtook the rest. */
  ghost predicate Accounts(s: State, committed: seq<Event>, s': State) {
    IsSubseq(Committed(s'), committed) && Conserves(s, multiset(committed), s')
  }

  lemma {:induction false} AccountsTransitive(s: State, c: seq<Event>, s1: State, s2: State)
    requires Accounts(s, c, s1) && Accounts(s1, Committed(s1), s2)
    ensures Accounts(s, c, s2)
  {
    SubseqTransitive(Committed(s2), Committed(s1), c);
  }

  lemma {:induction false} Without(front: seq<Event>, e: Event, back: seq<Event>)
    ensures multiset(front + [e] + back) == multiset(front + back) + multiset{e}
    ensures IsSubseq(front + back, front + [e] + back)
  {
    SubseqWithout(front, e, back);
    assert multiset(front + [e] + back) == multiset(front) + multiset{e} + multiset(back);
    assert multiset(front + back) == multiset(front) + multiset(back);
  }

  /** The overtaking case, for a record that stood between `front` and `back`. */
  lemma {:induction false} OvertakingFlow(s: State, s': State, front: seq<Event>, k: Record, back: seq<Event>)
    requires s'.host == s.host.(out := s.host.out + [Dispatch(k, Overtaking)]) && !k.event.pressed
    requires !IsNoEvent(k.event) && Committed(s') == front + back && (WellQueued(s.q) ==> WellQueued(s'.q))
    ensures Accounts(s, front + [k.event] + back, s')
  {
    DispatchedFlow(s.host, k, Overtaking);
    hide OfKind;
    hide Committed;
    hide IsSubseq;
    hide WellQueued;
    Without(front, k.event, back);
    var o := OfKind(s.host.out, Overtaking);
    assert OfKind(s'.host.out, Overtaking) == o + [k.event];
    assert multiset(o + [k.event]) == multiset(o) + multiset{k.event};
  }

  lemma {:induction false} SameOrderFlow(s: State, committed: seq<Event>, s': State)
    requires Committed(s') == committed && s'.host.cleared == s.host.cleared
    requires OfKind(s'.host.out, Overtaking) == OfKind(s.host.out, Overtaking)
    requires WellQueued(s.q) ==> WellQueued(s'.q)
    ensures Accounts(s, committed, s')
  {
    SubseqReflexive(committed);
  }

  lemma {:induction false} EventsKept(q: seq<Record>, q': seq<Record>)
    requires |q| == |q'| && forall i :: 0 <= i < |q| ==> q'[i].event == q[i].event
    ensures Events(q') == Events(q)
  {
  }

  lemma {:induction false} EventsOfAppend(q: seq<Record>, k: Record)
    ensures Events(q + [k]) == Events(q) + [k.event]
  {
  }

  lemma {:induction false} EventsOfFront(k: Record, q: seq<Record>)
    ensures Events([k] + q) == [k.event] + Events(q)
  {
  }

  lemma {:induction false} WellQueuedAppend(q: seq<Record>, k: Record)
    requires !IsNoEvent(k.event) && (k.event.pressed ==> k.tap.count == 0)
    ensures WellQueued(q) ==> WellQueued(q + [k])
  {
  }

  /** The state after feeding the head of the queue back. */
  ghost function Turn(v: Verdict): State {
    State(v.tk, if v.consumed then v.q else [v.keyp] + v.q, v.host)
  }

  lemma {:induction false} InOrderTurnFlow(s: State, rest: seq<Record>, v: Verdict)
    requires s.q != [] && rest == s.q[1..] && InOrder(s.tk, s.host, v) && v.host.cleared == s.host.cleared
    requires Events(v.q) == Events(rest) && v.keyp.event == s.q[0].event && !IsNoEvent(v.keyp.event)
    requires WellQueued(Turn(v).q)
    ensures Accounts(s, Committed(s), Turn(v))
  {
    var front := OfKind(s.host.out, Ordered) + Undecided(s.tk);
    var k := v.keyp.event;
    assert Events(s.q) == [k] + Events(rest);
    assert Committed(s) == front + ([k] + Events(rest)) == front + [k] + Events(rest);
    if !v.consumed {
      assert Events([v.keyp] + v.q) == [k] + Events(v.q);
    }
    SameOrderFlow(s, Committed(s), Turn(v));
  }

  lemma {:induction false} OvertakingTurnFlow(s: State, rest: seq<Record>, s': State)
    requires s.q != [] && rest == s.q[1..] && !s.q[0].event.pressed && WellQueued(s.q)
    requires s' == State(s.tk, rest, s.host.(out := s.host.out + [Dispatch(s.q[0], Overtaking)]))
    ensures Accounts(s, Committed(s), s')
  {
    var k := s.q[0];
    DispatchedFlow(s.host, k, Overtaking);
    var front := OfKind(s.host.out, Ordered) + Undecided(s.tk);
    assert Committed(s) == front + [k.event] + Events(rest) by {
      assert Events(s.q) == [k.event] + Events(rest);
    }
    OvertakingFlow(s, s', front, k, Events(rest));
  }

  /** One turn of the drain loop. */
  lemma {:induction false} DrainTurnFlow(cfg: Config, s: State, v: Verdict)
    requires s.q != [] && WellQueued(s.q) && v == Process(cfg, s.tk, s.q[1..], s.host, s.q[0])
    ensures Accounts(s, Committed(s), Turn(v))
  {
    hide Process;
    hide Accounts;
    hide InOrder;
    hide Committed;
    var k, rest := s.q[0], s.q[1..];
    ProcessFrame(cfg, s.tk, rest, s.host, k);
    ProcessFlow(cfg, s.tk, rest, s.host, k);
    ProcessKeepsQueueEvents(cfg, s.tk, rest, s.host, k);
    EventsKept(rest, v.q);
    if Overtakes(cfg, s.tk, rest, s.host, k) {
      OvertakingTurnFlow(s, rest, Turn(v));
    } else {
      InOrderTurnFlow(s, rest, v);
    }
  }

  lemma {:induction false} DrainFlow(cfg: Config, s: State)
    requires WellQueued(s.q)
    ensures Accounts(s, Committed(s), Drain(cfg, s))
    decreases |s.q|
  {
    if s.q == [] {
      SameOrderFlow(s, Committed(s), s);
    } else {
      var v := Process(cfg, s.tk, s.q[1..], s.host, s.q[0]);
      DrainTurnFlow(cfg, s, v);
      ProcessKeepsQueueEvents(cfg, s.tk, s.q[1..], s.host, s.q[0]);
      if v.consumed {
        var s1 := State(v.tk, v.q, v.host);
        DrainFlow(cfg, s1);
        AccountsTransitive(s, Committed(s), s1, Drain(cfg, s1));
      }
    }
  }

  // ---------- a new event ----------

  /** The event finds nothing queued that it could pass: the engine is undecided, nothing waits, or the
      term of a released tap key is over and the event is queued itself. */
  ghost predicate InTurn(cfg: Config, s: State, e: Event) {
    || IsNoEvent(e)
    || s.q == []
    || IsUndecided(s.tk)
    || (IsTapping(s.tk) && !s.tk.event.pressed && !Within(cfg, s.tk, e))
  }

  ghost function Received(s: State, e: Event): seq<Event> {
    Committed(s) + (if IsNoEvent(e) then [] else [e])
  }

  lemma {:induction false} ConsumedArrivalOrder(s: State, v: Verdict, e: Event)
    requires v.keyp.event == e && v.consumed && InOrder(s.tk, s.host, v)
    requires Events(v.q) == Events(s.q) && (s.q == [] || IsNoEvent(e))
    ensures Committed(State(v.tk, v.q, v.host)) == Received(s, e)
  {
  }

  lemma {:induction false} ConsumedArrivalFlow(s: State, v: Verdict, e: Event)
    requires v.keyp.event == e && v.consumed && InOrder(s.tk, s.host, v) && v.host.cleared == s.host.cleared
    requires Events(v.q) == Events(s.q) && (WellQueued(s.q) ==> WellQueued(v.q))
    ensures Conserves(s, multiset(Received(s, e)), State(v.tk, v.q, v.host))
  {
    hide OfKind, Physical, Undecided, WellQueued, Events;
    var front, q := OfKind(s.host.out, Ordered) + Undecided(s.tk), Events(s.q);
    var front' := OfKind(v.host.out, Ordered) + Undecided(v.tk);
    assert front' == front + IfConsumed(v);
    assert multiset(front') == multiset(front) + multiset(IfConsumed(v));
    assert multiset(Committed(State(v.tk, v.q, v.host))) == multiset(front') + multiset(q);
    assert multiset(Received(s, e)) == multiset(front) + multiset(q) + multiset(IfConsumed(v));
  }

  lemma {:induction false} QueuedArrivalFlow(s: State, v: Verdict, e: Event)
    requires v.keyp.event == e && !v.consumed && InOrder(s.tk, s.host, v) && v.host.cleared == s.host.cleared
    requires v.q == s.q && (e.pressed ==> v.keyp.tap.count == 0)
    ensures IsNoEvent(e) ==> Accounts(s, Received(s, e), State(v.tk, v.q, v.host))
    ensures !IsNoEvent(e) ==> Accounts(s, Received(s, e), State(v.tk, v.q + [v.keyp], v.host))
  {
    hide OfKind, Physical, Undecided, WellQueued, Events;
    if IsNoEvent(e) {
      SameOrderFlow(s, Received(s, e), State(v.tk, v.q, v.host));
    } else {
      EventsOfAppend(v.q, v.keyp);
      WellQueuedAppend(v.q, v.keyp);
      SameOrderFlow(s, Received(s, e), State(v.tk, v.q + [v.keyp], v.host));
    }
  }

  lemma {:induction false} OvertakingArrivalFlow(s: State, k: Record, s': State)
    requires !IsNoEvent(k.event) && !k.event.pressed
    requires s' == s.(host := s.host.(out := s.host.out + [Dispatch(k, Overtaking)]))
    ensures Accounts(s, Received(s, k.event), s')
  {
    DispatchedFlow(s.host, k, Overtaking);
    assert Committed(s') == Committed(s) + [];
    assert Committed(s) + [k.event] + [] == Received(s, k.event);
    OvertakingFlow(s, s', Committed(s), k, []);
  }

  /** Without an overflow nothing is lost; and the event keeps its turn if it came in turn. */
  lemma {:induction false} ArriveFlow(cfg: Config, s: State, e: Event)
    requires !Overflows(cfg, s, e)
    ensures Conserves(s, multiset(Received(s, e)), Arrive(cfg, s, e))
    ensures InTurn(cfg, s, e) ==> Accounts(s, Received(s, e), Arrive(cfg, s, e))
  {
    var k := Fresh(e);
    ProcessFrame(cfg, s.tk, s.q, s.host, k);
    ProcessFlow(cfg, s.tk, s.q, s.host, k);
    ProcessKeepsQueueEvents(cfg, s.tk, s.q, s.host, k);
    var v := Process(cfg, s.tk, s.q, s.host, k);
    EventsKept(s.q, v.q);
    assert InTurn(cfg, s, e) && v.consumed && !IsUndecided(s.tk) ==> s.q == [] || IsNoEvent(e);
    hide Process;
    hide Conserves;
    hide InOrder;
    hide InTurn;
    hide Committed;
    if Overtakes(cfg, s.tk, s.q, s.host, k) {
      OvertakingArrivalFlow(s, k, Arrive(cfg, s, e));
    } else if v.consumed {
      ConsumedArrivalFlow(s, v, e);
      if s.q == [] || IsNoEvent(e) {
        ConsumedArrivalOrder(s, v, e);
        SubseqReflexive(Received(s, e));
      }
    } else {
      QueuedArrivalFlow(s, v, e);
    }
  }

  lemma {:induction false} StepFlow(cfg: Config, s: State, e: Event)
    requires WellQueued(s.q) && !Overflows(cfg, s, e)
    ensures Conserves(s, multiset(Received(s, e)), Step(cfg, s, e))
    ensures InTurn(cfg, s, e) ==> Accounts(s, Received(s, e), Step(cfg, s, e))
  {
    var s1 := Arrive(cfg, s, e);
    ArriveFlow(cfg, s, e);
    DrainFlow(cfg, s1);
    hide Arrive;
    hide Drain;
    if InTurn(cfg, s, e) {
      AccountsTransitive(s, Received(s, e), s1, Step(cfg, s, e));
    }
  }

  lemma {:induction false} OverflowFlow(cfg: Config, s: State, e: Event)
    requires Overflows(cfg, s, e)
    ensures Step(cfg, s, e) == State(EMPTY, [], Step(cfg, s, e).host) && Step(cfg, s, e).host.out == []
  {
    ProcessKeepsQueueEvents(cfg, s.tk, s.q, s.host, Fresh(e));
  }

  // ---------- every run ----------

  ghost predicate Conserved(r: Run) {
    && WellQueued(r.s.q)
    && OnlyReleases(OfKind(r.s.host.out, Overtaking))
    && multiset(Committed(r.s)) + multiset(OfKind(r.s.host.out, Overtaking)) == multiset(r.input)
  }

  lemma {:induction false} AfterWipe(s: State)
    requires s.tk == EMPTY && s.q == [] && s.host.out == []
    ensures Committed(s) == [] && OfKind(s.host.out, Overtaking) == [] && WellQueued(s.q)
  {
  }

  lemma {:induction false} AdvanceConserves(cfg: Config, r: Run, e: Event)
    requires Conserved(r)
    ensures Conserved(Advance(cfg, r, e))
  {
    hide Overflows;
    hide Step;
    hide Committed;
    hide WellQueued;
    var r' := Advance(cfg, r, e);
    if Overflows(cfg, r.s, e) {
      OverflowFlow(cfg, r.s, e);
      AfterWipe(r'.s);
    } else {
      StepFlow(cfg, r.s, e);
      var added := if IsNoEvent(e) then [] else [e];
      assert multiset(Received(r.s, e)) == multiset(Committed(r.s)) + multiset(added);
      assert r.input + added == r'.input;
      assert multiset(r.input + added) == multiset(r.input) + multiset(added);
    }
  }

  lemma {:induction false} RunConserves(cfg: Config, es: seq<Event>)
    ensures Conserved(RunOf(cfg, es))
    decreases |es|
  {
    if es == [] {
      assert Committed(INIT) == [];
    } else {
      RunConserves(cfg, es[..|es| - 1]);
      AdvanceConserves(cfg, RunOf(cfg, es[..|es| - 1]), es[|es| - 1]);
    }
  }

  lemma {:induction false} PhysicalSplits(out: seq<Dispatch>)
    ensures multiset(Physical(out)) == multiset(OfKind(out, Ordered)) + multiset(OfKind(out, Overtaking))
    decreases |out|
  {
    if out != [] {
      var d := out[|out| - 1];
      var out' := out[..|out| - 1];
      PhysicalSplits(out');
      if d.kind == Ordered {
        assert OfKind(out, Ordered) == OfKind(out', Ordered) + [d.rec.event];
      } else if d.kind == Overtaking {
        assert OfKind(out, Overtaking) == OfKind(out', Overtaking) + [d.rec.event];
      }
    }
  }

  /** Conservation. On every run, whatever arrives when: the key events received since the last overflow
      wipe are exactly the physical events dispatched since, the undecided press and the queue. */
  lemma {:induction false} Conservation(cfg: Config, es: seq<Event>)
    ensures var r := RunOf(cfg, es);
            multiset(r.input)
            == multiset(Physical(r.s.host.out)) + multiset(Undecided(r.s.tk)) + multiset(Events(r.s.q))
  {
    var r := RunOf(cfg, es);
    RunConserves(cfg, es);
    PhysicalSplits(r.s.host.out);
    assert multiset(Committed(r.s))
        == multiset(OfKind(r.s.host.out, Ordered)) + multiset(Undecided(r.s.tk)) + multiset(Events(r.s.q));
  }

  /** Every event of the run comes in turn. */
  ghost predicate Orderly(cfg: Config, es: seq<Event>) {
    es == [] ||
    (Orderly(cfg, es[..|es| - 1]) && InTurn(cfg, RunOf(cfg, es[..|es| - 1]).s, es[|es| - 1]))
  }

  lemma {:induction false} AdvanceInOrder(cfg: Config, r: Run, e: Event)
    requires Conserved(r) && IsSubseq(Committed(r.s), r.input) && InTurn(cfg, r.s, e)
    ensures IsSubseq(Committed(Advance(cfg, r, e).s), Advance(cfg, r, e).input)
  {
    hide Overflows;
    hide Step;
    hide Committed;
    hide InTurn;
    hide IsSubseq;
    if Overflows(cfg, r.s, e) {
      OverflowFlow(cfg, r.s, e);
      AfterWipe(Step(cfg, r.s, e));
      SubseqReflexive([]);
    } else {
      StepFlow(cfg, r.s, e);
      SubseqAppend(Committed(r.s), r.input, e);
      assert Committed(r.s) + [] == Committed(r.s);
      SubseqTransitive(Committed(Step(cfg, r.s, e)), Received(r.s, e), Advance(cfg, r, e).input);
    }
  }

  lemma {:induction false} RunInOrder(cfg: Config, es: seq<Event>)
    requires Orderly(cfg, es)
    ensures IsSubseq(Committed(RunOf(cfg, es).s), RunOf(cfg, es).input)
    decreases |es|
  {
    if es == [] {
      assert Committed(INIT) == [];
    } else {
      var r, e := RunOf(cfg, es[..|es| - 1]), es[|es| - 1];
      RunInOrder(cfg, es[..|es| - 1]);
      RunConserves(cfg, es[..|es| - 1]);
      AdvanceInOrder(cfg, r, e);
    }
  }
}
