/** In which order key events leave the tapping engine: presses never change places, the events of one key
    never do, and an arriving event keeps its place exactly when it comes in turn. */
module TappingOrder {
  import opened Keys
  import opened Tapping
  import opened TappingFlow

  // ---------- presses ----------

  ghost function Presses(es: seq<Event>): seq<Event> {
    if es == [] then []
    else Presses(es[..|es| - 1]) + (if es[|es| - 1].pressed then [es[|es| - 1]] else [])
  }

  lemma {:induction false} PressesCount(es: seq<Event>, e: Event)
    ensures multiset(Presses(es))[e] == if e.pressed then multiset(es)[e] else 0
    decreases |es|
  {
    if es != [] {
      PressesCount(es[..|es| - 1], e);
      assert es == es[..|es| - 1] + [es[|es| - 1]];
    }
  }

  lemma {:induction false} SubseqShorter(a: seq<Event>, b: seq<Event>)
    requires IsSubseq(a, b)
    ensures |a| <= |b|
    ensures |a| == |b| ==> a == b
    ensures |Presses(a)| <= |Presses(b)|
    ensures |Presses(a)| == |Presses(b)| ==> Presses(a) == Presses(b)
    decreases |b|
  {
    if a != [] {
      var a', b' := a[..|a| - 1], b[..|b| - 1];
      assert a == a' + [a[|a| - 1]] && b == b' + [b[|b| - 1]];
      if IsSubseq(a, b') {
        SubseqShorter(a, b');
      } else {
        SubseqShorter(a', b');
      }
    }
  }

  /** When releases alone are left out, the presses are all there, in the same order. */
  lemma {:induction false} SamePresses(a: seq<Event>, left: seq<Event>, b: seq<Event>, before: seq<Event>)
    requires IsSubseq(a, b) && OnlyReleases(left) && OnlyReleases(before)
    requires multiset(a) + multiset(left) == multiset(b) + multiset(before)
    ensures Presses(a) == Presses(b)
  {
    forall e: Event ensures multiset(Presses(a))[e] == multiset(Presses(b))[e] {
      PressesCount(a, e);
      PressesCount(b, e);
      assert multiset(left)[e] > 0 ==> e in left;
      assert multiset(before)[e] > 0 ==> e in before;
      assert (multiset(a) + multiset(left))[e] == (multiset(b) + multiset(before))[e];
    }
    assert multiset(Presses(a)) == multiset(Presses(b));
    assert |multiset(Presses(a))| == |Presses(a)| && |multiset(Presses(b))| == |Presses(b)|;
    SubseqShorter(a, b);
  }

  /** Dispatch order. On every run whose events come in turn, what was dispatched in turn, the undecided
      press and the queue are the received events in arrival order, with nothing missing but the releases
      that overtook; so the presses are dispatched exactly in the order in which they were made. */
  lemma {:induction false} DispatchOrder(cfg: Config, es: seq<Event>)
    requires Orderly(cfg, es)
    ensures var r := RunOf(cfg, es);
            && IsSubseq(Committed(r.s), r.input)
            && OnlyReleases(OfKind(r.s.host.out, Overtaking))
            && Presses(Committed(r.s)) == Presses(r.input)
  {
    var r := RunOf(cfg, es);
    RunInOrder(cfg, es);
    RunConserves(cfg, es);
    SamePresses(Committed(r.s), OfKind(r.s.host.out, Overtaking), r.input, []);
  }

  /** An event not seen before keeps its place in the order if and only if it comes in turn; otherwise it
      is put in front of everything that waits. */
  lemma {:induction false} InTurnExactly(cfg: Config, s: State, e: Event)
    requires !Overflows(cfg, s, e) && e !in Committed(s)
    ensures IsSubseq(Committed(Arrive(cfg, s, e)), Received(s, e)) <==> InTurn(cfg, s, e)
  {
    ArriveFlow(cfg, s, e);
    if !InTurn(cfg, s, e) {
      OutOfTurn(cfg, s, e);
      var front, q := OfKind(s.host.out, Ordered), Events(s.q);
      var jumped := front + [e] + q;
      assert jumped[|front|] == e;
      assert Received(s, e)[|front|] == Committed(s)[|front|];
      if IsSubseq(jumped, Received(s, e)) {
        SubseqShorter(jumped, Received(s, e));
        assert false;
      }
    }
  }

  lemma {:induction false} OutOfTurn(cfg: Config, s: State, e: Event)
    requires !InTurn(cfg, s, e)
    ensures Undecided(s.tk) == []
    ensures Committed(Arrive(cfg, s, e)) == OfKind(s.host.out, Ordered) + [e] + Events(s.q)
  {
    var k := Fresh(e);
    ProcessFrame(cfg, s.tk, s.q, s.host, k);
    ProcessFlow(cfg, s.tk, s.q, s.host, k);
    ProcessKeepsQueueEvents(cfg, s.tk, s.q, s.host, k);
    var v := Process(cfg, s.tk, s.q, s.host, k);
    EventsKept(s.q, v.q);
    assert v.consumed && !Overtakes(cfg, s.tk, s.q, s.host, k);
    assert OfKind(s.host.out, Ordered) + [] == OfKind(s.host.out, Ordered);
    hide Process;
    assert OfKind(v.host.out, Ordered) + Undecided(v.tk) == OfKind(s.host.out, Ordered) + [e];
  }

  lemma {:induction false} PressesConcat(a: seq<Event>, b: seq<Event>)
    ensures Presses(a + b) == Presses(a) + Presses(b)
    decreases |b|
  {
    if b == [] {
      assert a + b == a;
    } else {
      var b' := b[..|b| - 1];
      assert (a + b)[..|a + b| - 1] == a + b';
      PressesConcat(a, b');
    }
  }

  ghost predicate NoPress(q: seq<Record>) {
    forall i :: 0 <= i < |q| ==> !q[i].event.pressed
  }

  lemma {:induction false} PressesOfQueue(q: seq<Record>)
    ensures Presses(Events(q)) == [] <==> NoPress(q)
  {
    var es := Events(q);
    if i :| 0 <= i < |q| && q[i].event.pressed {
      PressesCount(es, es[i]);
      assert multiset(es)[es[i]] > 0;
    } else if Presses(es) != [] {
      PressesCount(es, Presses(es)[0]);
      assert Presses(es)[0] in multiset(Presses(es));
      assert Presses(es)[0] in es;
    }
  }

  /** An event put in front of what waits leaves the presses in order if and only if it is none, or none waits. */
  lemma {:induction false} JumpedPresses(front: seq<Event>, q: seq<Event>, e: Event)
    requires e !in q
    ensures Presses(front + [e] + q) == Presses(front + q + [e]) <==> !e.pressed || Presses(q) == []
  {
    PressesConcat(front + [e], q);
    PressesConcat(front, [e]);
    PressesConcat(front + q, [e]);
    PressesConcat(front, q);
    assert [e][..0] == [];
    var f, p, one := Presses(front), Presses(q), Presses([e]);
    if e.pressed && p != [] {
      PressesCount(q, p[0]);
      assert p[0] in multiset(p);
      assert (f + one + p)[|f|] == e && (f + p + one)[|f|] == p[0];
    }
  }

  /** The presses keep their order over one arrival if and only if it comes in turn, is a release, or finds no press
      waiting. */
  lemma {:induction false} PressesExactly(cfg: Config, s: State, e: Event)
    requires !Overflows(cfg, s, e) && e !in Committed(s) && OnlyReleases(OfKind(s.host.out, Overtaking))
    ensures Presses(Committed(Arrive(cfg, s, e))) == Presses(Received(s, e))
      <==> InTurn(cfg, s, e) || !e.pressed || NoPress(s.q)
  {
    hide Presses, OfKind, Arrive, Overflows;
    if InTurn(cfg, s, e) {
      ArriveFlow(cfg, s, e);
      var s' := Arrive(cfg, s, e);
      SamePresses(Committed(s'), OfKind(s'.host.out, Overtaking), Received(s, e), OfKind(s.host.out, Overtaking));
    } else {
      OutOfTurn(cfg, s, e);
      PressesOfQueue(s.q);
      assert Committed(s) == OfKind(s.host.out, Ordered) + Events(s.q);
      assert forall x <- Events(s.q) :: x in Committed(s);
      JumpedPresses(OfKind(s.host.out, Ordered), Events(s.q), e);
    }
  }

  // ---------- the events of one key ----------

  ghost function OnKey(es: seq<Event>, key: Key): seq<Event> {
    if es == [] then []
    else OnKey(es[..|es| - 1], key) + (if es[|es| - 1].key == key then [es[|es| - 1]] else [])
  }

  lemma {:induction false} OnKeyConcat(a: seq<Event>, b: seq<Event>, key: Key)
    ensures OnKey(a + b, key) == OnKey(a, key) + OnKey(b, key)
    decreases |b|
  {
    if b == [] {
      assert a + b == a;
    } else {
      var b' := b[..|b| - 1];
      assert (a + b)[..|a + b| - 1] == a + b';
      OnKeyConcat(a, b', key);
    }
  }

  /** Everything received, in the order in which the host sees it or will see it if nothing overtakes. */
  ghost function Line(s: State): seq<Event> {
    Physical(s.host.out) + Undecided(s.tk) + Events(s.q)
  }

  ghost predicate SamePerKey(a: seq<Event>, b: seq<Event>) {
    forall key :: OnKey(a, key) == OnKey(b, key)
  }

  /** A key goes down and up in turn. */
  ghost predicate Alternates(es: seq<Event>) {
    forall i :: 0 < i < |es| ==> es[i].pressed != es[i - 1].pressed
  }

  ghost predicate AllAlternate(es: seq<Event>) {
    forall key :: Alternates(OnKey(es, key))
  }

  lemma {:induction false} OnKeyOfFour(a: seq<Event>, b: seq<Event>, c: seq<Event>, d: seq<Event>, key: Key)
    ensures OnKey(a + b + c + d, key) == OnKey(a, key) + OnKey(b, key) + OnKey(c, key) + OnKey(d, key)
  {
    hide OnKey;
    OnKeyConcat(a + b + c, d, key);
    OnKeyConcat(a + b, c, key);
    OnKeyConcat(a, b, key);
  }

  /** Moving `e` to the front of `mid`, which holds no event of its key, changes no key's order. */
  lemma {:induction false} MoveAhead(front: seq<Event>, mid: seq<Event>, e: Event, back: seq<Event>)
    requires OnKey(mid, e.key) == []
    ensures SamePerKey(front + [e] + mid + back, front + mid + [e] + back)
  {
    forall key ensures OnKey(front + [e] + mid + back, key) == OnKey(front + mid + [e] + back, key) {
      OnKeyOfFour(front, [e], mid, back, key);
      OnKeyOfFour(front, mid, [e], back, key);
      assert key != e.key ==> OnKey([e], key) == [];
    }
  }

  lemma {:induction false} DrainTurnKeys(cfg: Config, s: State, v: Verdict)
    requires s.q != [] && WellQueued(s.q) && v == Process(cfg, s.tk, s.q[1..], s.host, s.q[0])
    ensures SamePerKey(Line(Turn(v)), Line(s))
  {
    hide Process;
    var k, rest := s.q[0], s.q[1..];
    ProcessFrame(cfg, s.tk, rest, s.host, k);
    ProcessFlow(cfg, s.tk, rest, s.host, k);
    ProcessKeepsQueueEvents(cfg, s.tk, rest, s.host, k);
    EventsKept(rest, v.q);
    if Overtakes(cfg, s.tk, rest, s.host, k) {
      OvertakingTurnKeys(s, rest, Turn(v));
    } else {
      InOrderTurnKeys(s, rest, v);
    }
  }

  lemma {:induction false} OvertakingTurnKeys(s: State, rest: seq<Record>, s': State)
    requires s.q != [] && rest == s.q[1..] && s.q[0].event.key != s.tk.event.key && WellQueued(s.q)
    requires s' == State(s.tk, rest, s.host.(out := s.host.out + [Dispatch(s.q[0], Overtaking)]))
    ensures SamePerKey(Line(s'), Line(s))
  {
    var k := s.q[0];
    DispatchedFlow(s.host, k, Overtaking);
    MoveAhead(Physical(s.host.out), Undecided(s.tk), k.event, Events(rest));
    assert Events(s.q) == [k.event] + Events(rest);
    assert Line(s) == Physical(s.host.out) + Undecided(s.tk) + [k.event] + Events(rest);
    assert Line(s') == Physical(s.host.out) + [k.event] + Undecided(s.tk) + Events(rest);
  }

  lemma {:induction false} InOrderTurnKeys(s: State, rest: seq<Record>, v: Verdict)
    requires s.q != [] && rest == s.q[1..] && InOrder(s.tk, s.host, v)
    requires Events(v.q) == Events(rest) && v.keyp.event == s.q[0].event && !IsNoEvent(v.keyp.event)
    ensures Line(Turn(v)) == Line(s)
  {
    hide OfKind, Physical, Undecided, Events;
    assert s.q == [s.q[0]] + rest;
    EventsOfFront(s.q[0], rest);
    EventsOfFront(v.keyp, v.q);
    NothingAdded(Physical(s.host.out) + Undecided(s.tk));
  }

  lemma {:induction false} DrainKeys(cfg: Config, s: State)
    requires WellQueued(s.q)
    ensures SamePerKey(Line(Drain(cfg, s)), Line(s))
    decreases |s.q|
  {
    if s.q != [] {
      var v := Process(cfg, s.tk, s.q[1..], s.host, s.q[0]);
      DrainTurnKeys(cfg, s, v);
      DrainTurnFlow(cfg, s, v);
      ProcessKeepsQueueEvents(cfg, s.tk, s.q[1..], s.host, s.q[0]);
      hide Process;
      hide SamePerKey;
      if v.consumed {
        DrainKeys(cfg, Turn(v));
        SamePerKeyTransitive(Line(Drain(cfg, Turn(v))), Line(Turn(v)), Line(s));
      }
    }
  }

  lemma {:induction false} SamePerKeyTransitive(a: seq<Event>, b: seq<Event>, c: seq<Event>)
    requires SamePerKey(a, b) && SamePerKey(b, c)
    ensures SamePerKey(a, c)
  {
  }

  ghost function Arrived(e: Event): seq<Event> {
    if IsNoEvent(e) then [] else [e]
  }

  lemma {:induction false} OnKeyReleases(es: seq<Event>, key: Key)
    requires forall i :: 0 <= i < |es| && es[i].key == key ==> !es[i].pressed
    ensures OnlyReleases(OnKey(es, key))
    decreases |es|
  {
    if es != [] {
      OnKeyReleases(es[..|es| - 1], key);
    }
  }

  lemma {:induction false} LastBefore(a: seq<Event>, m: seq<Event>, e: Event)
    requires m != [] && Alternates(a + m + [e])
    ensures m[|m| - 1].pressed != e.pressed
  {
    var all := a + m + [e];
    assert all[|all| - 1] == e && all[|all| - 2] == m[|m| - 1];
  }

  /** A release that overtakes has no event of its key in front of it, because keys alternate. */
  lemma {:induction false} NothingOvertaken(front: seq<Event>, q: seq<Record>, e: Event)
    requires !e.pressed && !Typed(q, e) && Alternates(OnKey(front + Events(q) + [e], e.key))
    ensures OnKey(Events(q), e.key) == []
  {
    OnKeyReleases(Events(q), e.key);
    var mine := OnKey(Events(q), e.key);
    OnKeyConcat(front, Events(q), e.key);
    OnKeyConcat(front + Events(q), [e], e.key);
    assert [e][..0] == [];
    var all := OnKey(front, e.key) + mine + [e];
    assert OnKey(front + Events(q) + [e], e.key) == all;
    if mine != [] {
      LastBefore(OnKey(front, e.key), mine, e);
    }
  }

  lemma {:induction false} OvertakingArrivalKeys(s: State, k: Record, s': State)
    requires !k.event.pressed && !IsNoEvent(k.event) && k.event.key != s.tk.event.key && !Typed(s.q, k.event)
    requires s' == s.(host := s.host.(out := s.host.out + [Dispatch(k, Overtaking)]))
    requires Alternates(OnKey(Line(s) + [k.event], k.event.key))
    ensures SamePerKey(Line(s'), Line(s) + [k.event])
  {
    DispatchedFlow(s.host, k, Overtaking);
    assert OnKey(Undecided(s.tk), k.event.key) == [];
    hide Physical;
    hide Undecided;
    hide Events;
    hide SamePerKey;
    hide Alternates;
    hide Typed;
    hide OnKey;
    var p, u, q := Physical(s.host.out), Undecided(s.tk), Events(s.q);
    NothingOvertaken(p + u, s.q, k.event);
    OnKeyConcat(u, q, k.event.key);
    MoveAhead(p, u + q, k.event, []);
    Regroup(p, u, q, [k.event]);
  }

  lemma {:induction false} Regroup(p: seq<Event>, u: seq<Event>, q: seq<Event>, e: seq<Event>)
    ensures p + e + (u + q) + [] == p + e + u + q
    ensures p + (u + q) + e + [] == p + u + q + e
  {
  }

  lemma {:induction false} NoEvents()
    ensures Events([]) == []
  {
  }

  lemma {:induction false} InOrderArrivalKeys(s: State, v: Verdict, e: Event, s': State)
    requires v.keyp.event == e && InOrder(s.tk, s.host, v) && Events(v.q) == Events(s.q)
    requires v.consumed ==> s.q == [] || IsNoEvent(e)
    requires s' == State(v.tk, if v.consumed || IsNoEvent(e) then v.q else v.q + [v.keyp], v.host)
    ensures Line(s') == Line(s) + Arrived(e)
  {
    hide OfKind, Physical, Undecided, Events;
    EventsOfAppend(v.q, v.keyp);
    NothingAdded(Physical(s.host.out) + Undecided(s.tk));
    if s.q == [] {
      NoEvents();
    }
  }

  lemma {:induction false} ArriveKeys(cfg: Config, s: State, e: Event)
    requires !Overflows(cfg, s, e) && InTurn(cfg, s, e)
    requires Alternates(OnKey(Line(s) + Arrived(e), e.key))
    ensures SamePerKey(Line(Arrive(cfg, s, e)), Line(s) + Arrived(e))
  {
    var k := Fresh(e);
    ProcessFrame(cfg, s.tk, s.q, s.host, k);
    ProcessFlow(cfg, s.tk, s.q, s.host, k);
    ProcessKeepsQueueEvents(cfg, s.tk, s.q, s.host, k);
    var v := Process(cfg, s.tk, s.q, s.host, k);
    EventsKept(s.q, v.q);
    assert v.consumed && !IsUndecided(s.tk) ==> s.q == [] || IsNoEvent(e);
    hide Process;
    hide InOrder;
    hide InTurn;
    hide Line;
    if Overtakes(cfg, s.tk, s.q, s.host, k) {
      OvertakingArrivalKeys(s, k, Arrive(cfg, s, e));
    } else {
      InOrderArrivalKeys(s, v, e, Arrive(cfg, s, e));
    }
  }

  lemma {:induction false} StepKeys(cfg: Config, s: State, e: Event)
    requires WellQueued(s.q) && !Overflows(cfg, s, e) && InTurn(cfg, s, e)
    requires Alternates(OnKey(Line(s) + Arrived(e), e.key))
    ensures SamePerKey(Line(Step(cfg, s, e)), Line(s) + Arrived(e))
  {
    ArriveFlow(cfg, s, e);
    ArriveKeys(cfg, s, e);
    DrainKeys(cfg, Arrive(cfg, s, e));
    hide Arrive;
    hide Drain;
    hide SamePerKey;
    hide Line;
    SamePerKeyTransitive(Line(Step(cfg, s, e)), Line(Arrive(cfg, s, e)), Line(s) + Arrived(e));
  }

  /** Every event comes in turn, and since the last wipe every key goes down and up in turn. */
  ghost predicate Typing(cfg: Config, es: seq<Event>) {
    es == [] ||
    (&& Typing(cfg, es[..|es| - 1])
     && InTurn(cfg, RunOf(cfg, es[..|es| - 1]).s, es[|es| - 1])
     && AllAlternate(RunOf(cfg, es).input))
  }

  lemma {:induction false} AppendPerKey(a: seq<Event>, b: seq<Event>, c: seq<Event>)
    requires SamePerKey(a, b)
    ensures SamePerKey(a + c, b + c)
  {
    forall key ensures OnKey(a + c, key) == OnKey(b + c, key) {
      OnKeyConcat(a, c, key);
      OnKeyConcat(b, c, key);
    }
  }

  lemma {:induction false} AdvanceKeys(cfg: Config, r: Run, e: Event)
    requires Conserved(r) && SamePerKey(Line(r.s), r.input) && InTurn(cfg, r.s, e)
    requires AllAlternate(Advance(cfg, r, e).input)
    ensures SamePerKey(Line(Advance(cfg, r, e).s), Advance(cfg, r, e).input)
  {
    hide Overflows;
    hide Step;
    hide InTurn;
    if Overflows(cfg, r.s, e) {
      OverflowFlow(cfg, r.s, e);
    } else {
      AppendPerKey(Line(r.s), r.input, Arrived(e));
      assert r.input + Arrived(e) == Advance(cfg, r, e).input;
      assert OnKey(Line(r.s) + Arrived(e), e.key) == OnKey(r.input + Arrived(e), e.key);
      hide Line;
      StepKeys(cfg, r.s, e);
      SamePerKeyTransitive(Line(Step(cfg, r.s, e)), Line(r.s) + Arrived(e), r.input + Arrived(e));
    }
  }

  /** The order of one key. While keys alternate and events come in turn, the events of every key are
      dispatched exactly in the order in which they were made, so no release precedes its press. */
  lemma {:induction false} KeyOrder(cfg: Config, es: seq<Event>)
    requires Typing(cfg, es)
    ensures SamePerKey(Line(RunOf(cfg, es).s), RunOf(cfg, es).input)
    decreases |es|
  {
    if es == [] {
      assert Line(INIT) == [];
    } else {
      KeyOrder(cfg, es[..|es| - 1]);
      RunConserves(cfg, es[..|es| - 1]);
      AdvanceKeys(cfg, RunOf(cfg, es[..|es| - 1]), es[|es| - 1]);
    }
  }
}
