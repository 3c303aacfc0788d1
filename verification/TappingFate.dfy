/** Which way an undecided press goes in every configuration: by the first record that decides it, which is its own
    release in time, a release nested in its term under permissive hold, a press under hold-on-other-key-press, or
    anything past the term. */
module TappingFate {
  import opened Keys
  import opened Tapping
  import opened TappingFlow
  import opened TappingPairing
  import opened TappingProgress
  import opened TappingTerm

  datatype Fate = Open | Tapped | HeldDown

  /** What became of the press `p` in a state. */
  ghost predicate Became(p: Event, from: nat, s: State, fate: Fate) {
    match fate
    case Open => Held(p, from, s)
    case Tapped => SentAs(p, from, s.host.out, true)
    case HeldDown => SentAs(p, from, s.host.out, false)
  }

  /** A release of another key whose press waits. */
  ghost predicate Nested(q: seq<Record>, e: Event) {
    IsReleased(e) && exists i :: 0 <= i < |q| && q[i].event.key == e.key && q[i].event.pressed
  }

  /** What a record makes of the undecided press `tk`, with `q` waiting. */
  ghost function FateBy(cfg: Config, tk: Record, q: seq<Record>, h: Host, e: Event): Fate {
    if Timely(cfg, tk.event, e) then Tapped
    else if !InTerm(cfg, tk.event, e) then HeldDown
    else if e.pressed && cfg.holdOnOther then HeldDown
    else if Nested(q, e) && cfg.permissive(h, tk) then HeldDown
    else Open
  }

  /** What the waiting records make of it, front first, as far as they get past it. */
  ghost function FateByQueue(cfg: Config, s: State): Fate
    decreases |s.q|
  {
    if s.q == [] then Open
    else
      var k, rest := s.q[0], s.q[1..];
      var fate := FateBy(cfg, s.tk, rest, s.host, k.event);
      if fate != Open || !Overtakes(cfg, s.tk, rest, s.host, k) then fate
      else FateByQueue(cfg, State(s.tk, rest, s.host.(out := s.host.out + [Dispatch(k, Overtaking)])))
  }

  /** What the calls `es` make of it: the first call with a record that decides it. */
  ghost function FateByCalls(cfg: Config, s: State, es: seq<Event>): Fate
    decreases |es|
  {
    if es == [] then Open
    else
      var fate := FateBy(cfg, s.tk, s.q, s.host, es[0]);
      if fate != Open then fate
      else
        var queued := FateByQueue(cfg, Arrive(cfg, s, es[0]));
        if queued != Open then queued else FateByCalls(cfg, Step(cfg, s, es[0]), es[1..])
  }

  lemma {:induction false} ProcessFate(cfg: Config, tk: Record, q: seq<Record>, h: Host, k: Record)
    requires IsUndecided(tk)
    ensures var v, fate := Process(cfg, tk, q, h, k), FateBy(cfg, tk, q, h, k.event);
            && (fate == Tapped ==> !v.consumed && v.host == h.(out := h.out + [Dispatch(Marked(tk), Ordered)]))
            && (fate == HeldDown ==>
                  !v.consumed && (v.host == h.(out := h.out + [Dispatch(tk, Ordered)])
                                  || v.host == h.(out := h.out + [Dispatch(Interrupted(tk), Ordered)])))
            && (fate == Open ==>
                  && v.q == q && v.keyp == k
                  && v.tk == (if k.event.pressed then Interrupted(tk) else tk)
                  && (v.consumed <==> Overtakes(cfg, tk, q, h, k))
                  && v.host == if v.consumed then h.(out := h.out + [Dispatch(k, Overtaking)]) else h)
  {
    hide Typed, Nested;
    TypedIsNested(q, k.event);
  }

  lemma {:induction false} TypedIsNested(q: seq<Record>, e: Event)
    ensures IsReleased(e) ==> (Typed(q, e) <==> Nested(q, e))
    ensures Nested(q, e) ==> IsReleased(e)
  {
  }

  lemma {:induction false} SentBecame(p: Event, from: nat, s: State, fate: Fate, s': State)
    requires Became(p, from, s, fate) && fate != Open && Extends(s.host.out, s'.host.out)
    ensures Became(p, from, s', fate)
  {
    SentStays(p, from, s.host.out, fate == Tapped, s'.host.out);
  }

  lemma {:induction false} ProcessBecame(cfg: Config, p: Event, from: nat, s: State, q: seq<Record>, k: Record,
                                         s': State)
    requires Held(p, from, s) && s'.host == Process(cfg, s.tk, q, s.host, k).host
    requires FateBy(cfg, s.tk, q, s.host, k.event) != Open
    ensures Became(p, from, s', FateBy(cfg, s.tk, q, s.host, k.event))
  {
    ProcessFate(cfg, s.tk, q, s.host, k);
    var d := s'.host.out[|s.host.out|].rec;
    hide Process, FateBy, SentAs;
    SentNow(from, s, d, s');
  }

  lemma {:induction false} DrainFate(cfg: Config, p: Event, from: nat, s: State)
    requires Held(p, from, s)
    ensures Became(p, from, Drain(cfg, s), FateByQueue(cfg, s))
    decreases |s.q|
  {
    if s.q != [] {
      var k, rest := s.q[0], s.q[1..];
      var v := Process(cfg, s.tk, rest, s.host, k);
      ProcessFate(cfg, s.tk, rest, s.host, k);
      if FateBy(cfg, s.tk, rest, s.host, k.event) != Open {
        ProcessBecame(cfg, p, from, s, rest, k, Drain(cfg, s));
      } else if v.consumed {
        assert v.tk == s.tk;
        hide Process, FateBy, SentAs, Overtakes;
        DrainFate(cfg, p, from, State(v.tk, v.q, v.host));
      }
    }
  }

  /** One call. */
  lemma {:induction false} StepFate(cfg: Config, p: Event, from: nat, s: State, e: Event)
    requires Held(p, from, s) && !Overflows(cfg, s, e)
    ensures var fate := FateBy(cfg, s.tk, s.q, s.host, e);
            Became(p, from, Step(cfg, s, e), if fate != Open then fate else FateByQueue(cfg, Arrive(cfg, s, e)))
  {
    var fate, s1 := FateBy(cfg, s.tk, s.q, s.host, e), Arrive(cfg, s, e);
    ProcessFate(cfg, s.tk, s.q, s.host, Fresh(e));
    ProcessKeepsQueueEvents(cfg, s.tk, s.q, s.host, Fresh(e));
    if fate != Open {
      ProcessBecame(cfg, p, from, s, s.q, Fresh(e), s1);
      DrainExtends(cfg, s1);
      SentBecame(p, from, s1, fate, Drain(cfg, s1));
    } else {
      hide Process, FateBy, FateByQueue, SentAs;
      DrainFate(cfg, p, from, s1);
    }
  }

  /** In every configuration, whatever the hooks answer: the first record that decides an undecided press decides it
      for good, and until then it is held. */
  lemma {:induction false} FateExactly(cfg: Config, p: Event, from: nat, s: State, es: seq<Event>)
    requires Held(p, from, s) && NoOverflow(cfg, s, es)
    ensures Became(p, from, Steps(cfg, s, es), FateByCalls(cfg, s, es))
    decreases |es|
  {
    hide Step, FateBy, FateByQueue, Overflows, SentAs, Held;
    if es != [] {
      var s1 := Step(cfg, s, es[0]);
      StepFate(cfg, p, from, s, es[0]);
      StepsExtend(cfg, s1, es[1..]);
      var first := FateBy(cfg, s.tk, s.q, s.host, es[0]);
      var fate := if first != Open then first else FateByQueue(cfg, Arrive(cfg, s, es[0]));
      if fate == Open {
        FateExactly(cfg, p, from, s1, es[1..]);
      } else {
        SentBecame(p, from, s1, fate, Steps(cfg, s1, es[1..]));
      }
    }
  }

  /** Permissive hold: a release nested in the term of an undecided press makes it a hold at once. */
  lemma {:induction false} NestedReleaseHolds(cfg: Config, s: State, e: Event)
    requires IsUndecided(s.tk) && !Overflows(cfg, s, e) && e.key != s.tk.event.key && InTerm(cfg, s.tk.event, e)
    requires Nested(s.q, e) && cfg.permissive(s.host, s.tk)
    ensures SentAs(s.tk.event, |s.host.out|, Step(cfg, s, e).host.out, false)
  {
    StepFate(cfg, s.tk.event, |s.host.out|, s, e);
  }

  /** Hold-on-other-key-press: so does every other press. */
  lemma {:induction false} OtherPressHolds(cfg: Config, s: State, e: Event)
    requires IsUndecided(s.tk) && !Overflows(cfg, s, e) && e.pressed && cfg.holdOnOther
    ensures SentAs(s.tk.event, |s.host.out|, Step(cfg, s, e).host.out, false)
  {
    StepFate(cfg, s.tk.event, |s.host.out|, s, e);
  }

  // ---------- hooks that do not change their mind ----------

  /** Permissive hold depends on the key only, and no release is retained. */
  ghost predicate Steady(cfg: Config, permissive: Key -> bool) {
    && (forall h, r :: cfg.permissive(h, r) == permissive(r.event.key))
    && (forall h, r :: !cfg.retain(h, r))
  }

  /** The keys whose press waits. */
  ghost predicate Waiting(q: seq<Record>, down: set<Key>) {
    forall key :: key in down <==> exists i :: 0 <= i < |q| && q[i].event.key == key && q[i].event.pressed
  }

  /** The first of the events that decides the press `p`, while the presses of the keys `down` wait. */
  ghost function Decision(cfg: Config, permissive: bool, p: Event, down: set<Key>, es: seq<Event>): Fate
    decreases |es|
  {
    if es == [] then Open
    else
      var e := es[0];
      if Timely(cfg, p, e) then Tapped
      else if !InTerm(cfg, p, e) || (e.pressed && cfg.holdOnOther) then HeldDown
      else if IsReleased(e) && e.key in down && permissive then HeldDown
      else Decision(cfg, permissive, p, if e.pressed && !IsNoEvent(e) then down + {e.key} else down, es[1..])
  }

  /** The drain loop has stopped. */
  ghost predicate Stuck(cfg: Config, s: State) {
    s.q == [] || (FateBy(cfg, s.tk, s.q[1..], s.host, s.q[0].event) == Open
                  && !Overtakes(cfg, s.tk, s.q[1..], s.host, s.q[0]))
  }

  lemma {:induction false} StuckQueue(cfg: Config, s: State)
    requires Stuck(cfg, s) && IsUndecided(s.tk)
    ensures FateByQueue(cfg, s) == Open
    ensures var s' := Drain(cfg, s);
            s'.q == s.q && s'.host == s.host && s'.tk.event == s.tk.event && IsUndecided(s'.tk)
  {
    if s.q != [] {
      ProcessFate(cfg, s.tk, s.q[1..], s.host, s.q[0]);
      hide Process, FateBy, Overtakes;
    }
  }

  /** What stops the drain loop goes on stopping it, whatever joins the queue. */
  lemma {:induction false} FrontStays(cfg: Config, permissive: Key -> bool, tk: Record, tk': Record, q: seq<Record>,
                                      q': seq<Record>, h: Host, h': Host, k: Record)
    requires Steady(cfg, permissive) && IsUndecided(tk) && IsUndecided(tk') && tk'.event == tk.event
    requires |q| <= |q'| && forall i :: 0 <= i < |q| ==> q'[i] == q[i]
    requires FateBy(cfg, tk, q, h, k.event) == Open && !Overtakes(cfg, tk, q, h, k)
    ensures FateBy(cfg, tk', q', h', k.event) == Open && !Overtakes(cfg, tk', q', h', k)
  {
    TypedIsNested(q, k.event);
    TypedIsNested(q', k.event);
    hide Nested;
    assert Typed(q, k.event) ==> Typed(q', k.event);
  }

  lemma {:induction false} ArriveStuck(cfg: Config, permissive: Key -> bool, s: State, e: Event)
    requires Steady(cfg, permissive) && Stuck(cfg, s) && IsUndecided(s.tk) && !Overflows(cfg, s, e)
    requires FateBy(cfg, s.tk, s.q, s.host, e) == Open
    ensures var s1 := Arrive(cfg, s, e);
            && IsUndecided(s1.tk) && s1.tk.event == s.tk.event && Stuck(cfg, s1)
            && (s1.q == s.q || s1.q == s.q + [Fresh(e)])
            && (e.pressed && !IsNoEvent(e) ==> s1.q == s.q + [Fresh(e)])
  {
    ProcessFate(cfg, s.tk, s.q, s.host, Fresh(e));
    ProcessKeepsQueueEvents(cfg, s.tk, s.q, s.host, Fresh(e));
    var s1 := Arrive(cfg, s, e);
    hide Process, FateBy, Steady;
    if s1.q != [] {
      FrontStays(cfg, permissive, s.tk, s1.tk, if s.q == [] then [] else s.q[1..], s1.q[1..], s.host, s1.host, s1.q[0]);
    }
  }

  lemma {:induction false} SameWaiting(q: seq<Record>, down: set<Key>, e: Event, q': seq<Record>)
    requires Waiting(q, down) && (q' == q || q' == q + [Fresh(e)]) && !IsNoEvent(e)
    requires e.pressed ==> q' == q + [Fresh(e)]
    ensures Waiting(q', if e.pressed then down + {e.key} else down)
  {
    assert forall i :: 0 <= i < |q| ==> q'[i] == q[i];
    assert e.pressed ==> q'[|q|] == Fresh(e);
  }

  lemma {:induction false} StepSteady(cfg: Config, permissive: Key -> bool, p: Event, from: nat, s: State, e: Event,
                                      down: set<Key>)
    requires Steady(cfg, permissive) && Held(p, from, s) && Stuck(cfg, s) && Waiting(s.q, down)
    requires !Overflows(cfg, s, e)
    ensures FateBy(cfg, s.tk, s.q, s.host, e) == Decision(cfg, permissive(p.key), p, down, [e])
    ensures FateBy(cfg, s.tk, s.q, s.host, e) == Open ==>
      && FateByQueue(cfg, Arrive(cfg, s, e)) == Open && Stuck(cfg, Step(cfg, s, e))
      && Waiting(Step(cfg, s, e).q, if e.pressed && !IsNoEvent(e) then down + {e.key} else down)
  {
    if FateBy(cfg, s.tk, s.q, s.host, e) == Open {
      var s1 := Arrive(cfg, s, e);
      ArriveStuck(cfg, permissive, s, e);
      StuckQueue(cfg, s1);
      var s2 := Drain(cfg, s1);
      if s2.q != [] {
        FrontStays(cfg, permissive, s1.tk, s2.tk, s1.q[1..], s1.q[1..], s1.host, s2.host, s1.q[0]);
      }
      if IsNoEvent(e) {
        NoEventWaits(cfg, s, e);
      } else {
        SameWaiting(s.q, down, e, s1.q);
      }
    }
    hide FateByQueue, Arrive, Drain, Stuck, Overflows;
    assert [e][1..] == [];
  }

  lemma {:induction false} NoEventWaits(cfg: Config, s: State, e: Event)
    requires IsNoEvent(e) && IsUndecided(s.tk) && FateBy(cfg, s.tk, s.q, s.host, e) == Open
    ensures Arrive(cfg, s, e).q == s.q
  {
    ProcessFate(cfg, s.tk, s.q, s.host, Fresh(e));
    hide Process, FateBy;
  }

  /** With such hooks the arriving events alone decide, from any state between two calls. */
  lemma {:induction false} FirstDecides(cfg: Config, permissive: Key -> bool, p: Event, from: nat, s: State,
                                        es: seq<Event>, down: set<Key>)
    requires Steady(cfg, permissive) && Held(p, from, s) && Stuck(cfg, s) && Waiting(s.q, down)
    requires NoOverflow(cfg, s, es)
    ensures Became(p, from, Steps(cfg, s, es), Decision(cfg, permissive(p.key), p, down, es))
  {
    FateExactly(cfg, p, from, s, es);
    FatesAgree(cfg, permissive, p, from, s, es, down);
  }

  lemma {:induction false} FatesAgree(cfg: Config, permissive: Key -> bool, p: Event, from: nat, s: State,
                                      es: seq<Event>, down: set<Key>)
    requires Steady(cfg, permissive) && Held(p, from, s) && Stuck(cfg, s) && Waiting(s.q, down)
    requires NoOverflow(cfg, s, es)
    ensures FateByCalls(cfg, s, es) == Decision(cfg, permissive(p.key), p, down, es)
    decreases |es|
  {
    hide Step, FateBy, FateByQueue, Overflows, SentAs, Held, Stuck, Waiting, Steady;
    if es != [] {
      var e := es[0];
      StepSteady(cfg, permissive, p, from, s, e, down);
      StepFate(cfg, p, from, s, e);
      assert [e][0] == e && [e][1..] == [];
      if FateBy(cfg, s.tk, s.q, s.host, e) == Open {
        FatesAgree(cfg, permissive, p, from, Step(cfg, s, e), es[1..],
                   if e.pressed && !IsNoEvent(e) then down + {e.key} else down);
      }
    }
  }
}
