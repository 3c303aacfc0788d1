/** Which way a key goes by time: with permissive hold and hold-on-other-key-press off, a press that starts a term
    is sent as a tap if and only if its own release comes within that term. */
module TappingTerm {
  import opened Tapping
  import opened TappingFlow
  import opened TappingPairing
  import opened TappingProgress

  ghost predicate ByTime(cfg: Config) {
    !cfg.holdOnOther && forall h, r :: !cfg.permissive(h, r)
  }

  ghost predicate InTerm(cfg: Config, p: Event, e: Event) {
    Elapsed(e.time, p.time) < cfg.term(p.key)
  }

  /** `e` is a release of the key pressed by `p`, within its term. */
  ghost predicate Timely(cfg: Config, p: Event, e: Event) {
    e.key == p.key && !e.pressed && InTerm(cfg, p, e)
  }

  ghost predicate TimelyWaits(cfg: Config, p: Event, q: seq<Record>) {
    exists i :: 0 <= i < |q| && Timely(cfg, p, q[i].event)
  }

  ghost predicate TimelyComes(cfg: Config, p: Event, es: seq<Event>) {
    exists i :: 0 <= i < |es| && Timely(cfg, p, es[i])
  }

  ghost predicate TermEnds(cfg: Config, p: Event, es: seq<Event>) {
    exists i :: 0 <= i < |es| && !InTerm(cfg, p, es[i])
  }

  /** Since the press `p` the clock has not gone round: what comes is no earlier than what waits. */
  ghost predicate Clocked(p: Event, q: seq<Record>, es: seq<Event>) {
    && (forall i, j :: 0 <= i < |q| && 0 <= j < |es| ==>
          Elapsed(q[i].event.time, p.time) <= Elapsed(es[j].time, p.time))
    && (forall i, j :: 0 <= i <= j < |es| ==> Elapsed(es[i].time, p.time) <= Elapsed(es[j].time, p.time))
  }

  ghost predicate NoOverflow(cfg: Config, s: State, es: seq<Event>)
    decreases |es|
  {
    es == [] || (!Overflows(cfg, s, es[0]) && NoOverflow(cfg, Step(cfg, s, es[0]), es[1..]))
  }

  /** The first record dispatched in turn since `from` is the press `p`, as a tap or as a hold. */
  ghost predicate SentAs(p: Event, from: nat, out: seq<Dispatch>, tapped: bool) {
    exists i :: SentAt(p, from, out, tapped, i)
  }

  ghost predicate SentAt(p: Event, from: nat, out: seq<Dispatch>, tapped: bool, i: nat) {
    && from <= i < |out| && out[i].kind == Ordered && out[i].rec.event == p && IsTap(out[i]) == tapped
    && forall j :: from <= j < i ==> out[j].kind == Overtaking
  }

  /** The press is still undecided, and only releases that overtake it have been sent. */
  ghost predicate Held(p: Event, from: nat, s: State) {
    && IsUndecided(s.tk) && s.tk.event == p && from <= |s.host.out|
    && forall i :: from <= i < |s.host.out| ==> s.host.out[i].kind == Overtaking
  }

  lemma {:induction false} NotBoth(p: Event, from: nat, out: seq<Dispatch>)
    ensures !(SentAs(p, from, out, true) && SentAs(p, from, out, false))
  {
    if i :| SentAt(p, from, out, true, i) {
      forall j ensures !SentAt(p, from, out, false, j) {
      }
    }
  }

  // ---------- the trace only grows ----------

  ghost predicate Extends(out: seq<Dispatch>, out': seq<Dispatch>) {
    |out| <= |out'| && forall i :: 0 <= i < |out| ==> out'[i] == out[i]
  }

  lemma {:induction false} ProcessExtends(cfg: Config, tk: Record, q: seq<Record>, h: Host, k: Record)
    ensures Extends(h.out, Process(cfg, tk, q, h, k).host.out)
  {
  }

  lemma {:induction false} DrainExtends(cfg: Config, s: State)
    ensures Extends(s.host.out, Drain(cfg, s).host.out)
    decreases |s.q|
  {
    if s.q != [] {
      var v := Process(cfg, s.tk, s.q[1..], s.host, s.q[0]);
      ProcessExtends(cfg, s.tk, s.q[1..], s.host, s.q[0]);
      ProcessKeepsQueueEvents(cfg, s.tk, s.q[1..], s.host, s.q[0]);
      hide Process;
      if v.consumed {
        DrainExtends(cfg, State(v.tk, v.q, v.host));
      }
    }
  }

  lemma {:induction false} StepsExtend(cfg: Config, s: State, es: seq<Event>)
    requires NoOverflow(cfg, s, es)
    ensures Extends(s.host.out, Steps(cfg, s, es).host.out)
    decreases |es|
  {
    hide Process, Drain;
    if es != [] {
      ProcessExtends(cfg, s.tk, s.q, s.host, Fresh(es[0]));
      ProcessKeepsQueueEvents(cfg, s.tk, s.q, s.host, Fresh(es[0]));
      DrainExtends(cfg, Arrive(cfg, s, es[0]));
      StepsExtend(cfg, Step(cfg, s, es[0]), es[1..]);
    }
  }

  lemma {:induction false} SentStays(p: Event, from: nat, out: seq<Dispatch>, tapped: bool, out': seq<Dispatch>)
    requires SentAs(p, from, out, tapped) && Extends(out, out')
    ensures SentAs(p, from, out', tapped)
  {
    var i :| SentAt(p, from, out, tapped, i);
    assert SentAt(p, from, out', tapped, i);
  }

  lemma {:induction false} SentNow(from: nat, s: State, tk: Record, s': State)
    requires Held(tk.event, from, s) && s'.host.out == s.host.out + [Dispatch(tk, Ordered)]
    ensures SentAs(tk.event, from, s'.host.out, tk.tap.count > 0)
  {
    assert SentAt(tk.event, from, s'.host.out, tk.tap.count > 0, |s.host.out|);
  }

  // ---------- an undecided press ----------

  /** Only the release of its own key or the end of its term decides an undecided press. */
  lemma {:induction false} UndecidedByTime(cfg: Config, tk: Record, q: seq<Record>, h: Host, k: Record)
    requires ByTime(cfg) && IsUndecided(tk)
    ensures var v, e := Process(cfg, tk, q, h, k), k.event;
            if Timely(cfg, tk.event, e) then
              v.host == h.(out := h.out + [Dispatch(Marked(tk), Ordered)])
            else if !InTerm(cfg, tk.event, e) then
              v == Verdict(EMPTY, q, h.(out := h.out + [Dispatch(tk, Ordered)]), k, false)
            else
              && v.q == q && v.keyp == k && IsUndecided(v.tk) && v.tk.event == tk.event
              && v.host == if v.consumed then h.(out := h.out + [Dispatch(k, Overtaking)]) else h
  {
  }

  /** A drain over records of its term, its own release not among them, leaves an undecided press as it is. */
  lemma {:induction false} DrainHolds(cfg: Config, p: Event, from: nat, s: State)
    requires ByTime(cfg) && Held(p, from, s) && !TimelyWaits(cfg, p, s.q)
    requires forall i :: 0 <= i < |s.q| ==> InTerm(cfg, p, s.q[i].event)
    ensures var s' := Drain(cfg, s); Held(p, from, s') && forall r <- s'.q :: r in s.q
    decreases |s.q|
  {
    if s.q != [] {
      var k, rest := s.q[0], s.q[1..];
      var v := Process(cfg, s.tk, rest, s.host, k);
      UndecidedByTime(cfg, s.tk, rest, s.host, k);
      hide Process;
      assert !Timely(cfg, p, k.event);
      if v.consumed {
        var s1 := State(v.tk, rest, v.host);
        assert forall i :: 0 <= i < |rest| ==> rest[i] == s.q[i + 1];
        DrainHolds(cfg, p, from, s1);
      }
    }
  }

  /** One call that neither brings the own release nor ends the term. */
  lemma {:induction false} StepHolds(cfg: Config, p: Event, from: nat, s: State, e: Event, es: seq<Event>)
    requires ByTime(cfg) && Held(p, from, s) && !TimelyWaits(cfg, p, s.q) && !Overflows(cfg, s, e)
    requires InTerm(cfg, p, e) && !Timely(cfg, p, e) && Clocked(p, s.q, [e] + es)
    ensures var s' := Step(cfg, s, e); Held(p, from, s') && !TimelyWaits(cfg, p, s'.q) && Clocked(p, s'.q, es)
  {
    hide Process, Drain, Elapsed;
    var all := [e] + es;
    assert all[0] == e && forall j :: 0 <= j < |es| ==> all[j + 1] == es[j];
    UndecidedByTime(cfg, s.tk, s.q, s.host, Fresh(e));
    var s1 := Arrive(cfg, s, e);
    forall i | 0 <= i < |s1.q| ensures InTerm(cfg, p, s1.q[i].event) && !Timely(cfg, p, s1.q[i].event) {
      assert i < |s.q| ==> s1.q[i] == s.q[i] && Elapsed(s.q[i].event.time, p.time) <= Elapsed(all[0].time, p.time);
    }
    forall i, j | 0 <= i < |s1.q| && 0 <= j < |es|
      ensures Elapsed(s1.q[i].event.time, p.time) <= Elapsed(es[j].time, p.time)
    {
      assert Elapsed(all[0].time, p.time) <= Elapsed(all[j + 1].time, p.time);
    }
    DrainHolds(cfg, p, from, s1);
    var s' := Drain(cfg, s1);
    forall i | 0 <= i < |s'.q| ensures exists k :: 0 <= k < |s1.q| && s'.q[i] == s1.q[k] {
      assert s'.q[i] in s1.q;
    }
  }

  /** One call that brings the own release or ends the term. */
  lemma {:induction false} StepDecides(cfg: Config, p: Event, from: nat, s: State, e: Event)
    requires ByTime(cfg) && Held(p, from, s) && !Overflows(cfg, s, e)
    requires Timely(cfg, p, e) || !InTerm(cfg, p, e)
    ensures SentAs(p, from, Step(cfg, s, e).host.out, Timely(cfg, p, e))
  {
    UndecidedByTime(cfg, s.tk, s.q, s.host, Fresh(e));
    ProcessKeepsQueueEvents(cfg, s.tk, s.q, s.host, Fresh(e));
    var s1 := Arrive(cfg, s, e);
    hide Process, Drain;
    SentNow(from, s, if Timely(cfg, p, e) then Marked(s.tk) else s.tk, s1);
    DrainExtends(cfg, s1);
    SentStays(p, from, s1.host.out, Timely(cfg, p, e), Drain(cfg, s1).host.out);
  }

  /** From any undecided state whose own release does not wait yet: the press is a tap when its release comes in
      time, a hold when the term ends without it, and undecided while neither has happened. */
  lemma {:induction false} TermDecides(cfg: Config, p: Event, from: nat, s: State, es: seq<Event>)
    requires ByTime(cfg) && Held(p, from, s) && !TimelyWaits(cfg, p, s.q) && Clocked(p, s.q, es)
    requires NoOverflow(cfg, s, es)
    ensures var s' := Steps(cfg, s, es);
            if TimelyComes(cfg, p, es) then SentAs(p, from, s'.host.out, true)
            else if TermEnds(cfg, p, es) then SentAs(p, from, s'.host.out, false)
            else Held(p, from, s')
    decreases |es|
  {
    hide Step, Held, Overflows;
    if es != [] {
      var e, rest := es[0], es[1..];
      assert es == [e] + rest;
      var s1 := Step(cfg, s, e);
      if InTerm(cfg, p, e) && !Timely(cfg, p, e) {
        StepHolds(cfg, p, from, s, e, rest);
        TermDecides(cfg, p, from, s1, rest);
        ComesLater(cfg, p, e, rest);
      } else {
        StepDecides(cfg, p, from, s, e);
        StepsExtend(cfg, s1, rest);
        SentStays(p, from, s1.host.out, Timely(cfg, p, e), Steps(cfg, s1, rest).host.out);
        FirstDecides(cfg, p, e, rest);
      }
    }
  }

  lemma {:induction false} ComesLater(cfg: Config, p: Event, e: Event, rest: seq<Event>)
    requires InTerm(cfg, p, e) && !Timely(cfg, p, e)
    ensures TimelyComes(cfg, p, [e] + rest) <==> TimelyComes(cfg, p, rest)
    ensures TermEnds(cfg, p, [e] + rest) <==> TermEnds(cfg, p, rest)
  {
    hide InTerm;
    var es := [e] + rest;
    assert forall i :: 0 <= i < |rest| ==> es[i + 1] == rest[i];
  }

  lemma {:induction false} FirstDecides(cfg: Config, p: Event, e: Event, rest: seq<Event>)
    requires Clocked(p, [], [e] + rest) && (Timely(cfg, p, e) || !InTerm(cfg, p, e))
    ensures TimelyComes(cfg, p, [e] + rest) <==> Timely(cfg, p, e)
    ensures !Timely(cfg, p, e) ==> TermEnds(cfg, p, [e] + rest)
  {
    var es := [e] + rest;
    assert es[0] == e;
  }

  // ---------- from the start of a term ----------

  /** The rest of the drain loop that took the press up: it stays undecided, or a waiting record past its term makes
      it a hold. */
  lemma {:induction false} DrainByTime(cfg: Config, p: Event, from: nat, s: State)
    requires ByTime(cfg) && Held(p, from, s) && !TimelyWaits(cfg, p, s.q)
    ensures var s' := Drain(cfg, s);
            || (Held(p, from, s') && forall r <- s'.q :: r in s.q)
            || (SentAs(p, from, s'.host.out, false)
                && exists i :: 0 <= i < |s.q| && !InTerm(cfg, p, s.q[i].event))
    decreases |s.q|
  {
    if s.q != [] {
      var k, rest := s.q[0], s.q[1..];
      var v := Process(cfg, s.tk, rest, s.host, k);
      UndecidedByTime(cfg, s.tk, rest, s.host, k);
      hide Process;
      assert !Timely(cfg, p, k.event);
      assert forall i :: 0 <= i < |rest| ==> rest[i] == s.q[i + 1];
      if !InTerm(cfg, p, k.event) {
        SentNow(from, s, s.tk, Drain(cfg, s));
      } else if v.consumed {
        DrainByTime(cfg, p, from, State(v.tk, rest, v.host));
      }
    }
  }

  /** A press that starts a term (lines 316, 362, 395 and 427) with `q` waiting behind it, and `es` still to come, is
      sent as a tap if and only if its own release, in time, is among them. */
  lemma {:induction false} TapExactly(cfg: Config, k: Record, q: seq<Record>, h: Host, es: seq<Event>)
    requires ByTime(cfg) && k.event.pressed && !IsNoEvent(k.event) && k.tap.count == 0 && Clocked(k.event, q, es)
    requires var v := StartTap(cfg, q, h, k); NoOverflow(cfg, Drain(cfg, State(v.tk, v.q, v.host)), es)
    ensures var v, p := StartTap(cfg, q, h, k), k.event;
            var s' := Steps(cfg, Drain(cfg, State(v.tk, v.q, v.host)), es);
            && (SentAs(p, |h.out|, s'.host.out, true) <==> TimelyWaits(cfg, p, q) || TimelyComes(cfg, p, es))
            && (SentAs(p, |h.out|, s'.host.out, true) || SentAs(p, |h.out|, s'.host.out, false)
                || (Held(p, |h.out|, s') && !TermEnds(cfg, p, es)))
  {
    var p, from, v := k.event, |h.out|, StartTap(cfg, q, h, k);
    var s := State(v.tk, v.q, v.host);
    hide Drain, Step, Overflows;
    if TimelyWaits(cfg, p, q) {
      SentNow(from, State(k, q, h), v.tk, s);
      DrainExtends(cfg, s);
      SentStays(p, from, s.host.out, true, Drain(cfg, s).host.out);
      StepsExtend(cfg, Drain(cfg, s), es);
      SentStays(p, from, Drain(cfg, s).host.out, true, Steps(cfg, Drain(cfg, s), es).host.out);
    } else {
      assert s == State(k, q, h);
      UntimelyStart(cfg, p, from, s, es);
    }
  }

  lemma {:induction false} UntimelyStart(cfg: Config, p: Event, from: nat, s: State, es: seq<Event>)
    requires ByTime(cfg) && Held(p, from, s) && !TimelyWaits(cfg, p, s.q) && Clocked(p, s.q, es)
    requires NoOverflow(cfg, Drain(cfg, s), es)
    ensures var s' := Steps(cfg, Drain(cfg, s), es);
            && (SentAs(p, from, s'.host.out, true) <==> TimelyComes(cfg, p, es))
            && (SentAs(p, from, s'.host.out, true) || SentAs(p, from, s'.host.out, false)
                || (Held(p, from, s') && !TermEnds(cfg, p, es)))
  {
    var s1, s' := Drain(cfg, s), Steps(cfg, Drain(cfg, s), es);
    DrainByTime(cfg, p, from, s);
    hide Drain, Steps, NoOverflow;
    NotBoth(p, from, s'.host.out);
    if Held(p, from, s1) && forall r <- s1.q :: r in s.q {
      SameClock(cfg, p, s.q, s1.q, es);
      TermDecides(cfg, p, from, s1, es);
      HeldIsNotSent(p, from, s');
    } else {
      StepsExtend(cfg, s1, es);
      SentStays(p, from, s1.host.out, false, s'.host.out);
    }
  }

  lemma {:induction false} HeldIsNotSent(p: Event, from: nat, s: State)
    ensures Held(p, from, s) ==> !SentAs(p, from, s.host.out, true)
  {
  }

  lemma {:induction false} SameClock(cfg: Config, p: Event, q: seq<Record>, q': seq<Record>, es: seq<Event>)
    requires Clocked(p, q, es) && !TimelyWaits(cfg, p, q) && forall r <- q' :: r in q
    ensures Clocked(p, q', es) && !TimelyWaits(cfg, p, q')
  {
    forall i | 0 <= i < |q'| ensures exists j :: 0 <= j < |q| && q[j] == q'[i] {
      assert q'[i] in q;
    }
  }

  // ---------- lines 388-390 ----------

  /** Every record in front of the first release that would make `tk` a tap overtakes it. */
  ghost predicate Clears(cfg: Config, tk: Record, q: seq<Record>, h: Host)
    decreases |q|
  {
    && q != []
    && (IsTapRelease(cfg, tk, q[0])
        || (Overtakes(cfg, tk, q[1..], h, q[0])
            && Clears(cfg, tk, q[1..], h.(out := h.out + [Dispatch(q[0], Overtaking)]))))
  }

  lemma {:induction false} DrainTapsExactly(cfg: Config, p: Event, from: nat, s: State)
    requires Held(p, from, s)
    ensures SentAs(p, from, Drain(cfg, s).host.out, true) <==> Clears(cfg, s.tk, s.q, s.host)
    decreases |s.q|
  {
    var s' := Drain(cfg, s);
    NotBoth(p, from, s'.host.out);
    if s.q == [] {
      HeldIsNotSent(p, from, s);
    } else {
      var k, rest := s.q[0], s.q[1..];
      var v := Process(cfg, s.tk, rest, s.host, k);
      if IsTapRelease(cfg, s.tk, k) {
        SentNow(from, s, Marked(s.tk), s');
      } else {
        UndecidedOutcomes(cfg, s.tk, k, rest, s.host);
        hide Process, IsTapRelease, SentAs;
        if Overtakes(cfg, s.tk, rest, s.host, k) {
          DrainTapsExactly(cfg, p, from, State(v.tk, v.q, v.host));
        } else if Held(p, from, s') {
          HeldIsNotSent(p, from, s');
        } else {
          SentNow(from, s, s'.host.out[|s.host.out|].rec, s');
        }
      }
    }
  }

  /** Lines 388-390 take up a press without looking for its release: the drain loop sends it as a tap if and only if
      that release waits, in time, and every record in front of it overtakes. */
  lemma {:induction false} TakenOverExactly(cfg: Config, s: State)
    requires s.q != [] && IsTapping(s.tk) && !s.tk.event.pressed
    requires var k := s.q[0];
             && k.event.pressed && k.event.key == s.tk.event.key && k.tap.count == 0 && !IsNoEvent(k.event)
             && Within(cfg, s.tk, k.event) && !IsSequential(cfg, s.tk, k)
    ensures SentAs(s.q[0].event, |s.host.out|, Drain(cfg, s).host.out, true)
      <==> Clears(cfg, s.q[0], s.q[1..], s.host)
  {
    var k, rest := s.q[0], s.q[1..];
    assert Process(cfg, s.tk, rest, s.host, k) == Verdict(k, rest, s.host, k, true);
    hide Process, SentAs, Clears;
    DrainTapsExactly(cfg, k.event, |s.host.out|, State(k, rest, s.host));
  }
}
