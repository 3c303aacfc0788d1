/** The tapping engine cannot get stuck: ticks alone empty the waiting buffer and settle every press. */
module TappingProgress {
  import opened Tapping

  /** A tick that comes after the term of the current tapping key, if there is one. */
  ghost predicate LateTick(cfg: Config, s: State, e: Event) {
    e.key == TICK_KEY && !e.pressed && (IsTapping(s.tk) ==> !Within(cfg, s.tk, e))
  }

  /** Only an undecided press, or a released tap key whose term is over, stops the drain loop. */
  lemma {:induction false} DecidedConsumes(cfg: Config, tk: Record, q: seq<Record>, h: Host, k: Record)
    requires !IsTapping(tk) || (IsPressing(tk) && tk.tap.count > 0)
    ensures Process(cfg, tk, q, h, k).consumed
  {
  }

  lemma {:induction false} DrainNeverGrows(cfg: Config, s: State)
    ensures |Drain(cfg, s).q| <= |s.q|
    decreases |s.q|
  {
    if s.q != [] {
      var v := Process(cfg, s.tk, s.q[1..], s.host, s.q[0]);
      ProcessKeepsQueueEvents(cfg, s.tk, s.q[1..], s.host, s.q[0]);
      hide Process;
      if v.consumed {
        DrainNeverGrows(cfg, State(v.tk, v.q, v.host));
      }
    }
  }

  lemma {:induction false} LateTickDecides(cfg: Config, s: State, e: Event)
    requires LateTick(cfg, s, e)
    ensures var s' := Arrive(cfg, s, e);
            s'.q == s.q && (!IsTapping(s'.tk) || (IsPressing(s'.tk) && s'.tk.tap.count > 0))
  {
  }

  /** A late tick strictly shrinks a non-empty queue, and settles the press when nothing is queued. */
  lemma {:induction false} LateTickProgress(cfg: Config, s: State, e: Event)
    requires LateTick(cfg, s, e)
    ensures s.q != [] ==> |Step(cfg, s, e).q| < |s.q|
    ensures s.q == [] ==> Step(cfg, s, e).q == [] && !IsUndecided(Step(cfg, s, e).tk)
  {
    LateTickDecides(cfg, s, e);
    var s1 := Arrive(cfg, s, e);
    if s.q != [] {
      var v := Process(cfg, s1.tk, s1.q[1..], s1.host, s1.q[0]);
      DecidedConsumes(cfg, s1.tk, s1.q[1..], s1.host, s1.q[0]);
      ProcessKeepsQueueEvents(cfg, s1.tk, s1.q[1..], s1.host, s1.q[0]);
      DrainNeverGrows(cfg, State(v.tk, v.q, v.host));
    }
  }

  ghost function Steps(cfg: Config, s: State, es: seq<Event>): State
    decreases |es|
  {
    if es == [] then s else Steps(cfg, Step(cfg, s, es[0]), es[1..])
  }

  ghost predicate LateTicks(cfg: Config, s: State, es: seq<Event>)
    decreases |es|
  {
    es == [] || (LateTick(cfg, s, es[0]) && LateTicks(cfg, Step(cfg, s, es[0]), es[1..]))
  }

  /** Progress. From any state, one late tick more than there are queued records empties the queue and
      leaves no press undecided, and further late ticks keep it so. */
  lemma {:induction false} TicksSettle(cfg: Config, s: State, es: seq<Event>)
    requires LateTicks(cfg, s, es) && |es| >= |s.q| + 1
    ensures Steps(cfg, s, es).q == [] && !IsUndecided(Steps(cfg, s, es).tk)
    decreases |es|
  {
    LateTickProgress(cfg, s, es[0]);
    var s' := Step(cfg, s, es[0]);
    hide Step;
    if |es| > 1 {
      if |s'.q| + 1 <= |es| - 1 {
        TicksSettle(cfg, s', es[1..]);
      }
    } else {
      assert Steps(cfg, s', es[1..]) == s';
    }
  }
}
