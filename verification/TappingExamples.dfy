/** Two runs that show that the conditions of TappingOrder and TappingPairing are needed. */
module TappingExamples {
  import opened Keys
  import opened Tapping
  import opened TappingFlow
  import opened TappingOrder
  import opened TappingPairing

  ghost function Sent(rs: seq<Record>): Host {
    Host([], seq(|rs|, i requires 0 <= i < |rs| => Dispatch(rs[i], Ordered)))
  }

  lemma {:induction false} SentOneMore(rs: seq<Record>, r: Record)
    requires !IsNoEvent(r.event)
    ensures Dispatched(Sent(rs), r, Ordered) == Sent(rs + [r])
  {
  }

  lemma {:induction false} RunStep(cfg: Config, es: seq<Event>, e: Event, es': seq<Event>)
    requires es' == es + [e]
    ensures RunOf(cfg, es').s == Step(cfg, RunOf(cfg, es).s, e)
    ensures Orderly(cfg, es') <==> Orderly(cfg, es) && InTurn(cfg, RunOf(cfg, es).s, e)
  {
    assert es'[..|es|] == es;
  }

  /** After `es`, all in turn, the engine is in state `s`. */
  ghost predicate Plays(cfg: Config, es: seq<Event>, s: State) {
    RunOf(cfg, es).s == s && Orderly(cfg, es)
  }

  lemma {:induction false} PlaysNothing(cfg: Config)
    ensures Plays(cfg, [], INIT)
  {
  }

  lemma {:induction false} PlaysOn(cfg: Config, es: seq<Event>, s: State, e: Event, es': seq<Event>, s': State)
    requires Plays(cfg, es, s) && es' == es + [e]
    requires Step(cfg, s, e) == s' && InTurn(cfg, s, e)
    ensures Plays(cfg, es', s')
  {
    hide Step;
    hide InTurn;
    RunStep(cfg, es, e, es');
  }

  lemma {:induction false} DrainTurn(cfg: Config, s: State, k: Record, rest: seq<Record>, v: Verdict)
    requires s.q == [k] + rest && v == Process(cfg, s.tk, rest, s.host, k)
    ensures Drain(cfg, s) ==
      if v.consumed then Drain(cfg, State(v.tk, v.q, v.host)) else State(v.tk, [v.keyp] + v.q, v.host)
  {
    assert s.q[1..] == rest;
    ProcessKeepsQueueEvents(cfg, s.tk, rest, s.host, k);
  }

  // ---------- an arrival out of turn ----------

  const SLOW := Key(0, 0)
  const QUICK := Key(0, 1)
  const PLAIN := Key(0, 2)

  ghost function ReorderingConfig(): Config {
    Config(k => if k == QUICK then 50 else 200, k => 0, (h, r) => false, false,
           (h, k) => k == SLOW || k == QUICK, (h, r) => false)
  }

  const SLOW_DOWN := Event(SLOW, true, 1)
  const QUICK_DOWN := Event(QUICK, true, 3)
  const PLAIN_DOWN := Event(PLAIN, true, 101)
  const LATE_TICK := Event(TICK_KEY, false, 301)
  const PLAIN_UP := Event(PLAIN, false, 303)

  const SLOW_HELD := Record(SLOW_DOWN, Tap(true, 0))

  lemma {:induction false} SlowDown()
    ensures Step(ReorderingConfig(), INIT, SLOW_DOWN) == State(Fresh(SLOW_DOWN), [], Sent([]))
  {
  }

  lemma {:induction false} QuickDown()
    ensures Step(ReorderingConfig(), State(Fresh(SLOW_DOWN), [], Sent([])), QUICK_DOWN)
         == State(SLOW_HELD, [Fresh(QUICK_DOWN)], Sent([]))
  {
  }

  lemma {:induction false} PlainDown()
    ensures Step(ReorderingConfig(), State(SLOW_HELD, [Fresh(QUICK_DOWN)], Sent([])), PLAIN_DOWN)
         == State(SLOW_HELD, [Fresh(QUICK_DOWN), Fresh(PLAIN_DOWN)], Sent([]))
  {
    var cfg := ReorderingConfig();
    assert Arrive(cfg, State(SLOW_HELD, [Fresh(QUICK_DOWN)], Sent([])), PLAIN_DOWN)
        == State(SLOW_HELD, [Fresh(QUICK_DOWN), Fresh(PLAIN_DOWN)], Sent([]));
  }

  lemma {:induction false} LateTick()
    ensures Step(ReorderingConfig(), State(SLOW_HELD, [Fresh(QUICK_DOWN), Fresh(PLAIN_DOWN)], Sent([])), LATE_TICK)
         == State(EMPTY, [Fresh(PLAIN_DOWN)], Sent([SLOW_HELD, Fresh(QUICK_DOWN)]))
  {
    var cfg := ReorderingConfig();
    SentOneMore([], SLOW_HELD);
    SentOneMore([SLOW_HELD], Fresh(QUICK_DOWN));
    var s1 := State(EMPTY, [Fresh(QUICK_DOWN), Fresh(PLAIN_DOWN)], Sent([SLOW_HELD]));
    assert Arrive(cfg, State(SLOW_HELD, [Fresh(QUICK_DOWN), Fresh(PLAIN_DOWN)], Sent([])), LATE_TICK) == s1;
    assert s1.q[1..] == [Fresh(PLAIN_DOWN)];
    var s2 := State(Fresh(QUICK_DOWN), [Fresh(PLAIN_DOWN)], Sent([SLOW_HELD]));
    assert Process(cfg, EMPTY, [Fresh(PLAIN_DOWN)], Sent([SLOW_HELD]), Fresh(QUICK_DOWN))
        == Verdict(s2.tk, s2.q, s2.host, Fresh(QUICK_DOWN), true);
    assert Process(cfg, Fresh(QUICK_DOWN), [], Sent([SLOW_HELD]), Fresh(PLAIN_DOWN))
        == Verdict(EMPTY, [], Sent([SLOW_HELD, Fresh(QUICK_DOWN)]), Fresh(PLAIN_DOWN), false);
    assert s2.q[1..] == [];
    assert Drain(cfg, s2) == State(EMPTY, [Fresh(PLAIN_DOWN)] + [], Sent([SLOW_HELD, Fresh(QUICK_DOWN)]));
    assert Drain(cfg, s1) == Drain(cfg, s2);
  }

  lemma {:induction false} PlainUp()
    ensures Step(ReorderingConfig(), State(EMPTY, [Fresh(PLAIN_DOWN)], Sent([SLOW_HELD, Fresh(QUICK_DOWN)])), PLAIN_UP)
         == State(EMPTY, [], Sent([SLOW_HELD, Fresh(QUICK_DOWN), Fresh(PLAIN_UP), Fresh(PLAIN_DOWN)]))
  {
    SentOneMore([SLOW_HELD, Fresh(QUICK_DOWN)], Fresh(PLAIN_UP));
    SentOneMore([SLOW_HELD, Fresh(QUICK_DOWN), Fresh(PLAIN_UP)], Fresh(PLAIN_DOWN));
    var cfg := ReorderingConfig();
    var h := Sent([SLOW_HELD, Fresh(QUICK_DOWN), Fresh(PLAIN_UP)]);
    var s1 := State(EMPTY, [Fresh(PLAIN_DOWN)], h);
    assert Arrive(cfg, State(EMPTY, [Fresh(PLAIN_DOWN)], Sent([SLOW_HELD, Fresh(QUICK_DOWN)])), PLAIN_UP) == s1;
    assert s1.q[1..] == [];
    assert Process(cfg, EMPTY, [], h, Fresh(PLAIN_DOWN))
        == Verdict(EMPTY, [], Sent([SLOW_HELD, Fresh(QUICK_DOWN), Fresh(PLAIN_UP), Fresh(PLAIN_DOWN)]),
          Fresh(PLAIN_DOWN), true);
    assert Drain(cfg, s1)
      == Drain(cfg, State(EMPTY, [], Sent([SLOW_HELD, Fresh(QUICK_DOWN), Fresh(PLAIN_UP), Fresh(PLAIN_DOWN)])));
  }

  /** The condition is needed: with per-key terms the drain loop can stop with a press still queued and
      no tapping key, and then that key's release is processed before its press. */
  lemma {:induction false} ReleaseBeforePress()
    ensures var cfg, es := ReorderingConfig(), [SLOW_DOWN, QUICK_DOWN, PLAIN_DOWN, LATE_TICK, PLAIN_UP];
            && !Orderly(cfg, es)
            && Physical(RunOf(cfg, es).s.host.out) == [SLOW_DOWN, QUICK_DOWN, PLAIN_UP, PLAIN_DOWN]
  {
    var cfg := ReorderingConfig();
    var four := [SLOW_DOWN, QUICK_DOWN, PLAIN_DOWN, LATE_TICK];
    hide Step;
    hide Sent;
    hide RunOf;
    hide Orderly;
    hide Physical;
    SlowDown();
    QuickDown();
    PlainDown();
    LateTick();
    PlainUp();
    PlaysNothing(cfg);
    PlaysOn(cfg, [], INIT, SLOW_DOWN, [SLOW_DOWN], State(Fresh(SLOW_DOWN), [], Sent([])));
    PlaysOn(cfg, [SLOW_DOWN], State(Fresh(SLOW_DOWN), [], Sent([])), QUICK_DOWN,
            [SLOW_DOWN, QUICK_DOWN], State(SLOW_HELD, [Fresh(QUICK_DOWN)], Sent([])));
    PlaysOn(cfg, [SLOW_DOWN, QUICK_DOWN], State(SLOW_HELD, [Fresh(QUICK_DOWN)], Sent([])), PLAIN_DOWN,
            [SLOW_DOWN, QUICK_DOWN, PLAIN_DOWN], State(SLOW_HELD, [Fresh(QUICK_DOWN), Fresh(PLAIN_DOWN)], Sent([])));
    PlaysOn(cfg, [SLOW_DOWN, QUICK_DOWN, PLAIN_DOWN],
      State(SLOW_HELD, [Fresh(QUICK_DOWN), Fresh(PLAIN_DOWN)], Sent([])),
            LATE_TICK, four, State(EMPTY, [Fresh(PLAIN_DOWN)], Sent([SLOW_HELD, Fresh(QUICK_DOWN)])));
    RunStep(cfg, four, PLAIN_UP, [SLOW_DOWN, QUICK_DOWN, PLAIN_DOWN, LATE_TICK, PLAIN_UP]);
    SentOut([SLOW_HELD, Fresh(QUICK_DOWN), Fresh(PLAIN_UP), Fresh(PLAIN_DOWN)]);
    PhysicalOfFour(Sent([SLOW_HELD, Fresh(QUICK_DOWN), Fresh(PLAIN_UP), Fresh(PLAIN_DOWN)]).out);
  }

  lemma {:induction false} SentOut(rs: seq<Record>)
    ensures |Sent(rs).out| == |rs| && forall i :: 0 <= i < |rs| ==> Sent(rs).out[i] == Dispatch(rs[i], Ordered)
  {
  }

  lemma {:induction false} PhysicalOfFour(out: seq<Dispatch>)
    requires |out| == 4 && forall i :: 0 <= i < 4 ==> out[i].kind == Ordered
    ensures Physical(out) == [out[0].rec.event, out[1].rec.event, out[2].rec.event, out[3].rec.event]
  {
    var o3, o2, o1 := out[..3], out[..2], out[..1];
    assert o3[..2] == o2 && o2[..1] == o1 && o1[..0] == [];
    assert Physical(o1) == [out[0].rec.event];
    assert Physical(o2) == [out[0].rec.event, out[1].rec.event];
  }

  // ---------- a mispicked release ----------

  const HOLD := Key(1, 0)
  const TWICE := Key(1, 1)
  const OTHER := Key(1, 2)

  function SplittingConfig(): Config {
    Config(k => 200, k => 0, (h, r) => false, false, (h, k) => k == HOLD || k == TWICE || k == OTHER, (h, r) => false)
  }

  const HOLD1 := Event(HOLD, true, 1)
  const DOWN3 := Event(TWICE, true, 3)
  const UP5 := Event(TWICE, false, 5)
  const DOWN7 := Event(TWICE, true, 7)
  const OTHER9 := Event(OTHER, true, 9)
  const UP11 := Event(TWICE, false, 11)
  const DOWN13 := Event(TWICE, true, 13)
  const TICK203 := Event(TICK_KEY, false, 203)
  const UP205 := Event(TWICE, false, 205)
  const TICK211 := Event(TICK_KEY, false, 211)

  const HELD := Record(HOLD1, Tap(true, 0))
  const TAP3 := Record(DOWN3, Tap(false, 1))
  const TAP5 := Record(UP5, Tap(false, 1))
  const HELD7 := Record(DOWN7, Tap(true, 0))
  const TAP7 := Record(DOWN7, Tap(true, 1))
  const TAP205 := Record(UP205, Tap(true, 1))
  const TAP13 := Record(DOWN13, Tap(false, 1))
  const LAST205 := Record(UP205, Tap(false, 1))

  /** While HOLD is undecided, everything else queues up behind it. */
  lemma {:induction false} QueuesUp(q: seq<Record>, e: Event)
    requires e.key == TWICE || e.key == OTHER
    requires 3 <= e.time <= 13 && |q| < 7 && (e.pressed || (e.key == TWICE && q != []))
    requires if q == [] then e == DOWN3 else q[0] == Fresh(DOWN3)
    ensures Step(SplittingConfig(), State(HELD, q, Sent([])), e) == State(HELD, q + [Fresh(e)], Sent([]))
    ensures Step(SplittingConfig(), State(Fresh(HOLD1), q, Sent([])), e) == State(HELD, q + [Fresh(e)], Sent([]))
  {
    var cfg := SplittingConfig();
    var s := State(HELD, q + [Fresh(e)], Sent([]));
    assert !e.pressed ==> q[0].event.key == e.key && Typed(q, e);
    assert e.pressed ==> Arrive(cfg, State(Fresh(HOLD1), q, Sent([])), e) == s;
    assert Arrive(cfg, State(HELD, q, Sent([])), e) == s;
    var rest := s.q[1..];
    assert s.q == [Fresh(DOWN3)] + rest;
    var v := Process(cfg, HELD, rest, Sent([]), Fresh(DOWN3));
    assert v == Verdict(HELD, rest, Sent([]), Fresh(DOWN3), false);
    DrainTurn(cfg, s, Fresh(DOWN3), rest, v);
  }

  lemma {:induction false} HoldDown()
    ensures Step(SplittingConfig(), INIT, HOLD1) == State(Fresh(HOLD1), [], Sent([]))
  {
  }

  lemma {:induction false} FirstTick()
    ensures Step(SplittingConfig(),
                 State(HELD, [Fresh(DOWN3), Fresh(UP5), Fresh(DOWN7), Fresh(OTHER9), Fresh(UP11), Fresh(DOWN13)],
                   Sent([])),
                 TICK203)
         == State(HELD7, [Fresh(OTHER9), Fresh(UP11), Fresh(DOWN13)], Sent([HELD, TAP3, TAP5]))
  {
    var cfg := SplittingConfig();
    var late := [Fresh(OTHER9), Fresh(UP11), Fresh(DOWN13)];
    var q2 := [Fresh(DOWN7)] + late;
    var q1 := [Fresh(UP5)] + q2;
    var s := State(HELD, [Fresh(DOWN3)] + q1, Sent([]));
    SentOneMore([], HELD);
    SentOneMore([HELD], TAP3);
    SentOneMore([HELD, TAP3], TAP5);
    assert s.q == [Fresh(DOWN3), Fresh(UP5), Fresh(DOWN7), Fresh(OTHER9), Fresh(UP11), Fresh(DOWN13)];
    assert Arrive(cfg, s, TICK203) == State(EMPTY, s.q, Sent([HELD]));
    assert FirstTapRelease(cfg, Fresh(DOWN3), q1) == 0;
    assert q1[0 := TAP5] == [TAP5] + q2;
    hide Drain;
    DrainTurn(cfg, State(EMPTY, s.q, Sent([HELD])), Fresh(DOWN3), q1,
              Verdict(TAP3, [TAP5] + q2, Sent([HELD, TAP3]), Fresh(DOWN3), true));
    DrainTurn(cfg, State(TAP3, [TAP5] + q2, Sent([HELD, TAP3])), TAP5, q2,
              Verdict(TAP5, q2, Sent([HELD, TAP3, TAP5]), TAP5, true));
    SecondPressTakenUp();
  }

  /** The branch of lines 388-390: DOWN7 is taken up although UP11 waits. */
  lemma {:induction false} SecondPressTakenUp()
    ensures Drain(SplittingConfig(),
                  State(TAP5, [Fresh(DOWN7)] + [Fresh(OTHER9), Fresh(UP11), Fresh(DOWN13)], Sent([HELD, TAP3, TAP5])))
         == State(HELD7, [Fresh(OTHER9), Fresh(UP11), Fresh(DOWN13)], Sent([HELD, TAP3, TAP5]))
  {
    var cfg := SplittingConfig();
    var h, late, rest := Sent([HELD, TAP3, TAP5]), [Fresh(OTHER9), Fresh(UP11), Fresh(DOWN13)],
      [Fresh(UP11), Fresh(DOWN13)];
    hide Drain;
    DrainTurn(cfg, State(TAP5, [Fresh(DOWN7)] + late, h), Fresh(DOWN7), late,
              Verdict(Fresh(DOWN7), late, h, Fresh(DOWN7), true));
    assert late == [Fresh(OTHER9)] + rest;
    DrainTurn(cfg, State(Fresh(DOWN7), late, h), Fresh(OTHER9), rest, Verdict(HELD7, rest, h, Fresh(OTHER9), false));
  }

  lemma {:induction false} LateRelease()
    ensures Step(SplittingConfig(),
      State(HELD7, [Fresh(OTHER9), Fresh(UP11), Fresh(DOWN13)], Sent([HELD, TAP3, TAP5])), UP205)
         == State(Fresh(OTHER9), [Fresh(UP11), Fresh(DOWN13), TAP205], Sent([HELD, TAP3, TAP5, TAP7]))
  {
    var cfg := SplittingConfig();
    var rest := [Fresh(DOWN13), TAP205];
    var q := [Fresh(UP11)] + rest;
    var h := Sent([HELD, TAP3, TAP5, TAP7]);
    SentOneMore([HELD, TAP3, TAP5], TAP7);
    var s := State(TAP7, [Fresh(OTHER9)] + q, h);
    assert s.q == [Fresh(OTHER9), Fresh(UP11), Fresh(DOWN13)] + [TAP205];
    assert Arrive(cfg, State(HELD7, [Fresh(OTHER9), Fresh(UP11), Fresh(DOWN13)], Sent([HELD, TAP3, TAP5])), UP205) == s;
    assert FirstTapRelease(cfg, Fresh(OTHER9), q) == 3;
    hide Drain;
    DrainTurn(cfg, s, Fresh(OTHER9), q, Verdict(Fresh(OTHER9), q, h, Fresh(OTHER9), true));
    assert rest[0].event.key == TWICE && Typed(rest, UP11);
    DrainTurn(cfg, State(Fresh(OTHER9), q, h), Fresh(UP11), rest, Verdict(Fresh(OTHER9), rest, h, Fresh(UP11), false));
  }

  lemma {:induction false} SecondTick()
    ensures Step(SplittingConfig(),
      State(Fresh(OTHER9), [Fresh(UP11), Fresh(DOWN13), TAP205], Sent([HELD, TAP3, TAP5, TAP7])), TICK211)
         == State(LAST205, [], Sent([HELD, TAP3, TAP5, TAP7, Fresh(OTHER9), Fresh(UP11), TAP13, LAST205]))
  {
    var cfg := SplittingConfig();
    var q2 := [TAP205];
    var q1 := [Fresh(DOWN13)] + q2;
    var q := [Fresh(UP11)] + q1;
    var sent := [HELD, TAP3, TAP5, TAP7, Fresh(OTHER9)];
    SentOneMore([HELD, TAP3, TAP5, TAP7], Fresh(OTHER9));
    SentOneMore(sent, Fresh(UP11));
    SentOneMore(sent + [Fresh(UP11)], TAP13);
    SentOneMore(sent + [Fresh(UP11), TAP13], LAST205);
    assert q == [Fresh(UP11), Fresh(DOWN13), TAP205];
    assert Arrive(cfg, State(Fresh(OTHER9), q, Sent([HELD, TAP3, TAP5, TAP7])), TICK211) == State(EMPTY, q, Sent(sent));
    assert FirstTapRelease(cfg, Fresh(DOWN13), q2) == 0;
    assert q2[0 := Marked(TAP205)] == q2;
    assert sent + [Fresh(UP11)] + [TAP13] == sent + [Fresh(UP11), TAP13];
    assert sent + [Fresh(UP11), TAP13] + [LAST205] == sent + [Fresh(UP11), TAP13, LAST205];
    hide Drain;
    DrainTurn(cfg, State(EMPTY, q, Sent(sent)), Fresh(UP11), q1,
              Verdict(EMPTY, q1, Sent(sent + [Fresh(UP11)]), Fresh(UP11), true));
    DrainTurn(cfg, State(EMPTY, q1, Sent(sent + [Fresh(UP11)])), Fresh(DOWN13), q2,
              Verdict(TAP13, q2, Sent(sent + [Fresh(UP11), TAP13]), Fresh(DOWN13), true));
    assert q2 == [TAP205] + [];
    DrainTurn(cfg, State(TAP13, q2, Sent(sent + [Fresh(UP11), TAP13])), TAP205, [],
              Verdict(LAST205, [], Sent(sent + [Fresh(UP11), TAP13, LAST205]), LAST205, true));
    assert Drain(cfg, State(LAST205, [], Sent(sent + [Fresh(UP11), TAP13, LAST205])))
        == State(LAST205, [], Sent(sent + [Fresh(UP11), TAP13, LAST205])) by {
      DrainedAlready(cfg, State(LAST205, [], Sent(sent + [Fresh(UP11), TAP13, LAST205])));
    }
    assert sent + [Fresh(UP11), TAP13, LAST205] == [HELD, TAP3, TAP5, TAP7, Fresh(OTHER9), Fresh(UP11), TAP13, LAST205];
  }

  lemma {:induction false} DrainedAlready(cfg: Config, s: State)
    requires s.q == []
    ensures Drain(cfg, s) == s
  {
  }

  lemma {:induction false} SplitTrace()
    ensures !TapsPair(Sent([HELD, TAP3, TAP5, TAP7, Fresh(OTHER9), Fresh(UP11), TAP13, LAST205]).out)
  {
    var out := Sent([HELD, TAP3, TAP5, TAP7, Fresh(OTHER9), Fresh(UP11), TAP13, LAST205]).out;
    assert IsDownOf(out[3], TWICE) && IsUpOf(out[5], TWICE) && !IsUpOf(out[4], TWICE);
    assert IsTap(out[3]) && !IsTap(out[5]);
  }

  const SIX := [HOLD1, DOWN3, UP5, DOWN7, OTHER9, UP11, DOWN13]

  lemma {:induction false} FirstWaits()
    ensures Plays(SplittingConfig(), [HOLD1, DOWN3], State(HELD, [Fresh(DOWN3)], Sent([])))
  {
    var cfg := SplittingConfig();
    hide Plays;
    hide Step;
    HoldDown();
    QueuesUp([], DOWN3);
    PlaysNothing(cfg);
    PlaysOn(cfg, [], INIT, HOLD1, [HOLD1], State(Fresh(HOLD1), [], Sent([])));
    assert [] + [Fresh(DOWN3)] == [Fresh(DOWN3)];
    PlaysOn(cfg, [HOLD1], State(Fresh(HOLD1), [], Sent([])), DOWN3, [HOLD1, DOWN3],
      State(HELD, [Fresh(DOWN3)], Sent([])));
  }

  lemma {:induction false} OneMoreWaits(es: seq<Event>, q: seq<Record>, e: Event, es': seq<Event>, q': seq<Record>)
    requires Plays(SplittingConfig(), es, State(HELD, q, Sent([]))) && es' == es + [e] && q' == q + [Fresh(e)]
    requires e.key == TWICE || e.key == OTHER
    requires 3 <= e.time <= 13 && |q| < 7 && (e.pressed || e.key == TWICE)
    requires q != [] && q[0] == Fresh(DOWN3)
    ensures Plays(SplittingConfig(), es', State(HELD, q', Sent([])))
  {
    hide Step;
    hide Plays;
    QueuesUp(q, e);
    PlaysOn(SplittingConfig(), es, State(HELD, q, Sent([])), e, es', State(HELD, q', Sent([])));
  }

  lemma {:induction false} SixQueueUp()
    ensures Plays(SplittingConfig(), SIX,
                  State(HELD, [Fresh(DOWN3), Fresh(UP5), Fresh(DOWN7), Fresh(OTHER9), Fresh(UP11), Fresh(DOWN13)],
                    Sent([])))
  {
    hide Plays;
    FirstWaits();
    OneMoreWaits([HOLD1, DOWN3], [Fresh(DOWN3)], UP5, [HOLD1, DOWN3, UP5], [Fresh(DOWN3), Fresh(UP5)]);
    OneMoreWaits([HOLD1, DOWN3, UP5], [Fresh(DOWN3), Fresh(UP5)], DOWN7,
                 [HOLD1, DOWN3, UP5, DOWN7], [Fresh(DOWN3), Fresh(UP5), Fresh(DOWN7)]);
    OneMoreWaits([HOLD1, DOWN3, UP5, DOWN7], [Fresh(DOWN3), Fresh(UP5), Fresh(DOWN7)], OTHER9,
                 [HOLD1, DOWN3, UP5, DOWN7, OTHER9], [Fresh(DOWN3), Fresh(UP5), Fresh(DOWN7), Fresh(OTHER9)]);
    OneMoreWaits([HOLD1, DOWN3, UP5, DOWN7, OTHER9], [Fresh(DOWN3), Fresh(UP5), Fresh(DOWN7), Fresh(OTHER9)], UP11,
                 [HOLD1, DOWN3, UP5, DOWN7, OTHER9, UP11],
                 [Fresh(DOWN3), Fresh(UP5), Fresh(DOWN7), Fresh(OTHER9), Fresh(UP11)]);
    OneMoreWaits([HOLD1, DOWN3, UP5, DOWN7, OTHER9, UP11],
                 [Fresh(DOWN3), Fresh(UP5), Fresh(DOWN7), Fresh(OTHER9), Fresh(UP11)], DOWN13, SIX,
                 [Fresh(DOWN3), Fresh(UP5), Fresh(DOWN7), Fresh(OTHER9), Fresh(UP11), Fresh(DOWN13)]);
  }

  ghost const LATE := State(HELD7, [Fresh(OTHER9), Fresh(UP11), Fresh(DOWN13)], Sent([HELD, TAP3, TAP5]))

  lemma {:induction false} LineOfLate()
    ensures Line(LATE) + [UP205] == [HOLD1, DOWN3, UP5] + [DOWN7] + [OTHER9, UP11, DOWN13] + [UP205]
  {
    hide Sent;
    SentOut([HELD, TAP3, TAP5]);
    PhysicalOfThree(LATE.host.out);
    assert Undecided(LATE.tk) == [DOWN7];
    assert Events(LATE.q) == [OTHER9, UP11, DOWN13];
  }

  lemma {:induction false} TwiceOfLate()
    ensures OnKey([HOLD1, DOWN3, UP5] + [DOWN7] + [OTHER9, UP11, DOWN13] + [UP205], TWICE)
         == [DOWN3, UP5, DOWN7, UP11, DOWN13, UP205]
  {
    var sent := [HOLD1, DOWN3, UP5];
    hide OnKey;
    OnKeyOfOne(DOWN7);
    OnKeyOfOne(UP205);
    OnKeyConcat(sent + [DOWN7] + [OTHER9, UP11, DOWN13], [UP205], TWICE);
    OnKeyConcat(sent + [DOWN7], [OTHER9, UP11, DOWN13], TWICE);
    OnKeyConcat(sent, [DOWN7], TWICE);
    OnKeyOfThree(sent);
    OnKeyOfThree([OTHER9, UP11, DOWN13]);
  }

  lemma {:induction false} ForwardIsChronological(es: seq<Event>)
    requires forall i, j :: 0 <= i <= j < |es| ==> es[i].time <= es[j].time
    ensures Chronological(es)
  {
    forall i, j, l | 0 <= i <= j <= l < |es|
      ensures Elapsed(es[j].time, es[i].time) <= Elapsed(es[l].time, es[i].time)
    {
      assert es[i].time <= es[j].time <= es[l].time;
    }
  }

  lemma {:induction false} LateIsChronological()
    ensures Chronological(Undecided(LATE.tk) + Events(LATE.q) + [UP205])
  {
    hide Sent;
    var es := [DOWN7, OTHER9, UP11, DOWN13, UP205];
    assert Undecided(LATE.tk) + Events(LATE.q) + [UP205] == es;
    ForwardIsChronological(es);
  }

  /** UP205 may arrive: it is only the release of DOWN13, while UP11, the one that belongs to DOWN7, waits. */
  lemma {:induction false} Up205IsMispick()
    ensures MayArrive(SplittingConfig(), LATE, UP205) && Mispick(SplittingConfig(), LATE, UP205)
  {
    hide Sent, OnKey, Line, Chronological, Physical;
    LineOfLate();
    TwiceOfLate();
    LateIsChronological();
    assert LATE.q[1].event.key == UP205.key && !LATE.q[1].event.pressed;
  }

  lemma {:induction false} PhysicalOfThree(out: seq<Dispatch>)
    requires |out| == 3 && forall i :: 0 <= i < 3 ==> out[i].kind == Ordered
    ensures Physical(out) == [out[0].rec.event, out[1].rec.event, out[2].rec.event]
  {
    var o2, o1 := out[..2], out[..1];
    assert o2[..1] == o1 && o1[..0] == [];
    assert Physical(o1) == [out[0].rec.event];
  }

  lemma {:induction false} OnKeyOfOne(e: Event)
    ensures OnKey([e], TWICE) == if e.key == TWICE then [e] else []
  {
    assert [e][..0] == [];
  }

  lemma {:induction false} OnKeyOfThree(es: seq<Event>)
    requires |es| == 3
    ensures OnKey(es, TWICE) == (if es[0].key == TWICE then [es[0]] else [])
      + (if es[1].key == TWICE then [es[1]] else [])
                                + (if es[2].key == TWICE then [es[2]] else [])
  {
    assert es[..2][..1] == es[..1] && es[..1][..0] == [];
    assert OnKey(es[..1], TWICE) == if es[0].key == TWICE then [es[0]] else [];
  }

  /** A mispick can split a stroke: with a quick-tap term of 0 the second press of TWICE is taken up by lines
      388-390, which do not look for its release, while this one, at 11, waits behind OTHER. The third release
      arrives and is taken for it; the press at 7 is sent as a tap, its own release as a hold. Every arrival is
      in turn. */
  lemma {:induction false} MispickSplits()
    ensures Orderly(SplittingConfig(), SIX + [TICK203, UP205, TICK211])
    ensures MayArrive(SplittingConfig(), RunOf(SplittingConfig(), SIX + [TICK203]).s, UP205)
    ensures Mispick(SplittingConfig(), RunOf(SplittingConfig(), SIX + [TICK203]).s, UP205)
    ensures !TapsPair(RunOf(SplittingConfig(), SIX + [TICK203, UP205, TICK211]).s.host.out)
  {
    var cfg := SplittingConfig();
    hide Step;
    hide TapsPair;
    hide Sent;
    hide RunOf;
    hide Orderly;
    hide MayArrive;
    hide Mispick;
    SixQueueUp();
    FirstTick();
    Up205IsMispick();
    LateRelease();
    SecondTick();
    SplitTrace();
    PlaysOn(cfg, SIX,
            State(HELD, [Fresh(DOWN3), Fresh(UP5), Fresh(DOWN7), Fresh(OTHER9), Fresh(UP11), Fresh(DOWN13)], Sent([])),
            TICK203, SIX + [TICK203],
            State(HELD7, [Fresh(OTHER9), Fresh(UP11), Fresh(DOWN13)], Sent([HELD, TAP3, TAP5])));
    PlaysOn(cfg, SIX + [TICK203], State(HELD7, [Fresh(OTHER9), Fresh(UP11), Fresh(DOWN13)], Sent([HELD, TAP3, TAP5])),
            UP205, SIX + [TICK203, UP205],
            State(Fresh(OTHER9), [Fresh(UP11), Fresh(DOWN13), TAP205], Sent([HELD, TAP3, TAP5, TAP7])));
    PlaysOn(cfg, SIX + [TICK203, UP205],
            State(Fresh(OTHER9), [Fresh(UP11), Fresh(DOWN13), TAP205], Sent([HELD, TAP3, TAP5, TAP7])),
            TICK211, SIX + [TICK203, UP205, TICK211],
            State(LAST205, [], Sent([HELD, TAP3, TAP5, TAP7, Fresh(OTHER9), Fresh(UP11), TAP13, LAST205])));
  }
}
