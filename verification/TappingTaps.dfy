/** What the tapping engine sends at once: plain keys, repeated taps with their count, the release it makes up, and
    what it forgets when the waiting buffer runs over. */
module TappingTaps {
  import opened Keys
  import opened Tapping
  import opened TappingFlow
  import opened TappingPairing
  import opened TappingProgress
  import opened TappingTerm
  import opened TappingFate

  /** One more record has gone out, and none waits. */
  ghost predicate Sent(s: State, s': State, d: Dispatch) {
    s'.host == s.host.(out := s.host.out + [d]) && s'.q == []
  }

  lemma {:induction false} StepOfOne(cfg: Config, s: State, e: Event)
    requires s.q == []
    ensures var v := Process(cfg, s.tk, [], s.host, Fresh(e));
            Step(cfg, s, e) ==
              if v.consumed || IsNoEvent(e) then State(v.tk, [], v.host) else Drain(cfg, State(v.tk, [v.keyp], v.host))
  {
    ProcessKeepsQueueEvents(cfg, s.tk, [], s.host, Fresh(e));
    var v := Process(cfg, s.tk, [], s.host, Fresh(e));
    hide Process;
    assert v.q == [] && [] + [v.keyp] == [v.keyp];
    DrainOfNone(cfg, v.tk, v.host);
  }

  lemma {:induction false} DrainOfNone(cfg: Config, tk: Record, h: Host)
    ensures Drain(cfg, State(tk, [], h)) == State(tk, [], h)
  {
  }

  lemma {:induction false} DrainOfOne(cfg: Config, tk: Record, k: Record, h: Host)
    ensures var v := Process(cfg, tk, [], h, k);
            Drain(cfg, State(tk, [k], h)) == State(v.tk, if v.consumed then [] else [v.keyp], v.host)
  {
    assert [k][1..] == [];
    ProcessKeepsQueueEvents(cfg, tk, [], h, k);
    var v := Process(cfg, tk, [], h, k);
    DrainOfNone(cfg, v.tk, v.host);
    hide Process;
    assert [v.keyp] + [] == [v.keyp];
  }

  /** With nothing undecided, a key that is no tap key, and the release of any key but the tapping key, goes out as it
      is. */
  lemma {:induction false} PlainPasses(cfg: Config, s: State, e: Event)
    requires s.q == [] && !IsUndecided(s.tk) && e.time != 0 && e.key != Key(255, 255)
    requires (!e.pressed || !cfg.tapAction(s.host, e.key)) && (IsTapping(s.tk) ==> e.key != s.tk.event.key)
    ensures Sent(s, Step(cfg, s, e), Dispatch(Fresh(e), Ordered))
  {
    StepOfOne(cfg, s, e);
    DrainOfOne(cfg, EMPTY, Fresh(e), s.host);
  }

  /** With nothing undecided, the press of a tap key starts a term. When the last tap is held down and repeats, its
      release is made up first. */
  lemma {:induction false} TermStarts(cfg: Config, s: State, e: Event)
    requires s.q == [] && !IsUndecided(s.tk) && e.time != 0 && e.key != Key(255, 255)
    requires e.pressed && cfg.tapAction(s.host, e.key)
    requires IsTapping(s.tk) && !s.tk.event.pressed ==> e.key != s.tk.event.key || !Within(cfg, s.tk, e)
    ensures var s' := Step(cfg, s, e);
            var made := if IsPressing(s.tk) && s.tk.tap.count > 1
                        then [Dispatch(Record(Event(s.tk.event.key, false, e.time), s.tk.tap), Synthesized)] else [];
            s'.q == [] && s'.host == s.host.(out := s.host.out + made) && s'.tk == Fresh(e)
  {
    StepOfOne(cfg, s, e);
    DrainOfOne(cfg, EMPTY, Fresh(e), s.host);
    assert s.host.out + [] == s.host.out;
  }

  /** A tick, an event of the key (255, 255), never reaches the host itself: with nothing undecided nothing is sent. */
  lemma {:induction false} TickIsSilent(cfg: Config, s: State, e: Event)
    requires s.q == [] && !IsUndecided(s.tk) && !e.pressed && e.key == Key(255, 255)
    ensures Step(cfg, s, e).host == s.host && Step(cfg, s, e).q == []
  {
    StepOfOne(cfg, s, e);
  }

  // ---------- repeated taps ----------

  /** The key was released as a tap for the `n`-th time in a row. */
  ghost predicate WasTapped(s: State, key: Key, n: nat, time: int) {
    s.q == [] && s.tk.event.key == key && !s.tk.event.pressed && s.tk.event.time == time
    && s.tk.tap == Tap(false, n)
  }

  datatype Stroke = Stroke(down: Event, up: Event)

  /** A stroke of `key` within its term. */
  ghost predicate IsStroke(cfg: Config, key: Key, stroke: Stroke) {
    && stroke.down.key == stroke.up.key == key && stroke.down.pressed && !stroke.up.pressed
    && !IsNoEvent(stroke.down) && !IsNoEvent(stroke.up)
    && Elapsed(stroke.up.time, stroke.down.time) < cfg.term(key)
  }

  /** Every stroke begins within the quick-tap term of the one before. */
  ghost predicate InARow(cfg: Config, key: Key, strokes: seq<Stroke>) {
    && (forall i :: 0 <= i < |strokes| ==> IsStroke(cfg, key, strokes[i]))
    && forall i :: 0 < i < |strokes| ==> Follows(cfg, key, strokes[i - 1].up, strokes[i].down)
  }

  ghost predicate Follows(cfg: Config, key: Key, up: Event, down: Event) {
    Elapsed(down.time, up.time) < cfg.quickTerm(key) && Elapsed(down.time, up.time) < cfg.term(key)
  }

  /** A tap counts up to 15. */
  function Count(n: nat): nat {
    if n < 15 then n else 15
  }

  function StrokeEvents(strokes: seq<Stroke>): seq<Event> {
    if strokes == [] then [] else [strokes[0].down, strokes[0].up] + StrokeEvents(strokes[1..])
  }

  /** What the host sees of strokes of which the first is the `n`-th. */
  function Taps(strokes: seq<Stroke>, n: nat): seq<Dispatch> {
    if strokes == [] then []
    else
      var tap := Tap(false, Count(n));
      [Dispatch(Record(strokes[0].down, tap), Ordered), Dispatch(Record(strokes[0].up, tap), Ordered)]
      + Taps(strokes[1..], n + 1)
  }

  lemma {:induction false} FirstStroke(cfg: Config, s: State, stroke: Stroke)
    requires s.q == [] && !IsTapping(s.tk) && IsStroke(cfg, stroke.down.key, stroke)
    requires cfg.tapAction(s.host, stroke.down.key)
    ensures var s' := Step(cfg, Step(cfg, s, stroke.down), stroke.up);
            && WasTapped(s', stroke.down.key, 1, stroke.up.time)
            && s'.host == s.host.(out := s.host.out + Taps([stroke], 1))
  {
    StepOfOne(cfg, s, stroke.down);
    var s1 := Step(cfg, s, stroke.down);
    assert s1 == State(Fresh(stroke.down), [], s.host);
    StepOfOne(cfg, s1, stroke.up);
    var tap := Tap(false, 1);
    DrainOfOne(cfg, Record(stroke.down, tap), Record(stroke.up, tap),
               s.host.(out := s.host.out + [Dispatch(Record(stroke.down, tap), Ordered)]));
    assert [stroke][1..] == [];
  }

  lemma {:induction false} NextStroke(cfg: Config, s: State, stroke: Stroke, n: nat, up: Event)
    requires 0 < n && IsStroke(cfg, stroke.down.key, stroke) && WasTapped(s, stroke.down.key, Count(n), up.time)
    requires !IsNoEvent(s.tk.event) && Follows(cfg, stroke.down.key, up, stroke.down)
    ensures var s' := Step(cfg, Step(cfg, s, stroke.down), stroke.up);
            && WasTapped(s', stroke.down.key, Count(n + 1), stroke.up.time)
            && s'.host == s.host.(out := s.host.out + Taps([stroke], n + 1))
  {
    StepOfOne(cfg, s, stroke.down);
    var s1 := Step(cfg, s, stroke.down);
    assert s1.tk == Record(stroke.down, Tap(false, Count(n + 1)));
    StepOfOne(cfg, s1, stroke.up);
    assert [stroke][1..] == [];
  }

  /** Strokes in a row: each press goes out at once as the next tap of its key, and its release with it. */
  lemma {:induction false} TapsInARow(cfg: Config, s: State, key: Key, strokes: seq<Stroke>, n: nat, up: Event)
    requires InARow(cfg, key, strokes)
    requires n > 0 ==> WasTapped(s, key, Count(n), up.time) && !IsNoEvent(s.tk.event)
                       && (strokes != [] ==> Follows(cfg, key, up, strokes[0].down))
    requires n == 0 ==> s.q == [] && !IsTapping(s.tk) && cfg.tapAction(s.host, key)
    ensures Steps(cfg, s, StrokeEvents(strokes)).host == s.host.(out := s.host.out + Taps(strokes, n + 1))
    decreases |strokes|
  {
    hide Step, Follows, IsStroke, Taps, WasTapped, InARow;
    RestInARow(cfg, key, strokes);
    if strokes == [] {
      TapsNext(strokes, n + 1);
      assert s.host.out + [] == s.host.out;
    } else {
      var first, rest := strokes[0], strokes[1..];
      if n == 0 {
        FirstStroke(cfg, s, first);
      } else {
        NextStroke(cfg, s, first, n, up);
      }
      var s' := Step(cfg, Step(cfg, s, first.down), first.up);
      TwoSteps(cfg, s, first, StrokeEvents(rest));
      StrokeEvent(cfg, key, first, s', n + 1);
      TapsInARow(cfg, s', key, rest, n + 1, first.up);
      TapsNext(strokes, n + 1);
    }
  }

  lemma {:induction false} RestInARow(cfg: Config, key: Key, strokes: seq<Stroke>)
    requires InARow(cfg, key, strokes)
    ensures strokes != [] ==> IsStroke(cfg, key, strokes[0]) && InARow(cfg, key, strokes[1..])
    ensures strokes != [] ==> strokes[0].down.key == key
    ensures |strokes| > 1 ==> Follows(cfg, key, strokes[0].up, strokes[1..][0].down)
  {
    hide Follows;
  }

  lemma {:induction false} StrokeEvent(cfg: Config, key: Key, stroke: Stroke, s: State, n: nat)
    requires IsStroke(cfg, key, stroke) && WasTapped(s, key, Count(n), stroke.up.time)
    ensures !IsNoEvent(s.tk.event)
  {
  }

  lemma {:induction false} TapsNext(strokes: seq<Stroke>, n: nat)
    ensures strokes != [] ==> Taps(strokes, n) == Taps([strokes[0]], n) + Taps(strokes[1..], n + 1)
    ensures Taps([], n) == []
  {
    if strokes != [] {
      assert [strokes[0]][1..] == [];
    }
  }

  lemma {:induction false} TwoSteps(cfg: Config, s: State, stroke: Stroke, es: seq<Event>)
    ensures Steps(cfg, s, [stroke.down, stroke.up] + es)
      == Steps(cfg, Step(cfg, Step(cfg, s, stroke.down), stroke.up), es)
  {
    hide Step;
    var all := [stroke.down, stroke.up] + es;
    assert all[1..] == [stroke.up] + es && all[1..][1..] == es;
    assert Steps(cfg, s, all) == Steps(cfg, Step(cfg, s, all[0]), all[1..]);
  }

  /** Past the quick-tap term, or once another key was pressed, a press of the key starts a new term instead. */
  lemma {:induction false} LaterStrokeStartsAnew(cfg: Config, s: State, e: Event)
    requires s.q == [] && IsTapping(s.tk) && !s.tk.event.pressed && !IsNoEvent(e) && e.pressed
    requires e.key == s.tk.event.key && Within(cfg, s.tk, e)
    requires Elapsed(e.time, s.tk.event.time) >= cfg.quickTerm(e.key) || s.tk.tap.interrupted
    ensures Step(cfg, s, e) == State(Fresh(e), [], s.host)
  {
    StepOfOne(cfg, s, e);
  }

  lemma {:induction false} OtherPressInterrupts(cfg: Config, s: State, e: Event)
    requires s.q == [] && IsTapping(s.tk) && !s.tk.event.pressed && !IsNoEvent(e)
    requires e.key != s.tk.event.key && !cfg.tapAction(s.host, e.key) && Within(cfg, s.tk, e)
    ensures var s' := Step(cfg, s, e);
            s'.tk == if e.pressed then Interrupted(s.tk) else s.tk
  {
    StepOfOne(cfg, s, e);
  }

  // ---------- overflow ----------

  /** Seven records can wait. An eighth that would have to clears everything the engine holds, and the host's keys. */
  lemma {:induction false} EighthClears(cfg: Config, s: State, e: Event)
    requires IsUndecided(s.tk) && FateBy(cfg, s.tk, s.q, s.host, e) == Open && !IsNoEvent(e)
    requires !Overtakes(cfg, s.tk, s.q, s.host, Fresh(e))
    ensures Overflows(cfg, s, e) <==> |s.q| >= 7
    ensures |s.q| >= 7 ==> Step(cfg, s, e) == State(EMPTY, [], Host(s.host.cleared + [s.host.out], []))
  {
    ProcessFate(cfg, s.tk, s.q, s.host, Fresh(e));
    hide Process;
  }
}
