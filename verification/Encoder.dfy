/** Rotary encoders: the quadrature table, the clicks made of its steps, and the counters that carry clicks from one
    half of a split keyboard to the other. */
module Encoder {

  import opened Widths
  import opened Modular

  type Status = x: int | 0 <= x < 4

  // ---------- quadrature ----------

  const ENCODER_LUT: seq<int> := [0, -1, 1, 0, 1, 0, 0, -1, -1, 0, 0, 1, 0, 1, -1, 0]

  function Lut(k: nat): int
    requires k < 16
  {
    ENCODER_LUT[k]
  }

  /** The step from one reading of the two pins to the next. */
  function Table(before: Status, after: Status): int {
    ENCODER_LUT[4 * before + after]
  }

  /** The pins at a position of the shaft. */
  function Phase(position: int): Status {
    var p := position % 4;
    if p == 0 then 0 else if p == 1 then 2 else if p == 2 then 3 else 1
  }

  /** The table counts a movement right exactly when no phase was skipped. */
  lemma {:induction false} TableExactly(p: int, q: int)
    ensures Table(Phase(p), Phase(q)) == q - p <==> -1 <= q - p <= 1
    ensures Table(Phase(p), Phase(q)) == if (q - p) % 4 == 1 then 1 else if (q - p) % 4 == 3 then -1 else 0
  {
    var d := (q - p) % 4;
    assert q % 4 == (p % 4 + d) % 4;
  }

  // ---------- pulses and clicks ----------

  /** The value a signed 8-bit variable takes. */
  function Signed8(n: int): (r: int)
    ensures -128 <= r < 128
  {
    (n + 128) % 256 - 128
  }

  /** The remainder as C computes it: with the sign of the dividend. */
  function Remainder(a: int, n: int): int
    requires n > 0
  {
    if a >= 0 then Mod(a, n) else -(Mod(-a, n) as int)
  }

  lemma {:induction false} RemainderSmall(a: int, n: int)
    requires n > 0 && -n <= a <= n
    ensures Remainder(a, n) == if a == n || a == -n then 0 else a
  {
    hide Mod;
    var b := if a >= 0 then a else -a;
    if b == n {
      ModUnique(n, n, 1, 0);
    } else {
      ModSmall(b, n);
    }
  }

  datatype Wheel = Wheel(status: Status, pulses: int)

  /** The pulse counter once the step is added. */
  function Pulses(w: Wheel, status: Status): int {
    Signed8(w.pulses + Table(w.status, status))
  }

  /** The click a reading makes: one up, one down, or none. */
  function Click(resolution: int, w: Wheel, status: Status): int {
    if status == w.status then 0
    else (if Pulses(w, status) >= resolution then 1 else 0) - (if Pulses(w, status) <= -resolution then 1 else 0)
  }

  function Turned(resolution: int, w: Wheel, status: Status): Wheel
    requires resolution > 0
  {
    if status == w.status then w else Wheel(status, Remainder(Pulses(w, status), resolution))
  }

  function After(resolution: int, w: Wheel, readings: seq<Status>): Wheel
    requires resolution > 0
  {
    if readings == [] then w
      else Turned(resolution, After(resolution, w, readings[..|readings| - 1]), readings[|readings| - 1])
  }

  /** The net clicks of a series of readings. */
  function Clicks(resolution: int, w: Wheel, readings: seq<Status>): int
    requires resolution > 0
  {
    if readings == [] then 0
    else
      var n := |readings| - 1;
      Clicks(resolution, w, readings[..n]) + Click(resolution, After(resolution, w, readings[..n]), readings[n])
  }

  /** The net steps of a series of readings. */
  function Steps(start: Status, readings: seq<Status>): int {
    if readings == [] then 0
    else
      var n := |readings| - 1;
      Steps(start, readings[..n]) + Table(if n == 0 then start else readings[n - 1], readings[n])
  }

  lemma {:induction false} NoStepInPlace(s: Status)
    ensures Table(s, s) == 0
  {
  }

  /** One reading conserves: what leaves the pulse counter is clicked. */
  lemma {:induction false} TurnConserves(resolution: int, w: Wheel, status: Status)
    requires 0 < resolution <= 127 && -resolution < w.pulses < resolution
    ensures var w' := Turned(resolution, w, status);
            && -resolution < w'.pulses < resolution
            && resolution * Click(resolution, w, status) + w'.pulses == w.pulses + Table(w.status, status)
  {
    NoStepInPlace(w.status);
    StepSmall(w.status, status);
    hide Table, Remainder;
    var p := w.pulses + Table(w.status, status);
    assert Signed8(p) == p;
    RemainderSmall(p, resolution);
    RemainderSmall(w.pulses, resolution);
  }

  lemma {:induction false} StepSmall(a: Status, b: Status)
    ensures -1 <= Table(a, b) <= 1
  {
  }

  predicate Conserved(resolution: int, w: Wheel, readings: seq<Status>)
    requires resolution > 0
  {
    var w' := After(resolution, w, readings);
    && -resolution < w'.pulses < resolution
    && resolution * Clicks(resolution, w, readings) + w'.pulses == w.pulses + Steps(w.status, readings)
  }

  /** On every series of readings the clicks and the pulses left over account for every step. */
  lemma {:induction false} ClicksConserve(resolution: int, w: Wheel, readings: seq<Status>)
    requires 0 < resolution <= 127 && -resolution < w.pulses < resolution
    ensures Conserved(resolution, w, readings)
  {
    hide Table, Turned, Click;
    if readings != [] {
      var n := |readings| - 1;
      ClicksConserve(resolution, w, readings[..n]);
      var v := After(resolution, w, readings[..n]);
      TurnConserves(resolution, v, readings[n]);
      StatusIs(resolution, w, readings[..n]);
      var k, d := Clicks(resolution, w, readings[..n]), Click(resolution, v, readings[n]);
      assert resolution * (k + d) == resolution * k + resolution * d;
      assert n > 0 ==> readings[..n][n - 1] == readings[n - 1];
    }
  }

  lemma {:induction false} StatusIs(resolution: int, w: Wheel, readings: seq<Status>)
    requires resolution > 0
    ensures After(resolution, w, readings).status == if readings == [] then w.status else readings[|readings| - 1]
  {
    hide Table, Remainder, Signed8;
  }

  /** Positions the shaft passes through and the readings they give. */
  function ReadingsOf(positions: seq<int>): seq<Status> {
    seq(|positions|, i requires 0 <= i < |positions| => Phase(positions[i]))
  }

  function Move(start: int, s: seq<int>, i: nat): int
    requires i < |s|
  {
    s[i] - if i == 0 then start else s[i - 1]
  }

  ghost predicate NoPhaseSkipped(start: int, positions: seq<int>) {
    forall i :: 0 <= i < |positions| ==> -1 <= Move(start, positions, i) <= 1
  }

  /** Without skipped phases the steps add up to the displacement. */
  lemma {:induction false} StepsAreDisplacement(start: int, positions: seq<int>)
    requires NoPhaseSkipped(start, positions)
    ensures Steps(Phase(start), ReadingsOf(positions))
      == (if positions == [] then start else positions[|positions| - 1]) - start
    decreases |positions|
  {
    hide Table, Phase;
    if positions != [] {
      var n := |positions| - 1;
      forall i | 0 <= i < n ensures -1 <= Move(start, positions[..n], i) <= 1 {
        assert Move(start, positions[..n], i) == Move(start, positions, i);
      }
      assert -1 <= Move(start, positions, n) <= 1;
      StepsAreDisplacement(start, positions[..n]);
      TableExactly(if n == 0 then start else positions[n - 1], positions[n]);
      assert ReadingsOf(positions)[..n] == ReadingsOf(positions[..n]);
    }
  }

  /** Turning the shaft: resolution times the net clicks, plus the pulses left, is how far it turned. */
  lemma {:induction false} ClicksAreDisplacement(resolution: int, start: int, positions: seq<int>)
    requires 0 < resolution <= 127 && NoPhaseSkipped(start, positions) && positions != []
    ensures var w, readings := Wheel(Phase(start), 0), ReadingsOf(positions);
            resolution * Clicks(resolution, w, readings) + After(resolution, w, readings).pulses
              == positions[|positions| - 1] - start
  {
    hide Phase, Clicks, After, Steps;
    ClicksConserve(resolution, Wheel(Phase(start), 0), ReadingsOf(positions));
    StepsAreDisplacement(start, positions);
  }

  /** A shaft turned up step by step. */
  function Upward(n: nat): seq<int> {
    seq(n, i => i + 1)
  }

  lemma {:induction false} PulsesPileUp(resolution: int, n: nat)
    requires n < resolution && n <= 127
    ensures After(resolution, Wheel(Phase(0), 0), ReadingsOf(Upward(n))) == Wheel(Phase(n), n)
    ensures Clicks(resolution, Wheel(Phase(0), 0), ReadingsOf(Upward(n))) == 0
  {
    hide Phase, Table, Turned, Click, After, Clicks;
    var w, readings := Wheel(Phase(0), 0), ReadingsOf(Upward(n));
    if n == 0 {
      NoReadings(resolution, w, readings);
    } else {
      PulsesPileUp(resolution, n - 1);
      LastReading(resolution, w, readings);
      assert readings[..n - 1] == ReadingsOf(Upward(n - 1));
      PileStep(resolution, n);
    }
  }

  lemma {:induction false} NoReadings(resolution: int, w: Wheel, readings: seq<Status>)
    requires resolution > 0 && readings == []
    ensures After(resolution, w, readings) == w && Clicks(resolution, w, readings) == 0
  {
  }

  lemma {:induction false} PileStep(resolution: int, n: nat)
    requires 0 < n < resolution && n <= 127
    ensures Turned(resolution, Wheel(Phase(n - 1), n - 1), Phase(n)) == Wheel(Phase(n), n)
    ensures Click(resolution, Wheel(Phase(n - 1), n - 1), Phase(n)) == 0
  {
    hide Phase, Table, Remainder;
    TableExactly(n - 1, n);
    PhaseMoves(n - 1);
    assert Signed8(n) == n;
    RemainderSmall(n, resolution);
  }

  lemma {:induction false} PhaseMoves(p: int)
    ensures Phase(p) != Phase(p + 1)
  {
  }

  /** The 128th pulse makes the counter negative. */
  lemma {:induction false} CounterOverflows(resolution: int)
    requires resolution >= 128
    ensures !Conserved(resolution, Wheel(Phase(0), 0), ReadingsOf(Upward(128)))
  {
    hide Phase, Table, After, Clicks, Steps;
    var w, readings := Wheel(Phase(0), 0), ReadingsOf(Upward(128));
    PulsesPileUp(resolution, 127);
    assert readings[..127] == ReadingsOf(Upward(127));
    StepsAreDisplacement(0, Upward(128));
    TableExactly(127, 128);
    PhaseMoves(127);
    OverflowStep(resolution, Wheel(Phase(127), 127), Phase(128));
    LastReading(resolution, w, readings);
  }

  lemma {:induction false} LastReading(resolution: int, w: Wheel, readings: seq<Status>)
    requires resolution > 0 && readings != []
    ensures var n := |readings| - 1;
            && After(resolution, w, readings) == Turned(resolution, After(resolution, w, readings[..n]), readings[n])
            && Clicks(resolution, w, readings) == Clicks(resolution, w, readings[..n])
                 + Click(resolution, After(resolution, w, readings[..n]), readings[n])
  {
    hide Turned, Click;
  }

  lemma {:induction false} OverflowStep(resolution: int, w: Wheel, status: Status)
    requires resolution >= 128 && w.pulses == 127 && status != w.status && Table(w.status, status) == 1
    ensures Turned(resolution, w, status).pulses <= 0 && Click(resolution, w, status) <= 0
  {
    hide Table, Remainder;
    assert Signed8(128) == -128;
    RemainderSmall(-128, resolution);
  }

  /** Clicks and pulses account for every step, on all readings, exactly for resolutions up to 127. */
  lemma {:induction false} ResolutionExactly(resolution: int)
    requires resolution > 0
    ensures (forall w: Wheel, readings: seq<Status> :: -resolution < w.pulses < resolution && -128 <= w.pulses < 128 ==>
      Conserved(resolution, w, readings))
              <==> resolution <= 127
  {
    hide Conserved;
    if resolution <= 127 {
      forall w: Wheel, readings: seq<Status> | -resolution < w.pulses < resolution && -128 <= w.pulses < 128
        ensures Conserved(resolution, w, readings)
      {
        ClicksConserve(resolution, w, readings);
      }
    } else {
      CounterOverflows(resolution);
    }
  }

  // ---------- the table of resolutions ----------

  /** Two resolutions that make the same clicks of every series of readings. */
  ghost predicate ClickAlike(r: int, q: int)
    requires r > 0 && q > 0
  {
    forall start: Status, readings: seq<Status> ::
      Clicks(r, Wheel(start, 0), readings) == Clicks(q, Wheel(start, 0), readings)
  }

  /** Beyond 128 no pulse count ever reaches the resolution. */
  lemma {:induction false} NeverClicks(resolution: int, w: Wheel, readings: seq<Status>)
    requires resolution > 128 && -128 <= w.pulses < 128
    ensures -128 <= After(resolution, w, readings).pulses < 128 && Clicks(resolution, w, readings) == 0
  {
    hide Table, Signed8, Remainder;
    if readings != [] {
      var n := |readings| - 1;
      NeverClicks(resolution, w, readings[..n]);
      var v := After(resolution, w, readings[..n]);
      RemainderSmall(Pulses(v, readings[n]), resolution);
    }
  }

  /** A shaft turned up by `r` steps tells `r` from any larger resolution. */
  lemma {:induction false} UpwardTells(r: int, q: int)
    requires 0 < r < q && r <= 128
    ensures Clicks(r, Wheel(Phase(0), 0), ReadingsOf(Upward(r))) != 0
    ensures Clicks(q, Wheel(Phase(0), 0), ReadingsOf(Upward(r))) == 0
  {
    hide Phase, Table, After, Clicks, Turned;
    var w, readings := Wheel(Phase(0), 0), ReadingsOf(Upward(r));
    PulsesPileUp(r, r - 1);
    PulsesPileUp(q, r - 1);
    assert readings[..r - 1] == ReadingsOf(Upward(r - 1));
    LastReading(r, w, readings);
    LastReading(q, w, readings);
    TableExactly(r - 1, r);
    PhaseMoves(r - 1);
    assert Signed8(r) == if r == 128 then -128 else r;
  }

  lemma {:induction false} ClickAlikeExactly(r: int, q: int)
    requires r > 0 && q > 0
    ensures ClickAlike(r, q) <==> r == q || (r > 128 && q > 128)
  {
    hide Clicks;
    if r > 128 && q > 128 {
      forall start: Status, readings: seq<Status>
        ensures Clicks(r, Wheel(start, 0), readings) == Clicks(q, Wheel(start, 0), readings)
      {
        NeverClicks(r, Wheel(start, 0), readings);
        NeverClicks(q, Wheel(start, 0), readings);
      }
    } else if r < q {
      UpwardTells(r, q);
    } else if q < r {
      UpwardTells(q, r);
    }
  }

  /** The table holds the left half's resolutions, then the right half's, but an encoder looks its own up by its
      index on its half. Encoder `i` of the right half then clicks as its own entry says if and only if that entry
      is the left half's, or neither ever clicks. */
  lemma {:induction false} RightHalfExactly(resolutions: seq<int>, left: nat, i: nat)
    requires left + i < |resolutions| && forall k :: 0 <= k < |resolutions| ==> 0 < resolutions[k]
    ensures var used, own := resolutions[i], resolutions[left + i];
            ClickAlike(used, own) <==> used == own || (used > 128 && own > 128)
  {
    ClickAlikeExactly(resolutions[i], resolutions[left + i]);
  }

  // ---------- the split link ----------

  function Low8(n: int): Byte {
    n % 256
  }

  /** What the master makes of a change of the slave's 8-bit counter. */
  function Delta(theirs: Byte, ours: Byte): int {
    Signed8(theirs - ours)
  }

  /** A poll sees the slave's clicks since the last poll exactly when there were at most 128 down or 127 up. */
  lemma {:induction false} DeltaExactly(before: int, now: int)
    ensures Delta(Low8(now), Low8(before)) == now - before <==> -128 <= now - before < 128
  {
    var d := now - before;
    assert (Low8(now) - Low8(before) + 128) % 256 == (d + 128) % 256;
  }

  /** The master's net events over a series of polls of the slave's click count. */
  function Polled(start: int, counts: seq<int>): int {
    if counts == [] then 0
    else
      var n := |counts| - 1;
      Polled(start, counts[..n]) + Delta(Low8(counts[n]), Low8(if n == 0 then start else counts[n - 1]))
  }

  /** Polled often enough, the master's net events are the slave's net clicks. */
  lemma {:induction false} PollsConserve(start: int, counts: seq<int>)
    requires forall i :: 0 <= i < |counts| ==> -128 <= Move(start, counts, i) < 128
    ensures Polled(start, counts) == (if counts == [] then start else counts[|counts| - 1]) - start
    decreases |counts|
  {
    hide Delta, Low8;
    if counts != [] {
      var n := |counts| - 1;
      forall i | 0 <= i < n ensures -128 <= Move(start, counts[..n], i) < 128 {
        assert Move(start, counts[..n], i) == Move(start, counts, i);
      }
      assert -128 <= Move(start, counts, n) < 128;
      PollsConserve(start, counts[..n]);
      DeltaExactly(if n == 0 then start else counts[n - 1], counts[n]);
      assert n > 0 ==> counts[..n][n - 1] == counts[n - 1];
    }
  }

  /** The first `n` wheels turned by their readings, the rest as before. */
  predicate AllTurned(resolutions: seq<int>, before: seq<Wheel>, readings: seq<Status>, after: seq<Wheel>, n: nat)
    requires n <= |readings| <= |resolutions| == |before| && forall i :: 0 <= i < |resolutions| ==> 0 < resolutions[i]
  {
    && |after| == |before|
    && forall k :: 0 <= k < |after| ==>
         after[k] == if k < n then Turned(resolutions[k], before[k], readings[k]) else before[k]
  }

  /** The values of the first `n` wheels moved by their clicks, the rest as before. */
  predicate AllCounted(resolutions: seq<int>, wheels: seq<Wheel>, readings: seq<Status>, before: seq<Byte>,
                       after: seq<Byte>, hand: nat, n: nat)
    requires n <= |readings| <= |resolutions| == |wheels| && hand + n <= |before|
  {
    && |after| == |before|
    && forall k :: 0 <= k < |after| ==>
         after[k] == if hand <= k < hand + n
           then Low8(before[k] + Click(resolutions[k - hand], wheels[k - hand], readings[k - hand])) else before[k]
  }

  ghost predicate AnyClick(resolutions: seq<int>, wheels: seq<Wheel>, readings: seq<Status>, n: nat)
    requires n <= |readings| <= |resolutions| == |wheels|
  {
    exists k :: 0 <= k < n && Click(resolutions[k], wheels[k], readings[k]) != 0
  }

  lemma {:induction false} NoneTurned(resolutions: seq<int>, wheels: seq<Wheel>, readings: seq<Status>,
                                      values: seq<Byte>, hand: nat)
    requires |readings| <= |resolutions| == |wheels| && hand <= |values| && forall i :: 0 <= i < |resolutions| ==>
      0 < resolutions[i]
    ensures AllTurned(resolutions, wheels, readings, wheels, 0)
    ensures AllCounted(resolutions, wheels, readings, values, values, hand, 0)
    ensures !AnyClick(resolutions, wheels, readings, 0) && ReadEvents(resolutions, wheels, readings, hand, 0) == []
  {
    hide Turned, Click, Low8;
  }

  lemma {:induction false} OneMoreTurned(resolutions: seq<int>, before: seq<Wheel>, readings: seq<Status>,
                                         wheels: seq<Wheel>,
                                         was: seq<Byte>, values: seq<Byte>, hand: nat, n: nat)
    requires n < |readings| <= |resolutions| == |before| && hand + n < |was| && forall i :: 0 <= i < |resolutions| ==>
      0 < resolutions[i]
    requires AllTurned(resolutions, before, readings, wheels, n)
    requires AllCounted(resolutions, before, readings, was, values, hand, n)
    ensures wheels[n] == before[n] && values[hand + n] == was[hand + n]
    ensures AllTurned(resolutions, before, readings, wheels[n := Turned(resolutions[n], before[n], readings[n])], n + 1)
    ensures AllCounted(resolutions, before, readings, was,
                       values[hand + n := Low8(was[hand + n] + Click(resolutions[n], before[n], readings[n]))], hand,
                         n + 1)
    ensures AnyClick(resolutions, before, readings, n + 1)
      <==> AnyClick(resolutions, before, readings, n) || Click(resolutions[n], before[n], readings[n]) != 0
    ensures ReadEvents(resolutions, before, readings, hand, n + 1)
      == ReadEvents(resolutions, before, readings, hand, n)
         + Repeated(hand + n, Click(resolutions[n], before[n], readings[n]))
  {
    hide Turned, Click, Low8, Repeated;
  }

  /** The shift register takes one more reading. */
  function Shift(state: Byte, reading: Status): Byte {
    state * 4 % 256 + reading
  }

  lemma {:induction false} LowSix(state: Byte)
    ensures state * 4 % 256 == 4 * (state % 64)
  {
    var q, b := state / 64, state % 64;
    assert state * 4 == 256 * q + 4 * b;
  }

  lemma {:induction false} QuarterOf(b: nat, r: Status)
    ensures (4 * b + r) / 4 == b && (4 * b + r) % 4 == r
  {
  }

  lemma {:induction false} LowTwo(state: Byte)
    ensures state % 64 % 4 == state % 4
  {
    var c := state / 4 - 16 * (state / 64);
    assert state % 64 == 4 * c + state % 4;
    QuarterOf(c, state % 4);
  }

  lemma {:induction false} ShiftedIn(state: Byte, reading: Status)
    ensures Shift(state, reading) / 4 % 4 == state % 4 && Shift(state, reading) % 4 == reading
  {
    LowSix(state);
    LowTwo(state);
    QuarterOf(state % 64, reading);
  }

  lemma {:induction false} StandingStill(resolution: int, w: Wheel, index: nat, value: Byte)
    requires resolution > 0
    ensures Turned(resolution, w, w.status) == w && Click(resolution, w, w.status) == 0
    ensures Low8(value + Click(resolution, w, w.status)) == value && Repeated(index, 0) == []
  {
  }

  /** A turn depends on the wheel's two parts only. */
  lemma {:induction false} SameWheel(resolution: int, w: Wheel, reading: Status)
    requires resolution > 0
    ensures Turned(resolution, w, reading) == Wheel(reading, Turned(resolution, w, reading).pulses)
  {
    hide Table, Remainder, Signed8;
  }

  lemma {:induction false} LowAgain(n: Byte)
    ensures Low8(n) == n
  {
  }

  lemma {:induction false} LowNext(n: int, d: int)
    ensures Low8(Low8(n) + d) == Low8(n + d)
  {
  }

  lemma {:induction false} DeltaReaches(theirs: Byte, ours: Byte)
    ensures Low8(ours + Delta(theirs, ours)) == theirs
    ensures Delta(theirs, ours) == 0 <==> theirs == ours
  {
    var d := theirs - ours;
    assert Delta(theirs, ours) == if d >= 128 then d - 256 else if d < -128 then d + 256 else d;
  }

  /** The four low bits of the shift register are the last two readings. */
  lemma {:induction false} SameStep(state: Byte, before: Status)
    requires state / 4 % 4 == before
    ensures Lut(state % 16) == Table(before, state % 4)
  {
    assert state % 16 == 4 * before + state % 4;
  }

  // ---------- the engine ----------

  datatype Event = Event(index: nat, up: bool)

  /** `n` events of one encoder, up or down by the sign. */
  function Repeated(index: nat, n: int): seq<Event> {
    seq(if n >= 0 then n else -n, _ => Event(index, n > 0))
  }

  /** Events up less events down of one encoder. */
  function Tally(events: seq<Event>, index: nat): int {
    if events == [] then 0
    else
      var n := |events| - 1;
      Tally(events[..n], index) + if events[n].index != index then 0 else if events[n].up then 1 else -1
  }

  lemma {:induction false} TallyConcat(a: seq<Event>, b: seq<Event>, index: nat)
    ensures Tally(a + b, index) == Tally(a, index) + Tally(b, index)
    decreases |b|
  {
    if b == [] {
      assert a + b == a;
    } else {
      assert (a + b)[..|a + b| - 1] == a + b[..|b| - 1];
      TallyConcat(a, b[..|b| - 1], index);
    }
  }

  /** A change is reported by as many events as it has steps, all of its encoder and in its direction. */
  lemma {:induction false} RepeatedTally(index: nat, n: int, k: nat)
    ensures Tally(Repeated(index, n), k) == if k == index then n else 0
    ensures |Repeated(index, n)| == if n >= 0 then n else -n
    decreases if n >= 0 then n else -n
  {
    var events := Repeated(index, n);
    if n != 0 {
      var less := if n > 0 then n - 1 else n + 1;
      RepeatedTally(index, less, k);
      if n == 1 || n == -1 {
        assert events[..|events| - 1] == [];
      } else {
        assert events[..|events| - 1] == Repeated(index, less);
      }
    }
  }

  /** The events of a poll tell by how much each of the other half's counters has changed, and nothing else. */
  lemma {:induction false} PollTally(theirs: seq<Byte>, ours: seq<Byte>, hand: nat, n: nat, k: nat)
    requires n <= |theirs| && hand + n <= |ours|
    ensures Tally(PollEvents(theirs, ours, hand, n), k)
      == if hand <= k < hand + n then Delta(theirs[k - hand], ours[k]) else 0
  {
    hide Delta, Repeated;
    if n > 0 {
      var i := hand + n - 1;
      var d := Delta(theirs[n - 1], ours[i]);
      PollTally(theirs, ours, hand, n - 1, k);
      TallyConcat(PollEvents(theirs, ours, hand, n - 1), Repeated(i, d), k);
      RepeatedTally(i, d, k);
    }
  }

  /** So do the events of a reading, of this half's clicks. */
  lemma {:induction false} ReadTally(resolutions: seq<int>, wheels: seq<Wheel>, readings: seq<Status>, hand: nat,
                                     n: nat, k: nat)
    requires n <= |resolutions| && n <= |wheels| && n <= |readings|
    ensures Tally(ReadEvents(resolutions, wheels, readings, hand, n), k)
      == if hand <= k < hand + n then Click(resolutions[k - hand], wheels[k - hand], readings[k - hand]) else 0
  {
    hide Click, Repeated;
    if n > 0 {
      var i := hand + n - 1;
      var d := Click(resolutions[n - 1], wheels[n - 1], readings[n - 1]);
      ReadTally(resolutions, wheels, readings, hand, n - 1, k);
      TallyConcat(ReadEvents(resolutions, wheels, readings, hand, n - 1), Repeated(i, d), k);
      RepeatedTally(i, d, k);
    }
  }

  /** The events the master emits for one counter of the other half, poll by poll. */
  function PolledEvents(start: int, counts: seq<int>, index: nat): seq<Event> {
    if counts == [] then []
    else
      var n := |counts| - 1;
      PolledEvents(start, counts[..n], index)
      + Repeated(index, Delta(Low8(counts[n]), Low8(if n == 0 then start else counts[n - 1])))
  }

  /** Polled often enough, these events add up to how far the counter has moved. */
  lemma {:induction false} EventsConserve(start: int, counts: seq<int>, index: nat)
    requires forall i :: 0 <= i < |counts| ==> -128 <= Move(start, counts, i) < 128
    ensures Tally(PolledEvents(start, counts, index), index)
      == (if counts == [] then start else counts[|counts| - 1]) - start
  {
    PolledTally(start, counts, index);
    PollsConserve(start, counts);
  }

  lemma {:induction false} PolledTally(start: int, counts: seq<int>, index: nat)
    ensures Tally(PolledEvents(start, counts, index), index) == Polled(start, counts)
    decreases |counts|
  {
    hide Delta, Low8, Repeated;
    if counts != [] {
      var n := |counts| - 1;
      var d := Delta(Low8(counts[n]), Low8(if n == 0 then start else counts[n - 1]));
      PolledTally(start, counts[..n], index);
      TallyConcat(PolledEvents(start, counts[..n], index), Repeated(index, d), index);
      RepeatedTally(index, d, index);
    }
  }

  function PollEvents(theirs: seq<Byte>, ours: seq<Byte>, hand: nat, n: nat): seq<Event>
    requires n <= |theirs| && hand + n <= |ours|
  {
    if n == 0 then []
    else PollEvents(theirs, ours, hand, n - 1) + Repeated(hand + n - 1, Delta(theirs[n - 1], ours[hand + n - 1]))
  }

  function ReadEvents(resolutions: seq<int>, wheels: seq<Wheel>, readings: seq<Status>, hand: nat, n: nat): seq<Event>
    requires n <= |resolutions| && n <= |wheels| && n <= |readings|
  {
    if n == 0 then []
    else ReadEvents(resolutions, wheels, readings, hand, n - 1)
         + Repeated(hand + n - 1, Click(resolutions[n - 1], wheels[n - 1], readings[n - 1]))
  }

  /** Both halves' values; this half's readings and pulses. */
  class Engine {
    const resolutions: seq<int>
    const thisHand: nat
    const thatHand: nat
    const thisCount: nat
    const thatCount: nat
    const states: array<Byte>
    const pulses: array<int>
    const values: array<Byte>
    ghost var events: seq<Event>

    constructor (resolutions: seq<int>, left: nat, right: nat, isLeft: bool, readings: seq<Status>)
      requires |resolutions| == left + right && (forall i :: 0 <= i < |resolutions| ==> 0 < resolutions[i] < 256)
      requires |readings| == if isLeft then left else right
      ensures Valid() && fresh(states) && fresh(pulses) && fresh(values)
    {
      this.resolutions := resolutions;
      thisHand, thatHand := if isLeft then 0 else left, if isLeft then left else 0;
      thisCount, thatCount := if isLeft then left else right, if isLeft then right else left;
      var n := left + right;
      states := new Byte[n](i requires 0 <= i => if i < |readings| then readings[i] else 0);
      pulses := new int[n](_ => 0);
      values := new Byte[n](_ => 0);
      events := [];
    }

    ghost predicate Valid()
      reads this
    {
      && (forall i :: 0 <= i < |resolutions| ==> 0 < resolutions[i] < 256)
      && |resolutions| == states.Length == pulses.Length == values.Length
      && thisCount + thatCount == |resolutions|
      && thisHand + thisCount <= |resolutions| && thatHand + thatCount <= |resolutions| && states != values
    }

    /** This half's encoder `i`; only the last reading of the shift register matters. */
    ghost function WheelAt(i: nat): Wheel
      requires Valid() && i < states.Length
      reads this, states, pulses
    {
      Wheel(states[i] % 4, pulses[i])
    }

    ghost function Wheels(): (w: seq<Wheel>)
      requires Valid()
      reads this, states, pulses
      ensures |w| == |resolutions|
    {
      seq(|resolutions|, i requires 0 <= i < |resolutions| && Valid() reads this, states, pulses => WheelAt(i))
    }

    /** Adds the step of the reading just shifted in, and clicks. The resolution is that of the local index. */
    method EncoderUpdate(i: nat, before: Status, master: bool) returns (changed: bool)
      requires Valid() && i < thisCount && states[i] / 4 % 4 == before && states[i] % 4 != before
      modifies pulses, values, this`events
      ensures var w, r := Wheel(before, old(pulses[i])), resolutions[i];
              && pulses[i] == Turned(r, w, states[i] % 4).pulses
              && values[thisHand + i] == Low8(old(values[thisHand + i]) + Click(r, w, states[i] % 4))
              && events == old(events) + (if master then Repeated(thisHand + i, Click(r, w, states[i] % 4)) else [])
              && (changed <==> Click(r, w, states[i] % 4) != 0)
      ensures forall k :: 0 <= k < pulses.Length && k != i ==> pulses[k] == old(pulses[k])
      ensures forall k :: 0 <= k < values.Length && k != thisHand + i ==> values[k] == old(values[k])
    {
      hide Signed8, Remainder;
      changed := false;
      var resolution, index := resolutions[i], thisHand + i;
      SameStep(states[i], before);
      pulses[i] := Signed8(pulses[i] + Lut(states[i] % 16));
      hide Table, Lut;
      if pulses[i] >= resolution {
        values[index] := Low8(values[index] as int + 1);
        changed := true;
        if master {
          events := events + [Event(index, true)];
        }
      }
      if pulses[i] <= -resolution {
        values[index] := Low8(values[index] as int - 1);
        changed := true;
        if master {
          events := events + [Event(index, false)];
        }
      }
      pulses[i] := Remainder(pulses[i], resolution);
    }

    /** One encoder's reading. */
    method ReadOne(i: nat, reading: Status, master: bool) returns (changed: bool)
      requires Valid() && i < thisCount
      modifies states, pulses, values, this`events
      ensures Wheels() == old(Wheels())[i := Turned(resolutions[i], old(WheelAt(i)), reading)]
      ensures var counted := Low8(old(values[thisHand + i]) + Click(resolutions[i], old(WheelAt(i)), reading));
              values[..] == old(values[..])[thisHand + i := counted]
      ensures events == old(events)
        + if master then Repeated(thisHand + i, Click(resolutions[i], old(WheelAt(i)), reading)) else []
      ensures changed <==> Click(resolutions[i], old(WheelAt(i)), reading) != 0
    {
      hide Turned, Click, Low8, Repeated, Shift;
      changed := false;
      StandingStill(resolutions[i], WheelAt(i), thisHand + i, values[thisHand + i]);
      SameWheel(resolutions[i], WheelAt(i), reading);
      var before := states[i] % 4;
      if before != reading {
        ShiftedIn(states[i], reading);
        states[i] := Shift(states[i], reading);
        changed := EncoderUpdate(i, before, master);
      }
    }

    /** Polls this half's pins: every encoder turns by its reading, and its value by its click. */
    method EncoderRead(readings: seq<Status>, master: bool) returns (changed: bool)
      requires Valid() && |readings| == thisCount
      modifies states, pulses, values, this`events
      ensures Valid()
      ensures AllTurned(resolutions, old(Wheels()), readings, Wheels(), thisCount)
      ensures AllCounted(resolutions, old(Wheels()), readings, old(values[..]), values[..], thisHand, thisCount)
      ensures events == old(events)
        + if master then ReadEvents(resolutions, old(Wheels()), readings, thisHand, thisCount) else []
      ensures changed <==> AnyClick(resolutions, old(Wheels()), readings, thisCount)
    {
      hide Turned, Click, Low8, Repeated, AllTurned, AllCounted, AnyClick, ReadEvents;
      changed := false;
      ghost var wheels, was := Wheels(), values[..];
      NoneTurned(resolutions, wheels, readings, was, thisHand);
      for i := 0 to thisCount
        invariant AllTurned(resolutions, wheels, readings, Wheels(), i)
        invariant AllCounted(resolutions, wheels, readings, was, values[..], thisHand, i)
        invariant events == old(events) + if master then ReadEvents(resolutions, wheels, readings, thisHand, i) else []
        invariant changed <==> AnyClick(resolutions, wheels, readings, i)
      {
        assert WheelAt(i) == Wheels()[i] && values[thisHand + i] == values[..][thisHand + i];
        OneMoreTurned(resolutions, wheels, readings, Wheels(), was, values[..], thisHand, i);
        var clicked := ReadOne(i, readings[i], master);
        changed := changed || clicked;
      }
    }

    /** The values of this half, as sent to the other. */
    method EncoderStateRaw() returns (slave: seq<Byte>)
      requires Valid()
      ensures |slave| == thisCount && forall i :: 0 <= i < thisCount ==> slave[i] == values[thisHand + i]
    {
      slave := values[thisHand..thisHand + thisCount];
    }

    /** One event per click, until the value is the other half's. */
    method CatchUp(index: nat, theirs: Byte) returns (changed: bool)
      requires Valid() && index < values.Length
      modifies values, this`events
      ensures values[index] == theirs && forall k :: 0 <= k < values.Length && k != index ==>
        values[k] == old(values[k])
      ensures events == old(events) + Repeated(index, Delta(theirs, old(values[index])))
      ensures changed <==> theirs != old(values[index])
    {
      hide Low8, Signed8;
      changed := false;
      var was := values[index];
      DeltaReaches(theirs, was);
      var all := Delta(theirs, was);
      var delta := all;
      LowAgain(was);
      while delta > 0
        invariant 0 <= delta <= all || delta == all
        invariant values[index] == Low8(was + (all - delta))
        invariant forall k :: 0 <= k < values.Length && k != index ==> values[k] == old(values[k])
        invariant events == old(events) + Repeated(index, all - delta)
        invariant changed <==> delta != all
      {
        delta := delta - 1;
        LowNext(was + (all - delta) - 1, 1);
        values[index] := Low8(values[index] as int + 1);
        changed := true;
        events := events + [Event(index, true)];
      }
      while delta < 0
        invariant all <= delta <= 0 || delta == 0
        invariant values[index] == Low8(was + (all - delta))
        invariant forall k :: 0 <= k < values.Length && k != index ==> values[k] == old(values[k])
        invariant events == old(events) + Repeated(index, all - delta)
        invariant changed <==> delta != all
      {
        delta := delta + 1;
        LowNext(was + (all - delta) + 1, -1);
        values[index] := Low8(values[index] as int - 1);
        changed := true;
        events := events + [Event(index, false)];
      }
    }

    /** The master's turn: events for what the other half's counters moved. */
    method EncoderUpdateRaw(slave: seq<Byte>) returns (changed: bool)
      requires Valid() && |slave| == thatCount
      modifies values, this`events
      ensures forall i :: 0 <= i < thatCount ==> values[thatHand + i] == slave[i]
      ensures forall k :: 0 <= k < values.Length && !(thatHand <= k < thatHand + thatCount) ==>
        values[k] == old(values[k])
      ensures events == old(events) + PollEvents(slave, old(values[..]), thatHand, thatCount)
      ensures changed <==> exists i :: 0 <= i < thatCount && slave[i] != old(values[thatHand + i])
    {
      hide Delta, Repeated;
      changed := false;
      for i := 0 to thatCount
        invariant forall k :: 0 <= k < i ==> values[thatHand + k] == slave[k]
        invariant forall k :: 0 <= k < values.Length && !(thatHand <= k < thatHand + i) ==> values[k] == old(values[k])
        invariant events == old(events) + PollEvents(slave, old(values[..]), thatHand, i)
        invariant changed <==> exists k :: 0 <= k < i && slave[k] != old(values[thatHand + k])
      {
        var moved := CatchUp(thatHand + i, slave[i]);
        changed := changed || moved;
      }
    }
  }
}
