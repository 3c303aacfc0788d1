/** Tap or hold, press and release agree: on every clean run a press is dispatched with a tap count exactly
    when the next release of its key is. The invariant behind it, which every turn of the drain loop keeps, and
    the one kind of arrival that breaks it. */
module TappingPairing {

  import opened Keys
  import opened Widths
  import opened Options
  import opened Tapping
  import opened TappingFlow
  import opened TappingOrder

  // ---------- the property ----------

  ghost predicate IsUpOf(d: Dispatch, key: Key) {
    d.rec.event.key == key && !d.rec.event.pressed
  }

  ghost predicate IsDownOf(d: Dispatch, key: Key) {
    d.rec.event.key == key && d.rec.event.pressed
  }

  ghost predicate IsTap(d: Dispatch) {
    d.rec.tap.count > 0
  }

  /** Each press and the next release of its key are both taps or both holds. */
  ghost predicate TapsPair(out: seq<Dispatch>) {
    forall i, j ::
      && 0 <= i < j < |out| && IsDownOf(out[i], out[i].rec.event.key) && IsUpOf(out[j], out[i].rec.event.key)
      && (forall l :: i < l < j ==> !IsUpOf(out[l], out[i].rec.event.key))
      ==> IsTap(out[i]) == IsTap(out[j])
  }

  /** Every press of `key` not yet released in `out` is a tap, or none is. */
  ghost predicate AllOpen(out: seq<Dispatch>, key: Key, tapped: bool) {
    out == [] ||
    var d := out[|out| - 1];
    if IsUpOf(d, key) then true
    else AllOpen(out[..|out| - 1], key, tapped) && (IsDownOf(d, key) ==> IsTap(d) == tapped)
  }

  ghost predicate Paired(out: seq<Dispatch>) {
    out == [] ||
    var d := out[|out| - 1];
    && Paired(out[..|out| - 1])
    && (!d.rec.event.pressed ==> AllOpen(out[..|out| - 1], d.rec.event.key, IsTap(d)))
  }

  lemma {:induction false} AllOpenMeans(out: seq<Dispatch>, key: Key, tapped: bool, i: nat)
    requires AllOpen(out, key, tapped) && i < |out| && IsDownOf(out[i], key)
    requires forall l :: i < l < |out| ==> !IsUpOf(out[l], key)
    ensures IsTap(out[i]) == tapped
    decreases |out|
  {
    if i < |out| - 1 {
      AllOpenMeans(out[..|out| - 1], key, tapped, i);
    }
  }

  lemma {:induction false} PairedMeans(out: seq<Dispatch>)
    requires Paired(out)
    ensures TapsPair(out)
    decreases |out|
  {
    if out != [] {
      var n := |out| - 1;
      var out' := out[..n];
      PairedMeans(out');
      forall i, j | && 0 <= i < j < |out| && IsDownOf(out[i], out[i].rec.event.key)
                    && IsUpOf(out[j], out[i].rec.event.key)
                    && (forall l :: i < l < j ==> !IsUpOf(out[l], out[i].rec.event.key))
        ensures IsTap(out[i]) == IsTap(out[j])
      {
        if j == n {
          AllOpenMeans(out', out[i].rec.event.key, IsTap(out[n]), i);
        } else {
          assert out'[i] == out[i] && out'[j] == out[j];
          assert forall l :: i < l < j ==> out'[l] == out[l];
        }
      }
    }
  }

  lemma {:induction false} OpenOneMore(out: seq<Dispatch>, d: Dispatch, key: Key, tapped: bool)
    ensures AllOpen(out + [d], key, tapped)
        <==> IsUpOf(d, key) || (AllOpen(out, key, tapped) && (IsDownOf(d, key) ==> IsTap(d) == tapped))
    ensures Paired(out + [d])
        <==> Paired(out) && (!d.rec.event.pressed ==> AllOpen(out, d.rec.event.key, IsTap(d)))
  {
    assert (out + [d])[..|out + [d]| - 1] == out;
  }

  // ---------- the invariant ----------

  /** The first waiting record of a key. */
  ghost function Next(q: seq<Record>, key: Key): Option<Record> {
    if q == [] then None
    else if q[0].event.key == key then Some(q[0])
    else Next(q[1..], key)
  }

  /** Whether the next release of `key` will carry a tap count. */
  ghost predicate Expect(tk: Record, q: seq<Record>, key: Key) {
    || (IsPressing(tk) && tk.event.key == key && tk.tap.count > 0)
    || (Next(q, key).Some? && !Next(q, key).value.event.pressed && Next(q, key).value.tap.count > 0)
  }

  ghost predicate OpenAsExpected(tk: Record, q: seq<Record>, out: seq<Dispatch>) {
    Paired(out) && forall key :: AllOpen(out, key, Expect(tk, q, key))
  }

  /** A tapping key that is down with count 1 has its release waiting, marked as a tap. */
  ghost predicate TapQueued(tk: Record, q: seq<Record>) {
    IsPressing(tk) && tk.tap.count == 1 ==>
      var r := Next(q, tk.event.key);
      r.Some? && !r.value.event.pressed && r.value.tap.count > 0
  }

  ghost predicate IsMarked(r: Record) {
    !r.event.pressed && r.tap.count > 0
  }

  /** A waiting release marked as a tap is the next event of its key, and its press has been dispatched. */
  ghost predicate MarksFirst(tk: Record, q: seq<Record>) {
    forall i :: 0 <= i < |q| && IsMarked(q[i]) ==>
      && (forall j :: 0 <= j < i ==> q[j].event.key != q[i].event.key)
      && !(IsUndecided(tk) && tk.event.key == q[i].event.key)
  }

  /** The 16-bit clock has not gone round between these events. */
  ghost predicate Chronological(es: seq<Event>) {
    forall i, j, l :: 0 <= i <= j <= l < |es| ==> Elapsed(es[j].time, es[i].time) <= Elapsed(es[l].time, es[i].time)
  }

  /** The last thing the host saw of a key that is down as a tap is its press. */
  ghost predicate TapIsDown(tk: Record, out: seq<Dispatch>) {
    IsPressing(tk) && tk.tap.count > 0 ==>
      var mine := OnKey(Physical(out), tk.event.key);
      mine != [] && mine[|mine| - 1].pressed
  }

  ghost predicate MadeUpAreReleases(out: seq<Dispatch>) {
    forall i :: 0 <= i < |out| && out[i].kind == Synthesized ==> !out[i].rec.event.pressed
  }

  /** The invariant, for a tapping key, the records still waiting and the trace. */
  ghost predicate Agrees(cfg: Config, tk: Record, q: seq<Record>, out: seq<Dispatch>) {
    && OpenAsExpected(tk, q, out)
    && TapQueued(tk, q)
    && MarksFirst(tk, q)
    && Chronological(Undecided(tk) + Events(q))
    && TapIsDown(tk, out)
    && MadeUpAreReleases(out)
  }

  ghost predicate Sound(cfg: Config, s: State) {
    Agrees(cfg, s.tk, s.q, s.host.out) && WellQueued(s.q) && AllAlternate(Line(s))
  }

  // ---------- what alternation gives ----------

  ghost predicate NoneOpen(out: seq<Dispatch>, key: Key) {
    AllOpen(out, key, true) && AllOpen(out, key, false)
  }

  lemma {:induction false} UpMeansNoneOpen(out: seq<Dispatch>, key: Key)
    requires MadeUpAreReleases(out)
    requires var mine := OnKey(Physical(out), key); mine == [] || !mine[|mine| - 1].pressed
    ensures NoneOpen(out, key)
    decreases |out|
  {
    if out != [] {
      var d, out' := out[|out| - 1], out[..|out| - 1];
      var one := if d.kind == Synthesized then [] else [d.rec.event];
      OnKeyConcat(Physical(out'), one, key);
      assert d.kind != Synthesized ==> one[..0] == [];
      assert d.rec.event.key != key ==> OnKey(one, key) == [];
      assert d.rec.event.key == key && d.kind != Synthesized ==> OnKey(one, key) == [d.rec.event];
      if d.rec.event.key != key {
        UpMeansNoneOpen(out', key);
      }
    }
  }

  /** When the next event of a key is a press, the host has seen every earlier press released. */
  lemma {:induction false} PressMeansNoneOpen(out: seq<Dispatch>, e: Event, rest: seq<Event>)
    requires MadeUpAreReleases(out) && e.pressed && Alternates(OnKey(Physical(out) + [e] + rest, e.key))
    ensures NoneOpen(out, e.key)
  {
    var mine := OnKey(Physical(out), e.key);
    OnKeyConcat(Physical(out) + [e], rest, e.key);
    OnKeyConcat(Physical(out), [e], e.key);
    assert [e][..0] == [];
    if mine != [] {
      var all := mine + [e] + OnKey(rest, e.key);
      assert OnKey(Physical(out) + [e] + rest, e.key) == all;
      assert all[|mine|] == e && all[|mine| - 1] == mine[|mine| - 1];
    }
    UpMeansNoneOpen(out, e.key);
  }

  lemma {:induction false} OnKeyHas(es: seq<Event>, i: nat, key: Key)
    requires i < |es| && es[i].key == key
    requires forall j :: 0 <= j < i ==> es[j].key != key
    ensures OnKey(es, key) != [] && OnKey(es, key)[0] == es[i]
    decreases |es|
  {
    var es' := es[..|es| - 1];
    if i < |es| - 1 {
      OnKeyHas(es', i, key);
    } else {
      OnKeyNone(es', key);
    }
  }

  lemma {:induction false} OnKeyNone(es: seq<Event>, key: Key)
    requires forall j :: 0 <= j < |es| ==> es[j].key != key
    ensures OnKey(es, key) == []
    decreases |es|
  {
    if es != [] {
      OnKeyNone(es[..|es| - 1], key);
    }
  }

  /** After the press `e`, the first event of its key in `rest` is a release. */
  lemma {:induction false} AfterPressComesRelease(front: seq<Event>, e: Event, rest: seq<Event>, i: nat)
    requires e.pressed && Alternates(OnKey(front + [e] + rest, e.key))
    requires i < |rest| && rest[i].key == e.key && forall j :: 0 <= j < i ==> rest[j].key != e.key
    ensures !rest[i].pressed
  {
    OnKeyConcat(front + [e], rest, e.key);
    OnKeyConcat(front, [e], e.key);
    OnKeyHas(rest, i, e.key);
    assert [e][..0] == [];
    var f := OnKey(front, e.key);
    var all := f + [e] + OnKey(rest, e.key);
    assert OnKey(front + [e] + rest, e.key) == all;
    assert all[|f|] == e && all[|f| + 1] == rest[i];
  }

  // ---------- dispatching ----------

  /** A release goes out: it must agree with the presses it ends. */
  lemma {:induction false} ReleaseOpens(tk: Record, q: seq<Record>, out: seq<Dispatch>, r: Record, kind: Kind,
                                        tk': Record, q': seq<Record>)
    requires OpenAsExpected(tk, q, out) && !r.event.pressed
    requires (r.tap.count > 0) == Expect(tk, q, r.event.key)
    requires forall key :: key != r.event.key ==> Expect(tk', q', key) == Expect(tk, q, key)
    ensures OpenAsExpected(tk', q', out + [Dispatch(r, kind)])
  {
    var d := Dispatch(r, kind);
    forall key, tapped
      ensures AllOpen(out + [d], key, tapped) <==> IsUpOf(d, key) || AllOpen(out, key, tapped)
    {
      OpenOneMore(out, d, key, tapped);
    }
    OpenOneMore(out, d, r.event.key, true);
  }

  /** A press goes out when none of its key is open. */
  lemma {:induction false} PressOpens(tk: Record, q: seq<Record>, out: seq<Dispatch>, r: Record, kind: Kind,
                                      tk': Record, q': seq<Record>)
    requires OpenAsExpected(tk, q, out) && r.event.pressed && NoneOpen(out, r.event.key)
    requires (r.tap.count > 0) == Expect(tk', q', r.event.key)
    requires forall key :: key != r.event.key ==> Expect(tk', q', key) == Expect(tk, q, key)
    ensures OpenAsExpected(tk', q', out + [Dispatch(r, kind)])
  {
    var d := Dispatch(r, kind);
    forall key ensures AllOpen(out + [d], key, Expect(tk', q', key)) {
      OpenOneMore(out, d, key, Expect(tk', q', key));
    }
    OpenOneMore(out, d, r.event.key, true);
  }

  // ---------- the queue ----------

  lemma {:induction false} NextSome(q: seq<Record>, key: Key)
    ensures Next(q, key).Some? ==>
              exists i :: 0 <= i < |q| && q[i] == Next(q, key).value && q[i].event.key == key
                          && forall j :: 0 <= j < i ==> q[j].event.key != key
    ensures Next(q, key).None? ==> forall i :: 0 <= i < |q| ==> q[i].event.key != key
  {
    if q != [] && q[0].event.key != key {
      NextSome(q[1..], key);
      if Next(q, key).Some? {
        var i :| 0 <= i < |q[1..]| && q[1..][i] == Next(q, key).value && q[1..][i].event.key == key
                 && forall j :: 0 <= j < i ==> q[1..][j].event.key != key;
        assert q[i + 1] == Next(q, key).value;
        assert forall j :: 0 < j < i + 1 ==> q[j] == q[1..][j - 1];
      } else {
        assert forall j :: 0 < j < |q| ==> q[j] == q[1..][j - 1];
      }
    }
  }

  lemma {:induction false} NextAt(q: seq<Record>, key: Key, i: nat)
    requires i < |q| && q[i].event.key == key && forall j :: 0 <= j < i ==> q[j].event.key != key
    ensures Next(q, key) == Some(q[i])
  {
    if i > 0 {
      NextAt(q[1..], key, i - 1);
    }
  }

  lemma {:induction false} NextOfAppend(q: seq<Record>, k: Record, key: Key)
    ensures Next(q + [k], key)
         == if Next(q, key).Some? then Next(q, key) else if k.event.key == key then Some(k) else None
  {
    if q == [] {
      assert q + [k] == [k];
    } else {
      assert (q + [k])[1..] == q[1..] + [k];
      NextOfAppend(q[1..], k, key);
    }
  }

  lemma {:induction false} NextOfUpdate(q: seq<Record>, f: nat, r: Record, key: Key)
    requires f < |q| && q[f].event.key == r.event.key != key
    ensures Next(q[f := r], key) == Next(q, key)
  {
    if f > 0 {
      assert q[f := r][1..] == q[1..][f - 1 := r];
      NextOfUpdate(q[1..], f - 1, r, key);
    } else {
      assert q[f := r][1..] == q[1..];
    }
  }

  /** Behind a queued event of its key no release is marked. */
  lemma {:induction false} BehindIsUnmarked(tk: Record, k: Record, rest: seq<Record>)
    requires MarksFirst(tk, [k] + rest)
    ensures var r := Next(rest, k.event.key); r.Some? ==> !IsMarked(r.value)
    ensures MarksFirst(EMPTY, rest) && (IsUndecided(tk) ==> MarksFirst(tk, rest))
    ensures forall i :: 0 <= i < |rest| && IsMarked(rest[i]) ==> rest[i].event.key != k.event.key
  {
    var q := [k] + rest;
    assert forall i :: 0 <= i < |rest| ==> rest[i] == q[i + 1];
    assert q[0] == k;
    NextSome(rest, k.event.key);
  }

  lemma {:induction false} UndecidedIsUnmarked(tk: Record, q: seq<Record>)
    requires MarksFirst(tk, q) && IsUndecided(tk)
    ensures var r := Next(q, tk.event.key); r.Some? ==> !IsMarked(r.value)
  {
    NextSome(q, tk.event.key);
  }

  lemma {:induction false} ChronologicalSuffix(a: seq<Event>, b: seq<Event>)
    requires Chronological(a + b)
    ensures Chronological(b)
  {
    forall i, j, l | 0 <= i <= j <= l < |b|
      ensures Elapsed(b[j].time, b[i].time) <= Elapsed(b[l].time, b[i].time)
    {
      var c := a + b;
      assert c[|a| + i] == b[i] && c[|a| + j] == b[j] && c[|a| + l] == b[l];
    }
  }

  lemma {:induction false} ChronologicalWithout(a: seq<Event>, e: Event, b: seq<Event>)
    requires Chronological(a + [e] + b)
    ensures Chronological(a + b)
  {
    var c, c' := a + [e] + b, a + b;
    forall i, j, l | 0 <= i <= j <= l < |c'|
      ensures Elapsed(c'[j].time, c'[i].time) <= Elapsed(c'[l].time, c'[i].time)
    {
      var i', j', l' := if i < |a| then i else i + 1, if j < |a| then j else j + 1, if l < |a| then l else l + 1;
      assert c'[i] == c[i'] && c'[j] == c[j'] && c'[l] == c[l'];
    }
  }

  lemma {:induction false} PhysicalOneMore(out: seq<Dispatch>, d: Dispatch, key: Key)
    ensures OnKey(Physical(out + [d]), key)
         == OnKey(Physical(out), key) + (if d.kind != Synthesized && d.rec.event.key == key then [d.rec.event] else [])
  {
    var one := if d.kind == Synthesized then [] else [d.rec.event];
    OneMoreDispatch(out, d);
    OnKeyConcat(Physical(out), one, key);
    assert d.kind != Synthesized ==> one[..0] == [];
  }

  lemma {:induction false} OneMoreDispatch(out: seq<Dispatch>, d: Dispatch)
    ensures Physical(out + [d]) == Physical(out) + (if d.kind == Synthesized then [] else [d.rec.event])
  {
    assert (out + [d])[..|out + [d]| - 1] == out;
  }

  // ---------- what each branch does to the invariant ----------

  /** The same key, in the same state. */
  ghost predicate Alike(tk: Record, tk': Record) {
    tk.event == tk'.event && tk.tap.count == tk'.tap.count
  }

  lemma {:induction false} AlikeAgrees(cfg: Config, tk: Record, tk': Record, q: seq<Record>, out: seq<Dispatch>)
    requires Agrees(cfg, tk, q, out) && Alike(tk, tk')
    ensures Agrees(cfg, tk', q, out)
  {
    assert forall key :: Expect(tk', q, key) == Expect(tk, q, key);
    assert Undecided(tk') == Undecided(tk);
    assert forall r :: IsTapRelease(cfg, tk', r) == IsTapRelease(cfg, tk, r);
  }

  lemma {:induction false} ShiftedQueue(tk: Record, k: Record, rest: seq<Record>)
    requires MarksFirst(tk, [k] + rest)
    requires Chronological(Undecided(tk) + Events([k] + rest))
    ensures MarksFirst(tk, rest) && Chronological(Undecided(tk) + Events(rest))
  {
    MarksShift(tk, k, rest);
    hide *;
    ChronologyShift(tk, k, rest);
  }

  lemma {:induction false} ChronologyShift(tk: Record, k: Record, rest: seq<Record>)
    requires Chronological(Undecided(tk) + Events([k] + rest))
    ensures Chronological(Undecided(tk) + Events(rest))
  {
    hide Chronological;
    assert Events([k] + rest) == [k.event] + Events(rest);
    assert Undecided(tk) + Events([k] + rest) == Undecided(tk) + [k.event] + Events(rest);
    ChronologicalWithout(Undecided(tk), k.event, Events(rest));
  }

  lemma {:induction false} MarksShift(tk: Record, k: Record, rest: seq<Record>)
    requires MarksFirst(tk, [k] + rest)
    ensures MarksFirst(tk, rest)
  {
    var q := [k] + rest;
    forall i, j | 0 <= j < i < |rest| && IsMarked(rest[i])
      ensures rest[j].event.key != rest[i].event.key
    {
      assert rest[i] == q[i + 1] && rest[j] == q[j + 1];
    }
    assert forall i :: 0 <= i < |rest| ==> rest[i] == q[i + 1];
  }

  lemma {:induction false} ExpectWithoutHead(tk: Record, k: Record, rest: seq<Record>)
    ensures forall key :: key != k.event.key ==> Expect(tk, rest, key) == Expect(tk, [k] + rest, key)
    ensures Expect(tk, [k] + rest, k.event.key)
        <==> (IsPressing(tk) && tk.event.key == k.event.key && tk.tap.count > 0) || IsMarked(k)
  {
    assert ([k] + rest)[1..] == rest;
  }

  /** The front record goes out and the tapping key stays: it is another key, or none is down. */
  lemma {:induction false} PassOnAgrees(cfg: Config, tk: Record, k: Record, rest: seq<Record>, out: seq<Dispatch>,
                                        kind: Kind)
    requires Agrees(cfg, tk, [k] + rest, out) && kind != Synthesized
    requires IsPressing(tk) ==> tk.event.key != k.event.key
    requires k.event.pressed ==> k.tap.count == 0 && NoneOpen(out, k.event.key)
    ensures Agrees(cfg, tk, rest, out + [Dispatch(k, kind)])
  {
    ExpectWithoutHead(tk, k, rest);
    ShiftedQueue(tk, k, rest);
    BehindIsUnmarked(tk, k, rest);
    PhysicalOneMore(out, Dispatch(k, kind), tk.event.key);
    assert ([k] + rest)[1..] == rest;
    hide OpenAsExpected;
    hide MarksFirst;
    hide Chronological;
    if k.event.pressed {
      PressOpens(tk, [k] + rest, out, k, kind, tk, rest);
    } else {
      ReleaseOpens(tk, [k] + rest, out, k, kind, tk, rest);
    }
  }

  /** The undecided press goes out as a hold. */
  lemma {:induction false} LetGoAgrees(cfg: Config, tk: Record, q: seq<Record>, out: seq<Dispatch>, sent: Record)
    requires Agrees(cfg, tk, q, out) && IsUndecided(tk) && Alike(tk, sent) && NoneOpen(out, tk.event.key)
    ensures Agrees(cfg, EMPTY, q, out + [Dispatch(sent, Ordered)])
  {
    UndecidedIsUnmarked(tk, q);
    ChronologicalSuffix(Undecided(tk), Events(q));
    assert Undecided(EMPTY) + Events(q) == Events(q);
    PressOpens(tk, q, out, sent, Ordered, EMPTY, q);
  }

  /** The release of a tap comes up. */
  lemma {:induction false} TapUpAgrees(cfg: Config, tk: Record, k: Record, rest: seq<Record>, out: seq<Dispatch>,
                                       tk': Record)
    requires Agrees(cfg, tk, [k] + rest, out) && IsPressing(tk) && tk.tap.count > 0 && IsReleaseOf(tk, k)
    requires !IsPressing(tk')
    ensures Agrees(cfg, tk', rest, out + [Dispatch(k.(tap := tk.tap), Ordered)])
  {
    ExpectWithoutHead(tk, k, rest);
    ShiftedQueue(tk, k, rest);
    BehindIsUnmarked(tk, k, rest);
    assert Undecided(tk') == Undecided(tk) == [];
    hide OpenAsExpected;
    hide Chronological;
    ReleaseOpens(tk, [k] + rest, out, k.(tap := tk.tap), Ordered, tk', rest);
  }

  lemma {:induction false} NotDownAgrees(cfg: Config, tk: Record, q: seq<Record>, out: seq<Dispatch>)
    requires Agrees(cfg, tk, q, out) && (IsPressing(tk) ==> tk.tap.count == 1)
    ensures Agrees(cfg, EMPTY, q, out)
  {
    assert forall key :: Expect(EMPTY, q, key) == Expect(tk, q, key);
    assert Undecided(EMPTY) == Undecided(tk) == [];
  }

  lemma {:induction false} SynthesizedAgrees(cfg: Config, tk: Record, q: seq<Record>, out: seq<Dispatch>, time: U16)
    requires Agrees(cfg, tk, q, out) && IsPressing(tk) && tk.tap.count > 1
    ensures Agrees(cfg, EMPTY, q, out + [Dispatch(SynthesizedRelease(tk, time), Synthesized)])
  {
    var r := SynthesizedRelease(tk, time);
    assert forall key :: key != tk.event.key ==> Expect(EMPTY, q, key) == Expect(tk, q, key);
    assert Undecided(EMPTY) == Undecided(tk) == [];
    ReleaseOpens(tk, q, out, r, Synthesized, EMPTY, q);
  }

  /** A press becomes the undecided tapping key. */
  lemma {:induction false} TakeUpAgrees(cfg: Config, tk: Record, k: Record, rest: seq<Record>, out: seq<Dispatch>)
    requires Agrees(cfg, tk, [k] + rest, out) && !IsPressing(tk)
    requires k.event.pressed && k.tap.count == 0 && !IsNoEvent(k.event)
    ensures Agrees(cfg, k, rest, out)
  {
    ExpectWithoutHead(tk, k, rest);
    BehindIsUnmarked(tk, k, rest);
    assert forall key :: Expect(k, rest, key) == Expect(tk, [k] + rest, key);
    assert Undecided(k) + Events(rest) == Undecided(tk) + Events([k] + rest);
  }

  /** The release waiting_buffer_scan_tap finds is the first waiting event of its key. */
  lemma {:induction false} FoundIsFirst(cfg: Config, k: Record, rest: seq<Record>, front: seq<Event>, f: nat)
    requires k.event.pressed && f == FirstTapRelease(cfg, k, rest) < |rest|
    requires Alternates(OnKey(front + [k.event] + Events(rest), k.event.key))
    requires Chronological([k.event] + Events(rest))
    ensures forall j :: 0 <= j < f ==> rest[j].event.key != k.event.key
  {
    var key := k.event.key;
    NextSome(rest, key);
    assert Next(rest, key).Some?;
    var i :| 0 <= i < |rest| && rest[i] == Next(rest, key).value && rest[i].event.key == key
             && forall l :: 0 <= l < i ==> rest[l].event.key != key;
    assert i <= f;
    AfterPressComesRelease(front, k.event, Events(rest), i);
    var c := [k.event] + Events(rest);
    assert c[0] == k.event && c[i + 1] == rest[i].event && c[f + 1] == rest[f].event;
    assert Elapsed(rest[i].event.time, k.event.time) <= Elapsed(rest[f].event.time, k.event.time);
    assert IsTapRelease(cfg, k, rest[i]);
  }

  lemma {:induction false} MarkedExpect(k: Record, rest: seq<Record>, f: nat)
    requires f < |rest| && rest[f].event.key == k.event.key && !rest[f].event.pressed
    requires forall j :: 0 <= j < f ==> rest[j].event.key != k.event.key
    ensures Next(rest[f := Marked(rest[f])], k.event.key) == Some(Marked(rest[f]))
    ensures forall key :: key != k.event.key ==> Next(rest[f := Marked(rest[f])], key) == Next(rest, key)
  {
    NextAt(rest[f := Marked(rest[f])], k.event.key, f);
    forall key | key != k.event.key ensures Next(rest[f := Marked(rest[f])], key) == Next(rest, key) {
      NextOfUpdate(rest, f, Marked(rest[f]), key);
    }
  }

  lemma {:induction false} MarksWithNew(rest: seq<Record>, f: nat, tk: Record)
    requires f < |rest| && MarksFirst(EMPTY, rest) && !IsUndecided(tk)
    requires forall j :: 0 <= j < f ==> rest[j].event.key != rest[f].event.key
    ensures MarksFirst(tk, rest[f := Marked(rest[f])])
  {
    var q := rest[f := Marked(rest[f])];
    forall i, j | 0 <= j < i < |q| && IsMarked(q[i])
      ensures q[j].event.key != q[i].event.key
    {
      assert q[j].event == rest[j].event && q[i].event == rest[i].event;
    }
  }

  lemma {:induction false} ChronologicalBehind(tk: Record, k: Record, rest: seq<Record>)
    requires Chronological(Undecided(tk) + Events([k] + rest))
    ensures Chronological(Events(rest))
  {
    assert Events([k] + rest) == [k.event] + Events(rest);
    assert Undecided(tk) + Events([k] + rest) == Undecided(tk) + [k.event] + Events(rest);
    ChronologicalSuffix(Undecided(tk) + [k.event], Events(rest));
  }

  /** A press whose release already waits becomes a tap at once. */
  lemma {:induction false} TakeUpTapAgrees(cfg: Config, tk: Record, k: Record, rest: seq<Record>, out: seq<Dispatch>,
                                           f: nat)
    requires Agrees(cfg, tk, [k] + rest, out) && !IsPressing(tk)
    requires k.event.pressed && k.tap.count == 0 && !IsNoEvent(k.event) && NoneOpen(out, k.event.key)
    requires f < |rest| && rest[f].event.key == k.event.key && !rest[f].event.pressed
    requires forall j :: 0 <= j < f ==> rest[j].event.key != k.event.key
    ensures Agrees(cfg, Marked(k), rest[f := Marked(rest[f])], out + [Dispatch(Marked(k), Ordered)])
  {
    hide OpenAsExpected, MarksFirst, Chronological, Next, OnKey, Physical;
    var q := rest[f := Marked(rest[f])];
    ExpectWithoutHead(tk, k, rest);
    BehindIsUnmarked(tk, k, rest);
    MarkedExpect(k, rest, f);
    MarksWithNew(rest, f, Marked(k));
    EventsKept(rest, q);
    ChronologicalBehind(tk, k, rest);
    assert Undecided(Marked(k)) + Events(q) == Events(rest);
    PhysicalOneMore(out, Dispatch(Marked(k), Ordered), k.event.key);
    PressOpens(tk, [k] + rest, out, Marked(k), Ordered, Marked(k), q);
  }

  lemma {:induction false} MarksOfDecided(tk: Record, q: seq<Record>)
    requires MarksFirst(EMPTY, q) && !IsUndecided(tk)
    ensures MarksFirst(tk, q)
  {
  }

  /** The same key is pressed again in time: the next tap of a sequence. */
  lemma {:induction false} SequentialAgrees(cfg: Config, tk: Record, k: Record, rest: seq<Record>, out: seq<Dispatch>,
                                            k': Record)
    requires Agrees(cfg, tk, [k] + rest, out) && !IsPressing(tk)
    requires k.event.pressed && !IsNoEvent(k.event) && k'.event == k.event && k'.tap.count > 1
    requires NoneOpen(out, k.event.key)
    ensures Agrees(cfg, k', rest, out + [Dispatch(k', Ordered)])
  {
    hide OpenAsExpected, MarksFirst, Chronological;
    ExpectWithoutHead(tk, k, rest);
    BehindIsUnmarked(tk, k, rest);
    MarksShift(tk, k, rest);
    MarksOfDecided(k', rest);
    ChronologicalBehind(tk, k, rest);
    assert Undecided(k') + Events(rest) == Events(rest);
    PhysicalOneMore(out, Dispatch(k', Ordered), k.event.key);
    PressOpens(tk, [k] + rest, out, k', Ordered, k', rest);
  }

  // ---------- one turn of the drain loop ----------

  lemma {:induction false} StartTapAgrees(cfg: Config, tk: Record, k: Record, rest: seq<Record>, h: Host)
    requires Agrees(cfg, tk, [k] + rest, h.out) && !IsPressing(tk) && Undecided(tk) == []
    requires k.event.pressed && k.tap.count == 0 && !IsNoEvent(k.event)
    requires Alternates(OnKey(Physical(h.out) + [k.event] + Events(rest), k.event.key))
    ensures var v := StartTap(cfg, rest, h, k); Agrees(cfg, v.tk, v.q, v.host.out)
  {
    var f := FirstTapRelease(cfg, k, rest);
    assert Events([k] + rest) == [k.event] + Events(rest);
    assert Undecided(tk) + Events([k] + rest) == [k.event] + Events(rest);
    assert MadeUpAreReleases(h.out) && Chronological([k.event] + Events(rest));
    hide Agrees;
    hide Chronological;
    if f == |rest| {
      TakeUpAgrees(cfg, tk, k, rest, h.out);
    } else {
      PressMeansNoneOpen(h.out, k.event, Events(rest));
      FoundIsFirst(cfg, k, rest, Physical(h.out), f);
      TakeUpTapAgrees(cfg, tk, k, rest, h.out, f);
    }
  }

  ghost function Interrupted(tk: Record): Record {
    tk.(tap := tk.tap.(interrupted := true))
  }

  /** What process_tapping can do to an undecided press, other than make it a tap. */
  lemma {:induction false} UndecidedOutcomes(cfg: Config, tk: Record, k: Record, q: seq<Record>, h: Host)
    requires IsUndecided(tk) && !(IsReleaseOf(tk, k) && Within(cfg, tk, k.event))
    ensures var v := Process(cfg, tk, q, h, k);
            || (Overtakes(cfg, tk, q, h, k)
                && v == Verdict(tk, q, h.(out := h.out + [Dispatch(k, Overtaking)]), k, true))
            || v == Verdict(tk, q, h, k, false)
            || v == Verdict(Interrupted(tk), q, h, k, false)
            || v == Verdict(EMPTY, q, h.(out := h.out + [Dispatch(tk, Ordered)]), k, false)
            || v == Verdict(EMPTY, q, h.(out := h.out + [Dispatch(Interrupted(tk), Ordered)]), k, false)
  {
  }

  lemma {:induction false} FrontChronology(tk: Record, k: Record, k': Record, rest: seq<Record>)
    requires IsUndecided(tk) && k'.event == k.event && Chronological(Undecided(tk) + Events([k] + rest))
    ensures Chronological(Undecided(Marked(tk)) + Events([k'] + rest))
  {
    hide Chronological;
    EventsKept([k] + rest, [k'] + rest);
    ChronologicalSuffix(Undecided(tk), Events([k] + rest));
    assert Undecided(Marked(tk)) + Events([k'] + rest) == Events([k] + rest);
  }

  /** The front record is the release of the undecided key, in time: the press goes out as a tap, and the release
      stays at the front, marked. */
  lemma {:induction false} FrontMakesTapAgrees(cfg: Config, tk: Record, k: Record, rest: seq<Record>,
                                               out: seq<Dispatch>)
    requires Agrees(cfg, tk, [k] + rest, out) && IsUndecided(tk) && NoneOpen(out, tk.event.key) && IsReleaseOf(tk, k)
    ensures Agrees(cfg, Marked(tk), [k.(tap := Marked(tk).tap)] + rest, out + [Dispatch(Marked(tk), Ordered)])
  {
    hide OpenAsExpected, MarksFirst, Chronological, AllOpen, Physical, OnKey, Events, Undecided;
    var tk', k' := Marked(tk), k.(tap := Marked(tk).tap);
    var q, q' := [k] + rest, [k'] + rest;
    BehindIsUnmarked(tk, k, rest);
    MarksAtFront(k', rest, tk');
    ExpectWithoutHead(tk, k, rest);
    ExpectWithoutHead(tk', k', rest);
    assert q'[1..] == rest;
    FrontChronology(tk, k, k', rest);
    PhysicalOneMore(out, Dispatch(tk', Ordered), tk.event.key);
    PressOpens(tk, q, out, tk', Ordered, tk', q');
  }

  /** A release may be marked at the front, where nothing of its key stands before it. */
  lemma {:induction false} MarksAtFront(k: Record, rest: seq<Record>, tk: Record)
    requires MarksFirst(EMPTY, rest) && !IsUndecided(tk)
    requires forall i :: 0 <= i < |rest| && IsMarked(rest[i]) ==> rest[i].event.key != k.event.key
    ensures MarksFirst(tk, [k] + rest)
  {
    var q := [k] + rest;
    forall i, j | 0 <= j < i < |q| && IsMarked(q[i])
      ensures q[j].event.key != q[i].event.key
    {
      assert q[i] == rest[i - 1];
      assert j > 0 ==> q[j] == rest[j - 1];
    }
  }

  /** The front record against a press that is still undecided. */
  lemma {:induction false} UndecidedTurnAgrees(cfg: Config, tk: Record, k: Record, rest: seq<Record>, h: Host)
    requires Agrees(cfg, tk, [k] + rest, h.out) && IsUndecided(tk) && !IsNoEvent(k.event)
    requires NoneOpen(h.out, tk.event.key)
    ensures var v := Process(cfg, tk, rest, h, k);
            Agrees(cfg, v.tk, Turn(v).q, v.host.out)
  {
    var v := Process(cfg, tk, rest, h, k);
    if IsReleaseOf(tk, k) && Within(cfg, tk, k.event) {
      MakesTap(cfg, tk, k, rest, h);
      TurnQueue(v);
      hide *;
      FrontMakesTapAgrees(cfg, tk, k, rest, h.out);
    } else {
      OtherTurnAgrees(cfg, tk, k, rest, h);
    }
  }

  lemma {:induction false} MakesTap(cfg: Config, tk: Record, k: Record, q: seq<Record>, h: Host)
    requires IsUndecided(tk) && IsReleaseOf(tk, k) && Within(cfg, tk, k.event)
    ensures !IsNoEvent(tk.event)
    ensures Process(cfg, tk, q, h, k)
              == Verdict(Marked(tk), q, h.(out := h.out + [Dispatch(Marked(tk), Ordered)]), k.(tap := Marked(tk).tap),
                false)
  {
  }

  lemma {:induction false} OtherTurnAgrees(cfg: Config, tk: Record, k: Record, rest: seq<Record>, h: Host)
    requires Agrees(cfg, tk, [k] + rest, h.out) && IsUndecided(tk) && !IsNoEvent(k.event)
    requires NoneOpen(h.out, tk.event.key) && !(IsReleaseOf(tk, k) && Within(cfg, tk, k.event))
    ensures var v := Process(cfg, tk, rest, h, k);
            Agrees(cfg, v.tk, Turn(v).q, v.host.out)
  {
    var v := Process(cfg, tk, rest, h, k);
    UndecidedOutcomes(cfg, tk, k, rest, h);
    LetGoAgrees(cfg, tk, [k] + rest, h.out, tk);
    LetGoAgrees(cfg, tk, [k] + rest, h.out, Interrupted(tk));
    AlikeAgrees(cfg, tk, Interrupted(tk), [k] + rest, h.out);
    if Overtakes(cfg, tk, rest, h, k) {
      PassOnAgrees(cfg, tk, k, rest, h.out, Overtaking);
    }
    hide *;
    assert Turn(v).q == if v.consumed then v.q else [v.keyp] + v.q by { TurnQueue(v); }
  }

  lemma {:induction false} TurnQueue(v: Verdict)
    ensures Turn(v).q == if v.consumed then v.q else [v.keyp] + v.q
  {
  }

  /** The front record against a tapping key that is down as a tap. */
  lemma {:induction false} TappedTurnAgrees(cfg: Config, tk: Record, k: Record, rest: seq<Record>, h: Host)
    requires Agrees(cfg, tk, [k] + rest, h.out) && IsPressing(tk) && tk.tap.count > 0
    requires !IsNoEvent(k.event) && (k.event.pressed ==> k.tap.count == 0)
    requires Alternates(OnKey(Physical(h.out) + [k.event] + Events(rest), k.event.key))
    ensures var v := Process(cfg, tk, rest, h, k);
            v.consumed && Agrees(cfg, v.tk, v.q, v.host.out)
  {
    var v := Process(cfg, tk, rest, h, k);
    assert MadeUpAreReleases(h.out) && TapIsDown(tk, h.out);
    hide Agrees;
    hide StartTap;
    if IsReleaseOf(tk, k) {
      TapUpAgrees(cfg, tk, k, rest, h.out, v.tk);
    } else if IsTapRecord(cfg, h, k) && k.event.pressed {
      var r := SynthesizedRelease(tk, k.event.time);
      var h' := if tk.tap.count > 1 then Dispatched(h, r, Synthesized) else h;
      if tk.tap.count > 1 {
        SynthesizedAgrees(cfg, tk, [k] + rest, h.out, k.event.time);
        OneMoreDispatch(h.out, Dispatch(r, Synthesized));
      } else {
        NotDownAgrees(cfg, tk, [k] + rest, h.out);
      }
      assert Physical(h'.out) == Physical(h.out);
      StartTapAgrees(cfg, EMPTY, k, rest, h');
    } else {
      if k.event.pressed {
        PressIsOtherKey(h.out, tk, k.event, Events(rest));
        PressMeansNoneOpen(h.out, k.event, Events(rest));
      }
      PassOnAgrees(cfg, tk, k, rest, h.out, Ordered);
    }
  }

  /** While a key is down as a tap, the next press is of another key. */
  lemma {:induction false} PressIsOtherKey(out: seq<Dispatch>, tk: Record, e: Event, rest: seq<Event>)
    requires TapIsDown(tk, out) && IsPressing(tk) && tk.tap.count > 0 && e.pressed
    requires Alternates(OnKey(Physical(out) + [e] + rest, e.key))
    ensures tk.event.key != e.key
  {
    var mine := OnKey(Physical(out), e.key);
    OnKeyConcat(Physical(out) + [e], rest, e.key);
    OnKeyConcat(Physical(out), [e], e.key);
    assert [e][..0] == [];
    if mine != [] {
      LastBeforePress(mine, e, OnKey(rest, e.key));
    }
  }

  lemma {:induction false} LastBeforePress(a: seq<Event>, e: Event, b: seq<Event>)
    requires a != [] && Alternates(a + [e] + b)
    ensures a[|a| - 1].pressed != e.pressed
  {
    var all := a + [e] + b;
    assert all[|a|] == e && all[|a| - 1] == a[|a| - 1];
  }

  /** The front record after the tapping key was released. */
  lemma {:induction false} AfterTapTurnAgrees(cfg: Config, tk: Record, k: Record, rest: seq<Record>, h: Host)
    requires Agrees(cfg, tk, [k] + rest, h.out) && IsTapping(tk) && !tk.event.pressed
    requires !IsNoEvent(k.event) && (k.event.pressed ==> k.tap.count == 0)
    requires Alternates(OnKey(Physical(h.out) + [k.event] + Events(rest), k.event.key))
    ensures var v := Process(cfg, tk, rest, h, k);
            Agrees(cfg, v.tk, Turn(v).q, v.host.out)
  {
    var v := Process(cfg, tk, rest, h, k);
    var held := tk.(tap := tk.tap.(interrupted := true));
    assert MadeUpAreReleases(h.out);
    hide Agrees;
    hide StartTap;
    NotDownAgrees(cfg, tk, [k] + rest, h.out);
    if k.event.pressed {
      PressMeansNoneOpen(h.out, k.event, Events(rest));
    }
    if !Within(cfg, tk, k.event) {
    } else if k.event.pressed && tk.event.key == k.event.key {
      if IsSequential(cfg, tk, k) {
        SequentialAgrees(cfg, tk, k, rest, h.out, v.keyp);
      } else {
        TakeUpAgrees(cfg, tk, k, rest, h.out);
      }
    } else if k.event.pressed && IsTapRecord(cfg, h, k) {
      StartTapAgrees(cfg, tk, k, rest, h);
    } else {
      PassOnAgrees(cfg, tk, k, rest, h.out, Ordered);
      AlikeAgrees(cfg, tk, held, rest, h.out + [Dispatch(k, Ordered)]);
    }
  }

  lemma {:induction false} IdleTurnAgrees(cfg: Config, tk: Record, k: Record, rest: seq<Record>, h: Host)
    requires Agrees(cfg, tk, [k] + rest, h.out) && !IsTapping(tk)
    requires !IsNoEvent(k.event) && (k.event.pressed ==> k.tap.count == 0)
    requires Alternates(OnKey(Physical(h.out) + [k.event] + Events(rest), k.event.key))
    ensures var v := Process(cfg, tk, rest, h, k);
            v.consumed && Agrees(cfg, v.tk, v.q, v.host.out)
  {
    assert MadeUpAreReleases(h.out);
    hide Agrees;
    hide StartTap;
    if k.event.pressed {
      PressMeansNoneOpen(h.out, k.event, Events(rest));
    }
    if k.event.pressed && IsTapRecord(cfg, h, k) {
      StartTapAgrees(cfg, tk, k, rest, h);
    } else {
      PassOnAgrees(cfg, tk, k, rest, h.out, Ordered);
    }
  }

  ghost function NextTurn(cfg: Config, s: State): State
    requires s.q != []
  {
    Turn(Process(cfg, s.tk, s.q[1..], s.host, s.q[0]))
  }

  lemma {:induction false} LineOfTurn(s: State)
    requires s.q != [] && AllAlternate(Line(s))
    ensures IsUndecided(s.tk) ==>
              Alternates(OnKey(Physical(s.host.out) + [s.tk.event] + Events(s.q), s.tk.event.key))
    ensures !IsUndecided(s.tk) ==>
              Alternates(OnKey(Physical(s.host.out) + [s.q[0].event] + Events(s.q[1..]), s.q[0].event.key))
  {
    hide OnKey;
    hide Alternates;
    assert Events(s.q) == [s.q[0].event] + Events(s.q[1..]);
    if IsUndecided(s.tk) {
      assert Line(s) == Physical(s.host.out) + [s.tk.event] + Events(s.q);
    } else {
      assert Line(s) == Physical(s.host.out) + [s.q[0].event] + Events(s.q[1..]);
    }
  }

  lemma {:induction false} TurnAgrees(cfg: Config, s: State)
    requires Sound(cfg, s) && s.q != []
    ensures var s' := NextTurn(cfg, s); Agrees(cfg, s'.tk, s'.q, s'.host.out)
  {
    var k, rest := s.q[0], s.q[1..];
    assert s.q == [k] + rest;
    LineOfTurn(s);
    assert MadeUpAreReleases(s.host.out);
    hide Process;
    hide Agrees;
    if IsUndecided(s.tk) {
      PressMeansNoneOpen(s.host.out, s.tk.event, Events(s.q));
      UndecidedTurnAgrees(cfg, s.tk, k, rest, s.host);
    } else if IsPressing(s.tk) {
      TappedTurnAgrees(cfg, s.tk, k, rest, s.host);
    } else if IsTapping(s.tk) {
      AfterTapTurnAgrees(cfg, s.tk, k, rest, s.host);
    } else {
      IdleTurnAgrees(cfg, s.tk, k, rest, s.host);
    }
  }

  /** No branch breaks the invariant: every turn of the drain loop keeps it, from every state. */
  lemma {:induction false} TurnSound(cfg: Config, s: State)
    requires Sound(cfg, s) && s.q != []
    ensures Sound(cfg, NextTurn(cfg, s))
  {
    var v := Process(cfg, s.tk, s.q[1..], s.host, s.q[0]);
    DrainTurnFlow(cfg, s, v);
    DrainTurnKeys(cfg, s, v);
    TurnAgrees(cfg, s);
    hide Process;
    hide Agrees;
    hide Line;
    hide Committed;
  }

  lemma {:induction false} DrainSound(cfg: Config, s: State)
    requires Sound(cfg, s)
    ensures Sound(cfg, Drain(cfg, s))
    decreases |s.q|
  {
    if s.q != [] {
      TurnSound(cfg, s);
      ProcessKeepsQueueEvents(cfg, s.tk, s.q[1..], s.host, s.q[0]);
      hide Process;
      hide Sound;
      if Process(cfg, s.tk, s.q[1..], s.host, s.q[0]).consumed {
        DrainSound(cfg, NextTurn(cfg, s));
      }
    }
  }

  // ---------- a new event ----------

  lemma {:induction false} SuffixOfLine(tk: Record, q: seq<Record>, e: Event)
    requires Chronological(Undecided(tk) + Events(q) + [e])
    ensures Chronological(Events(q) + [e])
  {
    assert Undecided(tk) + Events(q) + [e] == Undecided(tk) + (Events(q) + [e]);
    ChronologicalSuffix(Undecided(tk), Events(q) + [e]);
  }

  /** A record without a tap mark goes to the end of the queue. */
  lemma {:induction false} AppendAgrees(cfg: Config, tk: Record, q: seq<Record>, out: seq<Dispatch>, k: Record)
    requires Agrees(cfg, tk, q, out) && !IsMarked(k)
    requires Chronological(Undecided(tk) + Events(q) + [k.event])
    ensures Agrees(cfg, tk, q + [k], out)
  {
    forall key ensures Expect(tk, q + [k], key) == Expect(tk, q, key) {
      NextOfAppend(q, k, key);
    }
    NextOfAppend(q, k, tk.event.key);
    assert Undecided(tk) + Events(q + [k]) == Undecided(tk) + Events(q) + [k.event];
    hide Chronological;
    hide Next;
  }

  lemma {:induction false} NoneWaits(q: seq<Record>, key: Key)
    requires OnKey(Events(q), key) == []
    ensures Next(q, key) == None
  {
    NextSome(q, key);
    if Next(q, key).Some? {
      var i :| 0 <= i < |q| && q[i] == Next(q, key).value && q[i].event.key == key
               && forall j :: 0 <= j < i ==> q[j].event.key != key;
      OnKeyHas(Events(q), i, key);
    }
  }

  /** A new release overtakes an undecided press. */
  lemma {:induction false} OvertakenAgrees(cfg: Config, tk: Record, q: seq<Record>, out: seq<Dispatch>, k: Record)
    requires Agrees(cfg, tk, q, out) && IsUndecided(tk) && tk.event.key != k.event.key
    requires !k.event.pressed && k.tap.count == 0 && OnKey(Events(q), k.event.key) == []
    ensures Agrees(cfg, tk, q, out + [Dispatch(k, Overtaking)])
  {
    NoneWaits(q, k.event.key);
    PhysicalOneMore(out, Dispatch(k, Overtaking), tk.event.key);
    ReleaseOpens(tk, q, out, k, Overtaking, tk, q);
  }

  /** The one arrival that breaks the invariant: the undecided key is released in time for a tap while an earlier
      release of it still waits, which then is the one that belongs to the press. Line 186 takes the new one. */
  ghost predicate Mispick(cfg: Config, s: State, e: Event) {
    && !IsNoEvent(e) && IsUndecided(s.tk) && IsReleaseOf(s.tk, Fresh(e)) && Within(cfg, s.tk, e)
    && exists i :: 0 <= i < |s.q| && s.q[i].event.key == e.key && !s.q[i].event.pressed
  }

  /** Unless a release of the undecided key waits, no event of it does: the next one would be a release. */
  lemma {:induction false} NoneOfUndecided(tk: Record, q: seq<Record>, front: seq<Event>, more: seq<Event>)
    requires IsUndecided(tk) && forall i :: 0 <= i < |q| && q[i].event.key == tk.event.key ==> q[i].event.pressed
    requires Alternates(OnKey(front + [tk.event] + (Events(q) + more), tk.event.key))
    ensures Next(q, tk.event.key) == None
    ensures forall i :: 0 <= i < |q| ==> q[i].event.key != tk.event.key
  {
    var key := tk.event.key;
    NextSome(q, key);
    if Next(q, key).Some? {
      var i :| 0 <= i < |q| && q[i] == Next(q, key).value && q[i].event.key == key
               && forall j :: 0 <= j < i ==> q[j].event.key != key;
      FirstIsRelease(tk, q, front, more, i);
    }
  }

  lemma {:induction false} FirstIsRelease(tk: Record, q: seq<Record>, front: seq<Event>, more: seq<Event>, i: nat)
    requires IsUndecided(tk) && i < |q| && q[i].event.key == tk.event.key
    requires forall j :: 0 <= j < i ==> q[j].event.key != tk.event.key
    requires Alternates(OnKey(front + [tk.event] + (Events(q) + more), tk.event.key))
    ensures !q[i].event.pressed
  {
    assert (Events(q) + more)[i] == q[i].event;
    assert forall j :: 0 <= j < i ==> (Events(q) + more)[j] == q[j].event;
    AfterPressComesRelease(front, tk.event, Events(q) + more, i);
  }

  /** After a mispick the press is out as a tap, but the first release waiting for it is not marked. */
  lemma {:induction false} MispickBreaks(cfg: Config, s: State, e: Event)
    requires Agrees(cfg, s.tk, s.q, s.host.out) && !Overflows(cfg, s, e) && Mispick(cfg, s, e)
    requires Alternates(OnKey(Line(s) + [e], e.key))
    ensures var s' := Arrive(cfg, s, e); !Agrees(cfg, s'.tk, s'.q, s'.host.out)
  {
    var k, tk, q, key := Fresh(e), s.tk, s.q, s.tk.event.key;
    MakesTap(cfg, tk, k, q, s.host);
    LineUndecided(s, [e]);
    NextSome(q, key);
    UndecidedIsUnmarked(tk, q);
    NextOfAppend(q, k.(tap := Marked(tk).tap), key);
    hide Process;
    hide OnKey;
    hide Line;
    assert !TapQueued(Marked(tk), q + [k.(tap := Marked(tk).tap)]);
  }

  /** The release of the undecided key arrives in time: the press goes out as a tap. */
  lemma {:induction false} BecomesTapAgrees(cfg: Config, tk: Record, q: seq<Record>, out: seq<Dispatch>, k: Record)
    requires Agrees(cfg, tk, q, out) && IsUndecided(tk) && NoneOpen(out, tk.event.key)
    requires IsReleaseOf(tk, k) && Next(q, tk.event.key) == None
    requires forall i :: 0 <= i < |q| ==> q[i].event.key != tk.event.key
    requires Chronological(Undecided(tk) + Events(q) + [k.event])
    ensures Agrees(cfg, Marked(tk), q + [k.(tap := Marked(tk).tap)], out + [Dispatch(Marked(tk), Ordered)])
  {
    var k', tk' := k.(tap := Marked(tk).tap), Marked(tk);
    forall key ensures Next(q + [k'], key) == if key == tk.event.key then Some(k') else Next(q, key) {
      NextOfAppend(q, k', key);
    }
    assert MarksFirst(tk', q + [k']);
    SuffixOfLine(tk, q, k.event);
    assert Undecided(tk') + Events(q + [k']) == Events(q) + [k.event];
    PhysicalOneMore(out, Dispatch(tk', Ordered), tk.event.key);
    hide OpenAsExpected;
    hide MarksFirst;
    hide Chronological;
    hide Next;
    PressOpens(tk, q, out, tk', Ordered, tk', q + [k']);
  }

  lemma {:induction false} LineUndecided(s: State, added: seq<Event>)
    requires IsUndecided(s.tk)
    ensures Line(s) + added == Physical(s.host.out) + [s.tk.event] + (Events(s.q) + added)
    ensures Undecided(s.tk) + Events(s.q) + added == [s.tk.event] + Events(s.q) + added
  {
  }

  /** A new key event meets an undecided press. */
  lemma {:induction false} UndecidedArrivalAgrees(cfg: Config, s: State, e: Event)
    requires Agrees(cfg, s.tk, s.q, s.host.out) && IsUndecided(s.tk) && !IsNoEvent(e) && !Overflows(cfg, s, e)
    requires NoneOpen(s.host.out, s.tk.event.key)
    requires Chronological(Undecided(s.tk) + Events(s.q) + [e]) && !Mispick(cfg, s, e)
    requires Alternates(OnKey(Line(s) + [e], e.key))
    ensures var s' := Arrive(cfg, s, e); Agrees(cfg, s'.tk, s'.q, s'.host.out)
  {
    var k, tk, q, h := Fresh(e), s.tk, s.q, s.host;
    LineUndecided(s, [e]);
    SuffixOfLine(tk, q, e);
    assert Undecided(EMPTY) + Events(q) + [e] == Events(q) + [e];
    assert Undecided(Interrupted(tk)) == Undecided(tk);
    var v := Process(cfg, tk, q, h, k);
    ProcessKeepsQueueEvents(cfg, tk, q, h, k);
    if IsReleaseOf(tk, k) && Within(cfg, tk, e) {
      hide Agrees;
      NoneOfUndecided(tk, q, Physical(h.out), [e]);
      BecomesTapAgrees(cfg, tk, q, h.out, k);
    } else {
      UndecidedOutcomes(cfg, tk, k, q, h);
      assert Overtakes(cfg, tk, q, h, k) ==> k.event.key != tk.event.key && !Typed(q, e) && !e.pressed;
      hide Process;
      hide Overtakes;
      hide Agrees;
      if Overtakes(cfg, tk, q, h, k) {
        NothingOvertaken(Physical(h.out) + [tk.event], q, e);
        OvertakenAgrees(cfg, tk, q, h.out, k);
      } else {
        LetGoAgrees(cfg, tk, q, h.out, tk);
        LetGoAgrees(cfg, tk, q, h.out, Interrupted(tk));
        AlikeAgrees(cfg, tk, Interrupted(tk), q, h.out);
        AppendAgrees(cfg, v.tk, q, v.host.out, k);
      }
    }
  }

  /** Behind a released tapping key whose term is over, a new key event joins the records that wait. */
  lemma {:induction false} LateArrivalAgrees(cfg: Config, s: State, e: Event)
    requires Agrees(cfg, s.tk, s.q, s.host.out) && !IsNoEvent(e) && !Overflows(cfg, s, e)
    requires IsTapping(s.tk) && !s.tk.event.pressed && !Within(cfg, s.tk, e)
    requires Chronological(Undecided(s.tk) + Events(s.q) + [e])
    ensures var s' := Arrive(cfg, s, e); Agrees(cfg, s'.tk, s'.q, s'.host.out)
  {
    var k, tk, q, h := Fresh(e), s.tk, s.q, s.host;
    assert Process(cfg, tk, q, h, k) == Verdict(EMPTY, q, h, k, false);
    assert Undecided(EMPTY) == Undecided(tk);
    hide Process, Agrees, Chronological, Within;
    NotDownAgrees(cfg, tk, q, h.out);
    AppendAgrees(cfg, EMPTY, q, h.out, k);
  }

  /** With nothing waiting and nothing undecided, a new event is the whole queue. */
  lemma {:induction false} LoneSound(cfg: Config, s: State, e: Event)
    requires Sound(cfg, s) && s.q == [] && !IsUndecided(s.tk) && !IsNoEvent(e)
    requires Alternates(OnKey(Line(s) + [e], e.key))
    ensures Sound(cfg, s.(q := [Fresh(e)]))
  {
    hide Alternates, Expect;
    var s' := s.(q := [Fresh(e)]);
    assert Events(s'.q) == [e] && Events(s.q) == [];
    assert Line(s') == Line(s) + [e];
    LoneAlternates(s, e);
    LoneExpected(s, e);
    assert Undecided(s.tk) + Events(s'.q) == [e];
  }

  lemma {:induction false} LoneAlternates(s: State, e: Event)
    requires AllAlternate(Line(s)) && Alternates(OnKey(Line(s) + [e], e.key))
    ensures AllAlternate(Line(s) + [e])
  {
    hide Alternates, Line;
    forall key ensures Alternates(OnKey(Line(s) + [e], key)) {
      OnKeyConcat(Line(s), [e], key);
      if key != e.key {
        assert OnKey([e], key) == [];
        assert OnKey(Line(s) + [e], key) == OnKey(Line(s), key);
      }
    }
  }

  lemma {:induction false} LoneExpected(s: State, e: Event)
    ensures forall key: Key :: Expect(s.tk, [Fresh(e)], key) == Expect(s.tk, [], key)
  {
    forall key: Key ensures Expect(s.tk, [Fresh(e)], key) == Expect(s.tk, [], key) {
      assert [] + [Fresh(e)] == [Fresh(e)];
      NextOfAppend([], Fresh(e), key);
    }
  }

  lemma {:induction false} LoneArrival(cfg: Config, s: State, e: Event)
    requires s.q == [] && !IsNoEvent(e)
    ensures !Overflows(cfg, s, e)
    ensures Arrive(cfg, s, e) == NextTurn(cfg, s.(q := [Fresh(e)]))
  {
    assert [Fresh(e)][1..] == [];
    ProcessKeepsQueueEvents(cfg, s.tk, [], s.host, Fresh(e));
    hide Process;
  }

  /** A tick changes nothing but the fate of a tapping key whose term is over. */
  lemma {:induction false} TickAgrees(cfg: Config, s: State, e: Event)
    requires Agrees(cfg, s.tk, s.q, s.host.out) && e.key == TICK_KEY && !e.pressed
    requires IsUndecided(s.tk) ==> NoneOpen(s.host.out, s.tk.event.key)
    ensures var s' := Arrive(cfg, s, e); Agrees(cfg, s'.tk, s'.q, s'.host.out)
  {
    var k, tk, q, h := Fresh(e), s.tk, s.q, s.host;
    if IsUndecided(tk) {
      UndecidedOutcomes(cfg, tk, k, q, h);
      hide Agrees;
      LetGoAgrees(cfg, tk, q, h.out, tk);
      LetGoAgrees(cfg, tk, q, h.out, Interrupted(tk));
      AlikeAgrees(cfg, tk, Interrupted(tk), q, h.out);
    } else if !IsPressing(tk) {
      hide Agrees;
      NotDownAgrees(cfg, tk, q, h.out);
    }
  }

  // ---------- every run ----------

  /** Events as action_exec makes them: ticks, and key events whose time is not 0. */
  ghost predicate IsInput(e: Event) {
    if e.key == TICK_KEY then !e.pressed else e.time != 0
  }

  /** Between two calls, a key event may arrive: it comes in turn, the clock has not gone round since the oldest
      record that still waits, and the key goes down and up in turn. Ticks may always come. */
  ghost predicate MayArrive(cfg: Config, s: State, e: Event) {
    && IsInput(e)
    && (!IsNoEvent(e) ==>
          && InTurn(cfg, s, e)
          && Chronological(Undecided(s.tk) + Events(s.q) + [e])
          && Alternates(OnKey(Line(s) + [e], e.key)))
  }

  lemma {:induction false} ArriveAlternates(cfg: Config, s: State, e: Event)
    requires AllAlternate(Line(s)) && MayArrive(cfg, s, e) && !Overflows(cfg, s, e)
    ensures AllAlternate(Line(Arrive(cfg, s, e)))
  {
    if IsNoEvent(e) {
      assert Line(s) + Arrived(e) == Line(s);
    }
    forall key ensures Alternates(OnKey(Line(s) + Arrived(e), key)) {
      OnKeyConcat(Line(s), Arrived(e), key);
      assert !IsNoEvent(e) && key != e.key ==> OnKey([e], key) == [];
    }
    hide Arrive;
    hide Line;
    hide Overflows;
    ArriveKeys(cfg, s, e);
  }

  lemma {:induction false} SoundNoneOpen(cfg: Config, s: State)
    requires Sound(cfg, s) && IsUndecided(s.tk)
    ensures NoneOpen(s.host.out, s.tk.event.key)
  {
    LineUndecided(s, []);
    assert Line(s) + [] == Line(s) && Events(s.q) + [] == Events(s.q);
    PressMeansNoneOpen(s.host.out, s.tk.event, Events(s.q));
  }

  /** An arrival that may come keeps the invariant if and only if it is no mispick. */
  lemma {:induction false} ArriveSoundExactly(cfg: Config, s: State, e: Event)
    requires Sound(cfg, s) && MayArrive(cfg, s, e) && !Overflows(cfg, s, e)
    ensures Sound(cfg, Arrive(cfg, s, e)) <==> !Mispick(cfg, s, e)
  {
    if Mispick(cfg, s, e) {
      MispickBreaks(cfg, s, e);
    } else {
      ArriveSound(cfg, s, e);
    }
  }

  lemma {:induction false} ArriveAgrees(cfg: Config, s: State, e: Event)
    requires Sound(cfg, s) && MayArrive(cfg, s, e) && !Overflows(cfg, s, e) && !Mispick(cfg, s, e)
    requires s.q != [] || IsUndecided(s.tk) || IsNoEvent(e)
    ensures var s' := Arrive(cfg, s, e); Agrees(cfg, s'.tk, s'.q, s'.host.out)
  {
    hide Arrive, Agrees, Line, Overflows, Mispick, Chronological, Alternates, Within;
    if IsUndecided(s.tk) {
      SoundNoneOpen(cfg, s);
    }
    if IsNoEvent(e) {
      TickAgrees(cfg, s, e);
    } else if IsUndecided(s.tk) {
      UndecidedArrivalAgrees(cfg, s, e);
    } else {
      LateArrivalAgrees(cfg, s, e);
    }
  }

  lemma {:induction false} ArriveSound(cfg: Config, s: State, e: Event)
    requires Sound(cfg, s) && MayArrive(cfg, s, e) && !Overflows(cfg, s, e) && !Mispick(cfg, s, e)
    ensures Sound(cfg, Arrive(cfg, s, e))
  {
    hide Arrive, Agrees, Line, Overflows, Mispick, Chronological, Alternates, Within;
    ArriveFlow(cfg, s, e);
    ArriveAlternates(cfg, s, e);
    if s.q == [] && !IsUndecided(s.tk) && !IsNoEvent(e) {
      LoneSound(cfg, s, e);
      LoneArrival(cfg, s, e);
      TurnSound(cfg, s.(q := [Fresh(e)]));
    } else {
      ArriveAgrees(cfg, s, e);
    }
  }

  lemma {:induction false} WipedSound(cfg: Config, s: State)
    requires s.tk == EMPTY && s.q == [] && s.host.out == []
    ensures Sound(cfg, s)
  {
    assert Line(s) == [];
    assert Undecided(s.tk) + Events(s.q) == [];
  }

  /** Every event of the run may arrive when it does, and none is a mispick. */
  ghost predicate CleanRun(cfg: Config, es: seq<Event>) {
    es == [] ||
    var s, e := RunOf(cfg, es[..|es| - 1]).s, es[|es| - 1];
    && CleanRun(cfg, es[..|es| - 1])
    && MayArrive(cfg, s, e)
    && !Mispick(cfg, s, e)
  }

  lemma {:induction false} RunSound(cfg: Config, es: seq<Event>)
    requires CleanRun(cfg, es)
    ensures Sound(cfg, RunOf(cfg, es).s)
    decreases |es|
  {
    if es == [] {
      WipedSound(cfg, INIT);
    } else {
      var s, e := RunOf(cfg, es[..|es| - 1]).s, es[|es| - 1];
      RunSound(cfg, es[..|es| - 1]);
      hide MayArrive;
      hide Mispick;
      hide Overflows;
      hide Sound;
      hide Arrive;
      if Overflows(cfg, s, e) {
        OverflowFlow(cfg, s, e);
        WipedSound(cfg, RunOf(cfg, es).s);
      } else {
        ArriveSound(cfg, s, e);
        DrainSound(cfg, Arrive(cfg, s, e));
      }
    }
  }

  /** Tap or hold, the host sees one decision per stroke: on every clean run each press and the next
      release of its key, physical or made up, both carry a tap count or both carry none. */
  lemma {:induction false} TapHoldPairing(cfg: Config, es: seq<Event>)
    requires CleanRun(cfg, es)
    ensures TapsPair(RunOf(cfg, es).s.host.out)
  {
    RunSound(cfg, es);
    PairedMeans(RunOf(cfg, es).s.host.out);
  }
}
