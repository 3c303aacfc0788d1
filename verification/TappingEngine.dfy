/** The tapping engine as quantum/action_tapping.c runs it: a tapping key and a ring of eight slots, changed
    in place. Every method is proved to compute the function of module Tapping it stands for. */
module TappingEngine {
  import opened Tapping

  /** The `n`-th slot from `tail`, going round. */
  function Slot(tail: nat, n: nat): (i: nat)
    ensures i < WAITING_BUFFER_SIZE
  {
    (tail + n) % WAITING_BUFFER_SIZE
  }

  /** The slots from `tail` up to but not including `head`, going round. */
  ghost function Ring(slots: seq<Record>, tail: nat, head: nat): (q: seq<Record>)
    requires |slots| == WAITING_BUFFER_SIZE && head < WAITING_BUFFER_SIZE && tail < WAITING_BUFFER_SIZE
    ensures |q| == if tail <= head then head - tail else head + WAITING_BUFFER_SIZE - tail
    ensures forall i :: 0 <= i < |q| ==> q[i] == slots[Slot(tail, i)]
  {
    if tail <= head then slots[tail..head] else slots[tail..] + slots[..head]
  }

  lemma {:induction false} RingUpdate(slots: seq<Record>, tail: nat, head: nat, n: nat, r: Record)
    requires |slots| == WAITING_BUFFER_SIZE && head < WAITING_BUFFER_SIZE && tail < WAITING_BUFFER_SIZE
    requires n < |Ring(slots, tail, head)|
    ensures Ring(slots[Slot(tail, n) := r], tail, head) == Ring(slots, tail, head)[n := r]
  {
  }

  lemma {:induction false} SlotNext(tail: nat, n: nat)
    requires tail < WAITING_BUFFER_SIZE && n < WAITING_BUFFER_SIZE
    ensures Slot(tail, 0) == tail && (Slot(tail, n) + 1) % WAITING_BUFFER_SIZE == Slot(tail, n + 1)
  {
  }

  /** An index that goes round meets `head` when it has passed all records. */
  lemma {:induction false} RoundTheRing(slots: seq<Record>, tail: nat, head: nat, n: nat)
    requires |slots| == WAITING_BUFFER_SIZE && head < WAITING_BUFFER_SIZE && tail < WAITING_BUFFER_SIZE
    requires n <= |Ring(slots, tail, head)|
    ensures Slot(tail, n) == head <==> n == |Ring(slots, tail, head)|
    ensures Slot(tail, 0) == tail && (Slot(tail, n) + 1) % WAITING_BUFFER_SIZE == Slot(tail, n + 1)
  {
    SlotNext(tail, n);
    if tail + n < WAITING_BUFFER_SIZE {
      assert Slot(tail, n) == tail + n;
    } else {
      assert Slot(tail, n) == tail + n - WAITING_BUFFER_SIZE;
    }
  }

  /** Storing one more record at `head`, which is full when the next index is `tail`. */
  lemma {:induction false} RingAppend(slots: seq<Record>, tail: nat, head: nat, r: Record)
    requires |slots| == WAITING_BUFFER_SIZE && head < WAITING_BUFFER_SIZE && tail < WAITING_BUFFER_SIZE
    ensures (head + 1) % WAITING_BUFFER_SIZE == tail <==> IsFull(Ring(slots, tail, head))
    ensures !IsFull(Ring(slots, tail, head)) ==>
      Ring(slots[head := r], tail, (head + 1) % WAITING_BUFFER_SIZE) == Ring(slots, tail, head) + [r]
  {
    var q := Ring(slots, tail, head);
    if !IsFull(q) {
      var q' := Ring(slots[head := r], tail, (head + 1) % WAITING_BUFFER_SIZE);
      assert |q'| == |q| + 1;
      forall i | 0 <= i < |q'| ensures q'[i] == (q + [r])[i] {
      }
    }
  }

  lemma {:induction false} FirstIs(cfg: Config, tk: Record, q: seq<Record>, n: nat)
    requires n <= |q| && forall j :: 0 <= j < n ==> !IsTapRelease(cfg, tk, q[j])
    requires n < |q| ==> IsTapRelease(cfg, tk, q[n])
    ensures FirstTapRelease(cfg, tk, q) == n
  {
  }

  /** A press at the front of the queue is never taken for its own release. */
  lemma {:induction false} SkipsItself(cfg: Config, k: Record, rest: seq<Record>)
    requires k.event.pressed
    ensures var q, f := [k] + rest, FirstTapRelease(cfg, k, rest);
            && FirstTapRelease(cfg, k, q) == f + 1
            && (f < |rest| ==> q[f + 1 := Marked(q[f + 1])] == [k] + rest[f := Marked(rest[f])])
  {
    assert ([k] + rest)[1..] == rest;
  }

  lemma {:induction false} DrainOfNothing(cfg: Config, s: State)
    requires s.q == []
    ensures Drain(cfg, s) == s
  {
  }

  lemma {:induction false} DrainUnfolds(cfg: Config, s: State, v: Verdict)
    requires s.q != [] && v == Process(cfg, s.tk, s.q[1..], s.host, s.q[0])
    ensures |v.q| == |s.q| - 1
    ensures Drain(cfg, s) ==
      if v.consumed then Drain(cfg, State(v.tk, v.q, v.host)) else State(v.tk, [v.keyp] + v.q, v.host)
  {
    ProcessKeepsQueueEvents(cfg, s.tk, s.q[1..], s.host, s.q[0]);
  }

  class Engine {
    const cfg: Config
    const waitingBuffer: array<Record>
    var tappingKey: Record
    var head: nat
    var tail: nat
    var host: Host

    ghost predicate Valid()
      reads this
    {
      waitingBuffer.Length == WAITING_BUFFER_SIZE && head < WAITING_BUFFER_SIZE && tail < WAITING_BUFFER_SIZE
    }

    /** The waiting records, oldest first. */
    ghost function Queue(): (q: seq<Record>)
      requires Valid()
      reads this, waitingBuffer
    {
      Ring(waitingBuffer[..], tail, head)
    }

    ghost function Abstract(): State
      requires Valid()
      reads this, waitingBuffer
    {
      State(tappingKey, Queue(), host)
    }

    constructor (cfg: Config)
      ensures Valid() && fresh(waitingBuffer) && this.cfg == cfg
      ensures Abstract() == INIT
    {
      this.cfg := cfg;
      tappingKey := EMPTY;
      waitingBuffer := new Record[WAITING_BUFFER_SIZE](_ => EMPTY);
      head, tail := 0, 0;
      host := Host([], []);
    }

    method ProcessRecord(record: Record, kind: Kind)
      modifies this`host
      ensures host == Dispatched(old(host), record, kind)
    {
      if !IsNoEvent(record.event) {
        host := host.(out := host.out + [Dispatch(record, kind)]);
      }
    }

    method WaitingBufferEnq(record: Record) returns (ok: bool)
      requires Valid()
      modifies this`head, waitingBuffer
      ensures Valid()
      ensures ok == (IsNoEvent(record.event) || !IsFull(old(Queue())))
      ensures Queue() == if IsNoEvent(record.event) || !ok then old(Queue()) else old(Queue()) + [record]
    {
      hide Ring, IsFull;
      RingAppend(waitingBuffer[..], tail, head, record);
      if IsNoEvent(record.event) {
        return true;
      }
      if (head + 1) % WAITING_BUFFER_SIZE == tail {
        return false;
      }
      ghost var slots := waitingBuffer[..];
      waitingBuffer[head] := record;
      assert waitingBuffer[..] == slots[head := record];
      head := (head + 1) % WAITING_BUFFER_SIZE;
      return true;
    }

    method WaitingBufferClear()
      requires Valid()
      modifies this`head, this`tail
      ensures Valid() && Queue() == []
    {
      head := 0;
      tail := 0;
    }

    method WaitingBufferTyped(event: Event) returns (typed: bool)
      requires Valid()
      ensures typed == Typed(Queue(), event)
    {
      hide Ring, Slot;
      ghost var q := Queue();
      var i := tail;
      ghost var n: nat := 0;
      RoundTheRing(waitingBuffer[..], tail, head, 0);
      while i != head
        invariant n <= |q| && i == Slot(tail, n)
        invariant forall j :: 0 <= j < n ==> !(q[j].event.key == event.key && q[j].event.pressed != event.pressed)
        decreases |q| - n
      {
        RoundTheRing(waitingBuffer[..], tail, head, n);
        assert waitingBuffer[i] == q[n];
        if event.key == waitingBuffer[i].event.key && event.pressed != waitingBuffer[i].event.pressed {
          return true;
        }
        i := (i + 1) % WAITING_BUFFER_SIZE;
        n := n + 1;
        RoundTheRing(waitingBuffer[..], tail, head, n);
      }
      RoundTheRing(waitingBuffer[..], tail, head, n);
      return false;
    }

    method WaitingBufferScanTap()
      requires Valid()
      modifies this`tappingKey, this`host, waitingBuffer
      ensures Valid()
      ensures var tk, q := old(tappingKey), old(Queue());
              var f := FirstTapRelease(cfg, tk, q);
              if tk.tap.count > 0 || !tk.event.pressed || f == |q| then
                tappingKey == tk && Queue() == q && host == old(host)
              else
                && tappingKey == Marked(tk)
                && Queue() == q[f := Marked(q[f])]
                && host == Dispatched(old(host), Marked(tk), Ordered)
    {
      hide Ring, Slot;
      hide FirstTapRelease;
      hide IsTapRelease;
      hide Dispatched;
      if tappingKey.tap.count > 0 || !tappingKey.event.pressed {
        return;
      }
      ghost var q := Queue();
      ghost var slots := waitingBuffer[..];
      var i := tail;
      ghost var n: nat := 0;
      RoundTheRing(waitingBuffer[..], tail, head, 0);
      while i != head
        invariant n <= |q| && i == Slot(tail, n)
        invariant forall j :: 0 <= j < n ==> !IsTapRelease(cfg, tappingKey, q[j])
        invariant tappingKey == old(tappingKey) && host == old(host) && waitingBuffer[..] == slots
        decreases |q| - n
      {
        RoundTheRing(waitingBuffer[..], tail, head, n);
        assert waitingBuffer[i] == q[n];
        if IsTapRelease(cfg, tappingKey, waitingBuffer[i]) {
          FirstIs(cfg, tappingKey, q, n);
          RingUpdate(slots, tail, head, n, Marked(q[n]));
          tappingKey := tappingKey.(tap := tappingKey.tap.(count := 1));
          waitingBuffer[i] := waitingBuffer[i].(tap := waitingBuffer[i].tap.(count := 1));
          assert waitingBuffer[..] == slots[i := Marked(q[n])];
          ProcessRecord(tappingKey, Ordered);
          return;
        }
        i := (i + 1) % WAITING_BUFFER_SIZE;
        n := n + 1;
        RoundTheRing(waitingBuffer[..], tail, head, n);
      }
      RoundTheRing(waitingBuffer[..], tail, head, n);
      FirstIs(cfg, tappingKey, q, n);
    }

    /** The queue as a record being processed sees it: without itself, when it stands at the front. */
    ghost function Others(queued: bool): seq<Record>
      requires Valid() && (queued ==> Queue() != [])
      reads this, waitingBuffer
    {
      if queued then Queue()[1..] else Queue()
    }

    /** What a method that plays the part of process_tapping leaves behind, given the verdict it stands
        for. A record that came from the queue still occupies its slot. */
    ghost predicate Carries(v: Verdict, keyp: Record, queued: bool)
      requires Valid()
      reads this, waitingBuffer
    {
      && tappingKey == v.tk && host == v.host
      && Queue() == (if queued then [keyp] else []) + v.q
    }

    /** `tapping_key = *keyp; waiting_buffer_scan_tap()` */
    method StartTap(keyp: Record, queued: bool)
      requires Valid() && (queued ==> Queue() != [] && Queue()[0] == keyp)
      modifies this`tappingKey, this`host, waitingBuffer
      ensures Valid()
      ensures Carries(Tapping.StartTap(cfg, old(Others(queued)), old(host), keyp), keyp, queued)
    {
      hide Ring;
      hide FirstTapRelease;
      ghost var q := Queue();
      assert queued ==> q == [keyp] + q[1..];
      tappingKey := keyp;
      WaitingBufferScanTap();
      if queued && keyp.event.pressed {
        SkipsItself(cfg, keyp, q[1..]);
      }
    }

    lemma {:induction false} TypedAmongOthers(event: Event, queued: bool)
      requires Valid() && (queued ==> Queue() != [] && Queue()[0].event == event)
      ensures Typed(Queue(), event) == Typed(Others(queued), event)
    {
      var q, rest := Queue(), Others(queued);
      if queued {
        assert forall i :: 0 < i < |q| ==> q[i] == rest[i - 1];
      }
    }

    /** Lines 185-289. */
    method ProcessUndecided(keyp: Record, queued: bool) returns (consumed: bool, keyp': Record)
      requires Valid() && (queued ==> Queue() != [] && Queue()[0] == keyp)
      modifies this`tappingKey, this`host
      ensures Valid()
      ensures var v := Tapping.ProcessUndecided(cfg, old(tappingKey), old(Others(queued)), old(host), keyp);
              Carries(v, keyp, queued) && consumed == v.consumed && keyp' == v.keyp
    {
      keyp' := keyp;
      var event := keyp.event;
      TypedAmongOthers(event, queued);
      var typed := WaitingBufferTyped(event);
      assert queued ==> Queue() == [keyp] + Queue()[1..];
      hide Ring;
      hide Typed;
      if IsReleaseOf(tappingKey, keyp) {
        tappingKey := tappingKey.(tap := tappingKey.tap.(count := 1));
        ProcessRecord(tappingKey, Ordered);
        keyp' := keyp.(tap := tappingKey.tap);
        return false, keyp';
      } else if IsReleased(event) && typed && cfg.permissive(host, tappingKey) {
        ProcessRecord(tappingKey, Ordered);
        tappingKey := EMPTY;
        return false, keyp';
      } else if IsReleased(event) && !typed {
        if cfg.retain(host, keyp) {
          return false, keyp';
        }
        ProcessRecord(keyp, Overtaking);
        return true, keyp';
      } else {
        if event.pressed {
          tappingKey := tappingKey.(tap := tappingKey.tap.(interrupted := true));
          if cfg.holdOnOther {
            ProcessRecord(tappingKey, Ordered);
            tappingKey := EMPTY;
            return false, keyp';
          }
        }
        return false, keyp';
      }
    }

    /** Lines 291-331 and 343-376. */
    method ProcessTapped(keyp: Record, queued: bool, inTerm: bool) returns (keyp': Record)
      requires Valid() && (queued ==> Queue() != [] && Queue()[0] == keyp)
      modifies this`tappingKey, this`host, waitingBuffer
      ensures Valid()
      ensures var v := Tapping.ProcessTapped(cfg, old(tappingKey), old(Others(queued)), old(host), keyp, inTerm);
              Carries(v, keyp, queued) && v.consumed && keyp' == v.keyp
    {
      keyp' := keyp;
      assert queued ==> Queue() == [keyp] + Queue()[1..];
      hide Ring;
      if IsReleaseOf(tappingKey, keyp) {
        keyp' := keyp.(tap := tappingKey.tap);
        ProcessRecord(keyp', Ordered);
        tappingKey := if inTerm then keyp' else EMPTY;
      } else if IsTapRecord(cfg, host, keyp) && keyp.event.pressed {
        if tappingKey.tap.count > 1 {
          ProcessRecord(SynthesizedRelease(tappingKey, keyp.event.time), Synthesized);
        }
        StartTap(keyp, queued);
      } else {
        ProcessRecord(keyp, Ordered);
      }
    }

    /** Lines 374-420. */
    method ProcessAfterTap(keyp: Record, queued: bool) returns (consumed: bool, keyp': Record)
      requires Valid() && (queued ==> Queue() != [] && Queue()[0] == keyp)
      modifies this`tappingKey, this`host, waitingBuffer
      ensures Valid()
      ensures var v := Tapping.ProcessAfterTap(cfg, old(tappingKey), old(Others(queued)), old(host), keyp);
              Carries(v, keyp, queued) && consumed == v.consumed && keyp' == v.keyp
    {
      keyp' := keyp;
      var event := keyp.event;
      assert queued ==> Queue() == [keyp] + Queue()[1..];
      hide Ring;
      if Within(cfg, tappingKey, event) {
        if event.pressed {
          if tappingKey.event.key == event.key {
            if WithinQuick(cfg, tappingKey, event) && !tappingKey.tap.interrupted && tappingKey.tap.count > 0 {
              keyp' := keyp.(tap := tappingKey.tap);
              if keyp'.tap.count < MAX_TAP_COUNT {
                keyp' := keyp'.(tap := keyp'.tap.(count := keyp'.tap.count + 1));
              }
              ProcessRecord(keyp', Ordered);
              tappingKey := keyp';
              return true, keyp';
            }
            tappingKey := keyp;
            return true, keyp';
          } else if IsTapRecord(cfg, host, keyp) {
            StartTap(keyp, queued);
            return true, keyp';
          } else {
            tappingKey := tappingKey.(tap := tappingKey.tap.(interrupted := true));
            ProcessRecord(keyp, Ordered);
            return true, keyp';
          }
        } else {
          ProcessRecord(keyp, Ordered);
          return true, keyp';
        }
      } else {
        tappingKey := EMPTY;
        return false, keyp';
      }
    }

    /** process_tapping. `queued` says that `keyp` is the front of the waiting buffer; what the source
        writes through the pointer is returned as `keyp'`. */
    method ProcessTapping(keyp: Record, queued: bool) returns (consumed: bool, keyp': Record)
      requires Valid() && (queued ==> Queue() != [] && Queue()[0] == keyp)
      modifies this`tappingKey, this`host, waitingBuffer
      ensures Valid()
      ensures var v := Process(cfg, old(tappingKey), old(Others(queued)), old(host), keyp);
              Carries(v, keyp, queued) && consumed == v.consumed && keyp' == v.keyp
    {
      assert queued ==> Queue() == [keyp] + Queue()[1..];
      hide Ring;
      hide Tapping.ProcessUndecided;
      hide Tapping.ProcessTapped;
      hide Tapping.ProcessAfterTap;
      hide Tapping.StartTap;
      if IsPressing(tappingKey) {
        var inTerm := Within(cfg, tappingKey, keyp.event);
        if tappingKey.tap.count > 0 {
          keyp' := ProcessTapped(keyp, queued, inTerm);
          return true, keyp';
        } else if inTerm {
          consumed, keyp' := ProcessUndecided(keyp, queued);
        } else {
          ProcessRecord(tappingKey, Ordered);
          tappingKey := EMPTY;
          return false, keyp;
        }
      } else if IsTapping(tappingKey) {
        consumed, keyp' := ProcessAfterTap(keyp, queued);
      } else {
        if keyp.event.pressed && IsTapRecord(cfg, host, keyp) {
          StartTap(keyp, queued);
        } else {
          ProcessRecord(keyp, Ordered);
        }
        return true, keyp;
      }
    }

    /** Storing `keyp` back in the front slot. */
    lemma {:induction false} FrontStored(slots: seq<Record>, q: seq<Record>, keyp: Record)
      requires Valid() && |slots| == WAITING_BUFFER_SIZE && Ring(slots, tail, head) == q != []
      requires waitingBuffer[..] == slots[tail := keyp]
      ensures Queue() == [keyp] + q[1..]
    {
      RingUpdate(slots, tail, head, 0, keyp);
    }

    lemma {:induction false} FrontDropped(tail': nat)
      requires Valid() && Queue() != [] && tail' == (tail + 1) % WAITING_BUFFER_SIZE
      ensures Ring(waitingBuffer[..], tail', head) == Queue()[1..]
    {
    }

    /** The loop of lines 108-116. */
    method DrainWaitingBuffer()
      requires Valid()
      modifies this`tappingKey, this`host, this`tail, waitingBuffer
      ensures Valid()
      ensures Abstract() == Drain(cfg, old(Abstract()))
    {
      hide Ring;
      hide Process;
      hide Drain;
      ghost var s0 := Abstract();
      while tail != head
        invariant Valid()
        invariant Drain(cfg, Abstract()) == Drain(cfg, s0)
        decreases |Queue()|
      {
        ghost var s := Abstract();
        assert waitingBuffer[tail] == s.q[0];
        var consumed, keyp := ProcessTapping(waitingBuffer[tail], true);
        ghost var v := Process(cfg, s.tk, s.q[1..], s.host, s.q[0]);
        DrainUnfolds(cfg, s, v);
        ghost var q, slots := Queue(), waitingBuffer[..];
        assert q[1..] == v.q;
        waitingBuffer[tail] := keyp;
        FrontStored(slots, q, keyp);
        if !consumed {
          assert Abstract() == Drain(cfg, s);
          return;
        }
        FrontDropped((tail + 1) % WAITING_BUFFER_SIZE);
        tail := (tail + 1) % WAITING_BUFFER_SIZE;
        assert Queue() == v.q;
      }
      DrainOfNothing(cfg, Abstract());
    }

    /** Lines 88-102: the event itself, processed or queued. */
    method TakeIn(record: Record)
      requires Valid() && record == Fresh(record.event)
      modifies this, waitingBuffer
      ensures Valid()
      ensures Abstract() == Arrive(cfg, old(Abstract()), record.event)
    {
      hide Ring, Process, IsFull;
      ghost var s := Abstract();
      var consumed, record' := ProcessTapping(record, false);
      ghost var v := Process(cfg, s.tk, s.q, s.host, record);
      ProcessKeepsQueueEvents(cfg, s.tk, s.q, s.host, record);
      assert Queue() == v.q;
      if !consumed {
        var ok := WaitingBufferEnq(record');
        if !ok {
          // The queue is full: clear_keyboard() and forget everything.
          host := Host(host.cleared + [host.out], []);
          WaitingBufferClear();
          tappingKey := EMPTY;
        }
      }
    }

    /** action_tapping_process: one key event or tick, for a record as action_exec makes it. */
    method ActionTappingProcess(record: Record)
      requires Valid() && record == Fresh(record.event)
      modifies this, waitingBuffer
      ensures Valid()
      ensures Abstract() == Step(cfg, old(Abstract()), record.event)
    {
      TakeIn(record);
      DrainWaitingBuffer();
    }
  }
}
