/** The macro array and the pointers the firmware moves over it. */
module DynamicMacroEngine {

  import opened DynamicMacro

  lemma {:induction false} NextStop(size: nat, m: Macros, r: Record)
    requires !m.mode.Idle? && |m.one| <= size && |m.two| <= size
    ensures Next(size, m, Stop, r) ==
      if !r.pressed then m
      else if m.mode.Recording1? then Macros(Stored(m.mode.input, size - |m.two|), m.two, Idle)
      else Macros(m.one, Stored(m.mode.input, size - |m.one|), Idle)
  {
  }

  lemma {:induction false} NextPlay(size: nat, m: Macros, keycode: Keycode, r: Record)
    requires !m.mode.Idle? && keycode in {Play1, Play2}
    ensures Next(size, m, keycode, r) == m
  {
  }

  lemma {:induction false} NextKept(size: nat, m: Macros, keycode: Keycode, r: Record)
    requires !m.mode.Idle? && keycode !in {Stop, Play1, Play2}
    ensures m.mode.Recording1? ==> Next(size, m, keycode, r) == m.(mode := Recording1(m.mode.input + [r]))
    ensures m.mode.Recording2? ==> Next(size, m, keycode, r) == m.(mode := Recording2(m.mode.input + [r]))
  {
  }

  class Engine {
    const buffer: array<Record>
    var macroEnd: int
    var rMacroEnd: int
    var pointer: int
    var macroId: int
    var layers: nat
    ghost var input: seq<Record>
    ghost var trace: seq<Output>

    constructor (size: nat, blank: Record)
      requires size > 0
      ensures Valid() && fresh(buffer) && buffer.Length == size
      ensures Abstract() == Macros([], [], Idle)
    {
      buffer := new Record[size](_ => blank);
      macroEnd, rMacroEnd, pointer, macroId, layers, input, trace := 0, size - 1, 0, 0, 0, [], [];
    }

    /** The ends never cross; while recording, the pointer stays out of the other macro. */
    ghost predicate Valid()
      reads this, buffer
    {
      && buffer.Length > 0 && 0 <= macroEnd <= rMacroEnd + 1 <= buffer.Length && macroId in {0, 1, 2}
      && (macroId == 1 ==> 0 <= pointer <= rMacroEnd + 1 && buffer[..pointer] == Captured(input, rMacroEnd + 1))
      && (macroId == 2 ==> macroEnd <= pointer + 1 <= buffer.Length
                           && Reversed(buffer[pointer + 1..]) == Captured(input, buffer.Length - macroEnd))
    }

    ghost function Abstract(): Macros
      requires Valid()
      reads this, buffer
    {
      Macros(if macroId == 1 then [] else buffer[..macroEnd],
             if macroId == 2 then [] else Reversed(buffer[rMacroEnd + 1..]),
             if macroId == 0 then Idle else if macroId == 1 then Recording1(input) else Recording2(input))
    }

    method RecordStart(start: int)
      modifies this`layers, this`pointer, this`trace
      ensures pointer == start && layers == 0 && trace == old(trace) + [ClearKeyboard]
    {
      trace := trace + [ClearKeyboard];
      layers := 0;
      pointer := start;
    }

    /** Plays from `start` up to but not including `end`; the layers the keys changed are put back. */
    method Play(start: int, end: int, direction: int)
      requires Run(buffer.Length, start, end, direction)
      modifies this`layers, this`trace
      ensures layers == old(layers)
      ensures trace == old(trace) + Playback(Walk(buffer[..], start, end, direction))
    {
      hide Run, Walk, Outputs;
      ghost var s, n: nat := Walk(buffer[..], start, end, direction), 0;
      NothingPlayed(s);
      var saved := layers;
      trace := trace + [ClearKeyboard];
      layers := 0;
      var at := start;
      WalkStart(buffer[..], start, end, direction);
      while at != end
        invariant n <= |s| && at == WalkAt(start, direction, n)
        invariant trace == old(trace) + [ClearKeyboard] + Outputs(s[..n])
        decreases |s| - n
      {
        WalkNext(buffer[..], start, end, direction, n);
        OutputsNext(s, n);
        trace := trace + [Process(buffer[at])];
        layers := *;
        at := at + direction;
        n := n + 1;
      }
      WalkEnds(buffer[..], start, end, direction, n);
      assert s[..n] == s;
      trace := trace + [ClearKeyboard];
      layers := saved;
    }

    /** Stores the key unless it is a leading release or the next slot is the other macro's. */
    method RecordKey(start: int, end2: int, direction: int, record: Record)
      requires direction == 1 || direction == -1
      requires 0 <= pointer < buffer.Length || pointer - direction == end2
      modifies this`pointer, buffer
      ensures if (!record.pressed && old(pointer) == start) || old(pointer) - direction == end2
              then pointer == old(pointer) && buffer[..] == old(buffer[..])
              else pointer == old(pointer) + direction && buffer[..] == old(buffer[..][pointer := record])
    {
      if !record.pressed && pointer == start {
        return;
      }
      if pointer - direction != end2 {
        buffer[pointer] := record;
        pointer := pointer + direction;
      }
    }

    /** The end of the recording once the presses before it are trimmed. */
    method RecordEnd(start: int, direction: int) returns (end: int)
      requires Run(buffer.Length, start, pointer, direction)
      ensures direction == 1 ==> start <= end <= pointer
      ensures direction == -1 ==> pointer <= end <= start
      ensures Run(buffer.Length, start, end, direction)
      ensures Walk(buffer[..], start, end, direction)
        == WithoutTrailingPresses(Walk(buffer[..], start, pointer, direction))
    {
      hide Run, Walk, WithoutTrailingPresses;
      end := pointer;
      if end != start {
        WalkBack(buffer[..], start, end, direction);
      }
      while end != start && buffer[end - direction].pressed
        invariant Run(buffer.Length, start, end, direction)
        invariant direction == 1 ==> end <= pointer
        invariant direction == -1 ==> pointer <= end
        invariant end != start ==> 0 <= end - direction < buffer.Length
        invariant WithoutTrailingPresses(Walk(buffer[..], start, end, direction))
          == WithoutTrailingPresses(Walk(buffer[..], start, pointer, direction))
        decreases |Walk(buffer[..], start, end, direction)|
      {
        WalkBack(buffer[..], start, end, direction);
        TrimStep(Walk(buffer[..], start, end, direction));
        end := end - direction;
      }
      if end != start {
        WalkBack(buffer[..], start, end, direction);
      } else {
        WalkNowhere(buffer[..], start, direction);
      }
      TrimStep(Walk(buffer[..], start, end, direction));
      RunMeans(buffer.Length, start, end, direction);
    }

    method ProcessRecordDynamicMacro(keycode: Keycode, record: Record) returns (passOn: bool)
      requires Valid()
      modifies this, buffer
      ensures Valid()
      ensures Abstract() == Next(buffer.Length, old(Abstract()), keycode, record)
      ensures trace == old(trace) + Played(old(Abstract()), keycode, record)
      ensures passOn == PassedOn(old(Abstract()), keycode, record)
      ensures keycode in {Play1, Play2} ==> layers == old(layers)
    {
      hide Captured, WithoutTrailingPresses, Playback, Reversed, Stored;
      assert trace + [] == trace;
      if macroId == 0 {
        if !record.pressed {
          passOn := Command(keycode, record);
          return;
        }
        return true;
      }
      passOn := WhileRecording(keycode, record);
    }

    /** A key while a macro is being recorded. */
    method WhileRecording(keycode: Keycode, record: Record) returns (passOn: bool)
      requires Valid() && macroId != 0
      modifies this`macroEnd, this`rMacroEnd, this`macroId, this`pointer, this`input, buffer
      ensures Valid()
      ensures Abstract() == Next(buffer.Length, old(Abstract()), keycode, record)
      ensures passOn <==> keycode !in {Stop, Play1, Play2}
    {
      hide Captured, WithoutTrailingPresses, Reversed, Stored, Next;
      ghost var m := Abstract();
      match keycode {
        case Stop =>
          if record.pressed {
            StopRecording();
          }
          NextStop(buffer.Length, m, record);
          return false;
        case Play1 =>
          NextPlay(buffer.Length, m, keycode, record);
          return false;
        case Play2 =>
          NextPlay(buffer.Length, m, keycode, record);
          return false;
        case _ =>
          KeepRecording(record);
          NextKept(buffer.Length, m, keycode, record);
          return true;
      }
    }

    /** A release while nothing is being recorded. */
    method Command(keycode: Keycode, record: Record) returns (passOn: bool)
      requires Valid() && macroId == 0 && !record.pressed
      modifies this
      ensures Valid()
      ensures Abstract() == Next(buffer.Length, old(Abstract()), keycode, record)
      ensures trace == old(trace) + Played(old(Abstract()), keycode, record)
      ensures passOn == PassedOn(old(Abstract()), keycode, record)
      ensures keycode in {Play1, Play2} ==> layers == old(layers)
    {
      hide Captured, WithoutTrailingPresses, Playback, Run, Walk, Reversed, Stored;
      match keycode {
        case Start1 =>
          RecordStart(0);
          macroId, input := 1, [];
          NothingCaptured(rMacroEnd + 1);
          return false;
        case Start2 =>
          RecordStart(buffer.Length - 1);
          macroId, input := 2, [];
          NothingCaptured(buffer.Length - macroEnd);
          return false;
        case Play1 =>
          Walks(buffer[..], macroEnd, rMacroEnd);
          Play(0, macroEnd, 1);
          return false;
        case Play2 =>
          Walks(buffer[..], macroEnd, rMacroEnd);
          Play(buffer.Length - 1, rMacroEnd, -1);
          return false;
        case _ =>
          assert trace + [] == trace;
          return true;
      }
    }

    method StopRecording()
      requires Valid() && macroId != 0
      modifies this`macroEnd, this`rMacroEnd, this`macroId
      ensures Valid() && macroId == 0
      ensures old(macroId) == 1 ==>
        Abstract() == Macros(Stored(input, buffer.Length - |old(Abstract()).two|), old(Abstract()).two, Idle)
      ensures old(macroId) == 2 ==>
        Abstract() == Macros(old(Abstract()).one, Stored(input, buffer.Length - |old(Abstract()).one|), Idle)
    {
      hide Captured, WithoutTrailingPresses, Run, Walk, Reversed;
      if macroId == 1 {
        Walks(buffer[..], pointer, rMacroEnd);
      } else {
        Walks(buffer[..], macroEnd, pointer);
      }
      if macroId == 1 {
        macroEnd := RecordEnd(0, 1);
      } else {
        rMacroEnd := RecordEnd(buffer.Length - 1, -1);
      }
      Walks(buffer[..], macroEnd, rMacroEnd);
      macroId := 0;
    }

    method KeepRecording(record: Record)
      requires Valid() && macroId != 0
      modifies this`pointer, this`input, buffer
      ensures Valid() && input == old(input) + [record]
      ensures old(macroId) == 1 ==> Abstract() == old(Abstract()).(mode := Recording1(input))
      ensures old(macroId) == 2 ==> Abstract() == old(Abstract()).(mode := Recording2(input))
    {
      if macroId == 1 {
        KeepFirst(record);
      } else {
        KeepSecond(record);
      }
    }

    method KeepFirst(record: Record)
      requires Valid() && macroId == 1
      modifies this`pointer, this`input, buffer
      ensures Valid() && input == old(input) + [record]
      ensures Abstract() == old(Abstract()).(mode := Recording1(input))
    {
      hide Captured, Reversed;
      CapturedNext(input, record, rMacroEnd + 1);
      RecordKey(0, rMacroEnd, 1, record);
      input := input + [record];
    }

    /** What Valid and Abstract come to while the second macro is recorded. */
    lemma {:induction false} WhileSecond()
      requires macroId == 2
      ensures Valid() <==> 0 <= macroEnd <= rMacroEnd + 1 <= buffer.Length && buffer.Length > 0
                           && SecondHolds(buffer[..], pointer, macroEnd, input)
      ensures Valid() ==> 0 <= macroEnd <= pointer + 1 <= buffer.Length
                          && Abstract() == Macros(buffer[..][..macroEnd], [], Recording2(input))
    {
      hide Captured, Reversed;
      if 0 <= macroEnd <= pointer + 1 <= buffer.Length {
        assert buffer[pointer + 1..] == buffer[..][pointer + 1..] && buffer[..macroEnd] == buffer[..][..macroEnd];
      }
    }

    method KeepSecond(record: Record)
      requires Valid() && macroId == 2
      modifies this`pointer, this`input, buffer
      ensures Valid() && input == old(input) + [record]
      ensures Abstract() == old(Abstract()).(mode := Recording2(input))
    {
      hide Captured, Reversed, SecondHolds, Valid, Abstract;
      WhileSecond();
      ghost var b, p := buffer[..], pointer;
      RecordKey(buffer.Length - 1, macroEnd, -1, record);
      SecondNext(b, p, macroEnd, input, record, buffer[..], pointer);
      input := input + [record];
      WhileSecond();
    }
  }

  lemma {:induction false} NothingCaptured(capacity: nat)
    ensures Captured([], capacity) == []
  {
  }

  /** A stretch of the array walked from `start` to `end`, front to back or back to front. */
  predicate Run(size: nat, start: int, end: int, direction: int) {
    (direction == 1 && 0 <= start <= end <= size) || (direction == -1 && -1 <= end <= start < size)
  }

  ghost function Walk(b: seq<Record>, start: int, end: int, direction: int): seq<Record>
    requires Run(|b|, start, end, direction)
  {
    if direction == 1 then b[start..end] else Reversed(b[end + 1..start + 1])
  }

  function WalkAt(start: int, direction: int, n: nat): int {
    if direction == 1 then start + n else start - n
  }

  lemma {:induction false} WalkStart(b: seq<Record>, start: int, end: int, direction: int)
    requires Run(|b|, start, end, direction)
    ensures |Walk(b, start, end, direction)| == (if direction == 1 then end - start else start - end)
    ensures direction in {1, -1}
  {
  }

  lemma {:induction false} WalkNext(b: seq<Record>, start: int, end: int, direction: int, n: nat)
    requires Run(|b|, start, end, direction) && n <= |Walk(b, start, end, direction)|
    requires WalkAt(start, direction, n) != end
    ensures n < |Walk(b, start, end, direction)| && 0 <= WalkAt(start, direction, n) < |b|
    ensures Walk(b, start, end, direction)[n] == b[WalkAt(start, direction, n)]
    ensures direction in {1, -1}
  {
    hide Reversed;
    if direction == -1 {
      ReversedAt(b[end + 1..start + 1], n);
    }
  }

  lemma {:induction false} ReversedAt(t: seq<Record>, n: nat)
    requires n < |t|
    ensures Reversed(t)[n] == t[|t| - 1 - n]
  {
  }

  lemma {:induction false} WalkEnds(b: seq<Record>, start: int, end: int, direction: int, n: nat)
    requires Run(|b|, start, end, direction) && WalkAt(start, direction, n) == end
    ensures |Walk(b, start, end, direction)| == n
  {
  }

  /** One step back from the end drops the last element. */
  lemma {:induction false} WalkBack(b: seq<Record>, start: int, end: int, direction: int)
    requires Run(|b|, start, end, direction) && end != start
    ensures Run(|b|, start, end - direction, direction) && 0 <= end - direction < |b|
    ensures end - direction != start ==> 0 <= end - 2 * direction < |b|
    ensures var w := Walk(b, start, end, direction);
            w != [] && w[|w| - 1] == b[end - direction] && Walk(b, start, end - direction, direction) == w[..|w| - 1]
  {
    var w := Walk(b, start, end, direction);
    if direction == -1 {
      var t := b[end + 1..start + 1];
      assert b[end + 2..start + 1] == t[1..];
    }
  }

  lemma {:induction false} RunMeans(size: nat, start: int, end: int, direction: int)
    requires Run(size, start, end, direction)
    ensures direction == 1 ==> 0 <= start <= end <= size
    ensures direction == -1 ==> -1 <= end <= start < size
  {
  }

  lemma {:induction false} WalkNowhere(b: seq<Record>, start: int, direction: int)
    requires Run(|b|, start, start, direction)
    ensures Walk(b, start, start, direction) == []
  {
  }

  lemma {:induction false} TrimStep(s: seq<Record>)
    ensures WithoutTrailingPresses(s) ==
      if s != [] && s[|s| - 1].pressed then WithoutTrailingPresses(s[..|s| - 1]) else s
  {
  }

  lemma {:induction false} NothingPlayed(s: seq<Record>)
    ensures Outputs(s[..0]) == []
  {
  }

  lemma {:induction false} OutputsNext(s: seq<Record>, n: nat)
    requires n < |s|
    ensures Outputs(s[..n + 1]) == Outputs(s[..n]) + [Process(s[n])]
  {
  }

  /** The two walks the engine makes. */
  lemma {:induction false} Walks(b: seq<Record>, one: int, two: int)
    requires |b| > 0 && 0 <= one <= |b| && -1 <= two < |b|
    ensures Run(|b|, 0, one, 1) && Walk(b, 0, one, 1) == b[..one]
    ensures Run(|b|, |b| - 1, two, -1) && Walk(b, |b| - 1, two, -1) == Reversed(b[two + 1..])
  {
  }

  /** Behind the pointer the array holds what recording the second macro has captured. */
  ghost predicate SecondHolds(b: seq<Record>, p: int, end: int, input: seq<Record>) {
    0 <= end <= p + 1 <= |b| && Reversed(b[p + 1..]) == Captured(input, |b| - end)
  }

  lemma {:induction false} StoredBehind(b: seq<Record>, p: nat, r: Record)
    requires p < |b|
    ensures b[p := r][p..] == [r] + b[p + 1..]
  {
  }

  lemma {:induction false} StoredBefore(b: seq<Record>, p: nat, r: Record, end: nat)
    requires end <= p < |b|
    ensures b[p := r][..end] == b[..end]
  {
  }

  /** What is kept, in the order of the array, when one more key is recorded. */
  lemma {:induction false} KeptNext(kept: seq<Record>, capacity: nat, input: seq<Record>, record: Record)
    requires Reversed(kept) == Captured(input, capacity)
    ensures Captured(input + [record], capacity) ==
      if (kept == [] && !record.pressed) || |kept| == capacity then Reversed(kept) else Reversed([record] + kept)
  {
    hide Reversed, Captured;
    CapturedNext(input, record, capacity);
    ReversedExtends(kept, record);
    assert |Reversed(kept)| == |kept|;
  }

  lemma {:induction false} HoldsKept(b: seq<Record>, p: int, end: int, input: seq<Record>, kept: seq<Record>)
    requires 0 <= end <= p + 1 <= |b| && kept == b[p + 1..]
    ensures SecondHolds(b, p, end, input) <==> Reversed(kept) == Captured(input, |b| - end)
    ensures |kept| == |b| - p - 1
  {
    hide Reversed, Captured;
  }

  lemma {:induction false} SecondStored(b: seq<Record>, p: nat, end: nat, input: seq<Record>, record: Record)
    requires SecondHolds(b, p, end, input) && end <= p < |b| && (record.pressed || p < |b| - 1)
    ensures SecondHolds(b[p := record], p - 1, end, input + [record])
  {
    hide Reversed, Captured, SecondHolds;
    var kept := b[p + 1..];
    HoldsKept(b, p, end, input, kept);
    KeptNext(kept, |b| - end, input, record);
    StoredBehind(b, p, record);
    HoldsKept(b[p := record], p - 1, end, input + [record], [record] + kept);
  }

  lemma {:induction false} SecondStays(b: seq<Record>, p: int, end: int, input: seq<Record>, record: Record)
    requires SecondHolds(b, p, end, input) && 0 <= end <= p + 1 <= |b|
    requires (!record.pressed && p == |b| - 1) || p + 1 == end
    ensures SecondHolds(b, p, end, input + [record])
  {
    hide Reversed, Captured, SecondHolds;
    var kept := b[p + 1..];
    HoldsKept(b, p, end, input, kept);
    KeptNext(kept, |b| - end, input, record);
    HoldsKept(b, p, end, input + [record], kept);
  }

  lemma {:induction false} SecondNext(b: seq<Record>, p: int, end: int, input: seq<Record>, record: Record,
                                      b': seq<Record>, p': int)
    requires SecondHolds(b, p, end, input) && 0 <= end <= p + 1 <= |b|
    requires if (!record.pressed && p == |b| - 1) || p + 1 == end then p' == p && b' == b
             else 0 <= p < |b| && p' == p - 1 && b' == b[p := record]
    ensures SecondHolds(b', p', end, input + [record]) && b'[..end] == b[..end]
  {
    hide SecondHolds;
    if p' == p {
      SecondStays(b, p, end, input, record);
    } else {
      SecondStored(b, p, end, input, record);
      StoredBefore(b, p, record, end);
    }
  }

  lemma {:induction false} ReversedExtends(s: seq<Record>, r: Record)
    ensures Reversed([r] + s) == Reversed(s) + [r]
  {
  }
}
