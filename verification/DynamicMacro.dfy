/** Two dynamic macros recorded into one array, the first from its front, the second from its back. */
module DynamicMacro {

  import opened Keys

  datatype Record = Record(key: Key, pressed: bool)

  datatype Keycode = Start1 | Start2 | Stop | Play1 | Play2 | Ordinary

  /** What the rest of the firmware sees of a playback. */
  datatype Output = ClearKeyboard | Process(record: Record)

  // ---------- what a recording keeps ----------

  /** The input without the releases that come before the first press. */
  function WithoutLeadingReleases(input: seq<Record>): (s: seq<Record>)
    ensures |s| <= |input|
  {
    if input != [] && !input[0].pressed then WithoutLeadingReleases(input[1..]) else input
  }

  function Cut(s: seq<Record>, capacity: nat): seq<Record> {
    if |s| <= capacity then s else s[..capacity]
  }

  /** What is in the buffer while recording. */
  function Captured(input: seq<Record>, capacity: nat): seq<Record> {
    Cut(WithoutLeadingReleases(input), capacity)
  }

  /** The presses at the end belong to the keys that lead to the stop key. */
  function WithoutTrailingPresses(s: seq<Record>): (t: seq<Record>)
    ensures |t| <= |s|
  {
    if s != [] && s[|s| - 1].pressed then WithoutTrailingPresses(s[..|s| - 1]) else s
  }

  function Stored(input: seq<Record>, capacity: nat): seq<Record> {
    WithoutTrailingPresses(Captured(input, capacity))
  }

  function Reversed(s: seq<Record>): (r: seq<Record>)
    ensures |r| == |s|
  {
    seq(|s|, i requires 0 <= i < |s| => s[|s| - 1 - i])
  }

  lemma {:induction false} LeadingNext(input: seq<Record>, r: Record)
    ensures WithoutLeadingReleases(input + [r]) ==
      if WithoutLeadingReleases(input) == [] && !r.pressed then [] else WithoutLeadingReleases(input) + [r]
    decreases |input|
  {
    if input == [] {
      assert [] + [r] == [r];
    } else if !input[0].pressed {
      assert (input + [r])[1..] == input[1..] + [r];
      LeadingNext(input[1..], r);
    }
  }

  /** One more key: ignored as a leading release or when the buffer is full, else appended. */
  lemma {:induction false} CapturedNext(input: seq<Record>, r: Record, capacity: nat)
    ensures Captured(input + [r], capacity) ==
      if (Captured(input, capacity) == [] && !r.pressed) || |Captured(input, capacity)| == capacity
      then Captured(input, capacity) else Captured(input, capacity) + [r]
  {
    LeadingNext(input, r);
  }

  lemma {:induction false} LeadingIsSuffix(input: seq<Record>) returns (n: nat)
    ensures n <= |input| && WithoutLeadingReleases(input) == input[n..]
    ensures forall i :: 0 <= i < n ==> !input[i].pressed
    ensures n < |input| ==> input[n].pressed
    decreases |input|
  {
    if input != [] && !input[0].pressed {
      var m := LeadingIsSuffix(input[1..]);
      n := m + 1;
      forall i | 0 <= i < n ensures !input[i].pressed {
        if i > 0 {
          assert !input[1..][i - 1].pressed;
        }
      }
    } else {
      n := 0;
    }
  }

  lemma {:induction false} TrimIsPrefix(s: seq<Record>)
    ensures var t := WithoutTrailingPresses(s);
            && t == s[..|t|] && (t != [] ==> !t[|t| - 1].pressed)
            && forall i :: |t| <= i < |s| ==> s[i].pressed
    decreases |s|
  {
    if s != [] && s[|s| - 1].pressed {
      var n := |s| - 1;
      TrimIsPrefix(s[..n]);
      var t := WithoutTrailingPresses(s);
      assert s[..n][..|t|] == s[..|t|];
      forall i | |t| <= i < |s| ensures s[i].pressed {
        assert i < n ==> s[..n][i].pressed;
      }
    }
  }

  /** The stored macro is the stretch of input from its first press on, as far as there is room and up to the last
      release in that stretch. */
  lemma {:induction false} StoredExactly(input: seq<Record>, capacity: nat)
    ensures exists n: nat :: n + |Stored(input, capacity)| <= |input| && IsStored(input, capacity, n)
  {
    var n := LeadingIsSuffix(input);
    TrimIsPrefix(Captured(input, capacity));
    var t := Stored(input, capacity);
    assert t == input[n..n + |t|];
    forall i | n + |t| <= i < |input| && i < n + capacity ensures input[i].pressed {
      assert Captured(input, capacity)[i - n] == input[i];
    }
    assert IsStored(input, capacity, n);
  }

  ghost predicate IsStored(input: seq<Record>, capacity: nat, n: nat)
    requires n + |Stored(input, capacity)| <= |input|
  {
    var t := Stored(input, capacity);
    && t == input[n..n + |t|] && |t| <= capacity
    && (forall i :: 0 <= i < n ==> !input[i].pressed)
    && (t != [] ==> t[0].pressed && !t[|t| - 1].pressed)
    && forall i :: n + |t| <= i < |input| && i < n + capacity ==> input[i].pressed
  }

  // ---------- the two macros ----------

  datatype Mode = Idle | Recording1(input: seq<Record>) | Recording2(input: seq<Record>)

  /** A macro is empty while it is being recorded anew. */
  datatype Macros = Macros(one: seq<Record>, two: seq<Record>, mode: Mode)

  predicate Share(size: nat, m: Macros) {
    |m.one| + |m.two| <= size
  }

  /** Recording 1 leaves macro 2 alone and stores what fits beside it, and the other way round. */
  function Next(size: nat, m: Macros, keycode: Keycode, r: Record): Macros {
    match m.mode
    case Idle =>
      if r.pressed then m
      else if keycode == Start1 then m.(one := [], mode := Recording1([]))
      else if keycode == Start2 then m.(two := [], mode := Recording2([]))
      else m
    case Recording1(input) =>
      if keycode == Stop then
        if r.pressed && |m.two| <= size then m.(one := Stored(input, size - |m.two|), mode := Idle) else m
      else if keycode in {Play1, Play2} then m
      else m.(mode := Recording1(input + [r]))
    case Recording2(input) =>
      if keycode == Stop then
        if r.pressed && |m.one| <= size then m.(two := Stored(input, size - |m.one|), mode := Idle) else m
      else if keycode in {Play1, Play2} then m
      else m.(mode := Recording2(input + [r]))
  }

  function Outputs(s: seq<Record>): (o: seq<Output>)
    ensures |o| == |s|
  {
    seq(|s|, i requires 0 <= i < |s| => Process(s[i]))
  }

  function Playback(s: seq<Record>): seq<Output> {
    [ClearKeyboard] + Outputs(s) + [ClearKeyboard]
  }

  function Played(m: Macros, keycode: Keycode, r: Record): seq<Output> {
    if m.mode != Idle || r.pressed then []
    else if keycode == Play1 then Playback(m.one)
    else if keycode == Play2 then Playback(m.two)
    else if keycode in {Start1, Start2} then [ClearKeyboard]
    else []
  }

  function PassedOn(m: Macros, keycode: Keycode, r: Record): bool {
    if m.mode == Idle then r.pressed || keycode in {Stop, Ordinary} else keycode !in {Stop, Play1, Play2}
  }

  /** On every step the macros share the array. */
  lemma {:induction false} NextShares(size: nat, m: Macros, keycode: Keycode, r: Record)
    requires Share(size, m)
    ensures Share(size, Next(size, m, keycode, r))
    ensures m.mode.Recording1? ==> Next(size, m, keycode, r).two == m.two
    ensures m.mode.Recording2? ==> Next(size, m, keycode, r).one == m.one
  {
    match m.mode
    case Idle =>
    case Recording1(input) => TrimIsPrefix(Captured(input, size - |m.two|));
    case Recording2(input) => TrimIsPrefix(Captured(input, size - |m.one|));
  }

  function Typed(size: nat, m: Macros, keys: seq<Record>): Macros
    decreases |keys|
  {
    if keys == [] then m else Next(size, Typed(size, m, keys[..|keys| - 1]), Ordinary, keys[|keys| - 1])
  }

  lemma {:induction false} TypedRecords(size: nat, m: Macros, keys: seq<Record>)
    requires m.mode.Recording1? || m.mode.Recording2?
    ensures Typed(size, m, keys) ==
      m.(mode := if m.mode.Recording1? then Recording1(m.mode.input + keys) else Recording2(m.mode.input + keys))
    decreases |keys|
  {
    if keys != [] {
      TypedRecords(size, m, keys[..|keys| - 1]);
      assert keys[..|keys| - 1] + [keys[|keys| - 1]] == keys;
      assert m.mode.input + keys[..|keys| - 1] + [keys[|keys| - 1]] == m.mode.input + keys;
    } else {
      assert m.mode.input + [] == m.mode.input;
    }
  }

  /** Start, keys, stop, play: the playback is the stored part of the keys, and the other macro is as it was. */
  lemma {:induction false} RecordThenPlay(size: nat, m: Macros, keys: seq<Record>, first: bool, any: Key)
    requires Share(size, m) && m.mode == Idle
    ensures var up, down := Record(any, false), Record(any, true);
            var recorded := Typed(size, Next(size, m, if first then Start1 else Start2, up), keys);
            var after := Next(size, recorded, Stop, down);
            && after.mode == Idle
            && (if first then after.two == m.two else after.one == m.one)
            && Played(after, if first then Play1 else Play2, up)
               == Playback(Stored(keys, size - if first then |m.two| else |m.one|))
  {
    hide Stored, Playback;
    var up := Record(any, false);
    var started := Next(size, m, if first then Start1 else Start2, up);
    TypedRecords(size, started, keys);
    assert [] + keys == keys;
  }

  /** Only the release of a start key begins a recording, from nothing; the play keys and the release of the stop key
      do nothing while one is under way, and every other key joins it. */
  lemma {:induction false} NextExactly(size: nat, m: Macros, keycode: Keycode, r: Record)
    ensures m.mode == Idle ==>
      var next := Next(size, m, keycode, r);
      if keycode == Start1 && !r.pressed then next == Macros([], m.two, Recording1([]))
      else if keycode == Start2 && !r.pressed then next == Macros(m.one, [], Recording2([]))
      else next == m
    ensures m.mode != Idle && (keycode in {Play1, Play2} || (keycode == Stop && !r.pressed)) ==>
      Next(size, m, keycode, r) == m
    ensures m.mode != Idle && keycode in {Start1, Start2, Ordinary} ==>
      var next := Next(size, m, keycode, r);
      && (next.one, next.two) == (m.one, m.two)
      && next.mode == if m.mode.Recording1? then Recording1(m.mode.input + [r]) else Recording2(m.mode.input + [r])
  {
  }

  /** Ordinary keys always reach the rest of the firmware. The macro keys do so only as presses outside a recording,
      and a start key while one is under way; a stop key outside a recording means nothing. */
  lemma {:induction false} KeysPassOn(m: Macros, keycode: Keycode, r: Record)
    ensures keycode == Ordinary ==> PassedOn(m, keycode, r)
    ensures m.mode == Idle && (r.pressed || keycode == Stop) ==> PassedOn(m, keycode, r)
    ensures m.mode == Idle && !r.pressed && keycode in {Start1, Start2, Play1, Play2} ==> !PassedOn(m, keycode, r)
    ensures m.mode != Idle && keycode in {Start1, Start2} ==> PassedOn(m, keycode, r)
    ensures m.mode != Idle && keycode in {Stop, Play1, Play2} ==> !PassedOn(m, keycode, r)
  {
  }

  /** A playback releases every key first and last; starting a recording does so too, and nothing else is sent. */
  lemma {:induction false} PlayedExactly(m: Macros, keycode: Keycode, r: Record)
    ensures var o := Played(m, keycode, r);
            if m.mode == Idle && !r.pressed && keycode in {Play1, Play2} then
              var macro := if keycode == Play1 then m.one else m.two;
              && |o| == |macro| + 2 && o[0] == ClearKeyboard && o[|o| - 1] == ClearKeyboard
              && forall i :: 0 <= i < |macro| ==> o[i + 1] == Process(macro[i])
            else if m.mode == Idle && !r.pressed && keycode in {Start1, Start2} then o == [ClearKeyboard]
            else o == []
  {
  }
}
