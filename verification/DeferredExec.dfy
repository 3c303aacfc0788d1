/** Deferred execution: a table of callbacks with tokens from a wrapping 8-bit counter and 32-bit trigger times. */
module DeferredExec {

  import opened Widths
  import opened Modular

  const INVALID: Byte := 0
  const NO_CALLBACK: nat := 0

  datatype Entry = Entry(token: Byte, trigger: U32, callback: nat, arg: nat)

  const EMPTY := Entry(INVALID, 0, NO_CALLBACK, 0)

  function Wrap(n: nat): U32 {
    Mod(n, 0x1_0000_0000)
  }

  /** The difference of two 32-bit times, read as a signed number. */
  function Difference(a: U32, b: U32): int {
    var d := if a >= b then a - b else a - b + 0x1_0000_0000;
    if d < 0x8000_0000 then d else d - 0x1_0000_0000
  }

  /** The comparison is right for true times less than 2^31 apart, wherever the 32-bit clock stands. */
  lemma {:induction false} DifferenceExactly(a: nat, b: nat)
    requires -0x8000_0000 <= a - b < 0x8000_0000
    ensures Difference(Wrap(a), Wrap(b)) == a - b
  {
    var p := ModSplit(a, 0x1_0000_0000);
    var q := ModSplit(b, 0x1_0000_0000);
    hide Mod;
  }

  // ---------- tokens ----------

  /** Live tokens are pairwise distinct. */
  ghost predicate Distinct(t: seq<Entry>) {
    forall i, j :: 0 <= i < j < |t| && t[i].token == t[j].token ==> t[i].token == INVALID
  }

  ghost predicate Used(t: seq<Entry>, token: Byte) {
    exists i :: 0 <= i < |t| && t[i].token == token
  }

  ghost predicate Exhausted(t: seq<Entry>) {
    forall k: nat :: 0 < k < 256 ==> Used(t, k)
  }

  ghost predicate HasFree(t: seq<Entry>) {
    Used(t, INVALID)
  }

  ghost function TokenSet(t: seq<Entry>): (s: set<int>)
    ensures |s| <= |t|
    ensures forall i :: 0 <= i < |t| ==> t[i].token in s
  {
    if t == [] then {}
    else
      var n := |t| - 1;
      var s := TokenSet(t[..n]);
      assert forall i :: 0 <= i < n ==> t[i] == t[..n][i];
      s + {t[n].token}
  }

  ghost function UpTo(n: nat): (s: set<int>)
    ensures |s| == n && forall k :: k in s <==> 0 <= k < n
  {
    if n == 0 then {} else UpTo(n - 1) + {n - 1}
  }

  lemma {:induction false} SubsetSmaller(a: set<int>, b: set<int>)
    requires a <= b
    ensures |a| <= |b|
  {
    assert a + (b - a) == b && a * (b - a) == {};
  }

  /** In a table of at most 255 entries a free slot leaves a free token. */
  lemma {:induction false} FreeSlotFreeToken(t: seq<Entry>)
    requires |t| <= 255 && HasFree(t)
    ensures !Exhausted(t)
  {
    if Exhausted(t) {
      forall k | k in UpTo(256) ensures k in TokenSet(t) {
        assert Used(t, k);
      }
      SubsetSmaller(UpTo(256), TokenSet(t));
    }
  }

  /** In a larger one 255 live entries beside the free slots use every token up. */
  lemma {:induction false} LargeTableExhausts(n: nat) returns (t: seq<Entry>)
    requires n >= 256
    ensures |t| == n && Distinct(t) && HasFree(t) && Exhausted(t)
  {
    t := seq(n, i requires 0 <= i < n => if 0 < i < 256 then Entry(i, 0, 1, 0) else EMPTY);
    assert t[0].token == INVALID;
    forall k: nat | 0 < k < 256 ensures Used(t, k) {
      assert t[k].token == k;
    }
  }

  /** A free slot is sure to find a token if and only if the table has at most 255 entries. */
  lemma {:induction false} TokensSufficeExactly(n: nat)
    ensures (forall t: seq<Entry> :: |t| == n && Distinct(t) && HasFree(t) ==> !Exhausted(t)) <==> n <= 255
  {
    hide Distinct, HasFree, Exhausted;
    if n <= 255 {
      forall t: seq<Entry> | |t| == n && HasFree(t) ensures !Exhausted(t) {
        FreeSlotFreeToken(t);
      }
    } else {
      var t := LargeTableExhausts(n);
    }
  }

  // ---------- passes ----------

  predicate Due(e: Entry, now: U32) {
    e.token != INVALID && Difference(e.trigger, now) <= 0
  }

  /** What is left of an entry whose callback asked for `delay`: it counts from its own trigger time. */
  function Rescheduled(e: Entry, delay: U32): Entry {
    if delay > 0 then e.(trigger := Wrap(e.trigger + delay)) else EMPTY
  }

  datatype Call = Call(index: nat, trigger: U32, callback: nat, arg: nat)

  /** A pass over the first `n` entries; `delays` are what the callbacks return. */
  ghost function Passed(t: seq<Entry>, now: U32, delays: seq<U32>): (t': seq<Entry>)
    requires |delays| == |t|
    ensures |t'| == |t|
  {
    seq(|t|, i requires 0 <= i < |t| => if Due(t[i], now) then Rescheduled(t[i], delays[i]) else t[i])
  }

  /** The calls of a pass, in table order. */
  function Calls(t: seq<Entry>, now: U32, n: nat): seq<Call>
    requires n <= |t|
  {
    if n == 0 then []
    else
      var e := t[n - 1];
      Calls(t, now, n - 1) + if Due(e, now) then [Call(n - 1, e.trigger, e.callback, e.arg)] else []
  }

  ghost function CountOf(calls: seq<Call>, i: nat): nat {
    if calls == [] then 0 else CountOf(calls[..|calls| - 1], i) + if calls[|calls| - 1].index == i then 1 else 0
  }

  /** Each due live entry is called once, no other at all. */
  lemma {:induction false} CalledOnceExactly(t: seq<Entry>, now: U32, n: nat, i: nat)
    requires n <= |t|
    ensures CountOf(Calls(t, now, n), i) == if i < n && Due(t[i], now) then 1 else 0
  {
    hide Due;
    if n > 0 {
      CalledOnceExactly(t, now, n - 1, i);
      var c := Calls(t, now, n);
      if Due(t[n - 1], now) {
        assert c[..|c| - 1] == Calls(t, now, n - 1);
      } else {
        assert c == Calls(t, now, n - 1);
      }
    }
  }

  /** While all true times lie within 2^31 of the pass, it calls exactly the live entries whose time has come. */
  lemma {:induction false} PassIsTrue(t: seq<Entry>, times: seq<nat>, now: nat, i: nat)
    requires |times| == |t| && i < |t| && t[i].trigger == Wrap(times[i])
    requires -0x8000_0000 <= times[i] - now < 0x8000_0000
    ensures CountOf(Calls(t, Wrap(now), |t|), i) == if t[i].token != INVALID && times[i] <= now then 1 else 0
  {
    hide Wrap, Difference;
    CalledOnceExactly(t, Wrap(now), |t|, i);
    DifferenceExactly(times[i], now);
  }

  lemma {:induction false} PassedDistinct(t: seq<Entry>, now: U32, delays: seq<U32>)
    requires |delays| == |t| && Distinct(t)
    ensures Distinct(Passed(t, now, delays))
  {
    hide Due;
    var p := Passed(t, now, delays);
    assert forall i :: 0 <= i < |t| ==> p[i].token in {t[i].token, INVALID};
  }

  // ---------- repetition ----------

  datatype Visit = Visit(now: U32, delay: U32)

  /** An entry after a series of passes. */
  function After(e: Entry, visits: seq<Visit>): Entry {
    if visits == [] then e
    else
      var p := After(e, visits[..|visits| - 1]);
      if Due(p, visits[|visits| - 1].now) then Rescheduled(p, visits[|visits| - 1].delay) else p
  }

  /** The trigger times its callback is given. */
  function Triggers(e: Entry, visits: seq<Visit>): seq<U32> {
    if visits == [] then []
    else
      var p := After(e, visits[..|visits| - 1]);
      Triggers(e, visits[..|visits| - 1]) + if Due(p, visits[|visits| - 1].now) then [p.trigger] else []
  }

  /** The delays its callback returns. */
  function Returned(e: Entry, visits: seq<Visit>): seq<U32> {
    if visits == [] then []
    else
      var p := After(e, visits[..|visits| - 1]);
      Returned(e, visits[..|visits| - 1])
        + if Due(p, visits[|visits| - 1].now) then [visits[|visits| - 1].delay] else []
  }

  function Sum(ds: seq<U32>): nat {
    if ds == [] then 0 else Sum(ds[..|ds| - 1]) + ds[|ds| - 1]
  }

  /** Trigger times and delays so far, and what they leave of the entry. */
  ghost predicate Regular(e: Entry, ts: seq<U32>, ds: seq<U32>, after: Entry) {
    && |ts| == |ds|
    && (forall k :: 0 <= k < |ts| ==> ts[k] == Wrap(e.trigger + Sum(ds[..k])))
    && (forall k :: 0 <= k < |ds| - 1 ==> ds[k] != 0)
    && after == if ds != [] && ds[|ds| - 1] == 0 then EMPTY else e.(trigger := Wrap(e.trigger + Sum(ds)))
  }

  lemma {:induction false} RegularNext(e: Entry, ts: seq<U32>, ds: seq<U32>, p: Entry, delay: U32)
    requires Regular(e, ts, ds, p) && p.token != INVALID
    ensures Regular(e, ts + [p.trigger], ds + [delay], Rescheduled(p, delay))
  {
    hide Wrap;
    var ts', ds' := ts + [p.trigger], ds + [delay];
    assert ds == [] || ds[|ds| - 1] != 0;
    SumNext(ds, delay);
    WrapSum(e.trigger + Sum(ds), delay);
    forall k | 0 <= k < |ts'| ensures ts'[k] == Wrap(e.trigger + Sum(ds'[..k])) {
      if k == |ds| {
        assert ds'[..k] == ds;
      } else {
        assert ds'[..k] == ds[..k];
      }
    }
  }

  /** However late the passes come, the k-th trigger is the first plus the delays returned before it. The entry lives
      until a callback returns 0. */
  lemma {:induction false} TriggersExactly(e: Entry, visits: seq<Visit>)
    requires e.token != INVALID
    ensures Regular(e, Triggers(e, visits), Returned(e, visits), After(e, visits))
  {
    hide Regular, Rescheduled;
    if visits == [] {
      RegularStart(e);
    } else {
      var v := visits[..|visits| - 1];
      TriggersExactly(e, v);
      TriggersNext(e, visits);
      var p := After(e, v);
      if Due(p, visits[|visits| - 1].now) {
        RegularNext(e, Triggers(e, v), Returned(e, v), p, visits[|visits| - 1].delay);
      }
    }
  }

  lemma {:induction false} RegularStart(e: Entry)
    ensures Regular(e, [], [], e)
  {
    WrapSmall(e.trigger);
  }

  lemma {:induction false} TriggersNext(e: Entry, visits: seq<Visit>)
    requires visits != []
    ensures var v, last := visits[..|visits| - 1], visits[|visits| - 1];
            var p := After(e, v);
            if Due(p, last.now) then
              && After(e, visits) == Rescheduled(p, last.delay)
              && Triggers(e, visits) == Triggers(e, v) + [p.trigger]
              && Returned(e, visits) == Returned(e, v) + [last.delay]
            else
              && After(e, visits) == p && Triggers(e, visits) == Triggers(e, v) && Returned(e, visits) == Returned(e, v)
  {
    hide Due, Rescheduled;
  }

  lemma {:induction false} WrapSmall(n: U32)
    ensures Wrap(n) == n
  {
    ModSmall(n, 0x1_0000_0000);
  }

  lemma {:induction false} WrapSum(n: nat, d: U32)
    ensures Wrap(Wrap(n) + d) == Wrap(n + d)
  {
    ModSum(n, d, 0x1_0000_0000);
  }

  lemma {:induction false} SumNext(ds: seq<U32>, d: U32)
    ensures Sum(ds + [d]) == Sum(ds) + d
  {
    assert (ds + [d])[..|ds|] == ds;
  }

  // ---------- an entry in its table ----------

  /** What is done to a table: a pass with what its callbacks return, a new entry, a new trigger, a cancellation. */
  datatype Op =
    | Pass(now: U32, delays: seq<U32>)
    | Defer(entry: Entry)
    | Extend(token: Byte, trigger: U32)
    | Cancel(token: Byte)

 /** The first free slot took the entry. */
  ghost predicate Claimed(before: seq<Entry>, after: seq<Entry>, e: Entry) {
    exists i :: 0 <= i < |before| && before[i].token == INVALID && after == before[i := e]
                && forall k :: 0 <= k < i ==> before[k].token != INVALID
  }

  /** At most the entries that hold the token have changed. */
  ghost predicate Mapped(t: seq<Entry>, t': seq<Entry>, token: Byte, f: Entry -> Entry) {
    && |t'| == |t|
    && forall i :: 0 <= i < |t| ==> t'[i] == t[i] || (t[i].token == token && t'[i] == f(t[i]))
  }

  /** Defer, extend and cancel may fail and leave the table as it is. */
  ghost predicate Stepped(t: seq<Entry>, t': seq<Entry>, op: Op) {
    match op
    case Pass(now, delays) => |delays| == |t| && t' == Passed(t, now, delays)
    case Defer(entry) => t' == t || Claimed(t, t', entry)
    case Extend(token, trigger) => Mapped(t, t', token, (e: Entry) => e.(trigger := trigger))
    case Cancel(token) => Mapped(t, t', token, (e: Entry) => EMPTY)
  }

  ghost predicate Trace(ts: seq<seq<Entry>>, ops: seq<Op>) {
    |ts| == |ops| + 1 && forall k :: 0 <= k < |ops| ==> Stepped(ts[k], ts[k + 1], ops[k])
  }

  /** The passes, as slot `i` sees them. */
  function Visits(ops: seq<Op>, i: nat): seq<Visit> {
    if ops == [] then []
    else
      var op := ops[|ops| - 1];
      Visits(ops[..|ops| - 1], i) + if op.Pass? && i < |op.delays| then [Visit(op.now, op.delays[i])] else []
  }

  ghost predicate Spared(ops: seq<Op>, token: Byte) {
    forall k :: 0 <= k < |ops| && (ops[k].Extend? || ops[k].Cancel?) ==> ops[k].token != token
  }

  /** Until its callback returns 0, an entry stays in its slot and goes from trigger to trigger as TriggersExactly
      says, whatever other entries are added, extended or cancelled between the passes. */
  lemma {:induction false} SlotFollows(ts: seq<seq<Entry>>, ops: seq<Op>, i: nat)
    requires Trace(ts, ops) && i < |ts[0]| && ts[0][i].token != INVALID && Spared(ops, ts[0][i].token)
    requires 0 !in Returned(ts[0][i], Visits(ops, i))
    ensures i < |ts[|ops|]| && ts[|ops|][i] == After(ts[0][i], Visits(ops, i))
    decreases |ops|
  {
    hide Stepped, Due, Rescheduled, Returned, After, Triggers, Spared;
    if ops != [] {
      var n := |ops| - 1;
      var e, before := ts[0][i], ops[..n];
      assert Trace(ts[..n + 1], before);
      SparedBefore(ops, e.token);
      ReturnedBefore(e, ops, i);
      SlotFollows(ts[..n + 1], before, i);
      StillLive(e, Visits(before, i));
      assert ts[..n + 1][n] == ts[n];
      SlotSteps(ts[n], ts[n + 1], ops[n], i, e, Visits(before, i));
      assert Visits(before, i) + [] == Visits(before, i);
    } else {
      assert Visits(ops, i) == [];
      NeverVisited(ts[0][i]);
    }
  }

  lemma {:induction false} NeverVisited(e: Entry)
    ensures After(e, []) == e
  {
  }

  lemma {:induction false} SparedBefore(ops: seq<Op>, token: Byte)
    requires ops != [] && Spared(ops, token)
    ensures Spared(ops[..|ops| - 1], token)
    ensures var op := ops[|ops| - 1]; op.Extend? || op.Cancel? ==> op.token != token
  {
  }

  lemma {:induction false} ReturnedBefore(e: Entry, ops: seq<Op>, i: nat)
    requires ops != [] && 0 !in Returned(e, Visits(ops, i))
    ensures 0 !in Returned(e, Visits(ops[..|ops| - 1], i))
  {
    hide Due, Rescheduled;
    var v, last := Visits(ops[..|ops| - 1], i), ops[|ops| - 1];
    if last.Pass? && i < |last.delays| {
      var w := v + [Visit(last.now, last.delays[i])];
      assert w[..|w| - 1] == v;
      TriggersNext(e, w);
    } else {
      assert v + [] == v;
    }
  }

  lemma {:induction false} StillLive(e: Entry, visits: seq<Visit>)
    requires e.token != INVALID && 0 !in Returned(e, visits)
    ensures After(e, visits).token == e.token
  {
    hide Returned, After, Triggers, Sum;
    TriggersExactly(e, visits);
    var ds := Returned(e, visits);
    assert ds != [] ==> ds[|ds| - 1] in ds;
  }

  /** One operation on the slot of a live entry that it does not name. */
  lemma {:induction false} SlotSteps(t: seq<Entry>, t': seq<Entry>, op: Op, i: nat, e: Entry, v: seq<Visit>)
    requires Stepped(t, t', op) && i < |t| && t[i] == After(e, v) && t[i].token != INVALID
    requires op.Extend? || op.Cancel? ==> op.token != t[i].token
    ensures i < |t'|
    ensures t'[i] == After(e, if op.Pass? && i < |op.delays| then v + [Visit(op.now, op.delays[i])] else v)
  {
    hide Due, Rescheduled;
    match op
    case Pass(now, delays) => {
      var v' := v + [Visit(now, delays[i])];
      assert v'[..|v|] == v && v'[|v|] == Visit(now, delays[i]);
      assert t'[i] == if Due(t[i], now) then Rescheduled(t[i], delays[i]) else t[i];
    }
    case Defer(entry) => if t' != t {
      var j :| 0 <= j < |t| && t[j].token == INVALID && t' == t[j := entry];
      assert i != j;
    }
    case Extend(_, _) =>
    case Cancel(_) =>
  }

 
  function Successor(token: Byte): Byte {
    (token + 1) % 256
  }

  /** The counter, starting at `first`, stopped at the first token that can be used. */
  ghost predicate FirstUsable(t: seq<Entry>, first: Byte, token: Byte) {
    exists n: nat :: n < 256 && StopsAfter(t, first, token, n)
  }

  /** Every token passed over is 0 or in use. */
  lemma {:induction false} FirstUsableExactly(t: seq<Entry>, first: Byte, token: Byte)
    ensures FirstUsable(t, first, token)
      <==> forall u: Byte :: (u - first) % 256 < (token - first) % 256 ==> u == 0 || Used(t, u)
  {
    hide Used;
    var n := (token - first) % 256;
    Around(first, token);
    if FirstUsable(t, first, token) {
      var m: nat :| m < 256 && StopsAfter(t, first, token, m);
      OnlyOffset(first, m);
      forall u: Byte | (u - first) % 256 < n ensures u == 0 || Used(t, u) {
        Around(first, u);
        assert Taken(t, first, (u - first) % 256);
      }
    }
    if forall u: Byte :: (u - first) % 256 < n ==> u == 0 || Used(t, u) {
      forall k: nat | k < n ensures Taken(t, first, k) {
        OnlyOffset(first, k);
      }
      assert StopsAfter(t, first, token, n);
    }
  }

  lemma {:induction false} Around(first: Byte, u: Byte)
    ensures (first + (u - first) % 256) % 256 == u
  {
  }

  lemma {:induction false} OnlyOffset(first: Byte, k: nat)
    requires k < 256
    ensures ((first + k) % 256 - first) % 256 == k
  {
  }

  ghost predicate StopsAfter(t: seq<Entry>, first: Byte, token: Byte, n: nat) {
    token == (first + n) % 256 && forall k: nat :: k < n ==> Taken(t, first, k)
  }

  /** The token `k` steps after `first` cannot be used. */
  ghost predicate Taken(t: seq<Entry>, first: Byte, k: nat) {
    (first + k) % 256 == 0 || Used(t, (first + k) % 256)
  }

  lemma {:induction false} NotYet(t: seq<Entry>, first: Byte)
    ensures StopsAfter(t, first, first, 0)
  {
  }

  /** The counter goes on; back where it started, it has seen every token taken. */
  lemma {:induction false} OneMoreTaken(t: seq<Entry>, first: Byte, token: Byte, n: nat)
    requires n < 256 && StopsAfter(t, first, token, n) && (token == INVALID || Used(t, token))
    ensures StopsAfter(t, first, Successor(token), n + 1)
    ensures if Successor(token) == first then n == 255 && Exhausted(t) else n < 255
  {
    hide Used, Exhausted;
    assert Taken(t, first, n);
    if n == 255 {
      AllTaken(t, first);
    }
  }

  lemma {:induction false} FreeLeft(t: seq<Entry>, token: Byte)
    requires token != INVALID && !Used(t, token)
    ensures !Exhausted(t)
  {
  }

  lemma {:induction false} AllTaken(t: seq<Entry>, first: Byte)
    requires forall k: nat :: k < 256 ==> Taken(t, first, k)
    ensures Exhausted(t)
  {
    forall token: nat | 0 < token < 256 ensures Used(t, token) {
      var k: nat := (token - first) % 256;
      assert Taken(t, first, k);
    }
  }

  lemma {:induction false} AddedDistinct(t: seq<Entry>, i: nat, e: Entry)
    requires Distinct(t) && i < |t| && !Used(t, e.token)
    ensures Distinct(t[i := e])
  {
  }

  // ---------- the engine ----------

  class Executors {
    const table: array<Entry>
    var currentToken: Byte
    var lastExecution: U32
    ghost var calls: seq<Call>

    constructor (count: nat)
      ensures Valid() && fresh(table) && table.Length == count
    {
      table := new Entry[count](_ => EMPTY);
      currentToken, lastExecution, calls := 0, 0, [];
    }

    ghost predicate Valid()
      reads this, table
    {
      Distinct(table[..])
    }

    method TokenCanBeUsed(token: Byte) returns (ok: bool)
      ensures ok <==> token != INVALID && !Used(table[..], token)
    {
      if token == INVALID {
        return false;
      }
      for i := 0 to table.Length
        invariant forall k :: 0 <= k < i ==> table[k].token != token
      {
        if table[i].token == token {
          assert table[..][i].token == token;
          return false;
        }
      }
      return true;
    }

    /** Steps the counter to the next token that is not in use; at most once round. */
    method AllocateToken() returns (token: Byte)
      modifies this`currentToken
      ensures token == INVALID <==> Exhausted(table[..])
      ensures token != INVALID ==> !Used(table[..], token) && token == currentToken
      ensures token != INVALID ==> FirstUsable(table[..], Successor(old(currentToken)), token)
    {
      hide Used, Exhausted, StopsAfter, Successor;
      currentToken := Successor(currentToken);
      var first := currentToken;
      ghost var n: nat := 0;
      NotYet(table[..], first);
      var ok := TokenCanBeUsed(currentToken);
      while !ok
        invariant n < 256 && StopsAfter(table[..], first, currentToken, n)
        invariant ok <==> currentToken != INVALID && !Used(table[..], currentToken)
        decreases 256 - n, !ok
      {
        OneMoreTaken(table[..], first, currentToken, n);
        currentToken := Successor(currentToken);
        n := n + 1;
        if currentToken == first {
          return INVALID;
        }
        ok := TokenCanBeUsed(currentToken);
      }
      FreeLeft(table[..], currentToken);
      return currentToken;
    }

    method DeferExecAdvanced(now: U32, delay: U32, callback: nat, arg: nat) returns (token: Byte)
      requires Valid()
      modifies this`currentToken, table
      ensures Valid()
      ensures token == INVALID
        <==> delay == 0 || callback == 0 || !HasFree(old(table[..])) || Exhausted(old(table[..]))
      ensures token == INVALID ==> table[..] == old(table[..])
      ensures token != INVALID ==>
        !Used(old(table[..]), token) && FirstUsable(old(table[..]), Successor(old(currentToken)), token)
      ensures token != INVALID ==> exists i ::
        && 0 <= i < table.Length && old(table[..])[i].token == 0
        && (forall k :: 0 <= k < i ==> old(table[..])[k].token != 0)
        && table[..] == old(table[..])[i := Entry(token, Wrap(now + delay), callback, arg)]
      ensures Stepped(old(table[..]), table[..], Defer(Entry(token, Wrap(now + delay), callback, arg)))
    {
      hide Exhausted, Wrap;
      if delay == 0 || callback == NO_CALLBACK {
        return INVALID;
      }
      for i := 0 to table.Length
        invariant table[..] == old(table[..]) && Valid()
        invariant forall k :: 0 <= k < i ==> table[k].token != INVALID
      {
        if table[i].token == INVALID {
          assert table[..][i].token == INVALID;
          token := AllocateToken();
          if token == INVALID {
            return;
          }
          AddedDistinct(table[..], i, Entry(token, Wrap(now + delay), callback, arg));
          table[i] := Entry(currentToken, Wrap(now + delay), callback, arg);
          return;
        }
      }
      return INVALID;
    }

    method ExtendDeferredExecAdvanced(now: U32, token: Byte, delay: U32) returns (ok: bool)
      requires Valid()
      modifies table
      ensures Valid()
      ensures ok <==> delay != 0 && token != INVALID && Used(old(table[..]), token)
      ensures !ok ==> table[..] == old(table[..])
      ensures ok ==> forall i :: 0 <= i < table.Length ==>
        table[i] == if old(table[i].token) == token then old(table[i]).(trigger := Wrap(now + delay)) else old(table[i])
      ensures Stepped(old(table[..]), table[..], Extend(token, Wrap(now + delay)))
    {
      hide Wrap;
      if delay == 0 || token == INVALID {
        return false;
      }
      for i := 0 to table.Length
        invariant table[..] == old(table[..])
        invariant forall k :: 0 <= k < i ==> table[k].token != token
      {
        if table[i].token == token {
          assert table[..][i].token == token;
          table[i] := table[i].(trigger := Wrap(now + delay));
          return true;
        }
      }
      return false;
    }

    method CancelDeferredExecAdvanced(token: Byte) returns (ok: bool)
      requires Valid()
      modifies table
      ensures Valid()
      ensures ok <==> token != INVALID && Used(old(table[..]), token)
      ensures forall i :: 0 <= i < table.Length ==>
        table[i] == if ok && old(table[i].token) == token then Entry(0, 0, 0, 0) else old(table[i])
      ensures Stepped(old(table[..]), table[..], Cancel(token))
    {
      if token == INVALID {
        return false;
      }
      for i := 0 to table.Length
        invariant table[..] == old(table[..])
        invariant forall k :: 0 <= k < i ==> table[k].token != token
      {
        if table[i].token == token {
          assert table[..][i].token == token;
          table[i] := EMPTY;
          return true;
        }
      }
      return false;
    }

    /** A pass, unless one was already made in this millisecond. */
    method DeferredExecAdvancedTask(now: U32) returns (ghost delays: seq<U32>)
      requires Valid()
      modifies this`lastExecution, this`calls, table
      ensures Valid() && |delays| == table.Length
      ensures if Difference(now, old(lastExecution)) > 0
              then lastExecution == now && table[..] == Passed(old(table[..]), now, delays)
                   && calls == old(calls) + Calls(old(table[..]), now, table.Length)
              else lastExecution == old(lastExecution) && table[..] == old(table[..]) && calls == old(calls)
      ensures Difference(now, old(lastExecution)) > 0 ==> Stepped(old(table[..]), table[..], Pass(now, delays))
    {
      hide Difference, Wrap, Distinct;
      delays := seq(table.Length, _ => 0);
      if Difference(now, lastExecution) > 0 {
        lastExecution := now;
        ghost var t0 := table[..];
        for i := 0 to table.Length
          invariant |delays| == table.Length && lastExecution == now
          invariant forall k :: 0 <= k < table.Length ==>
            table[k] == if k < i && Due(t0[k], now) then Rescheduled(t0[k], delays[k]) else t0[k]
          invariant calls == old(calls) + Calls(t0, now, i)
        {
          if table[i].token != INVALID && Difference(table[i].trigger, now) <= 0 {
            calls := calls + [Call(i, table[i].trigger, table[i].callback, table[i].arg)];
            var delay: U32 := *;
            delays := delays[i := delay];
            if delay > 0 {
              table[i] := table[i].(trigger := Wrap(table[i].trigger + delay));
            } else {
              table[i] := EMPTY;
            }
          }
        }
        PassedDistinct(t0, now, delays);
        assert table[..] == Passed(t0, now, delays);
      }
    }
  }
}
