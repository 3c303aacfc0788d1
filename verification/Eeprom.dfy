/** Byte-addressed persistent memory, and the byte writes that reach it. */
module Eeprom {

  import opened Widths

  datatype Write = Write(addr: nat, value: Byte)

  /** The memory after the writes `ws`, in order. */
  ghost function Apply(m: seq<Byte>, ws: seq<Write>): (m': seq<Byte>)
    requires forall w :: w in ws ==> w.addr < |m|
    ensures |m'| == |m|
  {
    if ws == [] then m
    else
      var w := ws[|ws| - 1];
      Apply(m, ws[..|ws| - 1])[w.addr := w.value]
  }

  ghost predicate Fits(ws: seq<Write>, size: nat) {
    forall w :: w in ws ==> w.addr < size
  }

  lemma {:induction false} ApplyConcat(m: seq<Byte>, a: seq<Write>, b: seq<Write>)
    requires Fits(a, |m|) && Fits(b, |m|)
    ensures Fits(a + b, |m|)
    ensures Apply(m, a + b) == Apply(Apply(m, a), b)
    decreases |b|
  {
    if b == [] {
      assert a + b == a;
    } else {
      var b' := b[..|b| - 1];
      assert (a + b)[..|a + b| - 1] == a + b';
      ApplyConcat(m, a, b');
    }
  }

  lemma {:induction false} ApplyOne(m: seq<Byte>, ws: seq<Write>, w: Write)
    requires Fits(ws, |m|) && w.addr < |m|
    ensures Fits(ws + [w], |m|)
    ensures Apply(m, ws + [w]) == Apply(m, ws)[w.addr := w.value]
  {
    assert (ws + [w])[..|ws + [w]| - 1] == ws;
  }

  /** Addresses no write names keep their byte. */
  lemma {:induction false} Untouched(m: seq<Byte>, ws: seq<Write>, a: nat)
    requires Fits(ws, |m|) && a < |m| && forall w :: w in ws ==> w.addr != a
    ensures Apply(m, ws)[a] == m[a]
    decreases |ws|
  {
    if ws != [] {
      assert ws[|ws| - 1] in ws;
      Untouched(m, ws[..|ws| - 1], a);
    }
  }

  /** When every write to `a` writes `v` and there is one, `a` ends up holding `v`. */
  lemma {:induction false} Settles(m: seq<Byte>, ws: seq<Write>, a: nat, v: Byte)
    requires Fits(ws, |m|) && a < |m|
    requires forall w :: w in ws && w.addr == a ==> w.value == v
    requires exists w :: w in ws && w.addr == a
    ensures Apply(m, ws)[a] == v
    decreases |ws|
  {
    var last, ws' := ws[|ws| - 1], ws[..|ws| - 1];
    assert last in ws;
    if last.addr != a {
      var w :| w in ws && w.addr == a;
      assert ws == ws' + [last];
      assert w in ws';
      Settles(m, ws', a, v);
    }
  }

  /** Consecutive bytes, first to last. */
  ghost function BlockWrites(addr: nat, data: seq<Byte>): seq<Write> {
    seq(|data|, i requires 0 <= i < |data| => Write(addr + i, data[i]))
  }

  /** The writes `ws` lead from one memory and log to another. */
  ghost predicate Leads(m: seq<Byte>, log: seq<Write>, ws: seq<Write>, m': seq<Byte>, log': seq<Write>) {
    Fits(ws, |m|) && m' == Apply(m, ws) && log' == log + ws
  }

  lemma {:induction false} LeadsOn(m: seq<Byte>, log: seq<Write>, ws: seq<Write>, m1: seq<Byte>, log1: seq<Write>,
                                   more: seq<Write>, m2: seq<Byte>, log2: seq<Write>)
    requires Leads(m, log, ws, m1, log1) && Leads(m1, log1, more, m2, log2)
    ensures Leads(m, log, ws + more, m2, log2)
  {
    ApplyConcat(m, ws, more);
  }

  lemma {:induction false} LeadsNowhere(m: seq<Byte>, log: seq<Write>)
    ensures Leads(m, log, [], m, log)
  {
  }

  /** The external memory. `log` lists every byte update that was asked for, whether or not the byte
      already had its value. */
  class Memory {
    const bytes: array<Byte>
    ghost var log: seq<Write>

    constructor (initial: seq<Byte>)
      ensures bytes[..] == initial && log == [] && fresh(bytes)
    {
      bytes := new Byte[|initial|](i requires 0 <= i < |initial| => initial[i]);
      log := [];
    }

    /** `ws` was written since `m` and `before`. */
    ghost predicate Wrote(m: seq<Byte>, before: seq<Write>, ws: seq<Write>)
      reads this, bytes
    {
      Leads(m, before, ws, bytes[..], log)
    }

    method ReadByte(addr: nat) returns (value: Byte)
      requires addr < bytes.Length
      ensures value == bytes[addr]
    {
      value := bytes[addr];
    }

    /** eeprom_update_byte */
    method UpdateByte(addr: nat, value: Byte)
      requires addr < bytes.Length
      modifies this, bytes
      ensures bytes[..] == old(bytes[..])[addr := value]
      ensures log == old(log) + [Write(addr, value)]
    {
      if bytes[addr] != value {
        bytes[addr] := value;
      }
      log := log + [Write(addr, value)];
    }

    /** eeprom_update_block */
    method UpdateBlock(data: seq<Byte>, addr: nat)
      requires addr + |data| <= bytes.Length
      modifies this, bytes
      ensures Wrote(old(bytes[..]), old(log), BlockWrites(addr, data))
    {
      ghost var m, before := bytes[..], log;
      ghost var ws := BlockWrites(addr, data);
      for i := 0 to |data|
        invariant Wrote(m, before, ws[..i])
      {
        UpdateByte(addr + i, data[i]);
        assert ws[..i + 1] == ws[..i] + [ws[i]];
        ApplyOne(m, ws[..i], ws[i]);
      }
      assert ws[..|data|] == ws;
    }
  }
}
