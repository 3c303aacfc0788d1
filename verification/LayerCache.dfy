/** Which layer a key acts on: the lookup, the bit-sliced memory of the layer a key was pressed on, and the promise
    that a release runs what the press ran. */
module LayerCache {

  import opened Modular

  // ---------- numbers as bits ----------

  function Pow2(n: nat): (p: nat)
    ensures p > 0
  {
    if n == 0 then 1 else 2 * Pow2(n - 1)
  }

  predicate Bit(n: nat, k: nat) {
    n / Pow2(k) % 2 == 1
  }

  /** The number made of the first `n` of a row of bits. */
  function Number(bits: seq<bool>, n: nat): nat
    requires n <= |bits|
  {
    if n == 0 then 0 else Number(bits, n - 1) + if bits[n - 1] then Pow2(n - 1) else 0
  }

  function BitsOf(layer: nat, n: nat): (b: seq<bool>)
    ensures |b| == n
  {
    seq(n, k requires 0 <= k < n => Bit(layer, k))
  }

  lemma {:induction false} SplitBit(layer: nat, p: nat)
    requires p > 0
    ensures Mod(layer, 2 * p) == Mod(layer, p) + if layer / p % 2 == 1 then p else 0
  {
    DivMod(layer, p);
    var q, r := Div(layer, p), Mod(layer, p);
    assert q == layer / p;
    hide Mod, Div;
    var h, b := q / 2, q % 2;
    assert q * p == (2 * h + b) * p;
    assert q * p == h * (2 * p) + b * p;
    ModUnique(layer, 2 * p, h, b * p + r);
  }

  /** The low `n` bits of a layer number make up its remainder. */
  lemma {:induction false} NumberOfBits(layer: nat, bits: nat, n: nat)
    requires n <= bits
    ensures Number(BitsOf(layer, bits), n) == Mod(layer, Pow2(n))
  {
    if n > 0 {
      NumberOfBits(layer, bits, n - 1);
      SplitBit(layer, Pow2(n - 1));
    } else {
      ModUnique(layer, 1, layer, 0);
    }
  }

  // ---------- the cache ----------

  /** Entry `e`'s bit in a byte. */
  function Mask(e: nat): bv8 {
    (1 as bv8) << (e % 8)
  }

  function Stored(cell: bv8, mask: bv8, on: bool): bv8 {
    cell ^ (((if on then 0xFF else 0x00) ^ cell) & mask)
  }

  predicate Has(cell: bv8, mask: bv8) {
    cell & mask != 0
  }

  lemma {:induction false} StoredSame(cell: bv8, mask: bv8, on: bool)
    requires Has(mask, mask)
    ensures Has(Stored(cell, mask, on), mask) == on
  {
    assert Stored(cell, mask, on) & mask == if on then mask else 0;
  }

  lemma {:induction false} StoredOther(cell: bv8, mask: bv8, other: bv8, on: bool)
    requires !Has(mask, other)
    ensures Has(Stored(cell, mask, on), other) == Has(cell, other)
  {
  }

  lemma {:induction false} Masks(e: nat, f: nat)
    ensures Has(Mask(e), Mask(f)) <==> e % 8 == f % 8
  {
    MaskTable(e % 8, f % 8);
  }

  lemma {:induction false} MaskTable(i: nat, j: nat)
    requires i < 8 && j < 8
    ensures (1 as bv8) << i != 0
    ensures i != j ==> ((1 as bv8) << i) & ((1 as bv8) << j) == 0
  {
  }

  /** One bit of every layer number per row of bytes: entry `e` is bit `e % 8` of row `e / 8`. */
  class BitCache {
    const entries: nat
    const bits: nat
    const cells: array2<bv8>

    constructor (entries: nat, bits: nat)
      ensures Valid() && fresh(cells) && this.entries == entries && this.bits == bits
      ensures Layers() == seq(entries, _ => 0)
    {
      this.entries, this.bits := entries, bits;
      cells := new bv8[(entries + 7) / 8, bits]((_, _) => 0);
      new;
      forall e: nat | e < entries ensures LayerAt(e) == 0 {
        NoBits(Row(e), bits);
      }
    }

    ghost predicate Valid()
      reads this
    {
      cells.Length0 == (entries + 7) / 8 && cells.Length1 == bits
    }

    ghost function Row(e: nat): (r: seq<bool>)
      requires Valid() && e < entries
      reads this, cells
      ensures |r| == bits
    {
      seq(bits, k requires 0 <= k < bits && Valid() && e < entries reads this, cells => Has(cells[e / 8, k], Mask(e)))
    }

    ghost function LayerAt(e: nat): nat
      requires Valid() && e < entries
      reads this, cells
    {
      Number(Row(e), bits)
    }

    /** The layer of every entry. */
    ghost function Layers(): (s: seq<nat>)
      requires Valid()
      reads this, cells
      ensures |s| == entries
    {
      seq(entries, e requires 0 <= e < entries && Valid() reads this, cells => LayerAt(e))
    }

    method UpdateCells(layer: nat, e: nat)
      requires Valid() && e < entries
      modifies cells
      ensures forall i, j :: 0 <= i < cells.Length0 && 0 <= j < cells.Length1 ==>
        cells[i, j] == if i == e / 8 then Stored(old(cells[i, j]), Mask(e), Bit(layer, j)) else old(cells[i, j])
    {
      hide Mask, Stored, Bit;
      for k: nat := 0 to bits
        invariant forall i, j :: 0 <= i < cells.Length0 && 0 <= j < cells.Length1 ==>
          cells[i, j] ==
            if i == e / 8 && j < k then Stored(old(cells[i, j]), Mask(e), Bit(layer, j)) else old(cells[i, j])
      {
        cells[e / 8, k] := Stored(cells[e / 8, k], Mask(e), Bit(layer, k));
      }
    }

    /** Writes one entry; the others keep their layer. */
    method Update(layer: nat, e: nat)
      requires Valid() && e < entries
      modifies cells
      ensures Valid() && Layers() == old(Layers())[e := Mod(layer, Pow2(bits))]
    {
      hide Mask, Stored, Number, Mod, Bit, Has;
      UpdateCells(layer, e);
      forall f: nat | f < entries
        ensures Row(f) == if f == e then BitsOf(layer, bits) else old(Row(f))
      {
        forall k: nat | k < bits
          ensures Row(f)[k] == if f == e then Bit(layer, k) else old(Row(f))[k]
        {
          if f / 8 == e / 8 {
            StoredAll(old(cells[f / 8, k]), e, Bit(layer, k));
          }
        }
      }
      NumberOfBits(layer, bits, bits);
    }

    method Read(e: nat) returns (layer: nat)
      requires Valid() && e < entries
      ensures layer == Layers()[e]
    {
      hide Mask, Has;
      layer := 0;
      for k: nat := 0 to bits
        invariant layer == Number(Row(e), k)
      {
        if Has(cells[e / 8, k], Mask(e)) {
          layer := layer + Pow2(k);
        }
      }
    }
  }

  lemma {:induction false} NoBits(row: seq<bool>, n: nat)
    requires n <= |row| && forall k :: 0 <= k < |row| ==> !row[k]
    ensures Number(row, n) == 0
  {
    if n > 0 {
      NoBits(row, n - 1);
    }
  }

  /** Storing a bit for one entry of a byte leaves the byte's other entries alone. */
  lemma {:induction false} StoredAll(cell: bv8, e: nat, on: bool)
    ensures Has(Stored(cell, Mask(e), on), Mask(e)) == on
    ensures forall f: nat :: f / 8 == e / 8 && f != e ==>
      Has(Stored(cell, Mask(e), on), Mask(f)) == Has(cell, Mask(f))
  {
    hide Mask, Stored, Has;
    Masks(e, e);
    StoredSame(cell, Mask(e), on);
    forall f: nat | f / 8 == e / 8 && f != e
      ensures Has(Stored(cell, Mask(e), on), Mask(f)) == Has(cell, Mask(f))
    {
      Masks(e, f);
      StoredOther(cell, Mask(e), Mask(f), on);
    }
  }
}
