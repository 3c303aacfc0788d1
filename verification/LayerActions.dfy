/** A release runs what the press ran, whatever happened to the layers in between. */
module LayerActions {

  import opened Keys
  import opened Modular
  import LayerCache

  const KEYLOC_ENCODER_CW := 253
  const KEYLOC_ENCODER_CCW := 252
  const ACTION_TRANSPARENT := 1

  datatype Config = Config(rows: nat, cols: nat, encoders: nat, maxLayer: nat, bits: nat, keymap: (nat, Key) -> nat)

  ghost predicate Sane(c: Config) {
    0 < c.maxLayer <= 32 && c.maxLayer <= LayerCache.Pow2(c.bits)
  }

  /** Where the layer of a key is kept. Both directions of an encoder share a place; other keys have none. */
  datatype Slot = Matrix(n: nat) | Encoder(n: nat) | NoSlot

  function SlotOf(c: Config, key: Key): Slot {
    if key.row < c.rows && key.col < c.cols then Matrix(key.row * c.cols + key.col)
    else if key.row in {KEYLOC_ENCODER_CW, KEYLOC_ENCODER_CCW} then Encoder(key.col)
    else NoSlot
  }

  /** Encoder events name an encoder that exists. */
  predicate Present(c: Config, key: Key) {
    SlotOf(c, key).Encoder? ==> key.col < c.encoders
  }

  lemma {:induction false} SlotInside(c: Config, key: Key)
    requires Present(c, key)
    ensures match SlotOf(c, key)
            case Matrix(n) => n < c.rows * c.cols
            case Encoder(n) => n < c.encoders
            case NoSlot => true
  {
    if key.row < c.rows && key.col < c.cols {
      MulAtLeast(c.rows - key.row, c.cols);
      assert (c.rows - key.row) * c.cols == c.rows * c.cols - key.row * c.cols;
    }
  }

  /** Matrix keys are kept row by row; of the others only those of the encoders, in rows 253 and 252, are kept. */
  lemma {:induction false} SlotsAre(c: Config, key: Key)
    ensures key.row < c.rows && key.col < c.cols ==> SlotOf(c, key) == Matrix(key.row * c.cols + key.col)
    ensures !(key.row < c.rows && key.col < c.cols) ==>
      SlotOf(c, key) == if key.row in {252, 253} then Encoder(key.col) else NoSlot
  {
  }

  /** Different keys of the matrix have different places. */
  lemma {:induction false} SlotsDiffer(c: Config, a: Key, b: Key)
    requires SlotOf(c, a).Matrix? && SlotOf(c, a) == SlotOf(c, b)
    ensures a == b
  {
    DivUnique(SlotOf(c, a).n, c.cols, a.row, a.col);
    DivUnique(SlotOf(c, b).n, c.cols, b.row, b.col);
  }

  function LayerMask(i: nat): bv32
    requires i < 32
  {
    (1 as bv32) << i
  }

  /** Layer 0 is the lowest bit, layer 31 the highest. */
  lemma {:induction false} LayerMasks()
    ensures LayerMask(0) == 1 && LayerMask(1) == 2 && LayerMask(31) == 0x8000_0000
  {
  }

  function Both(a: bv32, b: bv32): bv32 {
    a & b
  }

  predicate Meets(layers: bv32, mask: bv32) {
    Both(layers, mask) != 0
  }

  predicate Active(layers: bv32, i: nat)
    requires i < 32
  {
    Meets(layers, LayerMask(i))
  }

  // ---------- the lookup ----------

  function Search(c: Config, layers: bv32, key: Key, below: nat): (layer: nat)
    requires below <= 32
    ensures layer < below || layer == 0
  {
    if below == 0 then 0
    else if Active(layers, below - 1) && c.keymap(below - 1, key) != ACTION_TRANSPARENT then below - 1
    else Search(c, layers, key, below - 1)
  }

  lemma {:induction false} SearchNext(c: Config, layers: bv32, key: Key, below: nat)
    requires below <= 32
    ensures Search(c, layers, key, below) ==
      if below == 0 then 0
      else if Opaque(c, layers, key, below - 1) then below - 1
      else Search(c, layers, key, below - 1)
  {
    hide Active;
  }

  /** The highest active layer on which the key is not transparent, else 0. */
  lemma {:induction false} SearchExactly(c: Config, layers: bv32, key: Key, below: nat, layer: nat)
    requires below <= 32
    ensures layer == Search(c, layers, key, below) <==> Chosen(c, layers, key, below, layer)
  {
    hide Active;
    if below > 0 && !Opaque(c, layers, key, below - 1) {
      SearchExactly(c, layers, key, below - 1, layer);
      if Chosen(c, layers, key, below - 1, layer) {
        assert Chosen(c, layers, key, below, layer);
      }
      if Chosen(c, layers, key, below, layer) {
        assert Chosen(c, layers, key, below - 1, layer);
      }
    }
  }

  predicate Opaque(c: Config, layers: bv32, key: Key, i: nat)
    requires i < 32
  {
    Active(layers, i) && c.keymap(i, key) != ACTION_TRANSPARENT
  }

  ghost predicate Chosen(c: Config, layers: bv32, key: Key, below: nat, layer: nat)
    requires below <= 32
  {
    && ((layer < below && Opaque(c, layers, key, layer)) || layer == 0)
    && forall i: nat :: layer < i < below ==> !Opaque(c, layers, key, i)
  }

  // ---------- presses and releases ----------

  datatype State = State(matrix: seq<nat>, encoders: seq<nat>, layers: bv32, defaults: bv32)

  ghost predicate Ok(c: Config, s: State) {
    |s.matrix| == c.rows * c.cols && |s.encoders| == c.encoders
  }

  function Either(a: bv32, b: bv32): bv32 {
    a | b
  }

  function LayerOf(c: Config, s: State, key: Key): (layer: nat)
    requires Sane(c)
    ensures layer < c.maxLayer
  {
    Search(c, Either(s.layers, s.defaults), key, c.maxLayer)
  }

  function Kept(c: Config, s: State, key: Key): nat
    requires Ok(c, s) && Present(c, key)
  {
    SlotInside(c, key);
    match SlotOf(c, key)
    case Matrix(n) => s.matrix[n]
    case Encoder(n) => s.encoders[n]
    case NoSlot => 0
  }

  function Keep(c: Config, s: State, key: Key, layer: nat): (s': State)
    requires Ok(c, s) && Present(c, key)
    ensures Ok(c, s')
  {
    SlotInside(c, key);
    match SlotOf(c, key)
    case Matrix(n) => s.(matrix := s.matrix[n := layer])
    case Encoder(n) => s.(encoders := s.encoders[n := layer])
    case NoSlot => s
  }

  datatype Event = Press(key: Key) | Release(key: Key) | SetLayers(layers: bv32) | SetDefaults(defaults: bv32)

  predicate Happens(c: Config, e: Event) {
    (e.Press? || e.Release?) ==> Present(c, e.key)
  }

  function Step(c: Config, s: State, e: Event): (s': State)
    requires Sane(c) && Ok(c, s) && Happens(c, e)
    ensures Ok(c, s')
  {
    match e
    case Press(key) => Keep(c, s, key, LayerOf(c, s, key))
    case Release(_) => s
    case SetLayers(layers) => s.(layers := layers)
    case SetDefaults(defaults) => s.(defaults := defaults)
  }

  /** The action a press or a release runs. */
  function Action(c: Config, s: State, pressed: bool, key: Key): nat
    requires Sane(c) && Ok(c, s) && Present(c, key)
  {
    c.keymap(if pressed then LayerOf(c, s, key) else Kept(c, s, key), key)
  }

  lemma {:induction false} EitherMeets(a: bv32, b: bv32, m: bv32)
    ensures Meets(Either(a, b), m) <==> Meets(a, m) || Meets(b, m)
  {
    hide Both, Either;
    BothOfEither(a, b, m);
    EitherNone(Both(a, m), Both(b, m));
  }

  lemma {:induction false} BothOfEither(a: bv32, b: bv32, m: bv32)
    ensures Both(Either(a, b), m) == Either(Both(a, m), Both(b, m))
  {
  }

  lemma {:induction false} EitherNone(x: bv32, y: bv32)
    ensures Either(x, y) == 0 <==> x == 0 && y == 0
  {
  }

  /** A press runs the action of the highest layer that is active, or a default, and on which the key is not
      transparent; without one, that of layer 0. */
  lemma {:induction false} PressRunsHighest(c: Config, s: State, key: Key)
    requires Sane(c) && Ok(c, s) && Present(c, key)
    ensures var layer := LayerOf(c, s, key);
            && Action(c, s, true, key) == c.keymap(layer, key)
            && (layer != 0 ==> Offers(c, s, key, layer))
            && forall i: nat :: layer < i < c.maxLayer ==> !Offers(c, s, key, i)
  {
    hide Meets, LayerMask, Either, Search, Both;
    var layers, layer := Either(s.layers, s.defaults), LayerOf(c, s, key);
    SearchExactly(c, layers, key, c.maxLayer, layer);
    forall i: nat | i < c.maxLayer ensures Offers(c, s, key, i) <==> Opaque(c, layers, key, i) {
      EitherMeets(s.layers, s.defaults, LayerMask(i));
    }
  }

  /** The layer is active, or a default, and its action for the key is not the transparent one, 1. */
  ghost predicate Offers(c: Config, s: State, key: Key, i: nat)
    requires i < 32
  {
    (Active(s.layers, i) || Active(s.defaults, i)) && c.keymap(i, key) != 1
  }

  ghost predicate AllHappen(c: Config, events: seq<Event>) {
    forall i :: 0 <= i < |events| ==> Happens(c, events[i])
  }

  ghost function Run(c: Config, s: State, events: seq<Event>): (s': State)
    requires Sane(c) && Ok(c, s) && AllHappen(c, events)
    ensures Ok(c, s')
  {
    if events == [] then s else Step(c, Run(c, s, events[..|events| - 1]), events[|events| - 1])
  }

  /** No press since of a key kept in the same place. */
  ghost predicate NotPressedAgain(c: Config, key: Key, events: seq<Event>) {
    forall i :: 0 <= i < |events| && events[i].Press? ==> SlotOf(c, events[i].key) != SlotOf(c, key)
  }

  lemma {:induction false} KeptSurvives(c: Config, s: State, key: Key, e: Event)
    requires Sane(c) && Ok(c, s) && Happens(c, e) && Present(c, key)
    requires e.Press? ==> SlotOf(c, e.key) != SlotOf(c, key)
    ensures Kept(c, Step(c, s, e), key) == Kept(c, s, key)
  {
    hide SlotOf, LayerOf;
    SlotInside(c, key);
    if e.Press? {
      SlotInside(c, e.key);
    }
  }

  lemma {:induction false} KeptOverRun(c: Config, s: State, key: Key, events: seq<Event>)
    requires Sane(c) && Ok(c, s) && AllHappen(c, events) && Present(c, key) && NotPressedAgain(c, key, events)
    ensures Kept(c, Run(c, s, events), key) == Kept(c, s, key)
  {
    hide SlotOf, Step, Kept;
    if events != [] {
      KeptOverRun(c, s, key, events[..|events| - 1]);
      KeptSurvives(c, Run(c, s, events[..|events| - 1]), key, events[|events| - 1]);
    }
  }

  lemma {:induction false} KeptIs(c: Config, s: State, key: Key, layer: nat)
    requires Ok(c, s) && Present(c, key)
    ensures Kept(c, Keep(c, s, key, layer), key) == if SlotOf(c, key) == NoSlot then 0 else layer
  {
    SlotInside(c, key);
    hide SlotOf;
  }

  /** After any run of layer changes and other keys, a key with a place runs on release what its press ran; a key
      without one runs layer 0's action, which is the same exactly when the press ran that. */
  lemma {:induction false} ReleaseRunsPress(c: Config, s: State, key: Key, events: seq<Event>)
    requires Sane(c) && Ok(c, s) && Present(c, key) && AllHappen(c, events) && NotPressedAgain(c, key, events)
    ensures var later := Run(c, Step(c, s, Press(key)), events);
            && (SlotOf(c, key) != NoSlot ==> Action(c, later, false, key) == Action(c, s, true, key))
            && (SlotOf(c, key) == NoSlot ==> Action(c, later, false, key) == c.keymap(0, key))
  {
    hide SlotOf, LayerOf, Kept;
    KeptOverRun(c, Step(c, s, Press(key)), key, events);
    KeptIs(c, s, key, LayerOf(c, s, key));
  }

  /** For a key of the matrix, only a press of that key counts. */
  lemma {:induction false} MatrixReleaseRunsPress(c: Config, s: State, key: Key, events: seq<Event>)
    requires Sane(c) && Ok(c, s) && key.row < c.rows && key.col < c.cols && AllHappen(c, events)
    requires forall i :: 0 <= i < |events| && events[i].Press? ==> events[i].key != key
    ensures Action(c, Run(c, Step(c, s, Press(key)), events), false, key) == Action(c, s, true, key)
  {
    forall i | 0 <= i < |events| && events[i].Press? ensures SlotOf(c, events[i].key) != SlotOf(c, key) {
      if SlotOf(c, events[i].key) == SlotOf(c, key) {
        SlotsDiffer(c, events[i].key, key);
      }
    }
    ReleaseRunsPress(c, s, key, events);
  }

  /** The two directions of an encoder share a place: were the other direction pressed on another layer in between,
      the release would run that layer's action. encoder_exec_mapping (quantum/encoder.c:149-160), which makes all
      encoder events, sends each release right after its press, so that this does not come up. */
  lemma {:induction false} EncoderDirectionsShare(c: Config, s: State, n: nat)
    requires Sane(c) && Ok(c, s) && c.rows <= KEYLOC_ENCODER_CCW && n < c.encoders
    requires Present(c, Key(KEYLOC_ENCODER_CW, n)) && Present(c, Key(KEYLOC_ENCODER_CCW, n))
    ensures var cw, ccw := Key(KEYLOC_ENCODER_CW, n), Key(KEYLOC_ENCODER_CCW, n);
            Action(c, Step(c, Step(c, s, Press(cw)), Press(ccw)), false, cw) == c.keymap(LayerOf(c, s, ccw), cw)
  {
    hide Search;
  }

  // ---------- the engine ----------

  class Engine {
    const c: Config
    const matrix: LayerCache.BitCache
    const encoders: LayerCache.BitCache
    var layerState: bv32
    var defaultLayerState: bv32
    var disableActionCache: bool

    constructor (c: Config)
      requires Sane(c)
      ensures Valid() && this.c == c && !disableActionCache
    {
      this.c := c;
      matrix := new LayerCache.BitCache(c.rows * c.cols, c.bits);
      encoders := new LayerCache.BitCache(c.encoders, c.bits);
      layerState, defaultLayerState, disableActionCache := 0, 0, false;
    }

    ghost predicate Valid()
      reads this, matrix, encoders
    {
      && Sane(c) && matrix.Valid() && encoders.Valid() && matrix.cells != encoders.cells
      && matrix.entries == c.rows * c.cols && encoders.entries == c.encoders && matrix.bits == c.bits == encoders.bits
    }

    ghost function Abstract(): (s: State)
      requires Valid()
      reads this, matrix, encoders, matrix.cells, encoders.cells
      ensures Ok(c, s)
    {
      State(matrix.Layers(), encoders.Layers(), layerState, defaultLayerState)
    }

    /** The highest active layer on which the key is not transparent. */
    method Highest(layers: bv32, key: Key) returns (layer: nat)
      requires 0 < c.maxLayer <= 32
      ensures layer == Search(c, layers, key, c.maxLayer)
    {
      hide Active, Search;
      for i := c.maxLayer downto 0
        invariant Search(c, layers, key, c.maxLayer) == Search(c, layers, key, i)
      {
        SearchNext(c, layers, key, i + 1);
        if Active(layers, i) && c.keymap(i, key) != ACTION_TRANSPARENT {
          return i;
        }
      }
      SearchNext(c, layers, key, 0);
      return 0;
    }

    method LayerSwitchGetLayer(key: Key) returns (layer: nat)
      requires Valid()
      ensures layer == LayerOf(c, Abstract(), key)
    {
      layer := Highest(layerState | defaultLayerState, key);
    }

    method UpdateSourceLayersCache(key: Key, layer: nat)
      requires Valid() && Present(c, key) && layer < c.maxLayer
      modifies matrix.cells, encoders.cells
      ensures Valid() && Abstract() == Keep(c, old(Abstract()), key, layer)
    {
      SlotInside(c, key);
      ModSmall(layer, LayerCache.Pow2(c.bits));
      if key.row < c.rows && key.col < c.cols {
        matrix.Update(layer, key.row * c.cols + key.col);
      } else if key.row == KEYLOC_ENCODER_CW || key.row == KEYLOC_ENCODER_CCW {
        encoders.Update(layer, key.col);
      }
    }

    method ReadSourceLayersCache(key: Key) returns (layer: nat)
      requires Valid() && Present(c, key)
      ensures layer == Kept(c, Abstract(), key)
    {
      SlotInside(c, key);
      if key.row < c.rows && key.col < c.cols {
        layer := matrix.Read(key.row * c.cols + key.col);
      } else if key.row == KEYLOC_ENCODER_CW || key.row == KEYLOC_ENCODER_CCW {
        layer := encoders.Read(key.col);
      } else {
        layer := 0;
      }
    }

    /** With the cache disabled, a release looks its layer up anew. */
    method StoreOrGetAction(pressed: bool, key: Key) returns (action: nat)
      requires Valid() && Present(c, key)
      modifies matrix.cells, encoders.cells
      ensures Valid()
      ensures action == Action(c, old(Abstract()), pressed || disableActionCache, key)
      ensures Abstract() ==
        if pressed && !disableActionCache then Step(c, old(Abstract()), Press(key)) else old(Abstract())
    {
      hide Sane, Search, Keep, Kept, SlotOf;
      var layer: nat;
      if disableActionCache {
        layer := LayerSwitchGetLayer(key);
        return c.keymap(layer, key);
      }
      if pressed {
        layer := LayerSwitchGetLayer(key);
        UpdateSourceLayersCache(key, layer);
      } else {
        layer := ReadSourceLayersCache(key);
      }
      return c.keymap(layer, key);
    }
  }
}
