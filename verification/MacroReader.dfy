/** dynamic_keymap_macro_send (quantum/dynamic_keymap.c:277-360): finding the id-th string in the macro buffer
    and sending it piece by piece through an eight-byte array. */
module MacroReader {

  import opened Widths
  import opened Eeprom

  const PREFIX: Byte := 1
  const TAP_CODE: Byte := 1
  const UP_CODE: Byte := 3
  const DELAY_CODE: Byte := 4
  const BAR: Byte := '|' as int

  // ---------- finding the string ----------

  ghost function Nuls(b: seq<Byte>): nat {
    if b == [] then 0 else Nuls(b[..|b| - 1]) + (if b[|b| - 1] == 0 then 1 else 0)
  }

  /** Where string `id` starts: behind the id-th NUL. Nothing if there are fewer. */
  ghost predicate StartsAt(b: seq<Byte>, id: nat, p: nat) {
    p <= |b| && Nuls(b[..p]) == id && (p > 0 ==> b[p - 1] == 0)
  }

  lemma {:induction false} NulsGrow(b: seq<Byte>, p: nat, q: nat)
    requires p <= q <= |b|
    ensures Nuls(b[..p]) <= Nuls(b[..q])
    ensures p < q && b[q - 1] == 0 ==> Nuls(b[..p]) < Nuls(b[..q])
    decreases q
  {
    if p < q {
      assert b[..q][..q - 1] == b[..q - 1];
      NulsGrow(b, p, q - 1);
    }
  }

  lemma {:induction false} NoStart(b: seq<Byte>, id: nat, p: nat)
    requires Nuls(b) < id
    ensures !StartsAt(b, id, p)
  {
    if p <= |b| {
      assert b[..|b|] == b;
      NulsGrow(b, p, |b|);
    }
  }

  /** The place is unique. */
  lemma {:induction false} StartIsUnique(b: seq<Byte>, id: nat, p: nat, q: nat)
    requires StartsAt(b, id, p) && StartsAt(b, id, q)
    ensures p == q
  {
    if p < q {
      NulsGrow(b, p, q);
    } else if q < p {
      NulsGrow(b, q, p);
    }
  }

  /** When the last byte is NUL, the string lies inside the buffer if and only if there are more than `id`
      NULs. With exactly `id`, reading starts at the first byte behind the buffer. */
  lemma {:induction false} StartsInsideExactly(b: seq<Byte>, id: nat, p: nat)
    requires b != [] && b[|b| - 1] == 0 && StartsAt(b, id, p)
    ensures p < |b| <==> Nuls(b) > id
  {
    assert b[..|b|] == b;
    NulsGrow(b, p, |b|);
  }

  /** The position of the first NUL from `p` on. */
  ghost function Terminator(b: seq<Byte>, p: nat): (e: nat)
    requires p < |b| && b[|b| - 1] == 0
    ensures p <= e < |b| && b[e] == 0
    ensures forall i :: p <= i < e ==> b[i] != 0
    decreases |b| - p
  {
    if b[p] == 0 then p else Terminator(b, p + 1)
  }

  /** The strings one after the other, each with its NUL. */
  ghost function Joined(ss: seq<seq<Byte>>): seq<Byte> {
    if ss == [] then [] else Joined(ss[..|ss| - 1]) + ss[|ss| - 1] + [0]
  }

  lemma {:induction false} NulsConcat(a: seq<Byte>, b: seq<Byte>)
    ensures Nuls(a + b) == Nuls(a) + Nuls(b)
    decreases |b|
  {
    if b == [] {
      assert a + b == a;
    } else {
      assert (a + b)[..|a + b| - 1] == a + b[..|b| - 1];
      NulsConcat(a, b[..|b| - 1]);
    }
  }

  lemma {:induction false} NoNuls(s: seq<Byte>)
    requires 0 !in s
    ensures Nuls(s) == 0
    decreases |s|
  {
    if s != [] {
      NoNuls(s[..|s| - 1]);
    }
  }

  lemma {:induction false} NulsJoined(ss: seq<seq<Byte>>)
    requires forall i :: 0 <= i < |ss| ==> 0 !in ss[i]
    ensures Nuls(Joined(ss)) == |ss|
    ensures if ss == [] then Joined(ss) == [] else Joined(ss) != [] && Joined(ss)[|Joined(ss)| - 1] == 0
    decreases |ss|
  {
    if ss != [] {
      var n := |ss| - 1;
      NulsJoined(ss[..n]);
      NoNuls(ss[n]);
      NulsConcat(Joined(ss[..n]) + ss[n], [0]);
      NulsConcat(Joined(ss[..n]), ss[n]);
      assert [0][..0] == [];
    }
  }

  /** In a buffer of strings the one with number `id` is what the reader finds. */
  lemma {:induction false} FindsString(before: seq<seq<Byte>>, s: seq<Byte>, rest: seq<Byte>)
    requires (forall i :: 0 <= i < |before| ==> 0 !in before[i]) && 0 !in s
    requires rest == [] || rest[|rest| - 1] == 0
    ensures var b, p := Joined(before) + s + [0] + rest, |Joined(before)|;
            && StartsAt(b, |before|, p) && b[|b| - 1] == 0
            && Terminator(b, p) == p + |s| && b[p..p + |s|] == s
  {
    hide Joined, Nuls, Terminator;
    var b, p := Joined(before) + s + [0] + rest, |Joined(before)|;
    NulsJoined(before);
    assert b[..p] == Joined(before);
    assert forall i :: p <= i < p + |s| ==> b[i] == s[i - p] && s[i - p] in s;
    var e := Terminator(b, p);
    assert b[p + |s|] == 0;
  }

  // ---------- words ----------

  datatype Length = Malformed | Length(n: nat)

  /** The index of the first bar from `i` on, not beyond index 6. */
  ghost function FirstBar(s: seq<Byte>, i: nat): Length
    decreases 7 - i
  {
    if i > 6 || i >= |s| then Malformed
    else if s[i] == BAR then Length(i)
    else FirstBar(s, i + 1)
  }

  /** The length of the word a string starts with: a character; prefix, tap, down or up code, and keycode;
      or prefix, delay code, at most four characters and a bar. */
  ghost function Word(s: seq<Byte>): Length
    requires s != []
  {
    if s[0] != PREFIX then Length(1)
    else if |s| >= 3 && TAP_CODE <= s[1] <= UP_CODE then Length(3)
    else if |s| >= 3 && s[1] == DELAY_CODE then
      match FirstBar(s, 2) case Malformed => Malformed case Length(i) => Length(i + 1)
    else Malformed
  }

  lemma {:induction false} BarInside(s: seq<Byte>, i: nat)
    ensures var r := FirstBar(s, i); r.Length? ==> i <= r.n < |s| && r.n <= 6
    decreases 7 - i
  {
    if i <= 6 && i < |s| && s[i] != BAR {
      BarInside(s, i + 1);
    }
  }

  lemma {:induction false} WordInside(s: seq<Byte>)
    requires s != []
    ensures Word(s).Length? ==> 0 < Word(s).n <= |s|
  {
    BarInside(s, 2);
  }

  /** How much of a string is whole words. */
  ghost function Good(s: seq<Byte>): (n: nat)
    ensures n <= |s|
    decreases |s|
  {
    if s == [] then 0
    else
      WordInside(s);
      match Word(s)
      case Malformed => 0
      case Length(n) => n + Good(s[n..])
  }

  ghost predicate WellFormed(s: seq<Byte>) {
    Good(s) == |s|
  }

  /** No word uses a code the reader does not know. */
  ghost predicate Known(s: seq<Byte>)
    decreases |s|
  {
    if s == [] then true
    else
      WordInside(s);
      match Word(s)
      case Malformed => |s| < 2 || s[1] <= DELAY_CODE
      case Length(n) => Known(s[n..])
  }

  lemma {:induction false} WellFormedIsKnown(s: seq<Byte>)
    requires WellFormed(s)
    ensures Known(s)
    decreases |s|
  {
    if s != [] {
      WordInside(s);
      WellFormedIsKnown(s[Word(s).n..]);
    }
  }

  ghost function Concat(ss: seq<seq<Byte>>): seq<Byte> {
    if ss == [] then [] else ss[0] + Concat(ss[1..])
  }

  /** A C string: everything before the first NUL. */
  function CString(s: seq<Byte>): seq<Byte> {
    if s == [] || s[0] == 0 then [] else [s[0]] + CString(s[1..])
  }

  lemma {:induction false} CStringIs(s: seq<Byte>, n: nat)
    requires n < |s| && s[n] == 0 && forall i :: 0 <= i < n ==> s[i] != 0
    ensures CString(s) == s[..n]
  {
    if n > 0 {
      CStringIs(s[1..], n - 1);
      assert s[..n] == [s[0]] + s[1..][..n - 1];
    }
  }

  // ---------- what is sent ----------

  datatype Step = Stop | Send(n: nat, text: seq<Byte>, left: seq<Byte>)

  /** What the first word of a string makes the reader send. `left` is what the last word of three bytes or more left
      behind its second byte: a code the reader does not know is sent together with it. */
  ghost function First(s: seq<Byte>, left: seq<Byte>): (r: Step)
    requires s != []
    ensures r.Send? ==> 0 < r.n <= |s|
  {
    WordInside(s);
    match Word(s)
    case Length(n) => Send(n, s[..n], if n >= 3 then s[2..n] else left)
    case Malformed => if |s| >= 2 && s[1] > DELAY_CODE then Send(2, s[..2] + left, left) else Stop
  }

  /** The pieces sent for a string. */
  ghost function Pieces(s: seq<Byte>, left: seq<Byte>): seq<seq<Byte>>
    decreases |s|
  {
    if s == [] then []
    else
      match First(s, left)
      case Stop => []
      case Send(n, text, left') => [text] + Pieces(s[n..], left')
  }

  /** What is sent is the string as far as it is well-formed, if and only if no unknown code comes after that part. */
  lemma {:induction false} KnownExactly(s: seq<Byte>, left: seq<Byte>)
    ensures Concat(Pieces(s, left)) == s[..Good(s)] <==> Known(s)
    decreases |s|
  {
    hide Known, Good, First, Word;
    if s != [] {
      KnownSteps(s);
      FirstIsWord(s, left);
      var f := First(s, left);
      if f.Send? {
        assert Concat(Pieces(s, left)) == f.text + Concat(Pieces(s[f.n..], f.left));
      }
      if Word(s).Length? {
        var rest := s[f.n..];
        KnownExactly(rest, f.left);
        SamePrefix(f.text, Concat(Pieces(rest, f.left)), rest[..Good(rest)]);
        assert s[..Good(s)] == f.text + rest[..Good(rest)];
      }
    } else {
      KnownOfNothing();
    }
  }

  lemma {:induction false} SamePrefix(a: seq<Byte>, x: seq<Byte>, y: seq<Byte>)
    ensures a + x == a + y <==> x == y
  {
    if a + x == a + y {
      assert (a + x)[|a|..] == x && (a + y)[|a|..] == y;
    }
  }

  lemma {:induction false} KnownOfNothing()
    ensures Known([]) && Good([]) == 0
  {
  }

  lemma {:induction false} FirstIsWord(s: seq<Byte>, left: seq<Byte>)
    requires s != []
    ensures Word(s).Length? ==> First(s, left).Send? && First(s, left).n == Word(s).n <= |s|
                                && First(s, left).text == s[..Word(s).n]
    ensures Word(s).Malformed? && First(s, left).Send? ==> |First(s, left).text| > 0
    ensures Word(s).Malformed? ==> (First(s, left) == Stop <==> |s| < 2 || s[1] <= DELAY_CODE)
  {
  }

  /** A well-formed string is sent entirely. */
  lemma {:induction false} WellFormedIsSent(s: seq<Byte>, left: seq<Byte>)
    requires WellFormed(s)
    ensures Concat(Pieces(s, left)) == s
  {
    WellFormedIsKnown(s);
    KnownExactly(s, left);
    assert s[..|s|] == s;
  }

  // ---------- the grammar ----------

  /** What a macro is made of. */
  datatype Item =
    | Char(c: Byte)
    | Tap(keycode: Byte)
    | Down(keycode: Byte)
    | Up(keycode: Byte)
    | Delay(digits: seq<Byte>)

  /** A NUL ends the string, a bar ends a delay, and a delay has at most four characters. */
  predicate IsItem(item: Item) {
    match item
    case Char(c) => c != 0 && c != 1
    case Tap(keycode) => keycode != 0
    case Down(keycode) => keycode != 0
    case Up(keycode) => keycode != 0
    case Delay(digits) => |digits| <= 4 && forall d <- digits :: d != 0 && d != '|' as int
  }

  function Written(item: Item): (b: seq<Byte>)
    ensures b != []
  {
    match item
    case Char(c) => [c]
    case Tap(keycode) => [1, 1, keycode]
    case Down(keycode) => [1, 2, keycode]
    case Up(keycode) => [1, 3, keycode]
    case Delay(digits) => [1, 4] + digits + ['|' as int]
  }

  function AllWritten(items: seq<Item>): seq<Byte> {
    if items == [] then [] else Written(items[0]) + AllWritten(items[1..])
  }

  ghost predicate AreItems(items: seq<Item>) {
    forall i :: 0 <= i < |items| ==> IsItem(items[i])
  }

  lemma {:induction false} BarAt(s: seq<Byte>, i: nat, n: nat)
    requires i <= n <= 6 && n < |s| && s[n] == BAR && forall k :: i <= k < n ==> s[k] != BAR
    ensures FirstBar(s, i) == Length(n)
    decreases n - i
  {
    if i < n {
      BarAt(s, i + 1, n);
    }
  }

  lemma {:induction false} NoBarBefore(s: seq<Byte>, i: nat)
    ensures var r := FirstBar(s, i);
            r.Length? ==> r.n < |s| && s[r.n] == BAR && forall k :: i <= k < r.n ==> s[k] != BAR
    decreases 7 - i
  {
    if i <= 6 && i < |s| && s[i] != BAR {
      NoBarBefore(s, i + 1);
    }
  }

  lemma {:induction false} WordOfItem(item: Item, rest: seq<Byte>)
    requires IsItem(item)
    ensures Word(Written(item) + rest) == Length(|Written(item)|)
  {
    var s := Written(item) + rest;
    if item.Delay? {
      assert forall k :: 2 <= k < 2 + |item.digits| ==>
        s[k] == item.digits[k - 2] && s[k] in item.digits;
      BarAt(s, 2, 2 + |item.digits|);
    }
  }

  lemma {:induction false} ItemOfWord(s: seq<Byte>) returns (item: Item)
    requires s != [] && Word(s).Length? && 0 !in s
    ensures Word(s).n <= |s| && IsItem(item) && Written(item) == s[..Word(s).n]
  {
    WordInside(s);
    var n := Word(s).n;
    if s[0] != PREFIX {
      item := Char(s[0]);
    } else if s[1] == DELAY_CODE {
      NoBarBefore(s, 2);
      BarInside(s, 2);
      item := Delay(s[2..n - 1]);
    } else {
      item := if s[1] == 1 then Tap(s[2]) else if s[1] == 2 then Down(s[2]) else Up(s[2]);
    }
  }

  lemma {:induction false} ItemFirst(item: Item, rest: seq<Byte>, left: seq<Byte>) returns (left': seq<Byte>)
    requires IsItem(item)
    ensures First(Written(item) + rest, left) == Send(|Written(item)|, Written(item), left')
    ensures (Written(item) + rest)[|Written(item)|..] == rest
    ensures Good(Written(item) + rest) == |Written(item)| + Good(rest)
  {
    hide Word, Written;
    WordOfItem(item, rest);
    var w, s := Written(item), Written(item) + rest;
    WordInside(s);
    left' := if |w| >= 3 then s[2..|w|] else left;
    assert s[..|w|] == w && s[|w|..] == rest;
  }

  function Kept(item: Item, left: seq<Byte>): seq<Byte> {
    if item.Char? then left else Written(item)[2..]
  }

  /** What a list of items leaves in the array behind its second byte. */
  function Leftover(items: seq<Item>, left: seq<Byte>): seq<Byte> {
    if items == [] then left
    else Leftover(items[1..], Kept(items[0], left))
  }

  lemma {:induction false} UnknownCodeFirst(code: Byte, rest: seq<Byte>, left: seq<Byte>)
    requires code > 4
    ensures Pieces([1, code] + rest, left) == [[1, code] + left] + Pieces(rest, left)
  {
    var s := [1, code] + rest;
    assert s[..2] == [1, code] && s[2..] == rest;
    assert First(s, left) == Send(2, [1, code] + left, left);
    hide First;
  }

  lemma {:induction false} PiecesNext(item: Item, rest: seq<Byte>, left: seq<Byte>)
    requires IsItem(item)
    ensures Pieces(Written(item) + rest, left)
      == [Written(item)] + Pieces(rest, Kept(item, left))
  {
    hide Word, Written, First;
    var left' := ItemFirst(item, rest, left);
    LeftOfItem(item, rest, left);
  }

  /** A code the reader does not know is sent with what the last item that was no character left behind, and reading
      goes on after it. */
  lemma {:induction false} UnknownCodeSends(items: seq<Item>, code: Byte, rest: seq<Byte>, left: seq<Byte>)
    requires AreItems(items) && code > 4
    ensures Pieces(AllWritten(items) + ([1, code] + rest), left)
      == EachWritten(items) + ([[1, code] + Leftover(items, left)] + Pieces(rest, Leftover(items, left)))
    decreases |items|
  {
    hide Written, Pieces, Kept;
    var end := [1, code] + rest;
    if items == [] {
      assert AllWritten(items) + end == end;
      UnknownCodeFirst(code, rest, left);
    } else {
      var w, more := Written(items[0]), AllWritten(items[1..]) + end;
      assert AllWritten(items) + end == w + more;
      PiecesNext(items[0], more, left);
      UnknownCodeSends(items[1..], code, rest, Kept(items[0], left));
      EachNext(items);
    }
  }

  ghost function EachWritten(items: seq<Item>): seq<seq<Byte>> {
    seq(|items|, i requires 0 <= i < |items| => Written(items[i]))
  }

  lemma {:induction false} EachNext(items: seq<Item>)
    requires items != []
    ensures EachWritten(items) == [Written(items[0])] + EachWritten(items[1..])
  {
  }

  lemma {:induction false} LeftOfItem(item: Item, rest: seq<Byte>, left: seq<Byte>)
    requires IsItem(item)
    ensures var f := First(Written(item) + rest, left);
            f.Send? && f.left == Kept(item, left)
  {
    WordOfItem(item, rest);
    var s := Written(item) + rest;
    WordInside(s);
    assert !item.Char? ==> s[2..|Written(item)|] == Written(item)[2..];
  }

  lemma {:induction false} NothingSent(left: seq<Byte>)
    ensures Pieces([], left) == EachWritten([]) == [] && WellFormed([])
  {
  }

  /** A list of items is sent item by item. */
  lemma {:induction false} ItemsAreSent(items: seq<Item>, left: seq<Byte>)
    requires AreItems(items)
    ensures Pieces(AllWritten(items), left) == EachWritten(items)
    ensures WellFormed(AllWritten(items))
    decreases |items|
  {
    hide Word, Written, First, Pieces, Good, EachWritten, Kept;
    if items == [] {
      NothingSent(left);
    } else {
      var rest := AllWritten(items[1..]);
      var left' := ItemFirst(items[0], rest, left);
      PiecesNext(items[0], rest, left);
      ItemsAreSent(items[1..], Kept(items[0], left));
      EachNext(items);
    }
  }

  lemma {:induction false} ItemsNulFree(items: seq<Item>)
    requires AreItems(items)
    ensures 0 !in AllWritten(items)
    decreases |items|
  {
    if items != [] {
      ItemsNulFree(items[1..]);
    }
  }

  /** A buffer of macros, and the items of the one asked for: these are sent, one by one. */
  lemma {:induction false} MacroPlays(before: seq<seq<Byte>>, items: seq<Item>, rest: seq<Byte>)
    requires (forall i :: 0 <= i < |before| ==> 0 !in before[i]) && AreItems(items)
    requires rest == [] || rest[|rest| - 1] == 0
    ensures var b, p := Joined(before) + AllWritten(items) + [0] + rest, |Joined(before)|;
            && b[|b| - 1] == 0 && StartsAt(b, |before|, p)
            && Pieces(b[p..Terminator(b, p)], []) == EachWritten(items)
  {
    hide StartsAt, Terminator, Pieces, Joined;
    ItemsNulFree(items);
    FindsString(before, AllWritten(items), rest);
    ItemsAreSent(items, []);
  }

  /** The strings the reader sends entirely, word by word, are the lists of items. */
  lemma {:induction false} WellFormedExactly(s: seq<Byte>)
    requires 0 !in s
    ensures WellFormed(s) <==> exists items :: AreItems(items) && AllWritten(items) == s
  {
    if WellFormed(s) {
      var items := ItemsOf(s);
    }
    forall items | AreItems(items) && AllWritten(items) == s ensures WellFormed(s) {
      ItemsAreSent(items, []);
    }
  }

  lemma {:induction false} ItemsOf(s: seq<Byte>) returns (items: seq<Item>)
    requires 0 !in s && WellFormed(s)
    ensures AreItems(items) && AllWritten(items) == s
    decreases |s|
  {
    hide Word, Written, Good;
    KnownSteps(s);
    if s == [] {
      items := [];
    } else {
      WordInside(s);
      GoodStops(s);
      var n := Word(s).n;
      var item := ItemOfWord(s);
      var more := ItemsOf(s[n..]);
      items := [item] + more;
      assert items[1..] == more && s == s[..n] + s[n..];
    }
  }

  lemma {:induction false} GoodStops(s: seq<Byte>)
    requires s != [] && WellFormed(s)
    ensures Word(s).Length?
  {
  }

  /** The keycode of a tap, for example, is sent again with the next unknown code. */
  lemma {:induction false} UnknownCodeRepeats(keycode: Byte, code: Byte)
    requires code > DELAY_CODE
    ensures Pieces([PREFIX, TAP_CODE, keycode, PREFIX, code], [])
      == [[PREFIX, TAP_CODE, keycode], [PREFIX, code, keycode]]
  {
    var s := [PREFIX, TAP_CODE, keycode, PREFIX, code];
    assert s[..3] == [PREFIX, TAP_CODE, keycode] && s[2..3] == [keycode] && s[3..] == [PREFIX, code];
    var t := [PREFIX, code];
    assert t[..2] == t && t + [keycode] == [PREFIX, code, keycode] && t[2..] == [];
    assert Pieces(t, [keycode]) == [t[..2] + [keycode]] + Pieces(t[2..], [keycode]);
  }

  /** `s` is the C string at `start`, with its terminator at `e`. */
  ghost predicate IsString(b: seq<Byte>, start: nat, e: nat, s: seq<Byte>) {
    && start <= e < |b| && s == b[start..e] && b[e] == 0
    && forall i :: start <= i < e ==> b[i] != 0
  }

  /** The array holds the text to send, and behind its second byte what an unknown code would repeat. */
  ghost predicate Holds(d: seq<Byte>, text: seq<Byte>, left: seq<Byte>)
    requires |d| == 8
  {
    CString(d) == text && CString(d[2..]) == left
  }

  /** After the first `n` bytes of a string, what is still to be sent depends on the rest and on the array only. */
  ghost predicate Progress(s: seq<Byte>, n: nat, sent: seq<seq<Byte>>, d: seq<Byte>)
    requires |d| == 8
  {
    n <= |s| && Pieces(s, []) == sent + Pieces(s[n..], CString(d[2..]))
  }

  lemma {:induction false} ProgressStart(s: seq<Byte>, d: seq<Byte>)
    requires |d| == 8 && d[2] == 0
    ensures Progress(s, 0, [], d)
  {
    hide Pieces;
    assert s[0..] == s;
  }

  lemma {:induction false} ProgressStep(s: seq<Byte>, n: nat, sent: seq<seq<Byte>>, d: seq<Byte>, d': seq<Byte>)
    requires |d| == |d'| == 8 && Progress(s, n, sent, d)
    ensures n == |s| ==> sent == Pieces(s, [])
    ensures n < |s| ==>
      match First(s[n..], CString(d[2..]))
      case Stop => sent == Pieces(s, [])
      case Send(k, text, left) =>
        0 < k <= |s| - n && (Holds(d', text, left) ==> Progress(s, n + k, sent + [CString(d')], d'))
  {
    hide First, CString;
    if n < |s| {
      var f := First(s[n..], CString(d[2..]));
      if f.Send? {
        assert s[n..][f.n..] == s[n + f.n..];
      }
    }
  }

  lemma {:induction false} KnownSteps(s: seq<Byte>)
    ensures s == [] ==> Good(s) == 0
    ensures s != [] && Word(s).Length? ==>
              Word(s).n <= |s| && Known(s) == Known(s[Word(s).n..]) && Good(s) == Word(s).n + Good(s[Word(s).n..])
    ensures s != [] && Word(s).Malformed? ==> Good(s) == 0 && (Known(s) <==> |s| < 2 || s[1] <= DELAY_CODE)
  {
    if s != [] {
      WordInside(s);
    }
  }

  lemma {:induction false} LongText(d: seq<Byte>, s: seq<Byte>, n: nat)
    requires |d| == 8 && 3 <= n <= |s| && n <= 7 && d[n] == 0
    requires forall i :: 0 <= i < n ==> d[i] == s[i] != 0
    ensures Holds(d, s[..n], s[2..n])
  {
    CStringIs(d, n);
    CStringIs(d[2..], n - 2);
    assert d[..n] == s[..n] && d[2..][..n - 2] == s[2..n];
  }

  lemma {:induction false} UnknownText(d: seq<Byte>)
    requires |d| == 8 && d[0] != 0 && d[1] != 0
    ensures Holds(d, d[..2] + CString(d[2..]), CString(d[2..]))
  {
    assert d[1..][1..] == d[2..];
    assert CString(d) == [d[0]] + ([d[1]] + CString(d[2..]));
  }

  lemma {:induction false} SameBar(s: seq<Byte>, t: seq<Byte>)
    requires |s| >= 2 && t == s[2..]
    ensures FirstBar([0, 0] + t, 2) == FirstBar(s, 2)
  {
    SameBarFrom(s, [0, 0] + t, 2);
  }

  lemma {:induction false} SameBarFrom(s: seq<Byte>, t: seq<Byte>, i: nat)
    requires i >= 2 && |s| == |t| && forall j :: 2 <= j < |s| ==> s[j] == t[j]
    ensures FirstBar(s, i) == FirstBar(t, i)
    decreases 7 - i
  {
    if i <= 6 {
      SameBarFrom(s, t, i + 1);
    }
  }

  lemma {:induction false} BarStep(s: seq<Byte>, i: nat)
    requires i <= 6
    ensures FirstBar(s, i) == if i >= |s| then Malformed else if s[i] == BAR then Length(i) else FirstBar(s, i + 1)
    ensures FirstBar(s, 7) == Malformed
  {
  }

  // ---------- the reader ----------

  datatype Outcome = Done | Aborted | Piece

  class Reader {
    const mem: Memory
    const addr: nat
    const size: nat
    const count: nat
    /** The last position read while sending. */
    ghost var furthest: nat

    constructor (mem: Memory, addr: nat, size: nat, count: nat)
      ensures this.mem == mem && this.addr == addr && this.size == size && this.count == count
    {
      this.mem, this.addr, this.size, this.count := mem, addr, size, count;
    }

    ghost predicate Valid()
      reads mem
    {
      size > 0 && addr + size <= mem.bytes.Length
    }

    ghost function Buffer(): (b: seq<Byte>)
      requires Valid()
      reads mem, mem.bytes
      ensures |b| == size
    {
      mem.bytes[addr..addr + size]
    }

    method Read(p: nat) returns (b: Byte)
      requires Valid() && p < size
      modifies this`furthest
      ensures b == Buffer()[p]
      ensures furthest == if p > old(furthest) then p else old(furthest)
    {
      b := mem.ReadByte(addr + p);
      if p > furthest {
        furthest := p;
      }
    }

    method Peek(p: nat) returns (b: Byte)
      requires Valid() && p < size
      ensures b == Buffer()[p]
    {
      b := mem.ReadByte(addr + p);
    }

    /** Lines 291-305: behind the id-th NUL, if there are that many. */
    method Skip(id: nat) returns (found: bool, p: nat)
      requires Valid()
      ensures found ==> StartsAt(Buffer(), id, p)
      ensures !found ==> Nuls(Buffer()) < id
    {
      ghost var b := Buffer();
      p := 0;
      var left := id;
      while left > 0
        invariant p <= size && left >= 0 && left + Nuls(b[..p]) == id
        invariant p > 0 && left == 0 ==> b[p - 1] == 0
        decreases size - p
      {
        if p == size {
          assert b[..p] == b;
          return false, p;
        }
        var c := Peek(p);
        assert b[..p + 1][..p] == b[..p];
        if c == 0 {
          left := left - 1;
        }
        p := p + 1;
      }
      return true, p;
    }

    /** Lines 337-355: the number of a delay and its bar, into `data` from index 2. */
    method ReadDelay(p: nat, data: array<Byte>, ghost e: nat) returns (ok: bool, p': nat)
      requires Valid() && p <= e < size && Buffer()[e] == 0 && data.Length == 8 && data != mem.bytes
      requires forall i :: p <= i < e ==> Buffer()[i] != 0
      modifies this`furthest, data
      ensures data[0] == old(data[0]) && data[1] == old(data[1])
      ensures furthest <= e || furthest == old(furthest)
      ensures var bar := FirstBar([0, 0] + Buffer()[p..e], 2);
              && (ok <==> bar.Length?)
              && (ok ==> p' == p + bar.n - 1 && p' <= e && 2 <= bar.n <= 6
                         && data[bar.n + 1] == 0
                         && forall j :: 2 <= j <= bar.n ==> data[j] == Buffer()[p + j - 2])
    {
      ghost var b := Buffer();
      ghost var s := [0, 0] + b[p..e];
      hide FirstBar;
      p' := p;
      var i := 2;
      while true
        invariant 2 <= i <= 6 && p' == p + i - 2 && p' <= e
        invariant FirstBar(s, 2) == FirstBar(s, i)
        invariant Buffer() == b && data[0] == old(data[0]) && data[1] == old(data[1])
        invariant forall j :: 2 <= j < i ==> data[j] == b[p + j - 2]
        invariant furthest <= e || furthest == old(furthest)
        decreases 6 - i
      {
        var c := Read(p');
        BarStep(s, i);
        assert p' < e ==> s[i] == b[p'];
        p' := p' + 1;
        data[i] := c;
        if c == 0 {
          return false, p';
        }
        if c == BAR {
          data[i + 1] := 0;
          return true, p';
        }
        if i == 6 {
          return false, p';
        }
        i := i + 1;
      }
    }

    /** Lines 318-357: a prefix has been read into `data[0]`, `p` is behind it. */
    method ReadPrefixed(p: nat, data: array<Byte>, ghost e: nat) returns (outcome: Outcome, p': nat)
      requires Valid() && 0 < p <= e < size && Buffer()[e] == 0 && data.Length == 8 && data != mem.bytes
      requires forall i :: p - 1 <= i < e ==> Buffer()[i] != 0
      requires data[0] == Buffer()[p - 1] == PREFIX
      modifies this`furthest, data
      ensures furthest <= e || furthest == old(furthest)
      ensures match First(Buffer()[p - 1..e], CString(old(data[2..])))
              case Stop => outcome == Aborted
              case Send(n, text, left) => outcome == Piece && p' == p - 1 + n && Holds(data[..], text, left)
    {
      hide CString, FirstBar;
      ghost var b, d0 := Buffer(), data[..];
      ghost var s := b[p - 1..e];
      p' := p;
      var code := Read(p');
      data[1] := code;
      p' := p' + 1;
      assert code != 0 <==> p < e;
      assert Buffer() == b && |s| == e - p + 1 && s[0] == PREFIX;
      if code == 0 {
        assert Word(s).Malformed?;
        return Aborted, p';
      }
      assert s[1] == code;
      if code == 1 || code == 2 || code == 3 {
        var keycode := Read(p');
        data[2] := keycode;
        p' := p' + 1;
        assert keycode != 0 <==> p + 1 < e;
        if keycode == 0 {
          assert |s| == 2 && Word(s).Malformed?;
          return Aborted, p';
        }
        data[3] := 0;
        LongText(data[..], s, 3);
      } else if code == DELAY_CODE {
        var ok;
        ghost var q := p';
        SameBar(s, b[q..e]);
        BarInside(s, 2);
        ok, p' := ReadDelay(p', data, e);
        if !ok {
          return Aborted, p';
        }
        ghost var d, n := data[..], Word(s).n;
        assert forall i :: 2 <= i < n ==> d[i] == b[q + i - 2] == s[i];
        LongText(d, s, n);
      } else {
        assert data[2..] == d0[2..];
        UnknownText(data[..]);
      }
      return Piece, p';
    }

    /** Lines 312-358: one piece of the string, by way of `data`. `e` is where the string ends. */
    method ReadPiece(p: nat, data: array<Byte>, ghost e: nat) returns (outcome: Outcome, p': nat)
      requires Valid() && p <= e < size && Buffer()[e] == 0 && data.Length == 8 && data != mem.bytes
      requires forall i :: p <= i < e ==> Buffer()[i] != 0
      modifies this`furthest, data
      ensures furthest <= e || furthest == old(furthest)
      ensures p == e ==> outcome == Done
      ensures p < e ==>
                match First(Buffer()[p..e], CString(old(data[2..])))
                case Stop => outcome == Aborted
                case Send(n, text, left) => outcome == Piece && p' == p + n && Holds(data[..], text, left)
    {
      hide CString, FirstBar;
      ghost var s, d0 := Buffer()[p..e], data[..];
      var c := Read(p);
      assert c != 0 ==> s[0] == c;
      data[0] := c;
      data[1] := 0;
      assert data[2..] == d0[2..];
      if c == 0 {
        return Done, p + 1;
      }
      if c == PREFIX {
        outcome, p' := ReadPrefixed(p + 1, data, e);
      } else {
        CStringIs(data[..], 1);
        assert data[..1] == [c] == s[..1];
        return Piece, p + 1;
      }
    }

    /** dynamic_keymap_macro_send. Returns what was given to send_string, piece by piece. In the one case in which
        the source reads on behind the buffer, `outside` says so and the model stops. */
    method MacroSend(id: nat) returns (outside: bool, sent: seq<seq<Byte>>)
      requires Valid()
      modifies this`furthest
      ensures outside <==> id < count && Buffer()[size - 1] == 0 && Nuls(Buffer()) == id
      ensures id >= count || Buffer()[size - 1] != 0 || Nuls(Buffer()) <= id ==> sent == [] && furthest == 0
      ensures forall p: nat :: StartsAt(Buffer(), id, p) && p < size && id < count && Buffer()[size - 1] == 0 ==>
                var e := Terminator(Buffer(), p);
                furthest <= e && sent == Pieces(Buffer()[p..e], [])
    {
      hide Terminator, Pieces;
      outside, sent, furthest := false, [], 0;
      ghost var b := Buffer();
      if id >= count {
        return;
      }
      var last := Peek(size - 1);
      if last != 0 {
        return;
      }
      var found, start := Skip(id);
      if !found {
        forall p: nat ensures !StartsAt(b, id, p) {
          NoStart(b, id, p);
        }
        return;
      }
      StartsInsideExactly(b, id, start);
      assert b[..|b|] == b;
      forall p: nat | StartsAt(b, id, p) ensures p == start {
        StartIsUnique(b, id, p, start);
      }
      if start == size {
        outside := true;
        return;
      }
      sent := SendFrom(start);
    }

    /** One turn of the loop of lines 311-359: read a piece and send it. */
    method SendPiece(p: nat, data: array<Byte>, sent: seq<seq<Byte>>, ghost s: seq<Byte>, ghost start: nat,
                     ghost e: nat)
      returns (more: bool, p': nat, sent': seq<seq<Byte>>)
      requires Valid() && data.Length == 8 && data != mem.bytes
      requires IsString(Buffer(), start, e, s) && start <= p <= e && Progress(s, p - start, sent, data[..])
      modifies this`furthest, data
      ensures furthest <= e || furthest == old(furthest)
      ensures more ==> p < p' <= e && Progress(s, p' - start, sent', data[..])
      ensures !more ==> sent' == Pieces(s, [])
    {
      hide Progress, First, CString, Pieces, Holds;
      assert s[p - start..] == Buffer()[p..e];
      ghost var d := data[..];
      assert d[2..] == data[2..];
      var outcome;
      outcome, p' := ReadPiece(p, data, e);
      ProgressStep(s, p - start, sent, d, data[..]);
      if outcome != Piece {
        return false, p', sent;
      }
      return true, p', sent + [CString(data[..])];
    }

    method SendFrom(start: nat) returns (sent: seq<seq<Byte>>)
      requires Valid() && start < size && Buffer()[size - 1] == 0
      modifies this`furthest
      ensures var e := Terminator(Buffer(), start);
              (furthest <= e || furthest == old(furthest)) && sent == Pieces(Buffer()[start..e], [])
    {
      ghost var e := Terminator(Buffer(), start);
      ghost var s := Buffer()[start..e];
      assert IsString(Buffer(), start, e, s);
      sent := SendString(start, s, e);
    }

    /** The loop of lines 311-359. */
    method SendString(start: nat, ghost s: seq<Byte>, ghost e: nat) returns (sent: seq<seq<Byte>>)
      requires Valid() && IsString(Buffer(), start, e, s)
      modifies this`furthest
      ensures (furthest <= e || furthest == old(furthest)) && sent == Pieces(s, [])
    {
      hide Progress, Pieces;
      assert start <= e;
      sent := [];
      var p := start;
      var data := new Byte[8](_ => 0);
      var more := true;
      ProgressStart(s, data[..]);
      while more
        invariant start <= p <= e && IsString(Buffer(), start, e, s) && fresh(data)
        invariant furthest <= e || furthest == old(furthest)
        invariant if more then Progress(s, p - start, sent, data[..]) else sent == Pieces(s, [])
        decreases more, e - p
      {
        var next;
        more, next, sent := SendPiece(p, data, sent, s, start, e);
        if more {
          p := next;
        }
      }
    }
  }
}
