/**
 The structure block of a flattened device tree (section 5.4 of the Devicetree
 Specification v0.4): what it says, how it is written as bytes, and the linked
 devices that stand for it.
 */
module DtbFormat {

  type Bytes = seq<nat>

  /** A list of properties and nodes in document order, with tokens that mean
      nothing anywhere in between; `room` is the bytes a value or a terminated name
      takes up with its padding. */
  datatype Items =
    | Nothing
    | Skip(token: nat, rest: Items)
    | Prop(nameOffset: nat, value: Bytes, room: nat, rest: Items)
    | Node(name: Bytes, room: nat, children: Items, rest: Items)

  const BEGIN_NODE := 1
  const END_NODE := 2
  const PROP := 3
  const NOP := 4
  const END := 9

  const TWO_TO_32 := 0x1_0000_0000

  /** Names have no terminator in them, padding goes to the next multiple of four,
      and numbers fit their fields. */
  predicate WellFormed(items: Items) {
    match items
    case Nothing => true
    case Skip(token, rest) => (token == NOP || token == END) && WellFormed(rest)
    case Prop(nameOffset, value, room, rest) =>
      nameOffset < TWO_TO_32 && |value| < TWO_TO_32 && room == ValueRoom(|value|) && WellFormed(rest)
    case Node(name, room, children, rest) =>
      0 !in name && room == NameRoom(|name|) && WellFormed(children) && WellFormed(rest)
  }

  // ---- bytes ----

  /** The lowest `width` bytes of a number, most significant first. */
  function Bytewise(n: nat, width: nat): (b: Bytes)
    ensures |b| == width
  {
    if width == 0 then [] else Bytewise(n / 256, width - 1) + [n % 256]
  }

  /** A 32-bit number. */
  function Int(n: nat): (b: Bytes)
    ensures |b| == 4
  {
    Bytewise(n, |FOUR|)
  }

  const FOUR: Bytes := [0, 0, 0, 0]

  /** The number that bytes stand for, most significant first. */
  function Big(b: Bytes): nat {
    if b == [] then 0 else Big(b[..|b| - 1]) * 256 + b[|b| - 1]
  }

  /** dtb_read_int */
  function ReadInt(dtb: Bytes, at: nat): nat
    requires at + 4 <= |dtb|
  {
    Big(dtb[at..at + 4])
  }

  /** The shifts of dtb_read_int. */
  lemma ShiftedBytes(a: nat, b: nat, c: nat, d: nat)
    ensures Big([a, b, c, d]) == a * 0x100_0000 + b * 0x1_0000 + c * 0x100 + d
  {
    assert [a, b, c, d][..3] == [a, b, c];
    assert [a, b, c][..2] == [a, b];
    assert [a, b][..1] == [a] && [a][..0] == [];
    assert Big([a]) == a;
    assert Big([a, b]) == a * 256 + b;
    assert Big([a, b, c]) == (a * 256 + b) * 256 + c;
  }

  function Pow256(n: nat): nat {
    if n == 0 then 1 else 256 * Pow256(n - 1)
  }

  lemma {:induction false} BytewiseRoundTrip(n: nat, width: nat)
    requires n < Pow256(width)
    ensures Big(Bytewise(n, width)) == n
    decreases width
  {
    if width > 0 {
      BytewiseRoundTrip(n / 256, width - 1);
      assert Bytewise(n, width)[..width - 1] == Bytewise(n / 256, width - 1);
    }
  }

  /** Reading a number that was written. */
  lemma IntRoundTrip(dtb: Bytes, at: nat, n: nat)
    requires n < TWO_TO_32 && At(dtb, at, Int(n))
    ensures Word(dtb, at, n)
  {
    assert Pow256(4) == TWO_TO_32;
    BytewiseRoundTrip(n, 4);
    assert dtb[at..at + 4] == Int(n);
  }

  ghost predicate At(dtb: Bytes, loc: nat, bytes: Bytes) {
    loc + |bytes| <= |dtb| && forall j :: 0 <= j < |bytes| ==> bytes[j] == dtb[loc + j]
  }

  ghost predicate Word(dtb: Bytes, at: nat, n: nat) {
    at + 4 <= |dtb| && ReadInt(dtb, at) == n
  }

  function Zeros(n: nat): (b: Bytes)
    ensures |b| == n
  {
    seq(n, i => 0)
  }

  /** Bytes a name takes up with its terminator, up to the next multiple of four. */
  function NameRoom(len: nat): (room: nat)
    ensures room > len
  {
    if len < 4 then 4 else 4 + NameRoom(len - 4)
  }

  /** Bytes a value takes up, up to the next multiple of four. */
  function ValueRoom(len: nat): (room: nat)
    ensures room >= len
  {
    if len == 0 then 0 else if len < 4 then 4 else 4 + ValueRoom(len - 4)
  }

  /** The parser's formulas for them. */
  lemma {:induction false} Rooms(len: nat)
    ensures NameRoom(len) == (len + 4) / 4 * 4
    ensures ValueRoom(len) == (len + 3) / 4 * 4
  {
    if len >= 4 {
      Rooms(len - 4);
    }
  }

  /** Bytes with zeros after them. */
  function Padded(b: Bytes, room: nat): (out: Bytes)
    ensures |out| >= room && (|b| <= room ==> |out| == room)
  {
    b + Zeros(if |b| <= room then room - |b| else 0)
  }

  /** Bytes a list takes up. */
  function Room(items: Items): nat {
    match items
    case Nothing => 0
    case Skip(_, rest) => 4 + Room(rest)
    case Prop(_, _, room, rest) => 12 + room + Room(rest)
    case Node(_, room, children, rest) => 4 + room + Room(children) + 4 + Room(rest)
  }

  /** The block as bytes. */
  function Encode(items: Items): (b: Bytes)
    requires WellFormed(items)
    ensures |b| == Room(items)
  {
    match items
    case Nothing => []
    case Skip(token, rest) => Int(token) + Encode(rest)
    case Prop(nameOffset, value, room, rest) =>
      (Int(PROP) + Int(|value|) + Int(nameOffset)) + (Padded(value, room) + Encode(rest))
    case Node(name, room, children, rest) =>
      (Int(BEGIN_NODE) + Padded(name, room)) + (Encode(children) + (Int(END_NODE) + Encode(rest)))
  }

  /** The blob holds the list from byte `loc` on. */
  ghost predicate Holds(dtb: Bytes, loc: nat, items: Items)
    decreases items
  {
    match items
    case Nothing => true
    case Skip(token, rest) => Word(dtb, loc, token) && Holds(dtb, loc + 4, rest)
    case Prop(nameOffset, value, room, rest) =>
      && Word(dtb, loc, PROP) && Word(dtb, loc + 4, |value|) && Word(dtb, loc + 8, nameOffset)
      && At(dtb, loc + 12, value)
      && Holds(dtb, loc + 12 + room, rest)
    case Node(name, room, children, rest) =>
      var inside := loc + 4 + room;
      && Word(dtb, loc, BEGIN_NODE) && At(dtb, loc + 4, name + [0])
      && Holds(dtb, inside, children)
      && Word(dtb, inside + Room(children), END_NODE)
      && Holds(dtb, inside + Room(children) + 4, rest)
  }

  lemma AtSplit(dtb: Bytes, loc: nat, bytes: Bytes, a: Bytes, n: nat, b: Bytes)
    requires At(dtb, loc, bytes) && bytes == a + b && |a| == n
    ensures At(dtb, loc, a) && At(dtb, loc + n, b)
  {
    forall j | 0 <= j < |a|
      ensures a[j] == dtb[loc + j]
    {
      assert (a + b)[j] == a[j];
    }
    forall j | 0 <= j < |b|
      ensures b[j] == dtb[loc + |a| + j]
    {
      assert (a + b)[|a| + j] == b[j];
    }
  }

  lemma NameHeld(dtb: Bytes, at: nat, name: Bytes, room: nat)
    requires At(dtb, at, Padded(name, room)) && |name| < room
    ensures At(dtb, at, name + [0])
  {
    forall j | 0 <= j < |name + [0]|
      ensures (name + [0])[j] == dtb[at + j]
    {
      assert Padded(name, room)[j] == (name + [0])[j];
    }
  }

  lemma ValueHeld(dtb: Bytes, at: nat, value: Bytes, room: nat)
    requires At(dtb, at, Padded(value, room)) && |value| <= room
    ensures At(dtb, at, value)
  {
    AtSplit(dtb, at, Padded(value, room), value, |value|, Zeros(room - |value|));
  }

  lemma PropSplit(dtb: Bytes, loc: nat, bytes: Bytes, a: Bytes, b: Bytes, c: Bytes, v: Bytes, room: nat, after: Bytes)
    requires At(dtb, loc, bytes) && bytes == (a + b + c) + (v + after) && |a| == |b| == |c| == 4 && |v| == room
    ensures At(dtb, loc, a) && At(dtb, loc + 4, b) && At(dtb, loc + 8, c)
    ensures At(dtb, loc + 12, v) && At(dtb, loc + 12 + room, after)
  {
    AtSplit(dtb, loc, bytes, a + b + c, 12, v + after);
    AtSplit(dtb, loc, a + b + c, a + b, 8, c);
    AtSplit(dtb, loc, a + b, a, 4, b);
    AtSplit(dtb, loc + 12, v + after, v, room, after);
  }

  lemma NodeSplit(dtb: Bytes, loc: nat, bytes: Bytes, a: Bytes, v: Bytes, room: nat, inner: Bytes, n: nat, d: Bytes, after: Bytes)
    requires At(dtb, loc, bytes) && bytes == (a + v) + (inner + (d + after)) && |a| == |d| == 4 && |v| == room && |inner| == n
    ensures At(dtb, loc, a) && At(dtb, loc + 4, v) && At(dtb, loc + 4 + room, inner)
    ensures At(dtb, loc + 4 + room + n, d) && At(dtb, loc + 4 + room + n + 4, after)
  {
    AtSplit(dtb, loc, bytes, a + v, 4 + room, inner + (d + after));
    AtSplit(dtb, loc, a + v, a, 4, v);
    AtSplit(dtb, loc + 4 + room, inner + (d + after), inner, n, d + after);
    AtSplit(dtb, loc + 4 + room + n, d + after, d, 4, after);
  }

  lemma PropHeld(dtb: Bytes, loc: nat, bytes: Bytes, nameOffset: nat, value: Bytes, room: nat, after: Bytes)
    requires At(dtb, loc, bytes) && bytes == (Int(PROP) + Int(|value|) + Int(nameOffset)) + (Padded(value, room) + after)
    requires nameOffset < TWO_TO_32 && |value| < TWO_TO_32 && |value| <= room
    ensures Word(dtb, loc, PROP) && Word(dtb, loc + 4, |value|) && Word(dtb, loc + 8, nameOffset)
    ensures At(dtb, loc + 12, value) && At(dtb, loc + 12 + room, after)
  {
    PropSplit(dtb, loc, bytes, Int(PROP), Int(|value|), Int(nameOffset), Padded(value, room), room, after);
    IntRoundTrip(dtb, loc, PROP);
    IntRoundTrip(dtb, loc + 4, |value|);
    IntRoundTrip(dtb, loc + 8, nameOffset);
    ValueHeld(dtb, loc + 12, value, room);
  }

  lemma NodeHeld(dtb: Bytes, loc: nat, bytes: Bytes, name: Bytes, room: nat, inner: Bytes, n: nat, after: Bytes)
    requires At(dtb, loc, bytes) && bytes == (Int(BEGIN_NODE) + Padded(name, room)) + (inner + (Int(END_NODE) + after))
    requires |inner| == n && |name| < room
    ensures Word(dtb, loc, BEGIN_NODE) && At(dtb, loc + 4, name + [0]) && At(dtb, loc + 4 + room, inner)
    ensures Word(dtb, loc + 4 + room + n, END_NODE) && At(dtb, loc + 4 + room + n + 4, after)
  {
    NodeSplit(dtb, loc, bytes, Int(BEGIN_NODE), Padded(name, room), room, inner, n, Int(END_NODE), after);
    IntRoundTrip(dtb, loc, BEGIN_NODE);
    IntRoundTrip(dtb, loc + 4 + room + n, END_NODE);
    NameHeld(dtb, loc + 4, name, room);
  }

  /** A blob that contains the bytes of a list holds the list. */
  lemma {:induction false} EncodedHolds(dtb: Bytes, loc: nat, items: Items, bytes: Bytes)
    requires WellFormed(items) && bytes == Encode(items) && At(dtb, loc, bytes)
    ensures Holds(dtb, loc, items)
    decreases items, 2
  {
    match items
    case Nothing =>
    case Skip(token, rest) =>
      AtSplit(dtb, loc, bytes, Int(token), 4, Encode(rest));
      IntRoundTrip(dtb, loc, token);
      EncodedHolds(dtb, loc + 4, rest, Encode(rest));
    case Prop(nameOffset, value, room, rest) =>
      PropHeld(dtb, loc, bytes, nameOffset, value, room, Encode(rest));
      EncodedHolds(dtb, loc + 12 + room, rest, Encode(rest));
    case Node(_, _, _, _) =>
      EncodedNode(dtb, loc, items, bytes);
  }

  lemma {:induction false} EncodedNode(dtb: Bytes, loc: nat, items: Items, bytes: Bytes)
    requires items.Node? && WellFormed(items) && bytes == Encode(items) && At(dtb, loc, bytes)
    ensures Holds(dtb, loc, items)
    decreases items, 1
  {
    NodeEncoded(dtb, loc, items, bytes);
    var inside := loc + 4 + items.room;
    NodeOfParts(dtb, loc, items, inside, Encode(items.children), inside + Room(items.children) + 4, Encode(items.rest));
  }

  lemma {:induction false} NodeOfParts(dtb: Bytes, loc: nat, items: Items, inside: nat, inner: Bytes, behind: nat, after: Bytes)
    requires items.Node? && NodeTags(dtb, loc, items)
    requires inside == loc + 4 + items.room && behind == inside + Room(items.children) + 4
    requires WellFormed(items.children) && inner == Encode(items.children) && At(dtb, inside, inner)
    requires WellFormed(items.rest) && after == Encode(items.rest) && At(dtb, behind, after)
    ensures Holds(dtb, loc, items)
    decreases items, 0
  {
    EncodedHolds(dtb, inside, items.children, inner);
    EncodedHolds(dtb, behind, items.rest, after);
    NodeHolds(dtb, loc, items, inside, behind);
  }

  ghost predicate NodeTags(dtb: Bytes, loc: nat, items: Items)
    requires items.Node?
  {
    && Word(dtb, loc, BEGIN_NODE) && At(dtb, loc + 4, items.name + [0])
    && Word(dtb, loc + 4 + items.room + Room(items.children), END_NODE)
  }

  lemma NodeParts(dtb: Bytes, loc: nat, items: Items, bytes: Bytes, inner: Bytes, n: nat, after: Bytes)
    requires items.Node? && |items.name| < items.room && n == Room(items.children) == |inner| && At(dtb, loc, bytes)
    requires bytes == (Int(BEGIN_NODE) + Padded(items.name, items.room)) + (inner + (Int(END_NODE) + after))
    ensures NodeTags(dtb, loc, items)
    ensures At(dtb, loc + 4 + items.room, inner)
    ensures At(dtb, loc + 4 + items.room + n + 4, after)
  {
    NodeHeld(dtb, loc, bytes, items.name, items.room, inner, n, after);
  }

  lemma NodeEncoded(dtb: Bytes, loc: nat, items: Items, bytes: Bytes)
    requires items.Node? && WellFormed(items) && bytes == Encode(items) && At(dtb, loc, bytes)
    ensures NodeTags(dtb, loc, items)
    ensures At(dtb, loc + 4 + items.room, Encode(items.children))
    ensures At(dtb, loc + 4 + items.room + Room(items.children) + 4, Encode(items.rest))
  {
    NodeParts(dtb, loc, items, bytes, Encode(items.children), Room(items.children), Encode(items.rest));
  }

  lemma NodeHolds(dtb: Bytes, loc: nat, items: Items, inside: nat, behind: nat)
    requires items.Node? && NodeTags(dtb, loc, items)
    requires inside == loc + 4 + items.room && behind == inside + Room(items.children) + 4
    requires Holds(dtb, inside, items.children) && Holds(dtb, behind, items.rest)
    ensures Holds(dtb, loc, items)
  {
  }

  // ---- the linked devices ----

  datatype Link = None | Some(value: nat)

  datatype Kind = Leaf(value: nat, len: nat) | Inner

  /** device_info: pointers into the blob are byte offsets, pointers to devices are
      positions in the output. */
  datatype Device = Device(name: nat, kind: Kind, firstChild: Link, nextSibling: Link)

  /** Devices a list needs. */
  function Size(items: Items): nat {
    match items
    case Nothing => 0
    case Skip(_, rest) => Size(rest)
    case Prop(_, _, _, rest) => 1 + Size(rest)
    case Node(_, _, children, rest) => 1 + Size(children) + Size(rest)
  }

  /** How deep nodes nest. */
  function Height(items: Items): nat {
    match items
    case Nothing => 0
    case Skip(_, rest) => Height(rest)
    case Prop(_, _, _, rest) => Height(rest)
    case Node(_, _, children, rest) =>
      if 1 + Height(children) > Height(rest) then 1 + Height(children) else Height(rest)
  }

  /** The first device of a list whose devices start at position `i`. */
  function First(items: Items, i: nat): Link {
    if Size(items) > 0 then Some(i) else None
  }

  /** The devices from position `i` on stand for the list: one per property and
      node, in document order; a property's value and a node's name are found in
      the blob, children hang off their node, and siblings are chained. */
  ghost predicate Represents(dtb: Bytes, strings: nat, devs: seq<Device>, i: nat, items: Items)
    decreases items
  {
    match items
    case Nothing => true
    case Skip(_, rest) => Represents(dtb, strings, devs, i, rest)
    case Prop(nameOffset, value, room, rest) =>
      && i < |devs|
      && devs[i].name == strings + nameOffset
      && devs[i].kind.Leaf? && devs[i].kind.len == |value| && At(dtb, devs[i].kind.value, value)
      && devs[i].firstChild == None
      && devs[i].nextSibling == First(rest, i + 1)
      && Represents(dtb, strings, devs, i + 1, rest)
    case Node(name, room, children, rest) =>
      && i < |devs|
      && At(dtb, devs[i].name, name + [0]) && devs[i].kind == Inner
      && devs[i].firstChild == First(children, i + 1)
      && devs[i].nextSibling == First(rest, i + 1 + Size(children))
      && Represents(dtb, strings, devs, i + 1, children)
      && Represents(dtb, strings, devs, i + 1 + Size(children), rest)
  }

  /** The list without tokens that mean nothing. */
  function Stripped(items: Items): Items {
    match items
    case Nothing => Nothing
    case Skip(_, rest) => Stripped(rest)
    case Prop(nameOffset, value, room, rest) => Prop(nameOffset, value, room, Stripped(rest))
    case Node(name, room, children, rest) => Node(name, room, Stripped(children), Stripped(rest))
  }

  lemma {:induction false} SizeStripped(items: Items)
    ensures Size(Stripped(items)) == Size(items)
    ensures Stripped(items) == Nothing <==> Size(items) == 0
    ensures !Stripped(items).Skip?
  {
    match items
    case Nothing =>
    case Skip(_, rest) => SizeStripped(rest);
    case Prop(_, _, _, rest) => SizeStripped(rest);
    case Node(_, _, children, rest) =>
      SizeStripped(children);
      SizeStripped(rest);
  }

  lemma {:induction false} StripRepresents(dtb: Bytes, strings: nat, devs: seq<Device>, i: nat, items: Items)
    requires Represents(dtb, strings, devs, i, items)
    ensures Represents(dtb, strings, devs, i, Stripped(items))
    decreases items
  {
    match items
    case Nothing =>
    case Skip(_, rest) => StripRepresents(dtb, strings, devs, i, rest);
    case Prop(_, _, _, rest) =>
      SizeStripped(rest);
      StripRepresents(dtb, strings, devs, i + 1, rest);
    case Node(_, _, children, rest) =>
      SizeStripped(children);
      SizeStripped(rest);
      StripRepresents(dtb, strings, devs, i + 1, children);
      StripRepresents(dtb, strings, devs, i + 1 + Size(children), rest);
  }

  lemma NameUnique(dtb: Bytes, loc: nat, a: Bytes, b: Bytes)
    requires At(dtb, loc, a + [0]) && At(dtb, loc, b + [0]) && 0 !in a && 0 !in b
    ensures a == b
  {
    if |a| <= |b| {
      Terminated(dtb, loc, a, b);
    } else {
      Terminated(dtb, loc, b, a);
    }
  }

  lemma Terminated(dtb: Bytes, loc: nat, a: Bytes, b: Bytes)
    requires At(dtb, loc, a + [0]) && At(dtb, loc, b + [0]) && 0 !in b && |a| <= |b|
    ensures a == b
  {
    assert forall k :: 0 <= k <= |a| ==> (a + [0])[k] == (b + [0])[k];
    assert (a + [0])[|a|] == 0;
    assert forall k :: 0 <= k < |b| ==> (b + [0])[k] == b[k];
    assert forall k :: 0 <= k < |a| ==> (a + [0])[k] == a[k];
  }

  /** Lists without meaningless tokens are determined by the devices that
      represent them and the first of them. */
  lemma {:induction false} RepresentsUnique(dtb: Bytes, strings: nat, devs: seq<Device>, i: nat, s: Items, t: Items)
    requires WellFormed(s) && WellFormed(t) && Stripped(s) == s && Stripped(t) == t
    requires Represents(dtb, strings, devs, i, s) && Represents(dtb, strings, devs, i, t)
    requires First(s, i) == First(t, i)
    ensures s == t
    decreases s
  {
    SizeStripped(s);
    SizeStripped(t);
    match s
    case Nothing =>
    case Skip(_, rest) =>
    case Prop(_, value, _, rest) =>
      SizeStripped(rest);
      SizeStripped(t.rest);
      RepresentsUnique(dtb, strings, devs, i + 1, rest, t.rest);
    case Node(name, room, children, rest) =>
      NameUnique(dtb, devs[i].name, name, t.name);
      RepresentsUnique(dtb, strings, devs, i + 1, children, t.children);
      RepresentsUnique(dtb, strings, devs, i + 1 + Size(children), rest, t.rest);
  }
}
