/**
 dtb_dump: the loop over the tokens of a structure block that builds the linked
 devices with an explicit stack, and the search among a device's children.
 */
module DeviceTree {
  import opened Machine
  import opened DtbFormat

  const STACK := 16
  const DEPTH_LIMIT := 14

  /** The locals of dtb_dump. */
  datatype Parser = Parser(loc: nat, devs: seq<Device>, stack: seq<Link>, depth: nat)

  function WithNext(devs: seq<Device>, p: Link, i: nat): (out: seq<Device>)
    ensures |out| == |devs|
  {
    if p.Some? && p.value < |devs| then devs[p.value := devs[p.value].(nextSibling := Some(i))] else devs
  }

  function WithChild(devs: seq<Device>, p: Link, i: nat): (out: seq<Device>)
    ensures |out| == |devs|
  {
    if p.Some? && p.value < |devs| && devs[p.value].firstChild == None
    then devs[p.value := devs[p.value].(firstChild := Some(i))] else devs
  }

  /** The two links made for a new device at position `i`. */
  function Linked(devs: seq<Device>, stack: seq<Link>, depth: nat, i: nat): (out: seq<Device>)
    requires depth < |stack|
    ensures |out| == |devs|
  {
    var chained := WithNext(devs, stack[depth], i);
    if depth > 0 then WithChild(chained, stack[depth - 1], i) else chained
  }

  /** A new device: linked, stored, and the latest at this depth. */
  function Added(st: Parser, d: Device): Parser
    requires st.depth < |st.stack|
  {
    var i := |st.devs|;
    st.(devs := Linked(st.devs, st.stack, st.depth, i) + [d], stack := st.stack[st.depth := Some(i)])
  }

  /** Length of the string at an offset. */
  function StringLength(dtb: Bytes, at: nat): (n: Link)
    ensures n.Some? ==> at + n.value < |dtb|
    decreases |dtb| - at
  {
    if at >= |dtb| then None
    else if dtb[at] == 0 then Some(0)
    else
      match StringLength(dtb, at + 1)
      case None => None
      case Some(n) => Some(n + 1)
  }

  /** One iteration of the loop. Reading outside the blob counts as halting. */
  function Step(dtb: Bytes, strings: nat, st: Parser): (r: Outcome<Parser>)
    requires st.depth < DEPTH_LIMIT && |st.stack| == STACK
    ensures r.Done? ==> r.value.depth < DEPTH_LIMIT && |r.value.stack| == STACK
    ensures r.Done? ==> r.value.loc > st.loc
  {
    if st.loc + 4 > |dtb| then Halt
    else
      var token := ReadInt(dtb, st.loc);
      if token == BEGIN_NODE then StepBegin(dtb, st)
      else if token == END_NODE then StepEnd(st)
      else if token == NOP || token == END then Done(st.(loc := st.loc + 4))
      else if token == PROP then StepProp(dtb, strings, st)
      else Halt
  }

  function StepBegin(dtb: Bytes, st: Parser): (r: Outcome<Parser>)
    requires st.depth < DEPTH_LIMIT && |st.stack| == STACK
    ensures r.Done? ==> r.value.depth < DEPTH_LIMIT && |r.value.stack| == STACK
    ensures r.Done? ==> r.value.loc > st.loc
  {
    if st.depth + 1 >= DEPTH_LIMIT then Halt
    else
      match StringLength(dtb, st.loc + 4)
      case None => Halt
      case Some(n) =>
        Done(Begun(st, NameRoom(n)))
  }

  function StepEnd(st: Parser): (r: Outcome<Parser>)
    requires st.depth < DEPTH_LIMIT && |st.stack| == STACK
    ensures r.Done? ==> r.value.depth < DEPTH_LIMIT && |r.value.stack| == STACK
    ensures r.Done? ==> r.value.loc > st.loc
  {
    if st.depth == 0 then Halt
    else Done(st.(stack := st.stack[st.depth := None], depth := st.depth - 1, loc := st.loc + 4))
  }

  function StepProp(dtb: Bytes, strings: nat, st: Parser): (r: Outcome<Parser>)
    requires st.depth < DEPTH_LIMIT && |st.stack| == STACK
    ensures r.Done? ==> r.value.depth < DEPTH_LIMIT && |r.value.stack| == STACK
    ensures r.Done? ==> r.value.loc > st.loc
  {
    if st.loc + 12 > |dtb| then Halt
    else
      var size := ReadInt(dtb, st.loc + 4);
      var nameOffset := ReadInt(dtb, st.loc + 8);
      Done(PropNext(st, strings, nameOffset, size, ValueRoom(size)))
  }

  /** The parser after a property. */
  function PropNext(st: Parser, strings: nat, nameOffset: nat, size: nat, room: nat): Parser
    requires st.depth < |st.stack|
  {
    Added(st, PropDevice(strings, nameOffset, st.loc, size)).(loc := st.loc + 12 + room)
  }

  function PropDevice(strings: nat, nameOffset: nat, loc: nat, size: nat): Device {
    Device(strings + nameOffset, Leaf(loc + 12, size), None, None)
  }

  /** The whole loop. */
  function Run(dtb: Bytes, strings: nat, end: nat, st: Parser): (r: Outcome<Parser>)
    requires st.depth < DEPTH_LIMIT && |st.stack| == STACK
    ensures r.Done? ==> r.value.loc >= end && |r.value.stack| == STACK
    decreases end - st.loc
  {
    if st.loc >= end then Done(st)
    else
      match Step(dtb, strings, st)
      case Halt => Halt
      case Done(next) => Run(dtb, strings, end, next)
  }

  // ---- what the loop builds ----

  /** The devices of a list at position `i`, read from byte `loc` on. */
  function Devices(items: Items, strings: nat, i: nat, loc: nat): (devs: seq<Device>)
    ensures |devs| == Size(items)
    decreases items
  {
    match items
    case Nothing => []
    case Skip(_, rest) => Devices(rest, strings, i, loc + 4)
    case Prop(nameOffset, value, room, rest) =>
      [Device(strings + nameOffset, Leaf(loc + 12, |value|), None, First(rest, i + 1))]
      + Devices(rest, strings, i + 1, loc + 12 + room)
    case Node(name, room, children, rest) =>
      [Device(loc + 4, Inner, First(children, i + 1), First(rest, i + 1 + Size(children)))]
      + Devices(children, strings, i + 1, loc + 4 + room)
      + Devices(rest, strings, i + 1 + Size(children), loc + 4 + room + Room(children) + 4)
  }

  /** The latest device at the depth of a list. */
  function Last(items: Items, i: nat, before: Link): Link {
    match items
    case Nothing => before
    case Skip(_, rest) => Last(rest, i, before)
    case Prop(_, _, _, rest) => Last(rest, i + 1, Some(i))
    case Node(_, _, children, rest) => Last(rest, i + 1 + Size(children), Some(i))
  }

  /** The parser after a list. */
  function After(st: Parser, strings: nat, items: Items): Parser
    requires st.depth < |st.stack|
  {
    var i := |st.devs|;
    Parser(st.loc + Room(items),
           (if Size(items) > 0 then Linked(st.devs, st.stack, st.depth, i) else st.devs) + Devices(items, strings, i, st.loc),
           st.stack[st.depth := Last(items, i, st.stack[st.depth])],
           st.depth)
  }

  /** The stack between two items: a parent, perhaps an elder sibling, and nothing
      deeper. */
  ghost predicate Ready(st: Parser) {
    && st.depth < DEPTH_LIMIT && |st.stack| == STACK
    && (st.depth > 0 ==> st.stack[st.depth - 1].Some? && st.stack[st.depth - 1].value < |st.devs|)
    && (st.stack[st.depth].Some? ==> st.stack[st.depth].value < |st.devs|)
    && (forall j :: st.depth < j < STACK ==> st.stack[j] == None)
    && (st.depth > 0 && st.stack[st.depth].Some? ==> st.devs[st.stack[st.depth - 1].value].firstChild.Some?)
  }

  // ---- single tokens ----

  lemma StepsProp(dtb: Bytes, strings: nat, st: Parser, nameOffset: nat, size: nat)
    requires st.depth < DEPTH_LIMIT && |st.stack| == STACK
    requires Word(dtb, st.loc, PROP) && Word(dtb, st.loc + 4, size) && Word(dtb, st.loc + 8, nameOffset)
    ensures Step(dtb, strings, st) == Done(PropNext(st, strings, nameOffset, size, ValueRoom(size)))
  {
  }

  lemma {:induction false} StringFound(dtb: Bytes, at: nat, name: Bytes)
    requires At(dtb, at, name + [0]) && 0 !in name
    ensures StringLength(dtb, at) == Some(|name|)
    decreases |name|
  {
    assert (name + [0])[0] == dtb[at];
    if name != [] {
      assert name[0] in name;
      forall j | 0 <= j < |name|
        ensures (name[1..] + [0])[j] == dtb[at + 1 + j]
      {
        assert (name + [0])[j + 1] == (name[1..] + [0])[j];
      }
      StringFound(dtb, at + 1, name[1..]);
    }
  }

  lemma StepsBegin(dtb: Bytes, strings: nat, st: Parser, name: Bytes, room: nat)
    requires st.depth < DEPTH_LIMIT && |st.stack| == STACK && 0 !in name && room == NameRoom(|name|)
    requires Word(dtb, st.loc, BEGIN_NODE) && At(dtb, st.loc + 4, name + [0])
    ensures Step(dtb, strings, st) == if st.depth + 1 >= DEPTH_LIMIT then Halt else Done(Begun(st, room))
  {
    StringFound(dtb, st.loc + 4, name);
  }

  /** The parser inside a new node. */
  function Begun(st: Parser, room: nat): Parser
    requires st.depth < |st.stack|
  {
    Added(st, Device(st.loc + 4, Inner, None, None)).(depth := st.depth + 1, loc := st.loc + 4 + room)
  }

  lemma StepsEnd(dtb: Bytes, strings: nat, st: Parser)
    requires st.depth < DEPTH_LIMIT && |st.stack| == STACK && Word(dtb, st.loc, END_NODE)
    ensures Step(dtb, strings, st) == StepEnd(st)
  {
  }

  // ---- links ----

  /** After the links for a child are made, the parent has a first child. */
  lemma LinkedParent(st: Parser, i: nat)
    requires Ready(st) && st.depth > 0
    ensures Linked(st.devs, st.stack, st.depth, i)[st.stack[st.depth - 1].value].firstChild.Some?
  {
  }

  /** Linking a later sibling to a device that was added after its parent. */
  lemma Relinked(devs: seq<Device>, tail: seq<Device>, stack: seq<Link>, depth: nat, k: nat)
    requires depth < |stack| && stack[depth] == Some(|devs|) && tail != []
    requires depth > 0 ==> stack[depth - 1].Some? && stack[depth - 1].value < |devs| && devs[stack[depth - 1].value].firstChild.Some?
    ensures Linked(devs + tail, stack, depth, k) == devs + tail[0 := tail[0].(nextSibling := Some(k))]
  {
    var chained := WithNext(devs + tail, stack[depth], k);
    assert chained == devs + tail[0 := tail[0].(nextSibling := Some(k))];
  }

  /** Linking the first child of a device just added. */
  lemma LinkedChild(devs: seq<Device>, d: Device, stack: seq<Link>, depth: nat, k: nat)
    requires depth + 1 < |stack| && stack[depth] == Some(|devs|) && stack[depth + 1] == None && d.firstChild == None
    ensures Linked(devs + [d], stack, depth + 1, k) == devs + [d.(firstChild := Some(k))]
  {
    assert (devs + [d])[|devs|] == d;
  }

  lemma ReadyAdded(st: Parser, d: Device, loc: nat)
    requires Ready(st) && d.firstChild == None
    ensures Ready(Added(st, d).(loc := loc))
    ensures st.depth + 1 < DEPTH_LIMIT ==> Ready(Added(st, d).(loc := loc, depth := st.depth + 1))
  {
    if st.depth > 0 {
      LinkedParent(st, |st.devs|);
    }
  }

  /** The devices of an item, tied to its next sibling. */
  function Tied(tail: seq<Device>, link: Link): seq<Device>
    requires tail != []
  {
    [tail[0].(nextSibling := link)] + tail[1..]
  }

  /** What follows an item ties the item to its next sibling. */
  lemma AfterItem(next: Parser, devs: seq<Device>, tail: seq<Device>, k: nat, strings: nat, rest: Items)
    requires next.devs == devs + tail && tail != [] && tail[0].nextSibling == None && k == |devs| + |tail|
    requires next.depth < |next.stack| && next.stack[next.depth] == Some(|devs|) && ParentLinked(devs, next.stack, next.depth)
    ensures After(next, strings, rest).devs == devs + (Tied(tail, First(rest, k)) + Devices(rest, strings, k, next.loc))
  {
    assert tail[0 := tail[0].(nextSibling := First(rest, k))] == Tied(tail, First(rest, k));
    if Size(rest) > 0 {
      Relinked(devs, tail, next.stack, next.depth, k);
    } else {
      assert Tied(tail, None) == tail;
    }
    Reassociate(devs, Tied(tail, First(rest, k)), Devices(rest, strings, k, next.loc));
  }

  ghost predicate ParentLinked(devs: seq<Device>, stack: seq<Link>, depth: nat)
    requires depth < |stack|
  {
    depth > 0 ==> stack[depth - 1].Some? && stack[depth - 1].value < |devs| && devs[stack[depth - 1].value].firstChild.Some?
  }

  lemma LinksParent(st: Parser, stack: seq<Link>, i: nat)
    requires Ready(st) && stack == st.stack[st.depth := Some(i)]
    ensures ParentLinked(Linked(st.devs, st.stack, st.depth, i), stack, st.depth)
  {
    if st.depth > 0 {
      LinkedParent(st, i);
    }
  }

  /** The parser after an item and its later siblings is the parser after the
      list, if the devices of the list are those of the item tied to the others. */
  lemma AfterTied(st: Parser, next: Parser, tail: seq<Device>, k: nat, strings: nat, items: Items, rest: Items)
    requires Ready(st) && next.depth == st.depth && next.stack == st.stack[st.depth := Some(|st.devs|)]
    requires next.devs == Linked(st.devs, st.stack, st.depth, |st.devs|) + tail
    requires tail != [] && tail[0].nextSibling == None && k == |st.devs| + |tail|
    requires Size(items) > 0
    requires Devices(items, strings, |st.devs|, st.loc) == Tied(tail, First(rest, k)) + Devices(rest, strings, k, next.loc)
    ensures After(next, strings, rest).devs == After(st, strings, items).devs
  {
    LinksParent(st, next.stack, |st.devs|);
    AfterItem(next, Linked(st.devs, st.stack, st.depth, |st.devs|), tail, k, strings, rest);
  }

  lemma PropDevices(strings: nat, i: nat, loc: nat, nameOffset: nat, value: Bytes, room: nat, rest: Items)
    ensures Devices(Prop(nameOffset, value, room, rest), strings, i, loc)
         == Tied([PropDevice(strings, nameOffset, loc, |value|)], First(rest, i + 1))
            + Devices(rest, strings, i + 1, loc + 12 + room)
  {
    var d := PropDevice(strings, nameOffset, loc, |value|);
    assert Tied([d], First(rest, i + 1)) == [d.(nextSibling := First(rest, i + 1))];
  }

  lemma AfterPropDevices(st: Parser, strings: nat, nameOffset: nat, value: Bytes, room: nat, rest: Items)
    requires Ready(st)
    ensures After(PropNext(st, strings, nameOffset, |value|, room), strings, rest).devs
         == After(st, strings, Prop(nameOffset, value, room, rest)).devs
  {
    var d := PropDevice(strings, nameOffset, st.loc, |value|);
    var i, next := |st.devs|, PropNext(st, strings, nameOffset, |value|, room);
    PropDevices(strings, i, st.loc, nameOffset, value, room, rest);
    AfterTied(st, next, [d], i + 1, strings, Prop(nameOffset, value, room, rest), rest);
  }

  lemma AfterProp(st: Parser, strings: nat, nameOffset: nat, value: Bytes, room: nat, rest: Items)
    requires Ready(st)
    ensures After(PropNext(st, strings, nameOffset, |value|, room), strings, rest)
         == After(st, strings, Prop(nameOffset, value, room, rest))
  {
    var i, next := |st.devs|, PropNext(st, strings, nameOffset, |value|, room);
    AfterPropDevices(st, strings, nameOffset, value, room, rest);
    assert next.stack[st.depth := Last(rest, i + 1, Some(i))] == st.stack[st.depth := Last(rest, i + 1, Some(i))];
  }

  lemma Reassociate(a: seq<Device>, b: seq<Device>, c: seq<Device>)
    ensures a + b + c == a + (b + c)
  {
  }

  lemma InnerDevices(b: Parser, devs: seq<Device>, d: Device, strings: nat, children: Items)
    requires b.devs == devs + [d] && d.firstChild == None && 0 < b.depth < |b.stack|
    requires b.stack[b.depth - 1] == Some(|devs|) && b.stack[b.depth] == None
    ensures After(b, strings, children).devs
         == devs + ([d.(firstChild := First(children, |devs| + 1))] + Devices(children, strings, |devs| + 1, b.loc))
  {
    if Size(children) > 0 {
      LinkedChild(devs, d, b.stack, b.depth - 1, |devs| + 1);
    }
    Reassociate(devs, [d.(firstChild := First(children, |devs| + 1))], Devices(children, strings, |devs| + 1, b.loc));
  }

  lemma InnerStack(stack: seq<Link>, depth: nat, i: nat, last: Link)
    requires depth + 1 < |stack| && stack[depth + 1] == None
    ensures stack[depth := Some(i)][depth + 1 := last][depth + 1 := None] == stack[depth := Some(i)]
  {
  }

  lemma AfterChildrenDevices(st: Parser, strings: nat, room: nat, children: Items)
    requires Ready(st) && st.depth + 1 < DEPTH_LIMIT
    ensures After(Begun(st, room), strings, children).devs
         == Linked(st.devs, st.stack, st.depth, |st.devs|) + NodeDevices(strings, |st.devs|, st.loc, room, children)
  {
    var devs, d := Linked(st.devs, st.stack, st.depth, |st.devs|), Device(st.loc + 4, Inner, None, None);
    InnerDevices(Begun(st, room), devs, d, strings, children);
  }

  /** The parser at the end tag of a node whose children are parsed. */
  lemma AfterChildren(st: Parser, strings: nat, room: nat, children: Items)
    requires Ready(st) && st.depth + 1 < DEPTH_LIMIT
    ensures var i := |st.devs|;
            var inside := After(Begun(st, room), strings, children);
            && inside.devs
               == Linked(st.devs, st.stack, st.depth, i) + NodeDevices(strings, i, st.loc, room, children)
            && inside.depth == st.depth + 1 && |inside.stack| == STACK
            && inside.stack[st.depth + 1 := None] == st.stack[st.depth := Some(i)]
  {
    AfterChildrenDevices(st, strings, room, children);
    InnerStack(st.stack, st.depth, |st.devs|, Last(children, |st.devs| + 1, None));
  }

  /** The devices of a node, not yet tied to a next sibling. */
  function NodeDevices(strings: nat, i: nat, loc: nat, room: nat, children: Items): (devs: seq<Device>)
    ensures |devs| == 1 + Size(children) && devs[0].nextSibling == None
  {
    [Device(loc + 4, Inner, First(children, i + 1), None)] + Devices(children, strings, i + 1, loc + 4 + room)
  }

  /** The parser after the end tag of a node. */
  function Closed(st: Parser, strings: nat, room: nat, children: Items): Parser
    requires st.depth < |st.stack|
  {
    var i := |st.devs|;
    Parser(st.loc + 4 + room + Room(children) + 4,
           Linked(st.devs, st.stack, st.depth, i) + NodeDevices(strings, i, st.loc, room, children),
           st.stack[st.depth := Some(i)], st.depth)
  }

  lemma EndsNode(st: Parser, strings: nat, room: nat, children: Items)
    requires Ready(st) && st.depth + 1 < DEPTH_LIMIT
    ensures var inside := After(Begun(st, room), strings, children);
            && inside.depth < DEPTH_LIMIT && |inside.stack| == STACK
            && StepEnd(inside) == Done(Closed(st, strings, room, children))
    ensures Ready(Closed(st, strings, room, children))
  {
    AfterChildren(st, strings, room, children);
    if st.depth > 0 {
      LinkedParent(st, |st.devs|);
    }
  }

  lemma NodesDevices(strings: nat, i: nat, loc: nat, name: Bytes, room: nat, children: Items, rest: Items)
    ensures var k := i + 1 + Size(children);
            Devices(Node(name, room, children, rest), strings, i, loc)
              == Tied(NodeDevices(strings, i, loc, room, children), First(rest, k))
                 + Devices(rest, strings, k, loc + 4 + room + Room(children) + 4)
  {
    var tail := NodeDevices(strings, i, loc, room, children);
    assert tail[1..] == Devices(children, strings, i + 1, loc + 4 + room);
  }

  lemma AfterNodeDevices(st: Parser, strings: nat, name: Bytes, room: nat, children: Items, rest: Items)
    requires Ready(st)
    ensures After(Closed(st, strings, room, children), strings, rest).devs == After(st, strings, Node(name, room, children, rest)).devs
  {
    var i, closed := |st.devs|, Closed(st, strings, room, children);
    NodesDevices(strings, i, st.loc, name, room, children, rest);
    AfterTied(st, closed, NodeDevices(strings, i, st.loc, room, children), i + 1 + Size(children), strings,
              Node(name, room, children, rest), rest);
  }

  lemma AfterNode(st: Parser, strings: nat, name: Bytes, room: nat, children: Items, rest: Items)
    requires Ready(st)
    ensures After(Closed(st, strings, room, children), strings, rest) == After(st, strings, Node(name, room, children, rest))
  {
    var i, closed := |st.devs|, Closed(st, strings, room, children);
    var k := i + 1 + Size(children);
    AfterNodeDevices(st, strings, name, room, children, rest);
    assert closed.stack[st.depth := Last(rest, k, Some(i))] == st.stack[st.depth := Last(rest, k, Some(i))];
  }

  // ---- the whole block ----

  /** A list that is in the blob at the cursor is parsed to its devices and the
      cursor moves past it; the parser halts exactly if its nodes nest too deeply. */
  lemma {:induction false} ParsesItems(dtb: Bytes, strings: nat, end: nat, st: Parser, items: Items)
    requires Ready(st) && WellFormed(items) && Holds(dtb, st.loc, items) && st.loc + Room(items) <= end
    ensures Run(dtb, strings, end, st) == Parsed(dtb, strings, end, st, items)
    decreases items, 1
  {
    match items
    case Nothing =>
      assert st.stack[st.depth := st.stack[st.depth]] == st.stack;
      assert After(st, strings, items) == st;
    case Skip(token, rest) =>
      ParsesSkip(dtb, strings, end, st, token, rest);
      AfterSkip(st, strings, token, rest);
      ParsesItems(dtb, strings, end, st.(loc := st.loc + 4), rest);
    case Prop(nameOffset, value, room, rest) =>
      ParsesProp(dtb, strings, end, st, nameOffset, value, room, rest);
      ParsesItems(dtb, strings, end, PropNext(st, strings, nameOffset, |value|, room), rest);
    case Node(name, room, children, rest) =>
      ParsesNode(dtb, strings, end, st, name, room, children, rest);
  }

  lemma {:induction false} ParsesNode(dtb: Bytes, strings: nat, end: nat, st: Parser, name: Bytes, room: nat, children: Items, rest: Items)
    requires Ready(st) && WellFormed(Node(name, room, children, rest))
    requires Holds(dtb, st.loc, Node(name, room, children, rest)) && st.loc + Room(Node(name, room, children, rest)) <= end
    ensures Run(dtb, strings, end, st) == Parsed(dtb, strings, end, st, Node(name, room, children, rest))
    decreases Node(name, room, children, rest), 0
  {
    BeginsNode(dtb, strings, end, st, name, room, children, rest);
    if st.depth + 1 < DEPTH_LIMIT {
      ParsesItems(dtb, strings, end, Begun(st, room), children);
      if st.depth + 1 + Height(children) < DEPTH_LIMIT {
        ClosesNode(dtb, strings, end, st, name, room, children, rest);
        ParsesItems(dtb, strings, end, Closed(st, strings, room, children), rest);
        AfterNode(st, strings, name, room, children, rest);
      }
    }
  }

  /** What parsing a list leads to. */
  ghost function Parsed(dtb: Bytes, strings: nat, end: nat, st: Parser, items: Items): Outcome<Parser>
    requires Ready(st)
  {
    if st.depth + Height(items) < DEPTH_LIMIT then Run(dtb, strings, end, After(st, strings, items)) else Halt
  }

  lemma ParsesProp(dtb: Bytes, strings: nat, end: nat, st: Parser, nameOffset: nat, value: Bytes, room: nat, rest: Items)
    requires Ready(st) && room == ValueRoom(|value|)
    requires Holds(dtb, st.loc, Prop(nameOffset, value, room, rest))
    requires st.loc + Room(Prop(nameOffset, value, room, rest)) <= end
    ensures var next := PropNext(st, strings, nameOffset, |value|, room);
            && Ready(next) && Holds(dtb, next.loc, rest) && next.loc + Room(rest) <= end
            && Run(dtb, strings, end, st) == Run(dtb, strings, end, next)
            && Parsed(dtb, strings, end, next, rest) == Parsed(dtb, strings, end, st, Prop(nameOffset, value, room, rest))
  {
    AfterProp(st, strings, nameOffset, value, room, rest);
    StepsProp(dtb, strings, st, nameOffset, |value|);
    ReadyAdded(st, PropDevice(strings, nameOffset, st.loc, |value|), st.loc + 12 + room);
    RunStep(dtb, strings, end, st);
  }

  /** One iteration of the loop. */
  lemma RunStep(dtb: Bytes, strings: nat, end: nat, st: Parser)
    requires st.depth < DEPTH_LIMIT && |st.stack| == STACK && st.loc < end
    ensures Run(dtb, strings, end, st) ==
            if Step(dtb, strings, st).Halt? then Halt else Run(dtb, strings, end, Step(dtb, strings, st).value)
  {
  }

  lemma StepsSkip(dtb: Bytes, strings: nat, st: Parser, token: nat)
    requires st.depth < DEPTH_LIMIT && |st.stack| == STACK
    requires (token == NOP || token == END) && Word(dtb, st.loc, token)
    ensures Step(dtb, strings, st) == Done(st.(loc := st.loc + 4))
  {
  }

  lemma AfterSkip(st: Parser, strings: nat, token: nat, rest: Items)
    requires Ready(st)
    ensures After(st.(loc := st.loc + 4), strings, rest) == After(st, strings, Skip(token, rest))
  {
  }

  lemma ParsesSkip(dtb: Bytes, strings: nat, end: nat, st: Parser, token: nat, rest: Items)
    requires Ready(st) && (token == NOP || token == END)
    requires Holds(dtb, st.loc, Skip(token, rest)) && st.loc + Room(Skip(token, rest)) <= end
    ensures var next := st.(loc := st.loc + 4);
            && Ready(next) && Holds(dtb, next.loc, rest) && next.loc + Room(rest) <= end
            && Run(dtb, strings, end, st) == Run(dtb, strings, end, next)
  {
    StepsSkip(dtb, strings, st, token);
    RunStep(dtb, strings, end, st);
  }

  lemma BeginsNode(dtb: Bytes, strings: nat, end: nat, st: Parser, name: Bytes, room: nat, children: Items, rest: Items)
    requires Ready(st) && 0 !in name && room == NameRoom(|name|) && Holds(dtb, st.loc, Node(name, room, children, rest))
    requires st.loc + Room(Node(name, room, children, rest)) <= end
    ensures st.depth + 1 >= DEPTH_LIMIT ==> Run(dtb, strings, end, st) == Halt
    ensures st.depth + 1 < DEPTH_LIMIT ==>
              && Ready(Begun(st, room)) && Holds(dtb, Begun(st, room).loc, children)
              && Begun(st, room).loc + Room(children) <= end
              && Run(dtb, strings, end, st) == Run(dtb, strings, end, Begun(st, room))
  {
    StepsBegin(dtb, strings, st, name, room);
    ReadyAdded(st, Device(st.loc + 4, Inner, None, None), st.loc + 4 + room);
  }

  lemma ClosesNode(dtb: Bytes, strings: nat, end: nat, st: Parser, name: Bytes, room: nat, children: Items, rest: Items)
    requires Ready(st) && st.depth + 1 < DEPTH_LIMIT && Holds(dtb, st.loc, Node(name, room, children, rest))
    requires st.loc + Room(Node(name, room, children, rest)) <= end
    ensures var inside := After(Begun(st, room), strings, children);
            var closed := Closed(st, strings, room, children);
            && inside.depth < DEPTH_LIMIT && |inside.stack| == STACK
            && Ready(closed) && Holds(dtb, closed.loc, rest) && closed.loc + Room(rest) <= end
            && Run(dtb, strings, end, inside) == Run(dtb, strings, end, closed)
  {
    EndsNode(st, strings, room, children);
    StepsEnd(dtb, strings, After(Begun(st, room), strings, children));
  }

  ghost predicate InPlace(devs: seq<Device>, i: nat, part: seq<Device>) {
    i + |part| <= |devs| && forall j :: 0 <= j < |part| ==> part[j] == devs[i + j]
  }

  /** The devices built for a list represent it. */
  lemma {:induction false} DevicesRepresent(dtb: Bytes, strings: nat, devs: seq<Device>, i: nat, loc: nat, items: Items)
    requires WellFormed(items) && Holds(dtb, loc, items) && InPlace(devs, i, Devices(items, strings, i, loc))
    ensures Represents(dtb, strings, devs, i, items)
    decreases items, 1
  {
    match items
    case Nothing =>
    case Skip(token, rest) =>
      DevicesRepresent(dtb, strings, devs, i, loc + 4, rest);
    case Prop(nameOffset, value, room, rest) =>
      PropRepresents(dtb, strings, devs, i, loc, nameOffset, value, room, rest);
      DevicesRepresent(dtb, strings, devs, i + 1, loc + 12 + room, rest);
    case Node(name, room, children, rest) =>
      NodeDevicesRepresent(dtb, strings, devs, i, loc, items);
  }

  lemma {:induction false} NodeDevicesRepresent(dtb: Bytes, strings: nat, devs: seq<Device>, i: nat, loc: nat, items: Items)
    requires items.Node? && At(dtb, loc + 4, items.name + [0])
    requires WellFormed(items.children) && Holds(dtb, loc + 4 + items.room, items.children)
    requires WellFormed(items.rest) && Holds(dtb, loc + 4 + items.room + Room(items.children) + 4, items.rest)
    requires InPlace(devs, i, Devices(items, strings, i, loc))
    ensures Represents(dtb, strings, devs, i, items)
    decreases items, 0
  {
    var inside := loc + 4 + items.room;
    var k, after := i + 1 + Size(items.children), inside + Room(items.children) + 4;
    NodeRepresents(strings, devs, i, loc, items, inside, k, after);
    DevicesRepresent(dtb, strings, devs, i + 1, inside, items.children);
    DevicesRepresent(dtb, strings, devs, k, after, items.rest);
    NodeAssembles(dtb, strings, devs, i, loc + 4, items, k);
  }

  lemma NodeAssembles(dtb: Bytes, strings: nat, devs: seq<Device>, i: nat, at: nat, items: Items, k: nat)
    requires items.Node? && i < |devs| && At(dtb, at, items.name + [0]) && k == i + 1 + Size(items.children)
    requires devs[i] == Device(at, Inner, First(items.children, i + 1), First(items.rest, k))
    requires Represents(dtb, strings, devs, i + 1, items.children) && Represents(dtb, strings, devs, k, items.rest)
    ensures Represents(dtb, strings, devs, i, items)
  {
  }

  lemma Piece(devs: seq<Device>, i: nat, a: seq<Device>, b: seq<Device>)
    requires InPlace(devs, i, a + b)
    ensures InPlace(devs, i, a) && InPlace(devs, i + |a|, b)
    ensures a != [] ==> devs[i] == a[0]
  {
    forall j | 0 <= j < |a|
      ensures a[j] == devs[i + j]
    {
      assert (a + b)[j] == a[j];
    }
    forall j | 0 <= j < |b|
      ensures b[j] == devs[i + |a| + j]
    {
      assert (a + b)[|a| + j] == b[j];
    }
  }

  lemma PropRepresents(dtb: Bytes, strings: nat, devs: seq<Device>, i: nat, loc: nat, nameOffset: nat, value: Bytes, room: nat, rest: Items)
    requires Holds(dtb, loc, Prop(nameOffset, value, room, rest))
    requires InPlace(devs, i, Devices(Prop(nameOffset, value, room, rest), strings, i, loc))
    ensures At(dtb, loc + 12, value) && Holds(dtb, loc + 12 + room, rest)
    ensures devs[i] == PropDevice(strings, nameOffset, loc, |value|).(nextSibling := First(rest, i + 1))
    ensures InPlace(devs, i + 1, Devices(rest, strings, i + 1, loc + 12 + room))
  {
    PropDevices(strings, i, loc, nameOffset, value, room, rest);
    Piece(devs, i, Tied([PropDevice(strings, nameOffset, loc, |value|)], First(rest, i + 1)),
          Devices(rest, strings, i + 1, loc + 12 + room));
  }

  lemma NodeRepresents(strings: nat, devs: seq<Device>, i: nat, loc: nat, items: Items, inside: nat, k: nat, after: nat)
    requires items.Node? && InPlace(devs, i, Devices(items, strings, i, loc))
    requires inside == loc + 4 + items.room && k == i + 1 + Size(items.children) && after == inside + Room(items.children) + 4
    ensures devs[i] == Device(loc + 4, Inner, First(items.children, i + 1), First(items.rest, k))
    ensures InPlace(devs, i + 1, Devices(items.children, strings, i + 1, inside))
    ensures InPlace(devs, k, Devices(items.rest, strings, k, after))
  {
    var head := [Device(loc + 4, Inner, First(items.children, i + 1), First(items.rest, k))];
    ThreePieces(devs, i, Devices(items, strings, i, loc), head, Devices(items.children, strings, i + 1, inside), k, Devices(items.rest, strings, k, after));
  }

  lemma ThreePieces(devs: seq<Device>, i: nat, whole: seq<Device>, a: seq<Device>, b: seq<Device>, k: nat, c: seq<Device>)
    requires InPlace(devs, i, whole) && whole == a + b + c && |a| == 1 && k == i + 1 + |b|
    ensures devs[i] == a[0] && InPlace(devs, i + 1, b) && InPlace(devs, k, c)
  {
    Piece(devs, i, a + b, c);
    Piece(devs, i, a, b);
  }

  /** The start of dtb_dump, with every stack slot empty. */
  function Start(loc: nat): (st: Parser)
    ensures AtStart(st)
  {
    Parser(loc, [], seq(STACK, i => None), 0)
  }

  ghost predicate AtStart(st: Parser) {
    st.devs == [] && st.depth == 0 && |st.stack| == STACK && forall j :: 0 <= j < STACK ==> st.stack[j] == None
  }

  lemma RunsToEnd(dtb: Bytes, strings: nat, st: Parser, items: Items)
    requires Ready(st) && WellFormed(items) && Holds(dtb, st.loc, items)
    ensures Run(dtb, strings, st.loc + Room(items), st)
         == if st.depth + Height(items) < DEPTH_LIMIT then Done(After(st, strings, items)) else Halt
  {
    ParsesItems(dtb, strings, st.loc + Room(items), st, items);
  }

  lemma BlockRepresents(dtb: Bytes, strings: nat, st: Parser, items: Items)
    requires AtStart(st) && WellFormed(items) && Holds(dtb, st.loc, items)
    ensures var after := After(st, strings, items);
            && after.loc == st.loc + Room(items)
            && |after.devs| == Size(items)
            && Represents(dtb, strings, after.devs, 0, items)
            && after.stack[0] == Last(items, 0, None)
  {
    var devs := After(st, strings, items).devs;
    assert devs == Devices(items, strings, 0, st.loc);
    DevicesRepresent(dtb, strings, devs, 0, st.loc, items);
  }

  /** A run over a list's bytes from `loc` on went as it should: it ended at the end
      of the list with exactly the devices of the list, in document order, or halted
      because nodes nest to the depth limit. */
  ghost predicate GoodRun(dtb: Bytes, strings: nat, loc: nat, items: Items, r: Outcome<Parser>) {
    && (r.Done? <==> Height(items) < DEPTH_LIMIT)
    && (r.Done? ==>
          && r.value.loc == loc + Room(items)
          && |r.value.devs| == Size(items)
          && Represents(dtb, strings, r.value.devs, 0, items)
          && |r.value.stack| == STACK && r.value.stack[0] == Last(items, 0, None))
  }

  /** Parsing a well-formed block, whatever meaningless tokens it contains, ends at
      its end with exactly the devices of its list, in document order; it halts if
      and only if nodes nest to the depth limit. */
  lemma BlockParsed(dtb: Bytes, strings: nat, st: Parser, items: Items)
    requires AtStart(st) && WellFormed(items) && Holds(dtb, st.loc, items)
    ensures GoodRun(dtb, strings, st.loc, items, Run(dtb, strings, st.loc + Room(items), st))
  {
    RunsToEnd(dtb, strings, st, items);
    BlockRepresents(dtb, strings, st, items);
  }

  /** From bytes to devices: a blob that contains the encoding of a list at the
      start of its structure block is parsed to devices that represent the list. */
  lemma EncodingParsed(dtb: Bytes, strings: nat, st: Parser, items: Items)
    requires AtStart(st) && WellFormed(items) && At(dtb, st.loc, Encode(items))
    ensures GoodRun(dtb, strings, st.loc, items, Run(dtb, strings, st.loc + Room(items), st))
  {
    EncodedHolds(dtb, st.loc, items, Encode(items));
    BlockParsed(dtb, strings, st, items);
  }

  /** The list has a single item, as the format demands of a block. */
  predicate OneRoot(items: Items) {
    match items
    case Nothing => false
    case Skip(_, rest) => OneRoot(rest)
    case Prop(_, _, _, rest) => Size(rest) == 0
    case Node(_, _, _, rest) => Size(rest) == 0
  }

  lemma {:induction false} LastOfNone(items: Items, i: nat, before: Link)
    requires Size(items) == 0
    ensures Last(items, i, before) == before
    decreases items
  {
    if items.Skip? {
      LastOfNone(items.rest, i, before);
    }
  }

  /** The root returned is then the first device. */
  lemma {:induction false} RootReturned(items: Items, i: nat)
    requires OneRoot(items)
    ensures Last(items, i, None) == Some(i)
    decreases items
  {
    match items
    case Nothing =>
    case Skip(_, rest) => RootReturned(rest, i);
    case Prop(_, _, _, rest) => LastOfNone(rest, i + 1, Some(i));
    case Node(_, _, children, rest) => LastOfNone(rest, i + 1 + Size(children), Some(i));
  }

  lemma {:induction false} StrippedWellFormed(items: Items)
    requires WellFormed(items)
    ensures WellFormed(Stripped(items)) && Stripped(Stripped(items)) == Stripped(items)
  {
    match items
    case Nothing =>
    case Skip(_, rest) => StrippedWellFormed(rest);
    case Prop(_, _, _, rest) => StrippedWellFormed(rest);
    case Node(_, _, children, rest) =>
      StrippedWellFormed(children);
      StrippedWellFormed(rest);
  }

  /** Nothing is lost: the devices a list was parsed to represent it, and up to
      meaningless tokens no other list. */
  lemma NothingLost(dtb: Bytes, strings: nat, start: Parser, items: Items, st: Parser, other: Items)
    requires AtStart(start) && WellFormed(items) && Holds(dtb, start.loc, items) && WellFormed(other)
    requires Run(dtb, strings, start.loc + Room(items), start) == Done(st)
    ensures Size(other) == |st.devs| && Represents(dtb, strings, st.devs, 0, other) ==> Stripped(other) == Stripped(items)
    ensures Stripped(other) == Stripped(items) ==> Size(other) == |st.devs| && Represents(dtb, strings, st.devs, 0, Stripped(other))
  {
    BlockParsed(dtb, strings, start, items);
    AllRepresented(dtb, strings, start.loc, items, st, other);
  }

  lemma AllRepresented(dtb: Bytes, strings: nat, loc: nat, items: Items, st: Parser, other: Items)
    requires GoodRun(dtb, strings, loc, items, Done(st)) && WellFormed(items) && WellFormed(other)
    ensures Size(other) == |st.devs| && Represents(dtb, strings, st.devs, 0, other) ==> Stripped(other) == Stripped(items)
    ensures Stripped(other) == Stripped(items) ==> Size(other) == |st.devs| && Represents(dtb, strings, st.devs, 0, Stripped(other))
  {
    StripRepresents(dtb, strings, st.devs, 0, items);
    SizeStripped(items);
    SizeStripped(other);
    if Size(other) == |st.devs| && Represents(dtb, strings, st.devs, 0, other) {
      SameItems(dtb, strings, st.devs, items, other);
    }
  }

  lemma SameItems(dtb: Bytes, strings: nat, devs: seq<Device>, s: Items, t: Items)
    requires WellFormed(s) && WellFormed(t) && Size(s) == Size(t)
    requires Represents(dtb, strings, devs, 0, s) && Represents(dtb, strings, devs, 0, t)
    ensures Stripped(s) == Stripped(t)
  {
    StrippedWellFormed(s);
    StrippedWellFormed(t);
    StripRepresents(dtb, strings, devs, 0, s);
    StripRepresents(dtb, strings, devs, 0, t);
    SizeStripped(s);
    SizeStripped(t);
    RepresentsUnique(dtb, strings, devs, 0, Stripped(s), Stripped(t));
  }

  /** On any blob the cursor only moves forward, by whole words. */
  lemma StepAdvances(dtb: Bytes, strings: nat, st: Parser)
    requires st.depth < DEPTH_LIMIT && |st.stack| == STACK && Step(dtb, strings, st).Done?
    ensures var next := Step(dtb, strings, st).value.loc;
            next >= st.loc + 4 && (next - st.loc) % 4 == 0
  {
    var token := ReadInt(dtb, st.loc);
    if token == BEGIN_NODE {
      Rooms(StringLength(dtb, st.loc + 4).value);
    } else if token == PROP {
      Rooms(ReadInt(dtb, st.loc + 4));
    }
  }

  // ---- the routines ----

  const MAGIC := 0xD00D_FEED
  const COMPATIBLE := 16

  /** The bytes of the name at `at`. */
  method NameLength(dtb: Bytes, at: nat) returns (n: Link)
    ensures n == StringLength(dtb, at)
  {
    var offset := 0;
    while at + offset < |dtb| && dtb[at + offset] != 0
      invariant at + offset < |dtb| ==> StringLength(dtb, at) == Shifted(StringLength(dtb, at + offset), offset)
      invariant at + offset >= |dtb| ==> StringLength(dtb, at) == None
      decreases |dtb| - (at + offset)
    {
      offset := offset + 1;
    }
    n := if at + offset < |dtb| then Some(offset) else None;
  }

  function Shifted(n: Link, m: nat): Link {
    match n
    case None => None
    case Some(k) => Some(k + m)
  }

  /** What dtb_dump makes of its loop. */
  function Dumped(run: Outcome<Parser>): Outcome<(Link, seq<Device>)>
    requires run.Done? ==> |run.value.stack| == STACK
  {
    match run
    case Halt => Halt
    case Done(st) => Done((st.stack[0], st.devs))
  }

  /** What dtb_dump does with a blob that has a header. */
  function DumpOf(dtb: Bytes): Outcome<(Link, seq<Device>)>
    requires |dtb| >= 40
  {
    if ReadInt(dtb, 0) != MAGIC || ReadInt(dtb, 24) != COMPATIBLE then Halt
    else
      Dumped(Run(dtb, ReadInt(dtb, 12), (ReadInt(dtb, 8) + ReadInt(dtb, 36)) % TWO_TO_32, Start(ReadInt(dtb, 8))))
  }

  /** The header is in order and brackets the bytes of a tree. */
  ghost predicate HeaderOf(dtb: Bytes, items: Items)
    requires WellFormed(items)
  {
    && |dtb| >= 40
    && Word(dtb, 0, MAGIC) && Word(dtb, 24, COMPATIBLE)
    && Word(dtb, 36, Room(items)) && ReadInt(dtb, 8) + Room(items) < TWO_TO_32
    && At(dtb, ReadInt(dtb, 8), Encode(items))
  }

  /** The result stands for the tree: the first device is its root. */
  ghost predicate StandsFor(dtb: Bytes, strings: nat, items: Items, r: Outcome<(Link, seq<Device>)>) {
    && (r.Done? <==> Height(items) < DEPTH_LIMIT)
    && (r.Done? ==> r.value.0 == Some(0) && |r.value.1| == Size(items) && Represents(dtb, strings, r.value.1, 0, items))
  }

  lemma DumpBlock(dtb: Bytes, strings: nat, loc: nat, items: Items, run: Outcome<Parser>)
    requires OneRoot(items) && GoodRun(dtb, strings, loc, items, run)
    ensures StandsFor(dtb, strings, items, Dumped(run))
  {
    RootReturned(items, 0);
  }

  lemma EndOfBlock(start: nat, size: nat)
    requires start + size < TWO_TO_32
    ensures (start + size) % TWO_TO_32 == start + size
  {
  }

  /** A blob with the encoding of a tree is dumped to its root, the first device, and
      the devices that represent the tree, unless its nodes nest to the limit. */
  lemma DumpEncoded(dtb: Bytes, items: Items)
    requires WellFormed(items) && OneRoot(items) && HeaderOf(dtb, items)
    ensures StandsFor(dtb, ReadInt(dtb, 12), items, DumpOf(dtb))
  {
    var start, strings := ReadInt(dtb, 8), ReadInt(dtb, 12);
    EncodingParsed(dtb, strings, Start(start), items);
    EndOfBlock(start, Room(items));
    DumpBlock(dtb, strings, start, items, Run(dtb, strings, start + Room(items), Start(start)));
  }

  /** dtb_dump on a blob with a header: the root and the devices. */
  method Dump(dtb: Bytes) returns (r: Outcome<(Link, seq<Device>)>)
    requires |dtb| >= 40
    ensures r == DumpOf(dtb)
  {
    var start, strings := ReadInt(dtb, 8), ReadInt(dtb, 12);
    var end := (start + ReadInt(dtb, 36)) % TWO_TO_32;
    if ReadInt(dtb, 0) != MAGIC || ReadInt(dtb, 24) != COMPATIBLE {
      return Halt;
    }
    var st := Start(start);
    while st.loc < end
      invariant st.depth < DEPTH_LIMIT && |st.stack| == STACK
      invariant Run(dtb, strings, end, st) == Run(dtb, strings, end, Start(start))
      decreases end - st.loc
    {
      var next := Token(dtb, strings, st);
      if next.Halt? {
        return Halt;
      }
      st := next.value;
    }
    r := Done((st.stack[0], st.devs));
  }

  /** The body of the loop. */
  method Token(dtb: Bytes, strings: nat, st: Parser) returns (r: Outcome<Parser>)
    requires st.depth < DEPTH_LIMIT && |st.stack| == STACK
    ensures r == Step(dtb, strings, st)
  {
    if st.loc + 4 > |dtb| {
      return Halt;
    }
    var loc, devs, stack, depth := st.loc, st.devs, st.stack, st.depth;
    var token := ReadInt(dtb, loc);
    if token == BEGIN_NODE {
      var node := |devs|;
      devs := Linked(devs, stack, depth, node) + [Device(loc + 4, Inner, None, None)];
      stack := stack[depth := Some(node)];
      depth := depth + 1;
      if depth >= DEPTH_LIMIT {
        return Halt;
      }
      var n := NameLength(dtb, loc + 4);
      if n.None? {
        return Halt;
      }
      Rooms(n.value);
      loc := loc + (n.value + 4) / 4 * 4;
    } else if token == END_NODE {
      stack := stack[depth := None];
      if depth == 0 {
        return Halt;
      }
      depth := depth - 1;
    } else if token == PROP {
      if loc + 12 > |dtb| {
        return Halt;
      }
      var size, nameOffset := ReadInt(dtb, loc + 4), ReadInt(dtb, loc + 8);
      var device := |devs|;
      devs := Linked(devs, stack, depth, device) + [Device(strings + nameOffset, Leaf(loc + 12, size), None, None)];
      stack := stack[depth := Some(device)];
      Rooms(size);
      loc := loc + (size + 3) / 4 * 4 + 8;
    } else if token != NOP && token != END {
      return Halt;
    }
    r := Done(Parser(loc + 4, devs, stack, depth));
  }

  // ---- children by prefix ----

  /** str_starts_with on a string in the blob. */
  predicate StartsWith(dtb: Bytes, at: nat, prefix: Bytes) {
    at + |prefix| <= |dtb| && dtb[at..at + |prefix|] == prefix
  }

  lemma NodePrefix(dtb: Bytes, at: nat, name: Bytes, prefix: Bytes)
    requires At(dtb, at, name + [0]) && 0 !in prefix
    ensures StartsWith(dtb, at, prefix) <==> prefix <= name
  {
    assert dtb[at + |name|] == (name + [0])[|name|] == 0;
    assert forall j :: 0 <= j < |name| ==> (name + [0])[j] == name[j];
    assert |prefix| > |name| ==> prefix[|name|] in prefix;
    if |prefix| <= |name| {
      assert dtb[at..at + |prefix|] == name[..|prefix|];
    }
  }

  /** Positions of the items of a list, not of their children, whose names start
      with a prefix, in document order. */
  ghost function Matching(dtb: Bytes, strings: nat, items: Items, i: nat, prefix: Bytes): seq<nat>
    decreases items
  {
    match items
    case Nothing => []
    case Skip(_, rest) => Matching(dtb, strings, rest, i, prefix)
    case Prop(nameOffset, _, _, rest) =>
      (if StartsWith(dtb, strings + nameOffset, prefix) then [i] else []) + Matching(dtb, strings, rest, i + 1, prefix)
    case Node(name, room, children, rest) =>
      (if prefix <= name then [i] else []) + Matching(dtb, strings, rest, i + 1 + Size(children), prefix)
  }

  ghost function Nth(matches: seq<nat>, n: nat): Link {
    if n < |matches| then Some(matches[n]) else None
  }

  ghost function NoSkips(items: Items): (out: Items)
    ensures !out.Skip?
  {
    if items.Skip? then NoSkips(items.rest) else items
  }

  lemma {:induction false} NoSkipsKeeps(dtb: Bytes, strings: nat, devs: seq<Device>, items: Items, i: nat, prefix: Bytes)
    requires Represents(dtb, strings, devs, i, items)
    ensures Represents(dtb, strings, devs, i, NoSkips(items))
    ensures Matching(dtb, strings, NoSkips(items), i, prefix) == Matching(dtb, strings, items, i, prefix)
    ensures Size(NoSkips(items)) == Size(items)
    decreases items
  {
    if items.Skip? {
      NoSkipsKeeps(dtb, strings, devs, items.rest, i, prefix);
    }
  }

  /** device_tree_prefix_get_child: among the children of a device, the n-th one in
      document order whose name starts with the prefix. */
  method PrefixGetChild(dtb: Bytes, devs: seq<Device>, device: nat, prefix: Bytes, n: nat, ghost strings: nat, ghost children: Items) returns (r: Link)
    requires device < |devs| && 0 !in prefix
    requires devs[device].firstChild == First(children, device + 1)
    requires Represents(dtb, strings, devs, device + 1, children)
    ensures r == Nth(Matching(dtb, strings, children, device + 1, prefix), n)
  {
    ghost var left: Items, i: nat := children, device + 1;
    var cur, upto := devs[device].firstChild, 0;
    while cur.Some?
      invariant cur == First(left, i) && Represents(dtb, strings, devs, i, left) && upto <= n
      invariant Nth(Matching(dtb, strings, left, i, prefix), n - upto) == Nth(Matching(dtb, strings, children, device + 1, prefix), n)
      decreases Size(left)
    {
      ghost var rest, k := NextItem(dtb, strings, devs, left, i, prefix);
      if StartsWith(dtb, devs[cur.value].name, prefix) {
        if n == upto {
          return cur;
        }
        upto := upto + 1;
      }
      cur := devs[cur.value].nextSibling;
      left, i := rest, k;
    }
    NothingMatches(dtb, strings, left, i, prefix);
    r := None;
  }

  /** The first item of a list, seen from its device. */
  lemma NextItem(dtb: Bytes, strings: nat, devs: seq<Device>, items: Items, i: nat, prefix: Bytes) returns (rest: Items, k: nat)
    requires Represents(dtb, strings, devs, i, items) && Size(items) > 0 && 0 !in prefix
    ensures i < |devs| && devs[i].nextSibling == First(rest, k)
    ensures Represents(dtb, strings, devs, k, rest) && Size(rest) < Size(items)
    ensures Matching(dtb, strings, items, i, prefix)
         == (if StartsWith(dtb, devs[i].name, prefix) then [i] else []) + Matching(dtb, strings, rest, k, prefix)
  {
    NoSkipsKeeps(dtb, strings, devs, items, i, prefix);
    var first := NoSkips(items);
    rest := first.rest;
    if first.Node? {
      NodePrefix(dtb, devs[i].name, first.name, prefix);
      k := i + 1 + Size(first.children);
    } else {
      k := i + 1;
    }
  }

  lemma {:induction false} NothingMatches(dtb: Bytes, strings: nat, items: Items, i: nat, prefix: Bytes)
    requires Size(items) == 0
    ensures Matching(dtb, strings, items, i, prefix) == []
    decreases items
  {
    if items.Skip? {
      NothingMatches(dtb, strings, items.rest, i, prefix);
    }
  }
}
