/** The lazy markup renderer: a read-only, forward-only byte stream over an
    element builder tree. Each `ReadNextNode` step walks a stack of
    conservative enumerators and yields one markup fragment; `Read` encodes
    the fragments into the caller's buffer and keeps any overflow as a
    backlog for the next call. */
module BuilderStreams {

  import opened Results
  import opened XmlBuilders
  import opened TextEncoding

  /*** Conservative enumerators ***/

  /** A conservative enumerator over one sibling sequence: `next` items have
      been moved over. Once `MoveNext` has returned false, `Current` still
      reports the last item. */
  datatype Frame = Frame(items: seq<Node>, next: nat)

  /** Advances the enumerator when an item is left; reports whether it did. */
  function MoveNext(f: Frame): (bool, Frame) {
    if f.next < |f.items| then (true, Frame(f.items, f.next + 1)) else (false, f)
  }

  /** The item the enumerator was last moved to; null before the first move. */
  function CurrentItem(f: Frame): Option<Node> {
    if 0 < f.next <= |f.items| then Some(f.items[f.next - 1]) else None
  }

  /** Once exhausted, a conservative enumerator stays where it is and keeps
      reporting its last item as current. */
  lemma {:induction false} ConservativeEnumeratorKeepsLastItem(f: Frame)
    requires 0 < |f.items| && f.next == |f.items|
    ensures MoveNext(f) == (false, f)
    ensures CurrentItem(MoveNext(f).1) == Some(f.items[|f.items| - 1])
  {
  }

  /** The root frame: the root element alone, or nothing for a null root. */
  function RootFrame(root: Option<Node>): Frame {
    Frame(if root.None? then [] else [root.value], 0)
  }

  /*** The fragments of one step, as the source spells them ***/

  function AttributeFragment(n: Node): (r: string)
    requires n.Attribute?
    ensures r == " " + NameOf(n) + "=\"" + n.value + "\""
  {
    if n.prefix == "" then " " + n.localName + "=\"" + n.value + "\""
    else " " + n.prefix + ":" + n.localName + "=\"" + n.value + "\""
  }

  /** The start of an element's tag when attributes follow. */
  function OpenTagStart(n: Node): (r: string)
    requires n.Element?
    ensures r == "<" + NameOf(n)
  {
    if n.prefix == "" then "<" + n.localName else "<" + n.prefix + ":" + n.localName
  }

  function OpenTag(n: Node): (r: string)
    requires n.Element?
    ensures r == "<" + NameOf(n) + ">"
  {
    if n.prefix == "" then "<" + n.localName + ">" else "<" + n.prefix + ":" + n.localName + ">"
  }

  function SelfClosingTag(n: Node): (r: string)
    requires n.Element?
    ensures r == "<" + NameOf(n) + " />"
  {
    if n.prefix == "" then "<" + n.localName + " />" else "<" + n.prefix + ":" + n.localName + " />"
  }

  function EndTag(n: Node): (r: string)
    requires n.Element?
    ensures r == "</" + NameOf(n) + ">"
  {
    if n.prefix == "" then "</" + n.localName + ">" else "</" + n.prefix + ":" + n.localName + ">"
  }

  /*** The fragment sequence a tree yields ***/

  /** The fragments the traversal yields for one node, one per step: an
      element with attributes yields its tag start, its attributes and then
      ` />` or `>`, children and end tag; an element with only children yields
      its open tag, children and end tag; a bare element its self-closing tag. */
  function Fragments(n: Node): seq<string>
    decreases n, 1
  {
    match n
    case Attribute(_, _, _, _) => [AttributeFragment(n)]
    case Text(value) => [value]
    case Element(_, _, _, attributes, childNodes) =>
      if HasAttributes(n) then
        [OpenTagStart(n)] + FragmentsAll(attributes) + AttributesClose(n)
      else if HasChildNodes(n) then
        [OpenTag(n)] + FragmentsAll(childNodes) + [EndTag(n)]
      else
        [SelfClosingTag(n)]
  }

  /** What follows the attributes of an element: ` />` for an element
      without children, otherwise `>`, the children and the end tag. */
  function AttributesClose(n: Node): seq<string>
    requires n.Element?
    decreases n, 0
  {
    if HasChildNodes(n) then [">"] + FragmentsAll(n.childNodes) + [EndTag(n)] else [" />"]
  }

  function FragmentsAll(ns: seq<Node>): seq<string>
    decreases ns, 0
  {
    if ns == [] then [] else Fragments(ns[0]) + FragmentsAll(ns[1..])
  }

  function Concat(ss: seq<string>): string
    decreases |ss|
  {
    if ss == [] then "" else ss[0] + Concat(ss[1..])
  }

  lemma {:induction false} ConcatAppend(a: seq<string>, b: seq<string>)
    ensures Concat(a + b) == Concat(a) + Concat(b)
    decreases |a|
  {
    if a == [] {
      assert a + b == b;
    } else {
      assert (a + b)[0] == a[0];
      assert (a + b)[1..] == a[1..] + b;
      ConcatAppend(a[1..], b);
    }
  }

  lemma {:induction false} ConcatSingleton(s: string)
    ensures Concat([s]) == s
  {
    assert [s][1..] == [];
  }

  /** The fragments of a node, put together, are exactly its markup. */
  lemma {:induction false} FragmentsRender(n: Node)
    ensures Concat(Fragments(n)) == Render(n)
    decreases n, 1
  {
    match n
    case Attribute(_, _, _, _) =>
      ConcatSingleton(AttributeFragment(n));
    case Text(value) =>
      ConcatSingleton(value);
    case Element(_, _, _, attributes, childNodes) =>
      FragmentsAllRender(attributes);
      FragmentsAllRender(childNodes);
      ElementFragmentsRender(n);
  }

  /** The element case of `FragmentsRender`, given the fragments of its attributes and children. */
  lemma {:induction false} ElementFragmentsRender(n: Node)
    requires n.Element?
    requires Concat(FragmentsAll(n.attributes)) == RenderAll(n.attributes)
    requires Concat(FragmentsAll(n.childNodes)) == RenderAll(n.childNodes)
    ensures Concat(Fragments(n)) == Render(n)
  {
    var name := NameOf(n);
    var markup := if HasChildNodes(n) then ">" + RenderAll(n.childNodes) + "</" + name + ">" else " />";
    assert Render(n) == "<" + name + RenderAll(n.attributes) + markup;
    if HasAttributes(n) {
      AttributesCloseRender(n);
      assert Fragments(n) == [OpenTagStart(n)] + FragmentsAll(n.attributes) + AttributesClose(n);
      ConcatWrap(OpenTagStart(n), FragmentsAll(n.attributes), AttributesClose(n));
    } else if HasChildNodes(n) {
      assert RenderAll(n.attributes) == "";
      assert Fragments(n) == [OpenTag(n)] + FragmentsAll(n.childNodes) + [EndTag(n)];
      ConcatWrap(OpenTag(n), FragmentsAll(n.childNodes), [EndTag(n)]);
      ConcatSingleton(EndTag(n));
      Associate("<" + name, ">", RenderAll(n.childNodes), "</" + name + ">");
    } else {
      assert RenderAll(n.attributes) == "";
      assert Fragments(n) == [SelfClosingTag(n)];
      ConcatSingleton(SelfClosingTag(n));
    }
  }

  /** What follows the attributes, put together, is the rest of the element's markup. */
  lemma {:induction false} AttributesCloseRender(n: Node)
    requires n.Element?
    requires Concat(FragmentsAll(n.childNodes)) == RenderAll(n.childNodes)
    ensures Concat(AttributesClose(n)) ==
      if HasChildNodes(n) then ">" + RenderAll(n.childNodes) + "</" + NameOf(n) + ">" else " />"
  {
    if HasChildNodes(n) {
      ConcatWrap(">", FragmentsAll(n.childNodes), [EndTag(n)]);
      ConcatSingleton(EndTag(n));
      Associate(">" + RenderAll(n.childNodes), "</", NameOf(n), ">");
    } else {
      ConcatSingleton(" />");
    }
  }

  /** Concatenating a fragment list cut in three places. */
  lemma {:induction false} ConcatWrap(head: string, middle: seq<string>, tail: seq<string>)
    ensures Concat([head] + middle + tail) == head + Concat(middle) + Concat(tail)
  {
    ConcatAppend([head] + middle, tail);
    ConcatAppend([head], middle);
    ConcatSingleton(head);
  }

  lemma {:induction false} Associate(a: string, b: string, c: string, d: string)
    ensures a + (b + c + d) == a + b + c + d
  {
  }

  lemma {:induction false} FragmentsAllRender(ns: seq<Node>)
    ensures Concat(FragmentsAll(ns)) == RenderAll(ns)
    decreases ns, 0
  {
    if ns != [] {
      FragmentsRender(ns[0]);
      FragmentsAllRender(ns[1..]);
      ConcatAppend(Fragments(ns[0]), FragmentsAll(ns[1..]));
    }
  }

  /*** The enumerator stack and the fragments it still owes ***/

  /** The stack of enumerators, the most recent on top. The stream keeps it
      in a linked list that it only ever appends to, removes the last entry
      of, and reads the last entry of. */
  datatype Stack = Bottom | Push(below: Stack, top: Frame)

  function Depth(stack: Stack): nat {
    match stack
    case Bottom => 0
    case Push(below, _) => Depth(below) + 1
  }

  function Unvisited(f: Frame): seq<Node> {
    if f.next <= |f.items| then f.items[f.next..] else []
  }

  predicate IsAttributeFrame(f: Frame) {
    |f.items| > 0 && f.items[0].Attribute?
  }

  /** The fragments still to come from a stack: the unvisited items of the
      top frame, then what closing that frame yields, then the same for the
      frames below. The very last step, popping the root frame, yields the
      empty fragment. */
  function Remaining(stack: Stack): seq<string>
    decreases stack, 1
  {
    match stack
    case Bottom => []
    case Push(below, top) => FragmentsAll(Unvisited(top)) + Closing(below, top)
  }

  /** What popping the exhausted frame `top` off `Push(below, top)` yields, and everything after. */
  function Closing(below: Stack, top: Frame): seq<string>
    decreases below, 2
  {
    match below
    case Bottom => [""]
    case Push(_, parent) =>
      match CurrentItem(parent)
      case Some(owner) =>
        (if !owner.Element? then [""]
         else if IsAttributeFrame(top) then AttributesClose(owner)
         else [EndTag(owner)]) + Remaining(below)
      case None => [""] + Remaining(below)
  }

  /** The frame `f` enumerates the attributes or the child nodes of the item
      its parent frame is on, and there is at least one of them. */
  predicate OwnedBy(f: Frame, parent: Frame) {
    match CurrentItem(parent)
    case Some(owner) =>
      owner.Element? && |f.items| > 0 &&
      (f.items == owner.attributes || f.items == owner.childNodes)
    case None => false
  }

  /** The stacks `ReadNextNode` works on: a root frame over at most one
      element at the bottom, then frames over the attributes or children of
      the item the frame below is on; every item well formed. */
  predicate ValidStack(stack: Stack)
    decreases stack
  {
    match stack
    case Bottom => true
    case Push(below, top) =>
      top.next <= |top.items| &&
      (forall i :: 0 <= i < |top.items| ==> WellFormed(top.items[i])) &&
      match below
      case Bottom => |top.items| <= 1 && (forall i :: 0 <= i < |top.items| ==> top.items[i].Element?)
      case Push(_, parent) => ValidStack(below) && OwnedBy(top, parent)
  }

  /** How one step may change the stack: the top enumerator moves (or stays
      put when exhausted), possibly with a new frame pushed above it; or the
      top frame is popped, possibly with a new frame pushed in its place. */
  predicate OneFrameChange(before: Stack, after: Stack)
    requires before.Push?
  {
    var below := before.below;
    var moved := Push(below, MoveNext(before.top).1);
    || after == moved
    || (after.Push? && after.below == moved && after.top.next == 0)
    || after == below
    || (after.Push? && after.below == below && after.top.next == 0)
  }

  /** Every frame owes at least one more step: so the stack is empty exactly
      when no fragment is left. */
  lemma {:induction false} RemainingCoversStack(stack: Stack)
    ensures |Remaining(stack)| >= Depth(stack)
    decreases stack
  {
    match stack
    case Bottom =>
    case Push(below, top) =>
      RemainingCoversStack(below);
      match below
      case Bottom =>
      case Push(_, parent) =>
        match CurrentItem(parent)
        case Some(owner) =>
          assert |Closing(below, top)| >= 1 + |Remaining(below)|;
        case None =>
  }

  /** The top frame of a valid stack enumerates attributes only, or no
      attribute at all. */
  lemma {:induction false} ValidFrameKind(stack: Stack)
    requires stack.Push? && ValidStack(stack)
    ensures IsAttributeFrame(stack.top) ==>
      stack.below.Push? && forall i :: 0 <= i < |stack.top.items| ==> stack.top.items[i].Attribute?
    ensures !IsAttributeFrame(stack.top) ==>
      forall i :: 0 <= i < |stack.top.items| ==> !stack.top.items[i].Attribute?
  {
    if stack.below.Push? {
      var parent := stack.below.top;
      var owner := CurrentItem(parent).value;
      assert WellFormed(parent.items[parent.next - 1]);
      assert WellFormed(owner);
    }
  }

  /** Moving the top enumerator over its next item yields that item's
      fragments first, and leaves a valid stack. */
  lemma {:induction false} AdvanceTop(stack: Stack)
    requires stack.Push? && ValidStack(stack)
    requires stack.top.next < |stack.top.items|
    ensures var advanced := Push(stack.below, MoveNext(stack.top).1);
      ValidStack(advanced) &&
      Remaining(stack) == Fragments(stack.top.items[stack.top.next]) + Remaining(advanced)
  {
    var top, below := stack.top, stack.below;
    var moved := MoveNext(top).1;
    var rest := top.items[top.next..];
    assert rest[0] == top.items[top.next] && rest[1..] == top.items[top.next + 1..];
    assert Unvisited(top) == rest && Unvisited(moved) == rest[1..];
    assert Closing(below, top) == Closing(below, moved);
    assert FragmentsAll(rest) == Fragments(rest[0]) + FragmentsAll(rest[1..]);
    AssociateRight(Fragments(rest[0]), FragmentsAll(rest[1..]), Closing(below, top));
  }

  /** Entering the attributes of the element the top frame is on. */
  lemma {:induction false} EnterAttributes(stack: Stack)
    requires stack.Push? && ValidStack(stack)
    requires CurrentItem(stack.top).Some? && HasAttributes(CurrentItem(stack.top).value)
    ensures var n := CurrentItem(stack.top).value;
      var after := Push(stack, Frame(n.attributes, 0));
      ValidStack(after) &&
      Remaining(after) == FragmentsAll(n.attributes) + (AttributesClose(n) + Remaining(stack))
  {
    var top := stack.top;
    var n := CurrentItem(top).value;
    var f := Frame(n.attributes, 0);
    assert WellFormed(top.items[top.next - 1]);
    assert Unvisited(f) == n.attributes;
    assert IsAttributeFrame(f);
  }

  /** Entering the child nodes of the element the top frame is on. */
  lemma {:induction false} EnterChildNodes(stack: Stack)
    requires stack.Push? && ValidStack(stack)
    requires CurrentItem(stack.top).Some? && HasChildNodes(CurrentItem(stack.top).value)
    ensures var n := CurrentItem(stack.top).value;
      var after := Push(stack, Frame(n.childNodes, 0));
      ValidStack(after) &&
      Remaining(after) == FragmentsAll(n.childNodes) + ([EndTag(n)] + Remaining(stack))
  {
    var top := stack.top;
    var n := CurrentItem(top).value;
    var f := Frame(n.childNodes, 0);
    assert WellFormed(top.items[top.next - 1]);
    assert Unvisited(f) == n.childNodes;
    assert !IsAttributeFrame(f);
  }

  /** Popping an exhausted top frame: what is left owes what closing it yields. */
  lemma {:induction false} CloseTop(stack: Stack)
    requires stack.Push? && ValidStack(stack)
    requires stack.top.next == |stack.top.items|
    ensures ValidStack(stack.below)
    ensures Remaining(stack) == Closing(stack.below, stack.top)
    ensures (CurrentItem(stack.top).Some? && CurrentItem(stack.top).value.Attribute?) <==> IsAttributeFrame(stack.top)
    ensures IsAttributeFrame(stack.top) ==> stack.below.Push?
    ensures stack.below.Push? ==> CurrentItem(stack.below.top).Some? && CurrentItem(stack.below.top).value.Element?
  {
    ValidFrameKind(stack);
    assert Unvisited(stack.top) == [];
    assert Remaining(stack) == [] + Closing(stack.below, stack.top);
  }

  /** One traversal step on a valid, non-empty stack, as `ReadNextNode`
      takes it: the fragment it yields and the stack it leaves. */
  function Step(stack: Stack): (string, Stack)
    requires stack.Push? && ValidStack(stack)
  {
    var (moved, top) := MoveNext(stack.top);
    if moved then
      var advanced := Push(stack.below, top);
      var node := top.items[top.next - 1];
      match node
      case Attribute(_, _, _, _) => (AttributeFragment(node), advanced)
      case Text(value) => (value, advanced)
      case Element(_, _, _, attributes, childNodes) =>
        if HasAttributes(node) then (OpenTagStart(node), Push(advanced, Frame(attributes, 0)))
        else if HasChildNodes(node) then (OpenTag(node), Push(advanced, Frame(childNodes, 0)))
        else (SelfClosingTag(node), advanced)
    else
      CloseTop(stack);
      var below := stack.below;
      if CurrentItem(top).Some? && CurrentItem(top).value.Attribute? then
        var owner := CurrentItem(below.top).value;
        if HasChildNodes(owner) then (">", Push(below, Frame(owner.childNodes, 0)))
        else (" />", below)
      else if below.Push? && CurrentItem(below.top).Some? && CurrentItem(below.top).value.Element? then
        (EndTag(CurrentItem(below.top).value), below)
      else
        ("", below)
  }

  /** A step yields exactly the next fragment still owed, leaves a valid
      stack, and changes at most one frame. */
  lemma {:induction false} StepRemaining(stack: Stack)
    requires stack.Push? && ValidStack(stack)
    ensures ValidStack(Step(stack).1)
    ensures Remaining(stack) == [Step(stack).0] + Remaining(Step(stack).1)
    ensures OneFrameChange(stack, Step(stack).1)
  {
    if MoveNext(stack.top).0 {
      StepAdvance(stack);
    } else {
      StepClose(stack);
    }
  }

  /** Concatenation regrouped to the right. */
  lemma {:induction false} AssociateRight<T>(a: seq<T>, b: seq<T>, c: seq<T>)
    ensures a + b + c == a + (b + c)
  {
  }

  /** Regrouping the fragments of an element around the frame pushed for its contents. */
  lemma {:induction false} Regroup<T>(head: T, inner: seq<T>, close: seq<T>, rest: seq<T>)
    ensures [head] + inner + close + rest == [head] + (inner + (close + rest))
  {
    assert [head] + inner + close + rest == [head] + (inner + (close + rest));
  }

  lemma {:induction false} StepAdvance(stack: Stack)
    requires stack.Push? && ValidStack(stack) && MoveNext(stack.top).0
    ensures ValidStack(Step(stack).1)
    ensures Remaining(stack) == [Step(stack).0] + Remaining(Step(stack).1)
    ensures OneFrameChange(stack, Step(stack).1)
  {
    var top := MoveNext(stack.top).1;
    var advanced := Push(stack.below, top);
    AdvanceTop(stack);
    var node := top.items[top.next - 1];
    assert CurrentItem(advanced.top) == Some(node);
    assert Remaining(stack) == Fragments(node) + Remaining(advanced);
    if HasAttributes(node) {
      assert Step(stack) == (OpenTagStart(node), Push(advanced, Frame(node.attributes, 0)));
      EnterAttributes(advanced);
      assert Fragments(node) == [OpenTagStart(node)] + FragmentsAll(node.attributes) + AttributesClose(node);
      Regroup(OpenTagStart(node), FragmentsAll(node.attributes), AttributesClose(node), Remaining(advanced));
    } else if HasChildNodes(node) {
      assert Step(stack) == (OpenTag(node), Push(advanced, Frame(node.childNodes, 0)));
      EnterChildNodes(advanced);
      assert Fragments(node) == [OpenTag(node)] + FragmentsAll(node.childNodes) + [EndTag(node)];
      Regroup(OpenTag(node), FragmentsAll(node.childNodes), [EndTag(node)], Remaining(advanced));
    } else {
      assert Step(stack).1 == advanced;
      assert Fragments(node) == [Step(stack).0];
    }
  }

  lemma {:induction false} StepClose(stack: Stack)
    requires stack.Push? && ValidStack(stack) && !MoveNext(stack.top).0
    ensures ValidStack(Step(stack).1)
    ensures Remaining(stack) == [Step(stack).0] + Remaining(Step(stack).1)
    ensures OneFrameChange(stack, Step(stack).1)
  {
    CloseTop(stack);
    var top, below := stack.top, stack.below;
    if IsAttributeFrame(top) {
      var owner := CurrentItem(below.top).value;
      assert Remaining(stack) == AttributesClose(owner) + Remaining(below);
      if HasChildNodes(owner) {
        EnterChildNodes(below);
        Regroup(">", FragmentsAll(owner.childNodes), [EndTag(owner)], Remaining(below));
        assert Step(stack) == (">", Push(below, Frame(owner.childNodes, 0)));
      } else {
        assert Step(stack) == (" />", below);
      }
    } else if below.Push? {
      assert Step(stack) == (EndTag(CurrentItem(below.top).value), below);
    } else {
      assert Step(stack) == ("", below);
    }
  }

  /*** Collaborators ***/

  /** The root builder seen as `IDisposable`: it counts the calls to `Dispose`. */
  class DisposalHook {
    var disposeCount: nat

    constructor ()
      ensures disposeCount == 0
    {
      disposeCount := 0;
    }

    method Dispose()
      modifies this
      ensures disposeCount == old(disposeCount) + 1
    {
      disposeCount := disposeCount + 1;
    }
  }

  /** The caller's window as it fills: `capacity` bytes may be written, and
      `content` holds those written so far, front first. */
  datatype BufferController = BufferController(capacity: nat, content: seq<byte>)
  {
    predicate Valid() {
      |content| <= capacity
    }

    function Availability(): (r: int)
      ensures Valid() ==> r >= 0
      ensures r == 0 <==> |content| == capacity
    {
      capacity - |content|
    }

    function Count(): nat {
      |content|
    }

    /** Takes as many bytes of `data` as fit; the second half of the result
        is what did not fit. */
    function Append(data: seq<byte>): (r: (BufferController, seq<byte>))
      requires Valid()
      ensures r.0.Valid() && r.0.capacity == capacity
      ensures r.0.content + r.1 == content + data && content <= r.0.content
      ensures |r.0.content| == |content| + |data| || r.0.Availability() == 0
      ensures r.1 != [] ==> r.0.Availability() == 0
    {
      var k := if |data| < capacity - |content| then |data| else capacity - |content|;
      assert data == data[..k] + data[k..];
      (BufferController(capacity, content + data[..k]), data[k..])
    }

    /** Appends the bytes `encoder` gives for `text`. */
    function AppendText(text: string, encoder: Encoder): (r: (BufferController, seq<byte>))
      requires Valid()
      ensures r.0.Valid() && r.0.capacity == capacity
      ensures r.0.content + r.1 == content + GetBytes(encoder, text) && content <= r.0.content
      ensures |r.0.content| == |content| + |GetBytes(encoder, text)| || r.0.Availability() == 0
      ensures r.1 != [] ==> r.0.Availability() == 0
    {
      Append(GetBytes(encoder, text))
    }
  }

  /** Writes `data` into `buffer` from `offset` on, and nothing else. */
  method CopyInto(buffer: array<byte>, offset: int, data: seq<byte>)
    requires 0 <= offset && offset + |data| <= buffer.Length
    modifies buffer
    ensures buffer[offset..offset + |data|] == data
    ensures forall i :: 0 <= i < buffer.Length && !(offset <= i < offset + |data|) ==> buffer[i] == old(buffer[i])
  {
    var i := 0;
    while i < |data|
      invariant 0 <= i <= |data|
      invariant forall j :: 0 <= j < i ==> buffer[offset + j] == data[j]
      invariant forall j :: 0 <= j < buffer.Length && !(offset <= j < offset + i) ==> buffer[j] == old(buffer[j])
    {
      buffer[offset + i] := data[i];
      i := i + 1;
    }
  }

  datatype SeekOrigin = Begin | Current | End

  /** The bytes owed, regrouped around what went into the window. */
  lemma {:induction false} Reassociate(total: seq<byte>, drained: seq<byte>, written: seq<byte>, rest: seq<byte>, tail: seq<byte>)
    requires written + rest == drained && total == drained + tail
    ensures total == written + (rest + tail)
  {
  }

  /** The window takes the head of a fragment's bytes, the backlog its tail:
      together with the bytes still to come they are what was owed. */
  lemma {:induction false} Carry(total: seq<byte>, window: seq<byte>, data: seq<byte>, owed: seq<byte>,
                                 tail: seq<byte>, filled: seq<byte>, rest: seq<byte>)
    requires total == window + ([] + owed) && owed == data + tail
    requires filled + rest == window + data
    ensures total == filled + (rest + tail)
  {
    calc {
      total;
      window + data + tail;
      filled + rest + tail;
    }
  }

  /** The bytes still owed by a stack: those of its next fragment, then the rest. */
  lemma {:induction false} FragmentBytes(encoder: Encoder, stack: Stack, fragment: string, rest: seq<string>)
    requires Remaining(stack) == [fragment] + rest
    ensures GetBytes(encoder, Concat(Remaining(stack))) == GetBytes(encoder, fragment) + GetBytes(encoder, Concat(rest))
  {
    ConcatAppend([fragment], rest);
    ConcatSingleton(fragment);
    GetBytesConcat(encoder, fragment, Concat(rest));
  }

  /*** The stream ***/

  /** The bytes a stream owes: its backlog, then the encoded fragments
      still to come from its enumerator stack. */
  ghost function Owed(encoding: Encoder, backlog: seq<byte>, stack: Stack): seq<byte> {
    backlog + GetBytes(encoding, Concat(Remaining(stack)))
  }

  class XmlBuilderStream {
    const encoding: Encoder
    const disposable: DisposalHook?
    var enumerators: Stack
    var backlog: seq<byte>
    var position: int
    /** The bytes `Read` has handed out so far, in order. */
    ghost var delivered: seq<byte>

    ghost predicate Valid()
      reads this`enumerators
    {
      ValidStack(enumerators)
    }

    /** The position counts the bytes read. */
    ghost predicate Counted()
      reads this`position, this`delivered
    {
      position == |delivered|
    }

    /** Every byte the stream still has to deliver: the backlog first, then
        the encoded fragments still to come. */
    ghost function Pending(): seq<byte>
      reads this`backlog, this`enumerators
    {
      Owed(encoding, backlog, enumerators)
    }

    /** A stream over `node` (null for none) that encodes its markup with
        `encoding`; `disposable` is the root builder seen as `IDisposable`,
        null when it is not one. */
    constructor (node: Option<Node>, encoding: Encoder, disposable: DisposalHook?)
      requires node.Some? ==> node.value.Element? && WellFormed(node.value)
      requires node.None? ==> disposable == null
      ensures Valid() && Counted() && !EOF()
      ensures this.encoding == encoding && this.disposable == disposable
      ensures enumerators == Push(Bottom, RootFrame(node)) && backlog == [] && position == 0 && delivered == []
      ensures Pending() == GetBytes(encoding, RenderRoot(node))
    {
      this.encoding := encoding;
      this.disposable := disposable;
      enumerators := Push(Bottom, RootFrame(node));
      backlog := [];
      position := 0;
      delivered := [];
      new;
      RootRemaining(node);
    }

    /** The two-argument constructor as a caller sees it: a null encoding is
        rejected before anything else happens. */
    static method Create(node: Option<Node>, encoding: Option<Encoder>, disposable: DisposalHook?)
      returns (r: Result<XmlBuilderStream>)
      requires node.Some? ==> node.value.Element? && WellFormed(node.value)
      requires node.None? ==> disposable == null
      ensures encoding.None? <==> r.Failure?
      ensures r.Failure? ==> r.error == ArgumentNullException("encoding")
      ensures r.Success? ==>
        fresh(r.value) && r.value.Valid() && r.value.Counted() && r.value.encoding == encoding.value &&
        r.value.position == 0 && r.value.delivered == [] &&
        r.value.Pending() == GetBytes(encoding.value, RenderRoot(node))
    {
      if encoding.None? {
        return Failure(ArgumentNullException("encoding"));
      }
      var stream := new XmlBuilderStream(node, encoding.value, disposable);
      return Success(stream);
    }

    /** The one-argument constructor: UTF-8 without a preamble. */
    constructor Default(node: Option<Node>, disposable: DisposalHook?)
      requires node.Some? ==> node.value.Element? && WellFormed(node.value)
      requires node.None? ==> disposable == null
      ensures Valid() && Counted() && !EOF()
      ensures encoding == Utf8 && this.disposable == disposable
      ensures enumerators == Push(Bottom, RootFrame(node)) && backlog == [] && position == 0 && delivered == []
      ensures Pending() == GetBytes(Utf8, RenderRoot(node))
    {
      this.encoding := Utf8;
      this.disposable := disposable;
      enumerators := Push(Bottom, RootFrame(node));
      backlog := [];
      position := 0;
      delivered := [];
      new;
      RootRemaining(node);
    }

    /** The stream can be read from. */
    predicate CanRead()
      ensures CanRead()
    {
      true
    }

    /** The stream cannot be positioned. */
    predicate CanSeek()
      ensures !CanSeek()
    {
      false
    }

    /** The stream cannot be written to. */
    predicate CanWrite()
      ensures !CanWrite()
    {
      false
    }

    /** Disposes the root builder when it is disposable; every call does. */
    method Close()
      modifies if disposable == null then {} else {disposable}
      ensures disposable != null ==> disposable.disposeCount == old(disposable.disposeCount) + 1
    {
      if disposable != null {
        disposable.Dispose();
      }
    }

    function Flush(): (r: Outcome)
      ensures r == Fail(NotSupportedException)
    {
      Fail(NotSupportedException)
    }

    function Length(): (r: Result<int>)
      ensures r == Failure(NotSupportedException)
    {
      Failure(NotSupportedException)
    }

    /** The number of bytes read from the stream so far. */
    function Position(): (r: int)
      reads this
      ensures Counted() ==> r == |delivered|
    {
      position
    }

    function SetPosition(value: int): (r: Outcome)
      ensures r == Fail(NotSupportedException)
    {
      Fail(NotSupportedException)
    }

    function Seek(offset: int, origin: SeekOrigin): (r: Result<int>)
      ensures r == Failure(NotSupportedException)
    {
      Failure(NotSupportedException)
    }

    function SetLength(value: int): (r: Outcome)
      ensures r == Fail(NotSupportedException)
    {
      Fail(NotSupportedException)
    }

    function Write(buffer: seq<byte>, offset: int, count: int): (r: Outcome)
      ensures r == Fail(NotSupportedException)
    {
      Fail(NotSupportedException)
    }

    /** The traversal is over: no fragment is left to yield (bytes may still wait in the backlog). */
    predicate EOF()
      reads this
      ensures EOF() <==> Remaining(enumerators) == []
    {
      EndOfTraversal(enumerators);
      enumerators.Bottom?
    }

    function CurrentEnumerator(): (r: Option<Frame>)
      reads this
      ensures r.Some? <==> !EOF()
      ensures r.Some? ==> r.value == enumerators.top
    {
      match enumerators
      case Bottom => None
      case Push(_, top) => Some(top)
    }

    function CurrentNode(): (r: Option<Node>)
      reads this
      ensures r.Some? ==> !EOF() && CurrentItem(enumerators.top) == r
      ensures !EOF() ==> r == CurrentItem(enumerators.top)
    {
      match CurrentEnumerator()
      case None => None
      case Some(e) => CurrentItem(e)
    }

    /** One traversal step: yields the next fragment and pushes or pops at
        most one frame, as the conservative enumerators dictate. */
    method ReadNextNode() returns (fragment: string)
      requires Valid() && !EOF()
      modifies this`enumerators
      ensures Valid()
      ensures (fragment, enumerators) == Step(old(enumerators))
      ensures Remaining(old(enumerators)) == [fragment] + Remaining(enumerators)
      ensures OneFrameChange(old(enumerators), enumerators)
    {
      ghost var before := enumerators;
      StepRemaining(before);
      var moved, top := MoveNext(enumerators.top).0, MoveNext(enumerators.top).1;
      if moved {
        enumerators := Push(enumerators.below, top);
        var node := CurrentNode().value;
        match node {
          case Attribute(_, _, _, _) =>
            fragment := AttributeFragment(node);
          case Element(_, _, _, _, _) =>
            if HasAttributes(node) {
              fragment := OpenTagStart(node);
              enumerators := Push(enumerators, Frame(node.attributes, 0));
            } else if HasChildNodes(node) {
              fragment := OpenTag(node);
              enumerators := Push(enumerators, Frame(node.childNodes, 0));
            } else {
              fragment := SelfClosingTag(node);
            }
          case Text(value) =>
            fragment := value;
        }
      } else if CurrentNode().Some? && CurrentNode().value.Attribute? {
        enumerators := enumerators.below;
        var owner := CurrentNode().value;
        if HasChildNodes(owner) {
          enumerators := Push(enumerators, Frame(owner.childNodes, 0));
          fragment := ">";
        } else {
          fragment := " />";
        }
      } else {
        enumerators := enumerators.below;
        if CurrentNode().Some? && CurrentNode().value.Element? {
          fragment := EndTag(CurrentNode().value);
        } else {
          fragment := "";
        }
      }
      assert (fragment, enumerators) == Step(before);
    }

    /** The body of `Read`'s loop: appends the next fragment to the window
        and keeps what does not fit as the backlog. */
    method AppendNextNode(controller: BufferController) returns (filled: BufferController)
      requires Valid() && !EOF() && backlog == []
      requires controller.Valid() && controller.Availability() > 0
      modifies this`enumerators, this`backlog
      ensures Valid() && filled.Valid() && filled.capacity == controller.capacity
      ensures controller.content <= filled.content
      ensures filled.content + Pending() == controller.content + old(Pending())
      ensures filled.Availability() > 0 ==> backlog == []
      ensures |filled.content| == |controller.content| ==> |Remaining(enumerators)| < old(|Remaining(enumerators)|)
    {
      ghost var before, total := enumerators, controller.content + Pending();
      var fragment := ReadNextNode();
      FragmentBytes(encoding, before, fragment, Remaining(enumerators));
      filled, backlog := controller.AppendText(fragment, encoding).0, controller.AppendText(fragment, encoding).1;
      Carry(total, controller.content, GetBytes(encoding, fragment), GetBytes(encoding, Concat(Remaining(before))),
        GetBytes(encoding, Concat(Remaining(enumerators))), filled.content, backlog);
    }

    /** `Read`'s loop: appends fragments to the window until it is full or
        the traversal is over. */
    method Fill(controller: BufferController) returns (filled: BufferController)
      requires Valid() && controller.Valid()
      requires controller.Availability() > 0 ==> backlog == []
      modifies this`enumerators, this`backlog
      ensures Valid() && filled.Valid() && filled.capacity == controller.capacity
      ensures filled.content + Pending() == controller.content + old(Pending())
      ensures filled.Availability() > 0 ==> EOF() && backlog == []
    {
      ghost var total := controller.content + Pending();
      filled := controller;
      while filled.Availability() > 0 && !EOF()
        invariant Valid() && filled.Valid() && filled.capacity == controller.capacity
        invariant total == filled.content + Pending()
        invariant filled.Availability() > 0 ==> backlog == []
        decreases filled.Availability(), |Remaining(enumerators)|
      {
        filled := AppendNextNode(filled);
      }
    }

    /** Copies up to `count` bytes of markup into `buffer[offset..]`: the
        backlog first, then fresh fragments until the window is full or the
        traversal is over; what does not fit becomes the new backlog. */
    method Read(buffer: array<byte>, offset: int, count: int) returns (n: int)
      requires Valid() && Counted()
      requires 0 <= offset && 0 <= count && offset + count <= buffer.Length
      modifies this, buffer
      ensures Valid() && Counted()
      ensures 0 <= n <= count
      ensures old(Pending()) == buffer[offset..offset + n] + Pending()
      ensures forall i :: 0 <= i < buffer.Length && !(offset <= i < offset + n) ==> buffer[i] == old(buffer[i])
      ensures position == old(position) + n
      ensures delivered == old(delivered) + buffer[offset..offset + n]
      ensures n < count ==> EOF() && backlog == []
    {
      ghost var total := Pending();
      var controller := BufferController(count, []);
      ghost var drained := backlog;
      controller, backlog := controller.Append(backlog).0, controller.Append(backlog).1;
      Reassociate(total, drained, controller.content, backlog, GetBytes(encoding, Concat(Remaining(enumerators))));
      controller := Fill(controller);
      ghost var rest := Pending();
      CopyInto(buffer, offset, controller.content);
      position := position + controller.Count();
      delivered := delivered + controller.content;
      n := controller.Count();
      assert buffer[offset..offset + n] == controller.content;
      assert rest == Pending();
    }
  }


  /** The stack is empty exactly when no fragment is left to yield. */
  lemma {:induction false} EndOfTraversal(stack: Stack)
    ensures stack.Bottom? <==> Remaining(stack) == []
  {
    RemainingCoversStack(stack);
  }

  /** What a `StreamReader` does with the stream: reads `chunk` bytes at a
      time until a read falls short. Whatever the chunk size, it gets every
      byte the stream owed, and leaves it at its end. */
  method ReadToEnd(stream: XmlBuilderStream, chunk: int) returns (content: seq<byte>)
    requires stream.Valid() && stream.Counted() && chunk > 0
    modifies stream
    ensures content == old(stream.Pending())
    ensures stream.Valid() && stream.Counted() && stream.EOF() && stream.Pending() == []
    ensures stream.position == old(stream.position) + |content|
  {
    content := [];
    var buffer := new byte[chunk];
    var n := chunk;
    while n == chunk
      invariant stream.Valid() && stream.Counted() && 0 <= n <= chunk
      invariant old(stream.Pending()) == content + stream.Pending()
      invariant stream.position == old(stream.position) + |content|
      invariant n < chunk ==> stream.EOF() && stream.backlog == []
      decreases |stream.Pending()|, n
    {
      ghost var owed := stream.Pending();
      n := stream.Read(buffer, 0, chunk);
      Advance(old(stream.Pending()), content, owed, buffer[..n], stream.Pending());
      content := content + buffer[..n];
    }
    EndOfTraversal(stream.enumerators);
  }

  /** Moving bytes from what is owed to what was read keeps the two together. */
  lemma {:induction false} Advance(total: seq<byte>, read: seq<byte>, owed: seq<byte>, chunk: seq<byte>, rest: seq<byte>)
    requires total == read + owed && owed == chunk + rest
    ensures total == (read + chunk) + rest && |rest| == |owed| - |chunk|
  {
  }

  /** The whole document a stream over `node` yields, read in chunks of any
      size: the encoded rendering of the tree. */
  method RenderToBytes(node: Option<Node>, encoding: Encoder, chunk: int) returns (content: seq<byte>)
    requires node.Some? ==> node.value.Element? && WellFormed(node.value)
    requires chunk > 0
    ensures content == GetBytes(encoding, RenderRoot(node))
  {
    var stream := new XmlBuilderStream(node, encoding, null);
    content := ReadToEnd(stream, chunk);
  }

  /*** The position counter ***/

  /** `_position` is a 32-bit `int` incremented in an unchecked context: a
      sum past `int.MaxValue` wraps around to the negative half. */
  function AdvancePositionAsWritten(position: int, count: int): (r: int)
    requires -0x8000_0000 <= position < 0x8000_0000 && 0 <= count < 0x8000_0000
    ensures -0x8000_0000 <= r < 0x8000_0000
    ensures (r - position - count) % 0x1_0000_0000 == 0
    ensures r == position + count <==> position + count < 0x8000_0000
  {
    var sum := position + count;
    if sum < 0x8000_0000 then sum else sum - 0x1_0000_0000
  }

  /** Past 2^31 - 1 bytes read, the position the stream reports turns negative. */
  lemma {:induction false} PositionWrapsAsWritten()
    ensures AdvancePositionAsWritten(0x7FFF_FFFF, 1) == -0x8000_0000
  {
  }

  /** The fragments of a fresh stream: the root's, then the final empty one. */
  lemma {:induction false} RootRemaining(root: Option<Node>)
    requires root.Some? ==> root.value.Element? && WellFormed(root.value)
    ensures ValidStack(Push(Bottom, RootFrame(root)))
    ensures Concat(Remaining(Push(Bottom, RootFrame(root)))) == RenderRoot(root)
  {
    var f := RootFrame(root);
    assert Unvisited(f) == f.items;
    var fs := FragmentsAll(f.items);
    assert Remaining(Push(Bottom, f)) == fs + [""];
    ConcatAppend(fs, [""]);
    ConcatSingleton("");
    if root.Some? {
      var items := f.items;
      assert items == [root.value] && items[1..] == [];
      assert fs == Fragments(root.value) + FragmentsAll([]) == Fragments(root.value);
      FragmentsRender(root.value);
    }
    assert Concat(fs) + "" == Concat(fs);
  }
}
