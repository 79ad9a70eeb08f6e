/**
 The element tree builder of xmlrpc_expat.c: Expat's event handlers, which grow a tree through
 the root and current pointers of a parse context.
 */
module Sax {
  import opened Bytes
  import opened Xml

  datatype XmlTree = XmlTree(name: string, cdata: seq<byte>, children: seq<XmlTree>)

  // ---------------------------------------------------------------- specification

  /** The elements still open, root first, each with what it has received so far; then the root
      once it is closed. */
  datatype Builder = Builder(open: seq<XmlTree>, root: Option<XmlTree>)

  const START := Builder([], None)

  /** The state after one event; None where a handler's assertion would fail. */
  function Step(b: Builder, e: Event): Option<Builder>
  {
    var last := |b.open| - 1;
    match e
    case StartElement(name) =>
      if b.open == [] && b.root.Some? then None else Some(b.(open := b.open + [XmlTree(name, [], [])]))
    case CharacterData(text) =>
      if b.open == [] then None
      else Some(b.(open := b.open[last := b.open[last].(cdata := b.open[last].cdata + text)]))
    case EndElement(name) =>
      if b.open == [] || b.open[last].name != name then None
      else if last == 0 then Some(Builder([], Some(b.open[0])))
      else Some(b.(open := b.open[..last - 1] + [AddChild(b.open[last - 1], b.open[last])]))
  }

  function AddChild(t: XmlTree, child: XmlTree): XmlTree { t.(children := t.children + [child]) }

  function Run(b: Builder, es: seq<Event>): Option<Builder>
    decreases |es|
  {
    if es == [] then Some(b)
    else match Step(b, es[0])
      case None => None
      case Some(b') => Run(b', es[1..])
  }

  /** The tree a document denotes: the text directly inside an element, and its child elements. */
  function Tree(n: Node): XmlTree
    requires !n.Text?
    decreases n, 1
  {
    match n
    case Elem(name, content) => XmlTree(name, TextOf(content), Children(content))
    case SelfClosing(name) => XmlTree(name, [], [])
  }

  function TextOf(ns: seq<Node>): seq<byte>
  {
    if ns == [] then []
    else (if ns[0].Text? then NormalizeEnds(ns[0].text) else []) + TextOf(ns[1..])
  }

  function Children(ns: seq<Node>): seq<XmlTree>
    decreases ns, 0
  {
    if ns == [] then []
    else (if ns[0].Text? then [] else [Tree(ns[0])]) + Children(ns[1..])
  }

  // ---------------------------------------------------------------- the handlers

  class XmlElement {
    const name: string
    var parent: XmlElement?
    var cdata: seq<byte>
    var children: seq<XmlElement>

    /** xml_element_new */
    constructor (name: string, ghost closed: set<XmlElement>)
      ensures Open(XmlTree(name, [], []), null, null, closed)
    {
      this.name := name;
      parent, cdata, children := null, [], [];
    }

    /** The element is finished and holds the tree `t`: its text ends in the NUL that endElement
        appends, and its children point back at it. */
    ghost predicate Holds(t: XmlTree, s: set<XmlElement>)
      reads s
      decreases t
    {
      && this in s
      && name == t.name && cdata == t.cdata + [0]
      && |children| == |t.children|
      && forall k | 0 <= k < |children| ::
           children[k] in s && children[k].parent == this && children[k].Holds(t.children[k], s)
    }

    /** The element is open: it has received what `t` has, its parent is `up`, and `down` is the
        child that is open inside it, if any. */
    ghost predicate Open(t: XmlTree, up: XmlElement?, down: XmlElement?, s: set<XmlElement>)
      reads this, s
    {
      && this !in s
      && parent == up
      && name == t.name && cdata == t.cdata
      && |children| == |t.children| + (if down == null then 0 else 1)
      && (down != null ==> children[|t.children|] == down)
      && forall k | 0 <= k < |t.children| ::
           children[k] in s && children[k].parent == this && children[k].Holds(t.children[k], s)
    }

    /** xml_element_append_cdata */
    method AppendCdata(text: seq<byte>, ghost t: XmlTree, ghost up: XmlElement?, ghost s: set<XmlElement>)
      requires Open(t, up, null, s)
      modifies `cdata
      ensures Open(t.(cdata := t.cdata + text), up, null, s)
    {
      cdata := cdata + text;
    }

    /** xml_element_append_child */
    method AppendChild(child: XmlElement, ghost t: XmlTree, ghost up: XmlElement?, ghost c: XmlTree, ghost s: set<XmlElement>)
      requires child != this && child.Open(c, null, null, s) && Open(t, up, null, s)
      modifies `children, child`parent
      ensures Open(t, up, child, s) && child.Open(c, this, null, s)
    {
      children := children + [child];
      child.parent := this;
    }

    lemma {:induction false} HoldsMore(t: XmlTree, s: set<XmlElement>, s': set<XmlElement>)
      requires Holds(t, s) && s <= s'
      ensures Holds(t, s')
      decreases t
    {
      forall k | 0 <= k < |children|
        ensures children[k].Holds(t.children[k], s')
      {
        children[k].HoldsMore(t.children[k], s, s');
      }
    }

    lemma {:induction false} OpenMore(t: XmlTree, up: XmlElement?, down: XmlElement?, s: set<XmlElement>, e: XmlElement)
      requires Open(t, up, down, s) && e != this
      ensures Open(t, up, down, s + {e})
    {
      forall k | 0 <= k < |t.children|
        ensures children[k].Holds(t.children[k], s + {e})
      {
        children[k].HoldsMore(t.children[k], s, s + {e});
      }
    }

    /** Once the closing NUL is appended, the open element holds its tree. */
    lemma {:induction false} Finish(t: XmlTree, up: XmlElement?, s: set<XmlElement>)
      requires Open(t.(cdata := t.cdata + [0]), up, null, s)
      ensures Holds(t, s + {this}) && parent == up
    {
      forall k | 0 <= k < |t.children|
        ensures children[k].Holds(t.children[k], s + {this})
      {
        children[k].HoldsMore(t.children[k], s, s + {this});
      }
    }

    lemma {:induction false} Adopt(t: XmlTree, up: XmlElement?, child: XmlElement, c: XmlTree, s: set<XmlElement>)
      requires Open(t, up, child, s) && child in s && child.parent == this && child.Holds(c, s)
      ensures Open(AddChild(t, c), up, null, s)
    {
    }
  }

  /** The user data of the parser: where the tree starts and where it is growing. */
  class ParseContext {
    var root: XmlElement?
    var current: XmlElement?
    ghost var path: seq<XmlElement>      // the open elements, root first
    ghost var closed: set<XmlElement>    // the finished elements
    ghost var state: Builder

    /** The i-th open element has received what the builder says, its parent pointer leads to the
        element before it, and its last child is the element after it. */
    static ghost predicate Linked(path: seq<XmlElement>, open: seq<XmlTree>, closed: set<XmlElement>, i: nat)
      requires i < |path| == |open|
      reads path, closed
    {
      path[i].Open(open[i], Above(path, i), Below(path, i), closed)
    }

    static ghost function Above(path: seq<XmlElement>, i: nat): XmlElement?
      requires i < |path|
    {
      if i == 0 then null else path[i - 1]
    }

    static ghost function Below(path: seq<XmlElement>, i: nat): XmlElement?
      requires i < |path|
    {
      if i + 1 == |path| then null else path[i + 1]
    }

    /** The open elements form a chain of parent pointers from the current element to the root. */
    static ghost predicate Chained(path: seq<XmlElement>, open: seq<XmlTree>, closed: set<XmlElement>)
      reads path, closed
    {
      && |path| == |open|
      && (forall i, j | 0 <= i < j < |path| :: path[i] != path[j])
      && forall i {:trigger Linked(path, open, closed, i)} | 0 <= i < |path| :: Linked(path, open, closed, i)
    }

    ghost predicate Valid()
      reads this, path, closed
    {
      && Chained(path, state.open, closed)
      && current == (if path == [] then null else path[|path| - 1])
      && (path != [] ==> root == path[0] && state.root.None?)
      && (path == [] ==> && (root == null <==> state.root.None?)
                         && (root != null ==> root in closed && root.parent == null && root.Holds(state.root.value, closed)))
    }

    /** createParser */
    constructor ()
      ensures Valid() && state == START && fresh(closed) && path == []
    {
      root, current := null, null;
      path, closed, state := [], {}, START;
    }

    /** startElement */
    method StartElement(name: string)
      requires Valid() && Step(state, Event.StartElement(name)).Some?
      modifies this, path
      ensures Valid() && state == Step(old(state), Event.StartElement(name)).value
      ensures closed == old(closed) && |path| == |old(path)| + 1 && fresh(path[|path| - 1])
      ensures forall k | 0 <= k < |old(path)| :: path[k] == old(path)[k]
    {
      hide XmlElement.Open, XmlElement.Holds;
      var elem := new XmlElement(name, closed);
      ghost var before, trees, n := path, state.open, |path|;
      ghost var leaf := XmlTree(name, [], []);
      assert forall i | 0 <= i < n :: before[i] != elem;
      if root == null {
        root, current := elem, elem;
      } else {
        assert Linked(path, trees, closed, n - 1);
        current.AppendChild(elem, trees[n - 1], Above(path, n - 1), leaf, closed);
        current := elem;
      }
      path := path + [elem];
      state := Step(state, Event.StartElement(name)).value;
      forall i | 0 <= i < |path|
        ensures Linked(path, state.open, closed, i)
      {
        if i < n - 1 {
          assert old(Linked(before, trees, closed, i));
        }
      }
    }

    /** characterData */
    method CharacterData(text: seq<byte>)
      requires Valid() && Step(state, Event.CharacterData(text)).Some?
      modifies this, path
      ensures Valid() && state == Step(old(state), Event.CharacterData(text)).value
      ensures closed == old(closed) && path == old(path)
    {
      hide XmlElement.Open, XmlElement.Holds;
      ghost var n, trees := |path|, state.open;
      assert Linked(path, trees, closed, n - 1);
      current.AppendCdata(text, trees[n - 1], Above(path, n - 1), closed);
      state := Step(state, Event.CharacterData(text)).value;
      forall i | 0 <= i < |path|
        ensures Linked(path, state.open, closed, i)
      {
        if i < n - 1 {
          assert old(Linked(path, trees, closed, i));
        }
      }
    }

    /** endElement: finish the current element's text and pop to its parent. */
    method EndElement(name: string)
      requires Valid() && Step(state, Event.EndElement(name)).Some?
      modifies this, path
      ensures Valid() && state == Step(old(state), Event.EndElement(name)).value
      ensures |old(path)| > 0 && path == old(path)[..|old(path)| - 1]
      ensures closed == old(closed) + {old(path)[|old(path)| - 1]}
    {
      hide XmlElement.Open, XmlElement.Holds;
      ghost var elem, last, before, trees, done := current, |path| - 1, path, state.open, closed;
      ghost var t, up := trees[last], Above(path, last);
      assert Linked(path, trees, done, last);
      current.AppendCdata([0], t, up, done);
      elem.Finish(t, up, done);
      current := current.parent;
      closed := closed + {elem};
      path := path[..last];
      state := Step(state, Event.EndElement(name)).value;
      forall i | 0 <= i < last
        ensures Linked(path, state.open, closed, i)
      {
        assert old(Linked(before, trees, done, i));
        path[i].OpenMore(trees[i], Above(before, i), Below(before, i), done, elem);
        if i == last - 1 {
          path[i].Adopt(trees[i], Above(before, i), elem, t, closed);
        }
      }
    }
  }

  /** xml_parse, once the lexer has accepted the text: feed the events to the handlers and hand
      the root over. The assertions there hold: the root exists and no element is left open. */
  method XmlParse(events: seq<Event>) returns (root: XmlElement, ghost t: XmlTree, ghost s: set<XmlElement>)
    requires Run(START, events).Some? && Run(START, events).value.open == [] && Run(START, events).value.root.Some?
    ensures t == Run(START, events).value.root.value
    ensures root.Holds(t, s) && root.parent == null && fresh(s)
  {
    hide XmlElement.Holds, Step;
    var context := new ParseContext();
    var i := 0;
    assert events[0..] == events;
    while i < |events|
      invariant i <= |events|
      invariant context.Valid() && fresh(context) && fresh(context.closed)
      invariant forall k | 0 <= k < |context.path| :: fresh(context.path[k])
      invariant Run(context.state, events[i..]) == Run(START, events)
    {
      assert events[i..][0] == events[i] && events[i..][1..] == events[i + 1..];
      match events[i] {
        case StartElement(name) => context.StartElement(name);
        case CharacterData(text) => context.CharacterData(text);
        case EndElement(name) => context.EndElement(name);
      }
      i := i + 1;
    }
    assert events[i..] == [];
    root, t, s := context.root, context.state.root.value, context.closed;
  }

  // ---------------------------------------------------------------- building is right

  lemma {:induction false} RunConcat(b: Builder, es: seq<Event>, fs: seq<Event>)
    ensures Run(b, es + fs) == match Run(b, es) case None => None case Some(b') => Run(b', fs)
    decreases |es|
  {
    hide Step;
    if es == [] {
      assert es + fs == fs;
    } else {
      assert (es + fs)[1..] == es[1..] + fs;
      if Step(b, es[0]).Some? {
        RunConcat(Step(b, es[0]).value, es[1..], fs);
      }
    }
  }

  /** What a piece of content adds to the element it stands in. */
  function Receive(t: XmlTree, n: Node): XmlTree
  {
    if n.Text? then t.(cdata := t.cdata + NormalizeEnds(n.text)) else AddChild(t, Tree(n))
  }

  function ReceiveAll(t: XmlTree, ns: seq<Node>): XmlTree
  {
    t.(cdata := t.cdata + TextOf(ns), children := t.children + Children(ns))
  }

  lemma {:induction false} RunData(outer: seq<XmlTree>, t: XmlTree, s: seq<byte>, rest: seq<Event>)
    ensures Run(Builder(outer + [t], None), [CharacterData(s)] + rest)
         == Run(Builder(outer + [t.(cdata := t.cdata + s)], None), rest)
  {
    var t' := t.(cdata := t.cdata + s);
    assert (outer + [t])[|outer| := t'] == outer + [t'];
    assert ([CharacterData(s)] + rest)[1..] == rest;
  }

  lemma {:induction false} RunText(outer: seq<XmlTree>, t: XmlTree, s: seq<byte>)
    ensures Run(Builder(outer + [t], None), CharEvents(s)) == Some(Builder(outer + [t.(cdata := t.cdata + s)], None))
    decreases |s|
  {
    hide Run, Span;
    if s == [] {
      RunNothing(Builder(outer + [t], None));
      assert t.cdata + s == t.cdata;
    } else {
      var n := if Span(s[0]) <= |s| then Span(s[0]) else |s|;
      RunData(outer, t, s[..n], CharEvents(s[n..]));
      RunText(outer, t.(cdata := t.cdata + s[..n]), s[n..]);
      assert t.cdata + s[..n] + s[n..] == t.cdata + s;
    }
  }

  lemma {:induction false} RunOpen(open: seq<XmlTree>, name: string, rest: seq<Event>)
    ensures Run(Builder(open, None), [StartElement(name)] + rest)
         == Run(Builder(open + [XmlTree(name, [], [])], None), rest)
  {
    assert ([StartElement(name)] + rest)[1..] == rest;
  }

  lemma {:induction false} RunClose(outer: seq<XmlTree>, t: XmlTree)
    ensures Run(Builder(outer + [t], None), [EndElement(t.name)])
         == Some(if outer == [] then Builder([], Some(t))
                 else Builder(outer[..|outer| - 1] + [AddChild(outer[|outer| - 1], t)], None))
  {
    var b := Builder(outer + [t], None);
    if outer != [] {
      assert b.open[..|b.open| - 2] == outer[..|outer| - 1];
    }
    assert [EndElement(t.name)][1..] == [];
  }

  /** Inside an open element, the events of a piece of content add exactly that content to it. */
  lemma {:induction false} RunNode(outer: seq<XmlTree>, t: XmlTree, n: Node)
    ensures Run(Builder(outer + [t], None), Events(n)) == Some(Builder(outer + [Receive(t, n)], None))
    decreases n, 1
  {
    hide Run, Step;
    match n
    case Text(text) => RunText(outer, t, NormalizeEnds(text));
    case _ =>
      RunElement(outer + [t], n);
      assert (outer + [t])[..|outer|] == outer;
  }

  lemma {:induction false} RunElement(open: seq<XmlTree>, n: Node)
    requires !n.Text?
    ensures Run(Builder(open, None), Events(n))
         == Some(if open == [] then Builder([], Some(Tree(n)))
                 else Builder(open[..|open| - 1] + [AddChild(open[|open| - 1], Tree(n))], None))
    decreases n, 0
  {
    hide Run, Step;
    var leaf, inner := XmlTree(n.name, [], []), Builder(open + [XmlTree(n.name, [], [])], None);
    match n
    case Elem(name, content) =>
      assert Events(n) == [StartElement(name)] + (AllEvents(content) + [EndElement(name)]);
      RunOpen(open, name, AllEvents(content) + [EndElement(name)]);
      RunNodes(open, leaf, content);
      RunConcat(inner, AllEvents(content), [EndElement(name)]);
      assert ReceiveAll(leaf, content) == Tree(n);
      RunClose(open, Tree(n));
    case SelfClosing(name) =>
      assert Events(n) == [StartElement(name)] + [EndElement(name)];
      RunOpen(open, name, [EndElement(name)]);
      RunClose(open, leaf);
  }

  lemma {:induction false} RunNodes(outer: seq<XmlTree>, t: XmlTree, ns: seq<Node>)
    ensures Run(Builder(outer + [t], None), AllEvents(ns)) == Some(Builder(outer + [ReceiveAll(t, ns)], None))
    decreases ns, 0
  {
    hide Run, Step, Events, Tree;
    if ns == [] {
      assert ReceiveAll(t, ns) == t;
      RunNothing(Builder(outer + [t], None));
    } else {
      RunNode(outer, t, ns[0]);
      RunConcat(Builder(outer + [t], None), Events(ns[0]), AllEvents(ns[1..]));
      RunNodes(outer, Receive(t, ns[0]), ns[1..]);
      ReceiveMore(t, ns);
    }
  }

  lemma {:induction false} RunNothing(b: Builder)
    ensures Run(b, []) == Some(b)
  {
  }

  lemma {:induction false} ReceiveMore(t: XmlTree, ns: seq<Node>)
    requires ns != []
    ensures ReceiveAll(Receive(t, ns[0]), ns[1..]) == ReceiveAll(t, ns)
  {
    hide Tree;
    if ns[0].Text? {
      assert t.cdata + TextOf(ns) == t.cdata + NormalizeEnds(ns[0].text) + TextOf(ns[1..]);
      assert Children(ns) == Children(ns[1..]);
    } else {
      assert TextOf(ns) == TextOf(ns[1..]);
      assert t.children + Children(ns) == t.children + [Tree(ns[0])] + Children(ns[1..]);
    }
  }

  /** The events of any document rebuild exactly its tree, with nothing left open. */
  lemma {:induction false} BuildsTree(n: Node)
    requires !n.Text?
    ensures Run(START, Events(n)) == Some(Builder([], Some(Tree(n))))
  {
    RunElement([], n);
  }

  // ---------------------------------------------------------------- chunking

  function Bytewise(s: seq<byte>): seq<Event>
  {
    seq(|s|, k requires 0 <= k < |s| => CharacterData([s[k]]))
  }

  /** The same events with character data handed over one byte at a time. */
  function OneByOne(es: seq<Event>): seq<Event>
  {
    if es == [] then []
    else (if es[0].CharacterData? then Bytewise(es[0].text) else [es[0]]) + OneByOne(es[1..])
  }

  predicate NoEmptyChunk(es: seq<Event>)
  {
    forall k | 0 <= k < |es| :: es[k].CharacterData? ==> es[k].text != []
  }

  lemma {:induction false} RunChunk(b: Builder, s: seq<byte>)
    requires s != []
    ensures Run(b, Bytewise(s)) == Run(b, [CharacterData(s)])
    decreases |s|
  {
    var e := CharacterData(s);
    assert [e][1..] == [];
    assert Bytewise(s)[0] == CharacterData([s[0]]);
    assert Bytewise(s)[1..] == Bytewise(s[1..]);
    if b.open == [] {
      assert Step(b, Bytewise(s)[0]) == None && Step(b, e) == None;
    } else {
      var last := |b.open| - 1;
      var b1 := b.(open := b.open[last := b.open[last].(cdata := b.open[last].cdata + [s[0]])]);
      assert Step(b, CharacterData([s[0]])) == Some(b1);
      if |s| == 1 {
        assert s == [s[0]];
        assert Bytewise(s) == [e];
      } else {
        RunChunk(b1, s[1..]);
        assert [CharacterData(s[1..])][1..] == [];
        assert b.open[last].cdata + [s[0]] + s[1..] == b.open[last].cdata + s;
        assert b1.open[last := b1.open[last].(cdata := b1.open[last].cdata + s[1..])]
            == b.open[last := b.open[last].(cdata := b.open[last].cdata + s)];
      }
    }
  }

  lemma {:induction false} RunOneByOne(b: Builder, es: seq<Event>)
    requires NoEmptyChunk(es)
    ensures Run(b, es) == Run(b, OneByOne(es))
    decreases |es|
  {
    hide Step;
    if es != [] {
      var first := if es[0].CharacterData? then Bytewise(es[0].text) else [es[0]];
      if es[0].CharacterData? {
        RunChunk(b, es[0].text);
      }
      assert es == [es[0]] + es[1..];
      RunConcat(b, [es[0]], es[1..]);
      RunConcat(b, first, OneByOne(es[1..]));
      match Run(b, [es[0]])
      case None =>
      case Some(b') => RunOneByOne(b', es[1..]);
    }
  }

  /** However the lexer cuts the text into chunks, the handlers build the same tree. */
  lemma {:induction false} ChunkingIrrelevant(b: Builder, es: seq<Event>, fs: seq<Event>)
    requires NoEmptyChunk(es) && NoEmptyChunk(fs)
    requires OneByOne(es) == OneByOne(fs)
    ensures Run(b, es) == Run(b, fs)
  {
    RunOneByOne(b, es);
    RunOneByOne(b, fs);
  }

  // ---------------------------------------------------------------- every accepted text builds

  function Names(open: seq<XmlTree>): (names: seq<string>)
    ensures |names| == |open|
    ensures forall k | 0 <= k < |open| :: names[k] == open[k].name
  {
    seq(|open|, k requires 0 <= k < |open| => open[k].name)
  }

  /** The stack of unmatched start tags after one more event. */
  function Push(names: seq<string>, e: Event): seq<string>
  {
    match e
    case StartElement(name) => names + [name]
    case EndElement(_) => if names == [] then [] else names[..|names| - 1]
    case CharacterData(_) => names
  }

  function Unclosed(names: seq<string>, es: seq<Event>): seq<string>
    decreases |es|
  {
    if es == [] then names else Unclosed(Push(names, es[0]), es[1..])
  }

  lemma {:induction false} StepNames(b: Builder, e: Event)
    requires Step(b, e).Some?
    ensures Push(Names(b.open), e) == Names(Step(b, e).value.open)
  {
  }

  /** After every prefix of the events, the chain of open elements is the stack of unmatched
      start tags. */
  lemma {:induction false} OpenIsUnclosed(b: Builder, es: seq<Event>)
    requires Run(b, es).Some?
    ensures Names(Run(b, es).value.open) == Unclosed(Names(b.open), es)
    decreases |es|
  {
    hide Step;
    if es != [] {
      StepNames(b, es[0]);
      OpenIsUnclosed(Step(b, es[0]).value, es[1..]);
    }
  }

  /** Text that can come out of the lexer: UTF-8 without carriage returns and control characters. */
  predicate Printable(s: seq<byte>) { CR !in s && IsText(s) }

  predicate PrintableTree(t: XmlTree)
    decreases t
  {
    Printable(t.cdata) && forall k | 0 <= k < |t.children| :: PrintableTree(t.children[k])
  }

  predicate PrintableBuilder(b: Builder)
  {
    && (forall k | 0 <= k < |b.open| :: PrintableTree(b.open[k]))
    && (b.root.Some? ==> PrintableTree(b.root.value))
  }

  /** The builder agrees with what the lexer knows. */
  predicate InStep(b: Builder, open: seq<string>, rooted: bool)
  {
    && Names(b.open) == open
    && (b.open != [] ==> rooted && b.root.None?)
    && (b.open == [] ==> (rooted <==> b.root.Some?))
    && PrintableBuilder(b)
  }

  lemma {:induction false} AddText(t: XmlTree, s: seq<byte>)
    requires PrintableTree(t) && Printable(s)
    ensures PrintableTree(t.(cdata := t.cdata + s))
  {
    EncodedJoin(t.cdata, s);
  }

  lemma {:induction false} EncodedJoin(a: seq<byte>, b: seq<byte>)
    requires Encoded(a) && Encoded(b)
    ensures Encoded(a + b)
    decreases |a|
  {
    hide XmlChar;
    if a == [] {
      assert a + b == b;
    } else {
      var n := Span(a[0]);
      EncodedJoin(a[n..], b);
      assert (a + b)[..n] == a[..n] && (a + b)[n..] == a[n..] + b;
    }
  }

  lemma {:induction false} StepInStep(b: Builder, open: seq<string>, rooted: bool, e: Event)
    requires InStep(b, open, rooted)
    ensures e.StartElement? && (open != [] || !rooted) ==>
              Step(b, e).Some? && InStep(Step(b, e).value, open + [e.name], true)
    ensures e.EndElement? && open != [] && open[|open| - 1] == e.name ==>
              Step(b, e).Some? && InStep(Step(b, e).value, open[..|open| - 1], rooted)
    ensures e.CharacterData? && open != [] && Printable(e.text) ==>
              Step(b, e).Some? && InStep(Step(b, e).value, open, rooted)
  {
    match e {
      case StartElement(name) =>
        if open != [] || !rooted {
          StepNames(b, e);
        }
      case EndElement(name) =>
        if open != [] && open[|open| - 1] == name {
          StepNames(b, e);
        }
      case CharacterData(text) =>
        if open != [] && Printable(text) {
          StepNames(b, e);
          AddText(b.open[|b.open| - 1], text);
        }
    }
  }

  lemma {:induction false} LexCharPrintable(bs: seq<byte>)
    requires bs != [] && bs[0] != LT && LexChar(bs).1 > 0
    ensures LexChar(bs).0 == []
         || (|LexChar(bs).0| == 1 && LexChar(bs).0[0].CharacterData? && Printable(LexChar(bs).0[0].text))
  {
    var n := Span(bs[0]);
    if bs[0] == AMP {
      var c := Entity(bs).0;
      AsciiIsText([c]);
    } else if bs[0] == CR {
      AsciiIsText([LF]);
    } else {
      CharIsHigh(bs[..n]);
      assert bs[..n][n..] == [];
      assert Encoded(bs[..n]);
    }
  }

  lemma {:induction false} RunOne(b: Builder, e: Event)
    ensures Run(b, [e]) == Step(b, e)
  {
    assert [e][1..] == [];
  }

  /** A text the lexer accepts never trips a handler's assertion: it builds one complete tree, and
      that tree holds UTF-8 without carriage returns and control characters. */
  lemma {:induction false} AcceptedTextBuilds(bs: seq<byte>, b: Builder, open: seq<string>, rooted: bool)
    requires InStep(b, open, rooted)
    requires Lex(bs, open, rooted).Some?
    ensures var r := Run(b, Lex(bs, open, rooted).value);
            r.Some? && r.value.open == [] && r.value.root.Some? && PrintableTree(r.value.root.value)
    decreases |bs|, 0
  {
    hide Run, Step, InStep, LexChar, Classify;
    if bs == [] {
      RunNothing(b);
      InStepDone(b, open, rooted);
    } else if bs[0] == LT {
      var n := UpToGt(bs[1..]);
      var rest := bs[n + 2..];
      match Classify(bs[1..n + 1])
      case BadTag =>
      case Instruction => AcceptedTextBuilds(rest, b, open, rooted);
      case CloseT(name) =>
        Continue(rest, b, open, rooted, EndElement(name), open[..|open| - 1], rooted);
      case OpenT(name) =>
        Continue(rest, b, open, rooted, StartElement(name), open + [name], true);
      case EmptyT(name) =>
        var es := Lex(rest, open, true).value;
        StepInStep(b, open, rooted, StartElement(name));
        var b1 := Step(b, StartElement(name)).value;
        assert (open + [name])[..|open|] == open;
        Continue(rest, b1, open + [name], true, EndElement(name), open, true);
        RunOne(b, StartElement(name));
        RunConcat(b, [StartElement(name)], [EndElement(name)] + es);
        assert [StartElement(name)] + ([EndElement(name)] + es) == [StartElement(name), EndElement(name)] + es;
    } else if open == [] {
      AcceptedTextBuilds(bs[1..], b, open, rooted);
    } else {
      var (es, n) := LexChar(bs);
      LexCharPrintable(bs);
      if es == [] {
        AcceptedTextBuilds(bs[n..], b, open, rooted);
        assert [] + Lex(bs[n..], open, rooted).value == Lex(bs[n..], open, rooted).value;
      } else {
        assert es == [es[0]];
        Continue(bs[n..], b, open, rooted, es[0], open, rooted);
      }
    }
  }

  lemma {:induction false} InStepDone(b: Builder, open: seq<string>, rooted: bool)
    requires InStep(b, open, rooted) && open == [] && rooted
    ensures b.open == [] && b.root.Some? && PrintableTree(b.root.value)
  {
  }

  lemma {:induction false} Continue(rest: seq<byte>, b: Builder, open: seq<string>, rooted: bool, e: Event,
                                    open': seq<string>, rooted': bool)
    requires InStep(b, open, rooted)
    requires match e
      case StartElement(name) => (open != [] || !rooted) && open' == open + [name] && rooted'
      case EndElement(name) => open != [] && open[|open| - 1] == name && open' == open[..|open| - 1] && rooted' == rooted
      case CharacterData(text) => open != [] && Printable(text) && open' == open && rooted' == rooted
    requires Lex(rest, open', rooted').Some?
    ensures var r := Run(b, [e] + Lex(rest, open', rooted').value);
            r.Some? && r.value.open == [] && r.value.root.Some? && PrintableTree(r.value.root.value)
    decreases |rest|, 1
  {
    hide Run, Step, InStep, Lex;
    StepInStep(b, open, rooted, e);
    RunOne(b, e);
    AcceptedTextBuilds(rest, Step(b, e).value, open', rooted');
    RunConcat(b, [e], Lex(rest, open', rooted').value);
  }

  // ---------------------------------------------------------------- from text to tree

  /** xml_parse on a whole text. */
  function ParseXml(bs: seq<byte>): Result<XmlTree>
  {
    match Lex(bs, [], false)
    case None => Fault(PARSE_ERROR)
    case Some(es) =>
      match Run(START, es)
      case Some(b) => if b.root.Some? then Ok(b.root.value) else Fault(PARSE_ERROR)
      case None => Fault(PARSE_ERROR)
  }

  /** Parsing the text of a document, prologue and trailing space included, gives its tree, unless
      some text in it is not UTF-8 or has a control character; then it is refused. */
  lemma {:induction false} ParseRendered(n: Node, prologue: seq<byte>, rest: seq<byte>)
    requires n.Elem? && WellNamed(n)
    requires forall k | 0 <= k < |rest| :: IsSpace(rest[k])
    requires |prologue| > 1 && GT !in prologue && prologue[0] == QUERY && prologue[|prologue| - 1] == QUERY
    requires IsText(prologue)
    ensures ParseXml([LT] + prologue + [GT] + CRLF + Render(n) + rest)
         == if Clean(n) then Ok(Tree(n)) else Fault(PARSE_ERROR)
  {
    hide Run, Render, Events, Tree, Clean, WellNamed, IsName, IsText, Lex;
    var body := Render(n) + rest;
    assert [LT] + prologue + [GT] + (CRLF + body) == [LT] + prologue + [GT] + CRLF + Render(n) + rest;
    LexPrologue(prologue, body);
    LexElem(n, rest, [], false);
    LexSpace(rest);
    BuildsTree(n);
    assert Events(n) + [] == Events(n);
  }

  lemma {:induction false} LexPrologue(prologue: seq<byte>, body: seq<byte>)
    requires |prologue| > 1 && GT !in prologue && prologue[0] == QUERY && prologue[|prologue| - 1] == QUERY
    requires IsText(prologue)
    ensures Lex([LT] + prologue + [GT] + (CRLF + body), [], false) == Lex(body, [], false)
  {
    hide IsText;
    LexTag(prologue, CRLF + body, [], false);
    assert (CRLF + body)[1..] == [LF] + body && ([LF] + body)[1..] == body;
    assert Lex(CRLF + body, [], false) == Lex([LF] + body, [], false);
    assert Lex([LF] + body, [], false) == Lex(body, [], false);
  }

  lemma {:induction false} LexSpace(s: seq<byte>)
    requires forall k | 0 <= k < |s| :: IsSpace(s[k])
    ensures Lex(s, [], true) == Some([])
  {
    if s != [] {
      LexSpace(s[1..]);
    }
  }

  /** Any tree that parsing delivers holds printable text only. */
  lemma {:induction false} ParsedIsPrintable(bs: seq<byte>)
    requires ParseXml(bs).Ok?
    ensures PrintableTree(ParseXml(bs).value)
  {
    assert InStep(START, [], false);
    AcceptedTextBuilds(bs, START, [], false);
  }
}
