/** The recursive XML parser, and that it undoes printing. */
module XmlParser {
  import opened Basics

  predicate IsSpace(c: char)
    ensures IsSpace(c) <==> c as int == 32 || 9 <= c as int <= 13
  {
    c == ' ' || '\t' <= c <= '\r'
  }

  datatype Node = Node(name: string, content: Option<string>, children: seq<Node>)

  /** A parse result with the position behind it. */
  datatype Parsed<T> = Failed | Parsed(value: T, position: nat)

  // ---- what the parser computes ----

  /** The n-th non-space character at or behind the position, and 0 if there is none. */
  function Peek(buf: string, position: nat, n: nat): char
    decreases |buf| - position
  {
    if position >= |buf| then 0 as char
    else if IsSpace(buf[position]) then Peek(buf, position + 1, n)
    else if n == 0 then buf[position]
    else Peek(buf, position + 1, n - 1)
  }

  /** A position is never moved past the last character. */
  function Bounded(buf: string, position: nat): (p: nat)
    requires buf != ""
    ensures p < |buf|
  {
    if position >= |buf| then |buf| - 1 else position
  }

  function Skip(buf: string, position: nat): (p: nat)
    requires position < |buf|
    ensures position <= p < |buf|
    ensures IsSpace(buf[p]) ==> p == |buf| - 1
    decreases |buf| - position
  {
    if IsSpace(buf[position]) && position + 1 < |buf| then Skip(buf, position + 1) else position
  }

  /** How many characters there are from `start` up to a place where `stop` is the next non-space character. */
  function Scan(buf: string, start: nat, n: nat, stop: char): (length: nat)
    requires start + n <= |buf| && buf != ""
    ensures n <= length && start + length <= |buf|
    decreases |buf| - start - n
  {
    if start + n < |buf| && Peek(buf, Bounded(buf, start + n), 0) != stop then Scan(buf, start, n + 1, stop) else n
  }

  /** The name in front of a `>`. */
  function TagEnd(buf: string, start: nat): (r: Parsed<string>)
    requires start < |buf|
    ensures r.Parsed? ==> start <= r.position < |buf|
  {
    var length := Scan(buf, start, 0, '>');
    var p := Bounded(buf, start + length);
    if Peek(buf, p, 0) != '>' then Failed else Parsed(buf[start..start + length], Bounded(buf, p + 1))
  }

  function TagOpen(buf: string, position: nat): (r: Parsed<string>)
    requires position < |buf|
    ensures r.Parsed? ==> position < r.position < |buf|
  {
    var p := Skip(buf, position);
    if Peek(buf, p, 0) != '<' then Failed
    else AtTheEnd(buf, p); TagEnd(buf, Bounded(buf, p + 1))
  }

  /** An opening bracket that is the last character has no tag behind it. */
  lemma AtTheEnd(buf: string, p: nat)
    requires p < |buf| && Peek(buf, p, 0) == '<'
    ensures p == |buf| - 1 ==> TagEnd(buf, Bounded(buf, p + 1)).Failed?
  {
    if p == |buf| - 1 {
      assert Scan(buf, p, 0, '>') == Scan(buf, p, 1, '>') == 1;
    }
  }

  function TagClose(buf: string, position: nat): (r: Parsed<string>)
    requires position < |buf|
    ensures r.Parsed? ==> position <= r.position < |buf|
  {
    var p := Skip(buf, position);
    if Peek(buf, p, 0) != '<' || Peek(buf, p, 1) != '/' then Failed else TagEnd(buf, Bounded(buf, p + 2))
  }

  /** The length without the spaces at the end. */
  function Trimmed(buf: string, start: nat, length: nat): (n: nat)
    requires start + length <= |buf|
    ensures n <= length
  {
    if length > 0 && IsSpace(buf[start + length - 1]) then Trimmed(buf, start, length - 1) else length
  }

  function Content(buf: string, position: nat): (r: Parsed<string>)
    requires position < |buf|
    ensures r.Parsed? ==> position <= r.position < |buf|
  {
    var start := Skip(buf, position);
    var length := Scan(buf, start, 0, '<');
    var p := Bounded(buf, start + length);
    if Peek(buf, p, 0) != '<' then Failed else Parsed(buf[start..start + Trimmed(buf, start, length)], p)
  }

  function ParseNode(buf: string, position: nat): (r: Parsed<Node>)
    requires position < |buf|
    ensures r.Parsed? ==> position < r.position < |buf|
    decreases |buf| - position, 0
  {
    var open := TagOpen(buf, position);
    if open.Failed? then Failed
    else if open.value != "" && open.value[|open.value| - 1] == '/' then
      Parsed(Node(open.value[..|open.value| - 1], None, []), open.position)
    else if Peek(buf, open.position, 0) != '<' then
      var content := Content(buf, open.position);
      if content.Failed? then Failed else Closed(buf, content.position, open.value, Some(content.value), [])
    else
      var children := Children(buf, open.position);
      if children.Failed? then Failed else Closed(buf, children.position, open.value, None, children.value)
  }

  function Children(buf: string, position: nat): (r: Parsed<seq<Node>>)
    requires position < |buf|
    ensures r.Parsed? ==> position <= r.position < |buf|
    decreases |buf| - position, 1
  {
    if Peek(buf, position, 1) == '/' then Parsed([], position)
    else
      var child := ParseNode(buf, position);
      if child.Failed? then Failed
      else
        var rest := Children(buf, child.position);
        if rest.Failed? then Failed else Parsed([child.value] + rest.value, rest.position)
  }

  /** The closing tag must name the opening one. */
  function Closed(buf: string, position: nat, name: string, content: Option<string>, children: seq<Node>)
      : (r: Parsed<Node>)
    requires position < |buf|
    ensures r.Parsed? ==> position <= r.position < |buf|
  {
    var close := TagClose(buf, position);
    if close.Failed? || close.value != name then Failed else Parsed(Node(name, content, children), close.position)
  }

  // ---- the parser ----

  /** The result of a parsing method, and where it leaves the position when it succeeds. */
  predicate Agrees<T(==)>(r: Option<T>, position: nat, spec: Parsed<T>) {
    match spec
    case Failed => r == None
    case Parsed(value, p) => r == Some(value) && position == p
  }

  /** Children found so far, in front of what the rest gives. */
  function Prepend(done: seq<Node>, r: Parsed<seq<Node>>): Parsed<seq<Node>> {
    if r.Failed? then Failed else Parsed(done + r.value, r.position)
  }

  method StringEquals(a: string, b: string) returns (equal: bool)
    ensures equal <==> a == b
  {
    if |a| != |b| {
      return false;
    }
    for i := 0 to |a|
      invariant a[..i] == b[..i]
    {
      if a[i] != b[i] {
        return false;
      }
    }
    equal := true;
  }

  class Parser {
    const buffer: string
    var position: nat

    constructor (buffer: string)
      requires buffer != ""
      ensures Valid() && this.buffer == buffer && position == 0
    {
      this.buffer := buffer;
      position := 0;
    }

    predicate Valid()
      reads this
    {
      position < |buffer|
    }

    method PeekChar(n: nat) returns (c: char)
      ensures c == Peek(buffer, position, n)
    {
      var p, k := position, n;
      while p < |buffer|
        invariant Peek(buffer, position, n) == Peek(buffer, p, k)
      {
        if !IsSpace(buffer[p]) {
          if k == 0 {
            return buffer[p];
          }
          k := k - 1;
        }
        p := p + 1;
      }
      c := 0 as char;
    }

    method Consume(n: nat)
      requires Valid()
      modifies this
      ensures Valid() && position == Bounded(buffer, old(position) + n)
    {
      position := position + n;
      if position >= |buffer| {
        position := |buffer| - 1;
      }
    }

    method SkipWhitespace()
      requires Valid()
      modifies this
      ensures Valid() && position == Skip(buffer, old(position))
    {
      while IsSpace(buffer[position])
        invariant Valid() && Skip(buffer, old(position)) == Skip(buffer, position)
        decreases |buffer| - position
      {
        if position + 1 >= |buffer| {
          return;
        }
        position := position + 1;
      }
    }

    /** Move on, counting, until `stop` is next. */
    method ScanTo(stop: char) returns (length: nat)
      requires Valid()
      modifies this
      ensures Valid() && length == Scan(buffer, old(position), 0, stop)
      ensures position == Bounded(buffer, old(position) + length)
    {
      ghost var start := position;
      length := 0;
      var first := position;
      while first + length < |buffer|
        invariant Valid() && start + length <= |buffer| && position == Bounded(buffer, start + length)
        invariant Scan(buffer, start, 0, stop) == Scan(buffer, start, length, stop)
        decreases |buffer| - length
      {
        var current := PeekChar(0);
        if current == stop {
          break;
        }
        Consume(1);
        length := length + 1;
      }
    }

    method ParseTagEnd() returns (name: Option<string>)
      requires Valid()
      modifies this
      ensures Valid() && Agrees(name, position, TagEnd(buffer, old(position)))
    {
      var start := position;
      var length := ScanTo('>');
      var current := PeekChar(0);
      if current != '>' {
        return None;
      }
      Consume(1);
      name := Some(buffer[start..start + length]);
    }

    method ParseTagOpen() returns (name: Option<string>)
      requires Valid()
      modifies this
      ensures Valid() && Agrees(name, position, TagOpen(buffer, old(position)))
    {
      SkipWhitespace();
      var current := PeekChar(0);
      if current != '<' {
        return None;
      }
      Consume(1);
      name := ParseTagEnd();
    }

    method ParseTagClose() returns (name: Option<string>)
      requires Valid()
      modifies this
      ensures Valid() && Agrees(name, position, TagClose(buffer, old(position)))
    {
      SkipWhitespace();
      var current := PeekChar(0);
      var next := PeekChar(1);
      if current != '<' || next != '/' {
        return None;
      }
      Consume(2);
      name := ParseTagEnd();
    }

    method ParseContent() returns (content: Option<string>)
      requires Valid()
      modifies this
      ensures Valid() && Agrees(content, position, Content(buffer, old(position)))
    {
      SkipWhitespace();
      var start := position;
      var length := ScanTo('<');
      var current := PeekChar(0);
      if current != '<' {
        return None;
      }
      ghost var all := length;
      while length > 0 && IsSpace(buffer[start + length - 1])
        invariant length <= all && Trimmed(buffer, start, all) == Trimmed(buffer, start, length)
      {
        length := length - 1;
      }
      content := Some(buffer[start..start + length]);
    }

    /** A node: each one that is found lies strictly further on, so the recursion ends. */
    method ParseNodeHere() returns (node: Option<Node>)
      requires Valid()
      modifies this
      ensures Valid() && Agrees(node, position, ParseNode(buffer, old(position)))
      decreases |buffer| - position, 0
    {
      var tagOpen := ParseTagOpen();
      if tagOpen == None {
        return None;
      }
      var name := tagOpen.value;
      if |name| > 0 && name[|name| - 1] == '/' {
        return Some(Node(name[..|name| - 1], None, []));
      }
      var content: Option<string> := None;
      var children: Option<seq<Node>> := Some([]);
      var current := PeekChar(0);
      if current != '<' {
        content := ParseContent();
        if content == None {
          return None;
        }
      } else {
        children := ParseChildren();
        if children == None {
          return None;
        }
      }
      node := ParseRest(name, content, children.value);
    }

    /** The children, up to the closing tag. */
    method ParseChildren() returns (r: Option<seq<Node>>)
      requires Valid()
      modifies this
      ensures Valid() && Agrees(r, position, Children(buffer, old(position)))
      decreases |buffer| - position, 1
    {
      hide Children, ParseNode;
      ghost var first := position;
      var children: seq<Node> := [];
      PrependNothing(Children(buffer, first));
      var next := PeekChar(1);
      while next != '/'
        invariant Valid() && first <= position && next == Peek(buffer, position, 1)
        invariant Children(buffer, first) == Prepend(children, Children(buffer, position))
        decreases |buffer| - position
      {
        ChildrenStep(position);
        var child := ParseNodeHere();
        if child == None {
          return None;
        }
        Assoc(children, child.value, Children(buffer, position));
        children := children + [child.value];
        next := PeekChar(1);
      }
      ChildrenStep(position);
      assert children + [] == children;
      r := Some(children);
    }

    method ParseRest(name: string, content: Option<string>, children: seq<Node>) returns (node: Option<Node>)
      requires Valid()
      modifies this
      ensures Valid() && Agrees(node, position, Closed(buffer, old(position), name, content, children))
    {
      var tagClose := ParseTagClose();
      if tagClose == None {
        return None;
      }
      var same := StringEquals(name, tagClose.value);
      if !same {
        return None;
      }
      node := Some(Node(name, content, children));
    }

    lemma ChildrenStep(p: nat)
      requires p < |buffer|
      ensures Peek(buffer, p, 1) == '/' ==> Children(buffer, p) == Parsed([], p)
      ensures Peek(buffer, p, 1) != '/' ==>
                var child := ParseNode(buffer, p);
                Children(buffer, p) ==
                if child.Failed? then Failed else Prepend([child.value], Children(buffer, child.position))
    {
    }

    lemma PrependNothing(r: Parsed<seq<Node>>)
      ensures Prepend([], r) == r
    {
      if r.Parsed? {
        assert [] + r.value == r.value;
      }
    }

    lemma Assoc(done: seq<Node>, child: Node, r: Parsed<seq<Node>>)
      ensures Prepend(done + [child], r) == Prepend(done, Prepend([child], r))
    {
      if r.Parsed? {
        assert (done + [child]) + r.value == done + ([child] + r.value);
      }
    }
  }

  // ---- printing, and back ----

  /**
   * How a node is laid out: the spaces in front of it, whether its one tag closes itself, the spaces around its
   * text or behind its children, and how these are laid out.
   */
  datatype Style = Style(lead: string, selfClosing: bool, before: string, after: string, inner: seq<Style>)

  function Print(node: Node, style: Style): string
    decreases node, 1
  {
    style.lead + if style.selfClosing then "<" + node.name + "/>"
                 else Enclosed(node.name, Inner(node, style), node.name)
  }

  function Enclosed(open: string, inner: string, close: string): string {
    "<" + open + ">" + inner + "</" + close + ">"
  }

  function Inner(node: Node, style: Style): string
    decreases node, 0
  {
    (if node.content.Some? then style.before + node.content.value else PrintAll(node.children, style.inner))
    + style.after
  }

  function PrintAll(nodes: seq<Node>, styles: seq<Style>): string
    decreases nodes, 2
  {
    if nodes == [] || styles == [] then "" else Print(nodes[0], styles[0]) + PrintAll(nodes[1..], styles[1..])
  }

  /** Only a named node that holds nothing can be a self-closing tag. */
  predicate Suits(style: Style, node: Node) {
    && AllSpace(style.lead) && AllSpace(style.before) && AllSpace(style.after)
    && (style.selfClosing ==> node.name != "" && node.content == None && node.children == [])
    && AllSuit(style.inner, node.children)
  }

  predicate AllSuit(styles: seq<Style>, nodes: seq<Node>) {
    |styles| == |nodes| && forall i :: 0 <= i < |nodes| ==> Suits(styles[i], nodes[i])
  }

  /** The first non-space character is not a slash. */
  predicate NoSlashFirst(s: string) {
    s == "" || if IsSpace(s[0]) then NoSlashFirst(s[1..]) else s[0] != '/'
  }

  predicate NoSpaceLast(s: string) {
    s == "" || !IsSpace(s[|s| - 1])
  }

  /**
   * Names that survive: without `>`, not ending in a space or in the slash of a self-closing tag, and
   * not beginning with the slash of a closing tag. They may be empty.
   */
  predicate GoodName(name: string) {
    TagName(name) && NoSlashFirst(name) && (name != "" ==> name[|name| - 1] != '/')
  }

  /** What can stand in a tag, up to the bracket. */
  predicate TagName(name: string) {
    '>' !in name && NoSpaceLast(name)
  }

  /** Text that survives: trimmed, not empty and without `<`. */
  predicate GoodText(text: string) {
    text != "" && '<' !in text && !IsSpace(text[0]) && NoSpaceLast(text)
  }

  /** A node holds text or children. */
  predicate Good(node: Node) {
    && GoodName(node.name)
    && match node.content
       case Some(text) => GoodText(text) && node.children == []
       case None => AllGood(node.children)
  }

  predicate AllGood(nodes: seq<Node>) {
    forall i :: 0 <= i < |nodes| ==> Good(nodes[i])
  }

  /** The string stands in the buffer at this place. */
  predicate At(buf: string, p: nat, s: string) {
    p + |s| <= |buf| && buf[p..p + |s|] == s
  }

  lemma AtSplit(buf: string, p: nat, s: string, t: string)
    ensures At(buf, p, s + t) <==> At(buf, p, s) && At(buf, p + |s|, t)
  {
    if At(buf, p, s + t) {
      assert buf[p..p + |s|] == (s + t)[..|s|];
      assert buf[p + |s|..p + |s| + |t|] == (s + t)[|s|..];
    }
  }

  /** The next non-space character is one of those up to a non-space one. */
  lemma {:induction false} PeekWithin(buf: string, p: nat, q: nat) returns (j: nat)
    requires p <= q < |buf| && !IsSpace(buf[q])
    ensures p <= j <= q && Peek(buf, p, 0) == buf[j]
    decreases q - p
  {
    if IsSpace(buf[p]) {
      j := PeekWithin(buf, p + 1, q);
    } else {
      j := p;
    }
  }

  /** A scan stops at the first place with nothing but spaces in front of `stop`. */
  lemma {:induction false} ScanStops(buf: string, start: nat, n: nat, m: nat, stop: char)
    requires n <= m && start + m < |buf| && Peek(buf, start + m, 0) == stop
    requires forall k :: start + n <= k < start + m ==> buf[k] != stop
    requires n < m ==> !IsSpace(buf[start + m - 1])
    ensures Scan(buf, start, n, stop) == m
    decreases m - n
  {
    if n < m {
      var j := PeekWithin(buf, start + n, start + m - 1);
      ScanStops(buf, start, n + 1, m, stop);
    }
  }

  predicate AllSpace(s: string) {
    forall i :: 0 <= i < |s| ==> IsSpace(s[i])
  }

  /** Spaces are skipped up to the next character. */
  lemma {:induction false} GapSkipped(buf: string, p: nat, gap: string)
    requires At(buf, p, gap) && AllSpace(gap) && p + |gap| < |buf| && !IsSpace(buf[p + |gap|])
    ensures Peek(buf, p, 0) == buf[p + |gap|] && Skip(buf, p) == p + |gap|
    decreases |gap|
  {
    if gap != "" {
      assert buf[p] == buf[p..p + |gap|][0] == gap[0];
      assert buf[p + 1..p + |gap|] == buf[p..p + |gap|][1..];
      GapSkipped(buf, p + 1, gap[1..]);
    }
  }

  /** And so they make no difference to what is found behind them. */
  lemma GapAhead(buf: string, p: nat, gap: string)
    requires At(buf, p, gap) && AllSpace(gap) && p + |gap| < |buf| && !IsSpace(buf[p + |gap|])
    ensures var q := p + |gap|;
            && TagOpen(buf, p) == TagOpen(buf, q) && TagClose(buf, p) == TagClose(buf, q)
            && Content(buf, p) == Content(buf, q) && ParseNode(buf, p) == ParseNode(buf, q)
            && Peek(buf, p, 0) == buf[q] && Peek(buf, p, 1) == Peek(buf, q, 1)
  {
    hide TagEnd, Scan, Trimmed, Children, Closed, Peek, IsSpace;
    GapSkipped(buf, p, gap);
    GapSkipped(buf, p + |gap|, "");
    SecondBehind(buf, p, gap);
  }

  lemma {:induction false} SecondBehind(buf: string, p: nat, gap: string)
    requires At(buf, p, gap) && AllSpace(gap)
    ensures Peek(buf, p, 1) == Peek(buf, p + |gap|, 1)
    decreases |gap|
  {
    if gap != "" {
      assert buf[p] == buf[p..p + |gap|][0] == gap[0];
      assert buf[p + 1..p + |gap|] == buf[p..p + |gap|][1..];
      SecondBehind(buf, p + 1, gap[1..]);
    }
  }

  /**
   * A tag's end gives back the name, with any number of spaces in front of the bracket. One character
   * behind the name is consumed: the bracket is left unread exactly when there is a space.
   */
  lemma TagEndSpaced(buf: string, p: nat, name: string, gap: string)
    requires At(buf, p, name + gap + ">") && TagName(name) && AllSpace(gap)
    ensures TagEnd(buf, p) == Parsed(name, Bounded(buf, p + |name| + 1))
    ensures var bracket := p + |name| + |gap|;
            && buf[bracket] == '>'
            && (bracket + 1 < |buf| ==> (TagEnd(buf, p).position > bracket <==> gap == ""))
  {
    hide Scan, Peek, Skip, At, AllSpace, TagName, IsSpace;
    NameThenGap(buf, p, name, gap);
    GapSkipped(buf, p + |name|, gap);
    ScanStops(buf, p, 0, |name|, '>');
    BoundedInside(buf, p + |name|);
  }

  lemma NameThenGap(buf: string, p: nat, name: string, gap: string)
    requires At(buf, p, name + gap + ">") && TagName(name)
    ensures At(buf, p + |name|, gap) && p + |name| + |gap| < |buf| && buf[p + |name| + |gap|] == '>'
    ensures buf[p..p + |name|] == name && (forall k :: p <= k < p + |name| ==> buf[k] != '>')
    ensures name != "" ==> !IsSpace(buf[p + |name| - 1])
    ensures !IsSpace('>')
  {
    var q := p + |name|;
    assert name + gap + ">" == name + (gap + ">");
    AtSplit(buf, p, name, gap + ">");
    AtSplit(buf, q, gap, ">");
    assert buf[q + |gap|] == buf[q + |gap|..q + |gap| + 1][0] == '>';
    assert forall k :: p <= k < q ==> buf[k] == buf[p..q][k - p] == name[k - p];
  }

  lemma TagEndPrinted(buf: string, p: nat, name: string)
    requires At(buf, p, name + ">") && TagName(name)
    ensures TagEnd(buf, p) == Parsed(name, Bounded(buf, p + |name| + 1))
  {
    assert name + "" + ">" == name + ">";
    TagEndSpaced(buf, p, name, "");
  }

  lemma OpenPrinted(buf: string, p: nat, name: string)
    requires At(buf, p, "<" + name + ">") && GoodName(name)
    ensures TagOpen(buf, p) == Parsed(name, Bounded(buf, p + |name| + 2)) && Peek(buf, p, 1) != '/'
  {
    assert "<" + name + ">" == "<" + (name + ">");
    AtSplit(buf, p, "<", name + ">");
    assert buf[p] == buf[p..p + 1][0] == '<';
    TagEndPrinted(buf, p + 1, name);
    NotSlash(buf, p + 1, name);
  }

  lemma {:induction false} NotSlash(buf: string, p: nat, name: string)
    requires At(buf, p, name + ">") && NoSlashFirst(name)
    ensures Peek(buf, p, 0) != '/'
    decreases |name|
  {
    assert buf[p] == buf[p..p + |name + ">"|][0] == (name + ">")[0];
    if name != "" && IsSpace(name[0]) {
      assert name + ">" == name[..1] + (name[1..] + ">");
      AtSplit(buf, p, name[..1], name[1..] + ">");
      NotSlash(buf, p + 1, name[1..]);
    }
  }

  lemma ClosePrinted(buf: string, p: nat, name: string)
    requires At(buf, p, "</" + name + ">") && GoodName(name)
    ensures TagClose(buf, p) == Parsed(name, Bounded(buf, p + |name| + 3))
    ensures buf[p] == '<' && Peek(buf, p, 0) == '<' && Peek(buf, p, 1) == '/'
  {
    assert "</" + name + ">" == "</" + (name + ">");
    AtSplit(buf, p, "</", name + ">");
    assert buf[p] == buf[p..p + 2][0] == '<' && buf[p + 1] == buf[p..p + 2][1] == '/';
    assert Skip(buf, p) == p && Peek(buf, p + 1, 0) == '/' && Peek(buf, p, 1) == '/';
    BoundedInside(buf, p + 2);
    hide Skip, Peek, TagEnd, Bounded;
    TagEndPrinted(buf, p + 2, name);
  }

  /** Text is given back without the spaces around it. */
  lemma ContentSpaced(buf: string, p: nat, before: string, text: string, after: string)
    requires At(buf, p, before) && At(buf, p + |before|, text) && At(buf, p + |before| + |text|, after)
    requires AllSpace(before) && AllSpace(after) && GoodText(text)
    requires p + |before| + |text| + |after| < |buf| && buf[p + |before| + |text| + |after|] == '<'
    ensures Peek(buf, p, 0) != '<' && Content(buf, p) == Parsed(text, p + |before| + |text|)
  {
    hide Content, Peek, Scan, Skip, At, AllSpace, GoodText, IsSpace;
    var start := p + |before|;
    TextStands(buf, start, text);
    GapAhead(buf, p, before);
    GapSkipped(buf, start, "");
    GapSkipped(buf, start + |text|, after);
    ScanStops(buf, start, 0, |text|, '<');
    ContentIs(buf, start, |text|);
  }

  lemma TextStands(buf: string, p: nat, text: string)
    requires At(buf, p, text) && GoodText(text)
    ensures 0 < |text| && p + |text| <= |buf| && buf[p..p + |text|] == text
    ensures forall k :: p <= k < p + |text| ==> buf[k] != '<'
    ensures !IsSpace(buf[p]) && !IsSpace(buf[p + |text| - 1]) && !IsSpace('<')
    ensures At(buf, p, "") && AllSpace("")
  {
    assert forall k :: p <= k < p + |text| ==> buf[k] == buf[p..p + |text|][k - p] == text[k - p];
  }

  lemma ContentIs(buf: string, start: nat, length: nat)
    requires 0 < length && start + length < |buf| && Skip(buf, start) == start && !IsSpace(buf[start + length - 1])
    requires Scan(buf, start, 0, '<') == length && Peek(buf, start + length, 0) == '<'
    ensures Content(buf, start) == Parsed(buf[start..start + length], start + length)
  {
    hide Skip, Scan, Peek, IsSpace;
  }

  lemma ContentPrinted(buf: string, p: nat, text: string)
    requires At(buf, p, text) && p + |text| < |buf| && buf[p + |text|] == '<' && GoodText(text)
    ensures Peek(buf, p, 0) != '<' && Content(buf, p) == Parsed(text, p + |text|)
  {
    ContentSpaced(buf, p, "", text, "");
  }

  /**
   * What stands between an opening and a closing tag parses back, wherever it stands in the buffer, exactly when
   * the closing tag names the opening one.
   */
  lemma {:induction false} NodeEnclosed(buf: string, p: nat, node: Node, style: Style, close: string)
    requires Good(node) && Suits(style, node) && GoodName(close)
    requires At(buf, p, Enclosed(node.name, Inner(node, style), close))
    ensures var end := Bounded(buf, p + |Enclosed(node.name, Inner(node, style), close)|);
            ParseNode(buf, p) == if close == node.name then Parsed(node, end) else Failed
    ensures buf[p] == '<' && Peek(buf, p, 1) != '/'
    decreases |Inner(node, style)|, 2
  {
    hide TagOpen, TagClose, Content, Children, GoodName, GoodText, Bounded, Peek, ParseNode, PrintAll, At, Closed, Skip;
    hide AllSpace, IsSpace;
    var name, inner := node.name, Inner(node, style);
    var open, last := "<" + name + ">", "</" + close + ">";
    Layout(buf, p, name, inner, close);
    OpenPrinted(buf, p, name);
    var q, r := p + |open|, p + |open| + |inner|;
    ClosePrinted(buf, r, close);
    BoundedInside(buf, q);
    NotSelfClosing(name);
    var s := if node.content.Some? then style.before + node.content.value else PrintAll(node.children, style.inner);
    AtSplit(buf, q, s, style.after);
    GapAhead(buf, q + |s|, style.after);
    if node.content.Some? {
      AtSplit(buf, q, style.before, node.content.value);
      ContentSpaced(buf, q, style.before, node.content.value, style.after);
      TextNode(buf, p, q, name, node.content.value, q + |s|);
      ClosedWith(buf, q + |s|, r, name, close, node.content, []);
    } else {
      FirstOfAll(buf, q, node.children, style.inner, style.after);
      ChildrenPrinted(buf, q, node.children, style.inner);
      ChildNode(buf, p, q, name, node.children, q + |s|);
      ClosedWith(buf, q + |s|, r, name, close, None, node.children);
    }
  }

  /** A printed node parses back to itself, wherever it stands in the buffer. */
  lemma NodePrinted(buf: string, p: nat, node: Node, style: Style)
    requires Good(node) && Suits(style, node) && At(buf, p, Print(node, style))
    ensures ParseNode(buf, p) == Parsed(node, Bounded(buf, p + |Print(node, style)|))
    ensures Peek(buf, p, 0) == '<' && Peek(buf, p, 1) != '/'
    decreases |Print(node, style)|, 0
  {
    hide ParseNode, Enclosed, Bounded, Peek, At, Inner, TagOpen, TagClose, Content, Skip, AllSpace;
    var tag := Print(node, style)[|style.lead|..];
    assert Print(node, style) == style.lead + tag;
    AtSplit(buf, p, style.lead, tag);
    PrintLength(node, style);
    if style.selfClosing {
      SelfClosing(buf, p + |style.lead|, node.name);
    } else {
      NodeEnclosed(buf, p + |style.lead|, node, style, node.name);
    }
    GapAhead(buf, p, style.lead);
  }

  /** The opening tag, what is inside, and the closing tag follow each other. */
  lemma Layout(buf: string, p: nat, name: string, inner: string, close: string)
    requires At(buf, p, Enclosed(name, inner, close))
    ensures var open, last := "<" + name + ">", "</" + close + ">";
            && At(buf, p, open) && At(buf, p + |open|, inner) && At(buf, p + |open| + |inner|, last)
            && |Enclosed(name, inner, close)| == |open| + |inner| + |last|
            && p + |open| < |buf| && p + |open| + |inner| < |buf|
  {
    var open, last := "<" + name + ">", "</" + close + ">";
    assert Enclosed(name, inner, close) == open + (inner + last);
    AtSplit(buf, p, open, inner + last);
    AtSplit(buf, p + |open|, inner, last);
  }

  /** A closing tag with another name is refused. */
  lemma ClosedWith(buf: string, p: nat, r: nat, name: string, close: string, content: Option<string>,
                   children: seq<Node>)
    requires p < |buf| && TagClose(buf, p) == Parsed(close, Bounded(buf, r + |close| + 3))
    ensures Closed(buf, p, name, content, children) ==
            if close == name then Parsed(Node(name, content, children), Bounded(buf, r + |close| + 3)) else Failed
  {
    hide TagClose;
  }

  /** A tag that ends in a slash is a whole node, without text or children. */
  lemma SelfClosing(buf: string, p: nat, name: string)
    requires At(buf, p, "<" + name + "/>") && '>' !in name
    ensures ParseNode(buf, p) == Parsed(Node(name, None, []), Bounded(buf, p + |name| + 3))
    ensures buf[p] == '<' && (name != "" && NoSpaceLast(name) && NoSlashFirst(name) ==> Peek(buf, p, 1) != '/')
  {
    hide ParseNode, TagOpen, TagEnd, At, Peek, NoSlashFirst, Bounded;
    SlashedTag(buf, p, name);
    TagOpened(buf, p, name + "/");
    WholeNode(buf, p, name, Bounded(buf, p + |name| + 3));
    if name != "" && NoSpaceLast(name) && NoSlashFirst(name) {
      NoSlashYet(name, "/");
      NotSlash(buf, p + 1, name + "/");
    }
  }

  lemma SlashedTag(buf: string, p: nat, name: string)
    requires At(buf, p, "<" + name + "/>")
    ensures At(buf, p + 1, (name + "/") + ">") && p + 1 < |buf| && buf[p] == '<'
    ensures (name + "/")[..|name|] == name && Peek(buf, p, 1) == Peek(buf, p + 1, 0)
  {
    assert "<" + name + "/>" == "<" + ((name + "/") + ">");
    AtSplit(buf, p, "<", (name + "/") + ">");
    assert buf[p] == buf[p..p + 1][0] == '<';
  }

  lemma TagOpened(buf: string, p: nat, tag: string)
    requires p + 1 < |buf| && buf[p] == '<' && At(buf, p + 1, tag + ">") && TagName(tag)
    ensures TagOpen(buf, p) == Parsed(tag, Bounded(buf, p + |tag| + 2))
  {
    hide TagEnd, At;
    TagEndPrinted(buf, p + 1, tag);
  }

  lemma WholeNode(buf: string, p: nat, name: string, q: nat)
    requires p < |buf| && TagOpen(buf, p) == Parsed(name + "/", q)
    ensures ParseNode(buf, p) == Parsed(Node(name, None, []), q)
  {
    hide TagOpen, Children, Content, Closed;
    assert (name + "/")[..|name|] == name;
  }

  /** What comes behind a character that is not a space does not matter. */
  lemma {:induction false} NoSlashYet(s: string, t: string)
    requires s != "" && NoSpaceLast(s) && NoSlashFirst(s)
    ensures NoSlashFirst(s + t)
    decreases s
  {
    if IsSpace(s[0]) {
      NoSlashYet(s[1..], t);
      assert (s + t)[1..] == s[1..] + t;
    }
  }

  lemma TextNode(buf: string, p: nat, q: nat, name: string, text: string, r: nat)
    requires p < |buf| && q < |buf| && r < |buf| && TagOpen(buf, p) == Parsed(name, q)
    requires name != "" ==> name[|name| - 1] != '/'
    requires Peek(buf, q, 0) != '<' && Content(buf, q) == Parsed(text, r)
    ensures ParseNode(buf, p) == Closed(buf, r, name, Some(text), [])
  {
    hide TagOpen, Content, Peek, Children, Closed;
  }

  lemma ChildNode(buf: string, p: nat, q: nat, name: string, nodes: seq<Node>, r: nat)
    requires p < |buf| && q < |buf| && r < |buf| && TagOpen(buf, p) == Parsed(name, q)
    requires name != "" ==> name[|name| - 1] != '/'
    requires Peek(buf, q, 0) == '<' && Children(buf, q) == Parsed(nodes, r)
    ensures ParseNode(buf, p) == Closed(buf, r, name, None, nodes)
  {
    hide TagOpen, Content, Peek, Children, Closed;
  }

  lemma BoundedInside(buf: string, p: nat)
    requires p < |buf|
    ensures Bounded(buf, p) == p
  {
  }

  lemma NotSelfClosing(name: string)
    requires GoodName(name)
    ensures name != "" ==> name[|name| - 1] != '/'
  {
  }

  /** What follows an opening tag begins with a bracket, whether there are children or not. */
  lemma FirstOfAll(buf: string, p: nat, nodes: seq<Node>, styles: seq<Style>, after: string)
    requires At(buf, p, PrintAll(nodes, styles)) && At(buf, p + |PrintAll(nodes, styles)|, after) && AllSpace(after)
    requires AllSuit(styles, nodes)
    requires var r := p + |PrintAll(nodes, styles)| + |after|; r < |buf| && buf[r] == '<'
    ensures Peek(buf, p, 0) == '<'
  {
    hide IsSpace;
    var s := PrintAll(nodes, styles);
    if nodes == [] {
      GapAhead(buf, p, after);
    } else {
      assert Suits(styles[0], nodes[0]);
      var lead, tag := styles[0].lead, Print(nodes[0], styles[0])[|styles[0].lead|..];
      assert Print(nodes[0], styles[0]) == lead + tag;
      AtSplit(buf, p, lead + tag, PrintAll(nodes[1..], styles[1..]));
      AtSplit(buf, p, lead, tag);
      assert tag[0] == '<' == buf[p + |lead|..p + |lead| + |tag|][0];
      GapAhead(buf, p, lead);
    }
  }

  lemma {:induction false} ChildrenPrinted(buf: string, p: nat, nodes: seq<Node>, styles: seq<Style>)
    requires AllGood(nodes) && AllSuit(styles, nodes) && At(buf, p, PrintAll(nodes, styles))
    requires p + |PrintAll(nodes, styles)| < |buf| && Peek(buf, p + |PrintAll(nodes, styles)|, 1) == '/'
    ensures Children(buf, p) == Parsed(nodes, p + |PrintAll(nodes, styles)|)
    decreases |PrintAll(nodes, styles)|, 1
  {
    hide ParseNode, Print, Good, Bounded, Peek, Suits;
    if nodes == [] {
      NoChildren(buf, p);
    } else {
      var s, t := Print(nodes[0], styles[0]), PrintAll(nodes[1..], styles[1..]);
      PrintLength(nodes[0], styles[0]);
      AtSplit(buf, p, s, t);
      NodePrinted(buf, p, nodes[0], styles[0]);
      BoundedInside(buf, p + |s|);
      ChildrenPrinted(buf, p + |s|, nodes[1..], styles[1..]);
      OneChild(buf, p, nodes[0], p + |s|, nodes[1..], p + |s| + |t|);
      assert nodes == [nodes[0]] + nodes[1..];
    }
  }

  lemma PrintLength(node: Node, style: Style)
    ensures |Print(node, style)| > 0 && (!style.selfClosing ==> |Print(node, style)| > |Inner(node, style)|)
    ensures Good(node) ==> GoodName(node.name)
  {
  }

  lemma NoChildren(buf: string, p: nat)
    requires p < |buf| && Peek(buf, p, 1) == '/'
    ensures Children(buf, p) == Parsed([], p)
  {
  }

  lemma OneChild(buf: string, p: nat, child: Node, q: nat, rest: seq<Node>, r: nat)
    requires p < |buf| && Peek(buf, p, 1) != '/' && ParseNode(buf, p) == Parsed(child, q)
    requires q < |buf| && Children(buf, q) == Parsed(rest, r)
    ensures Children(buf, p) == Parsed([child] + rest, r)
  {
    hide ParseNode;
  }

  /** Parsing undoes printing, however the node is laid out. */
  lemma RoundTrip(node: Node, style: Style)
    requires Good(node) && Suits(style, node)
    ensures var buf := Print(node, style); ParseNode(buf, 0) == Parsed(node, |buf| - 1)
  {
    hide Print, ParseNode, Good, Suits, Peek;
    PrintLength(node, style);
    var buf := Print(node, style);
    assert buf[0..0 + |buf|] == buf;
    NodePrinted(buf, 0, node, style);
  }

  /** A document whose closing tag does not name the opening one is refused; with that name it is accepted. */
  lemma ClosingTagMatches(node: Node, style: Style, close: string)
    requires Good(node) && Suits(style, node) && GoodName(close)
    ensures var buf := Enclosed(node.name, Inner(node, style), close);
            && buf != ""
            && ParseNode(buf, 0) == if close == node.name then Parsed(node, |buf| - 1) else Failed
  {
    hide ParseNode, Good, GoodName, Inner, Suits, Peek;
    var buf := Enclosed(node.name, Inner(node, style), close);
    assert buf[0..0 + |buf|] == buf;
    NodeEnclosed(buf, 0, node, style, close);
  }

  /** An opening tag with spaces in front of its bracket. */
  function SpacedTag(name: string, gap: string): (s: string)
    ensures |s| == 2 + |name| + |gap|
  {
    "<" + (name + gap + ">")
  }

  function CloseTag(name: string): (s: string)
    ensures |s| == |name| + 3 && s[0] == '<'
  {
    "</" + name + ">"
  }

  function Spaced(name: string, gap: string, text: string): string {
    SpacedTag(name, gap) + (text + CloseTag(name))
  }

  /** The text together with the bracket, if that is left unread. */
  function Shown(gap: string, text: string): string {
    if gap == "" then text else ">" + text
  }

  /**
   * A bracket with a space in front of it ends up at the start of the text, so the text of a document
   * comes back exactly when there is no space.
   */
  lemma SpaceBeforeBracket(name: string, gap: string, text: string)
    requires GoodName(name) && AllSpace(gap) && GoodText(text)
    ensures var buf := Spaced(name, gap, text);
            && buf != "" && ParseNode(buf, 0) == Parsed(Node(name, Some(Shown(gap, text)), []), |buf| - 1)
            && (ParseNode(buf, 0).value == Node(name, Some(text), []) <==> gap == "")
  {
    hide *;
    var buf, shown, q := Spaced(name, gap, text), Shown(gap, text), 2 + |name|;
    var r := q + |gap| + |text|;
    SpacedParts(name, gap, text);
    SpacedOpen(buf, name, gap);
    SpacedClose(buf, r, name);
    NotSelfClosing(name);
    SpacedText(buf, q, r, gap, text);
    Texted(buf, q, r, name, shown);
    ClosedBy(buf, r, name, Some(shown));
  }

  /** Where the parts of the document are. */
  lemma SpacedParts(name: string, gap: string, text: string)
    ensures var buf, n := Spaced(name, gap, text), 2 + |name| + |gap|;
            && |buf| == n + |text| + |name| + 3
            && At(buf, 0, SpacedTag(name, gap)) && At(buf, n, text) && At(buf, n + |text|, CloseTag(name))
            && At(buf, 1 + |name|, gap + ">")
            && (Shown(gap, text) == text <==> gap == "")
  {
    hide SpacedTag, CloseTag;
    var buf, n := Spaced(name, gap, text), 2 + |name| + |gap|;
    AtSplit(buf, 0, SpacedTag(name, gap), text + CloseTag(name));
    AtSplit(buf, n, text, CloseTag(name));
    TagParts(buf, name, gap);
  }

  lemma TagParts(buf: string, name: string, gap: string)
    requires At(buf, 0, SpacedTag(name, gap))
    ensures At(buf, 1 + |name|, gap + ">")
  {
    assert SpacedTag(name, gap) == ("<" + name) + (gap + ">");
    AtSplit(buf, 0, "<" + name, gap + ">");
  }

  lemma SpacedOpen(buf: string, name: string, gap: string)
    requires At(buf, 0, SpacedTag(name, gap)) && GoodName(name) && AllSpace(gap) && 2 + |name| + |gap| < |buf|
    ensures TagOpen(buf, 0) == Parsed(name, 2 + |name|)
  {
    AtSplit(buf, 0, "<", name + gap + ">");
    assert buf[0] == buf[0..1][0] == '<';
    TagEndSpaced(buf, 1, name, gap);
  }

  lemma SpacedClose(buf: string, r: nat, name: string)
    requires At(buf, r, CloseTag(name)) && GoodName(name) && r + |name| + 3 == |buf|
    ensures TagClose(buf, r) == Parsed(name, |buf| - 1) && buf[r] == '<'
  {
    ClosePrinted(buf, r, name);
  }

  /** The text that is found behind the first space, or behind the bracket. */
  lemma SpacedText(buf: string, q: nat, r: nat, gap: string, text: string)
    requires q >= 1 && At(buf, q - 1, gap + ">") && At(buf, q + |gap|, text) && r == q + |gap| + |text|
    requires r < |buf| && buf[r] == '<' && AllSpace(gap) && GoodText(text)
    ensures Content(buf, q) == Parsed(Shown(gap, text), r) && Peek(buf, q, 0) != '<'
  {
    hide Content, Peek;
    if gap == "" {
      ContentPrinted(buf, q, text);
    } else {
      var b := q + |gap| - 1;
      AtSplit(buf, q - 1, gap, ">");
      assert buf[b] == buf[b..b + 1][0] == '>';
      assert buf[b..r] == ">" + text;
      assert buf[q..b] == buf[q - 1..b][1..] == gap[1..];
      ContentPrinted(buf, b, ">" + text);
      ContentSkips(buf, q, gap[1..]);
    }
  }

  lemma ContentSkips(buf: string, q: nat, gap: string)
    requires At(buf, q, gap) && AllSpace(gap) && q + |gap| < |buf| && buf[q + |gap|] == '>'
    ensures Content(buf, q) == Content(buf, q + |gap|) && Peek(buf, q, 0) == '>'
  {
    GapSkipped(buf, q, gap);
    GapSkipped(buf, q + |gap|, "");
  }

  lemma Texted(buf: string, q: nat, r: nat, name: string, text: string)
    requires 0 < |buf| && q < |buf| && r < |buf| && TagOpen(buf, 0) == Parsed(name, q)
    requires name != "" ==> name[|name| - 1] != '/'
    requires Peek(buf, q, 0) != '<' && Content(buf, q) == Parsed(text, r)
    ensures ParseNode(buf, 0) == Closed(buf, r, name, Some(text), [])
  {
    hide TagOpen, Content, Peek, Children, Closed;
  }

  lemma ClosedBy(buf: string, r: nat, name: string, content: Option<string>)
    requires r < |buf| && TagClose(buf, r) == Parsed(name, |buf| - 1)
    ensures Closed(buf, r, name, content, []) == Parsed(Node(name, content, []), |buf| - 1)
  {
    hide TagClose;
  }

  /** The whole document; an empty buffer has none. */
  method ParseDocument(buffer: string) returns (root: Option<Node>)
    ensures buffer == "" ==> root == None
    ensures buffer != "" ==> root == match ParseNode(buffer, 0) case Failed => None case Parsed(node, _) => Some(node)
  {
    if |buffer| == 0 {
      return None;
    }
    var parser := new Parser(buffer);
    root := parser.ParseNodeHere();
  }
}
