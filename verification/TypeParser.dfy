/** The descriptor parser of the container library, which cuts its text into parts in place. */
module TypeParser {
  import opened Basics

  datatype Style = Builtin | Container | User

  datatype Type = Type(name: string, style: Style)

  /** A type with the types of its contents: none, one or two. */
  datatype TypeNode = TypeNode(ctype: Type, conttype: seq<TypeNode>)

  const NUL := 0 as char

  // ---- names ----

  const BUILTIN_NAMES: seq<string> := [
    "int8_t", "uint8_t", "int16_t", "uint16_t", "int32_t", "uint32_t",
    "int64_t", "uint64_t", "float", "double", "pointer"
  ]

  const CONTAINER_NAMES: seq<string> := ["vector_t", "list_t", "heap_t", "pair_t", "set_t", "map_t", "string_t"]

  /** The standard name of a type text; texts without one stand for themselves. */
  function Mapped(text: string): string {
    match text
    case "char" => "int8_t"
    case "unsigned char" => "uint8_t"
    case "short" => "int16_t"
    case "unsigned short" => "uint16_t"
    case "int" => "int32_t"
    case "unsigned int" => "uint32_t"
    case "long long" => "int64_t"
    case "unsigned long long" => "uint64_t"
    case _ => text
  }

  /** Builtin types come first, then what the user registered. */
  function Lookup(users: seq<string>, name: string): (r: Option<Type>)
    ensures r.Some? ==> r.value.name == name
  {
    if name in BUILTIN_NAMES then Some(Type(name, Builtin))
    else if name in CONTAINER_NAMES then Some(Type(name, Container))
    else if name in users then Some(Type(name, User))
    else None
  }

  /** The text in front of the first `<`. */
  function UpToBracket(s: string): (r: string)
    ensures |r| <= |s| && ('<' in s ==> |r| < |s|)
  {
    if s == "" || s[0] == '<' then "" else [s[0]] + UpToBracket(s[1..])
  }

  /** The type that a text names: a pointer, a container with contents, or a plain name. */
  function ByStr(users: seq<string>, s: string): (r: Option<Type>) {
    if s == "" then None
    else if s[|s| - 1] == '*' then Lookup(users, "pointer")
    else if '<' in s then Lookup(users, UpToBracket(s))
    else Lookup(users, Mapped(s))
  }

  // ---- what the parser computes ----

  function Depth(c: char): int {
    if c == '<' then 1 else if c == '>' then -1 else 0
  }

  /** The length of the first part: up to a comma outside all brackets, or all of the text. */
  function PartEnd(s: string, depth: int): (n: nat)
    ensures n <= |s|
  {
    if s == "" || (depth == 0 && s[0] == ',') then 0 else 1 + PartEnd(s[1..], depth + Depth(s[0]))
  }

  /** The contents of a container's part: without its name and bracket, and without the last character. */
  function Inside(part: string, name: string): (s: string)
    requires |part| > |name|
    ensures |s| < |part|
  {
    if |part| == |name| + 1 then "" else part[|name| + 1..|part| - 1]
  }

  /**
   * The parts of a text as types, when `index` parts precede it; there may be two at most. None stands
   * for a failed assertion: an unknown type, a third part, or a container without its brackets.
   */
  function Parts(users: seq<string>, s: string, index: nat): (r: Option<seq<TypeNode>>)
    decreases |s|
  {
    var n := PartEnd(s, 0);
    var first := Part(users, s, n, index);
    if first == None then None
    else if n == |s| then Some([first.value])
    else
      var rest := Parts(users, s[n + 1..], index + 1);
      if rest == None then None else Some([first.value] + rest.value)
  }

  function Part(users: seq<string>, s: string, n: nat, index: nat): (r: Option<TypeNode>)
    requires n <= |s|
    decreases |s|, 0
  {
    var part := s[..n];
    var t := ByStr(users, part);
    if t == None || index > 1 then None
    else if t.value.style != Container then Some(TypeNode(t.value, []))
    else if |part| <= |t.value.name| then None
    else
      var kids := Parts(users, Inside(part, t.value.name), 0);
      if kids == None then None else Some(TypeNode(t.value, kids.value))
  }

  // ---- printing, and back ----

  function Print(node: TypeNode): string
    decreases node, 0
  {
    if node.ctype.style == Container then node.ctype.name + "<" + PrintAll(node.conttype) + ">" else node.ctype.name
  }

  function PrintAll(nodes: seq<TypeNode>): string
    decreases nodes, 1
  {
    if nodes == [] then "" else Print(nodes[0]) + PrintMore(nodes[1..])
  }

  function PrintMore(nodes: seq<TypeNode>): string
    decreases nodes, 1
  {
    if nodes == [] then "" else "," + Print(nodes[0]) + PrintMore(nodes[1..])
  }

  predicate Plain(s: string) {
    '<' !in s && '>' !in s && ',' !in s
  }

  /** Containers with one or two contents; leaves whose name names themselves. */
  predicate Good(users: seq<string>, node: TypeNode)
    decreases node, 0
  {
    && Plain(node.ctype.name)
    && if node.ctype.style == Container
       then node.ctype.name in CONTAINER_NAMES && 1 <= |node.conttype| <= 2 && AllGood(users, node.conttype)
       else ByStr(users, node.ctype.name) == Some(node.ctype) && node.conttype == []
  }

  predicate AllGood(users: seq<string>, nodes: seq<TypeNode>)
    decreases nodes, 1
  {
    forall i :: 0 <= i < |nodes| ==> Good(users, nodes[i])
  }

  // ---- where a part ends ----

  lemma {:induction false} PlainSkipped(s: string, t: string, depth: int)
    requires Plain(s)
    ensures PartEnd(s + t, depth) == |s| + PartEnd(t, depth)
  {
    if s == "" {
      assert s + t == t;
    } else {
      assert (s + t)[1..] == s[1..] + t;
      PlainSkipped(s[1..], t, depth);
    }
  }

  /** A printed type has no end of a part inside it, and closes all its brackets. */
  lemma {:induction false} PrintSkipped(users: seq<string>, node: TypeNode, t: string, depth: nat)
    requires Good(users, node)
    ensures PartEnd(Print(node) + t, depth) == |Print(node)| + PartEnd(t, depth)
    decreases |Print(node)|, 0
  {
    var name := node.ctype.name;
    if node.ctype.style == Container {
      var inner := PrintAll(node.conttype);
      assert Print(node) + t == name + ("<" + (inner + (">" + t)));
      PlainSkipped(name, "<" + (inner + (">" + t)), depth);
      Bracket("<", inner + (">" + t), depth);
      AllSkipped(users, node.conttype, ">" + t, depth + 1);
      Bracket(">", t, depth + 1);
    } else {
      PlainSkipped(name, t, depth);
    }
  }

  lemma Bracket(b: string, t: string, depth: nat)
    requires b == "<" || b == ">"
    ensures PartEnd(b + t, depth) == 1 + PartEnd(t, depth + Depth(b[0]))
  {
    assert (b + t)[1..] == t;
  }

  /** Inside brackets, commas do not end a part. */
  lemma {:induction false} AllSkipped(users: seq<string>, nodes: seq<TypeNode>, t: string, depth: nat)
    requires AllGood(users, nodes) && depth > 0
    ensures PartEnd(PrintAll(nodes) + t, depth) == |PrintAll(nodes)| + PartEnd(t, depth)
    decreases |PrintAll(nodes)|, 1
  {
    hide Print, Good;
    if nodes == [] {
      assert PrintAll(nodes) + t == t;
    } else {
      assert PrintAll(nodes) + t == Print(nodes[0]) + (PrintMore(nodes[1..]) + t);
      PrintSkipped(users, nodes[0], PrintMore(nodes[1..]) + t, depth);
      MoreSkipped(users, nodes[1..], t, depth);
    }
  }

  lemma {:induction false} MoreSkipped(users: seq<string>, nodes: seq<TypeNode>, t: string, depth: nat)
    requires AllGood(users, nodes) && depth > 0
    ensures PartEnd(PrintMore(nodes) + t, depth) == |PrintMore(nodes)| + PartEnd(t, depth)
    decreases |PrintMore(nodes)|, 0
  {
    hide Print, Good, PartEnd;
    if nodes == [] {
      assert PrintMore(nodes) + t == t;
    } else {
      var rest := Print(nodes[0]) + (PrintMore(nodes[1..]) + t);
      assert PrintMore(nodes) + t == "," + rest;
      Comma(rest, depth);
      PrintSkipped(users, nodes[0], PrintMore(nodes[1..]) + t, depth);
      MoreSkipped(users, nodes[1..], t, depth);
    }
  }

  lemma Comma(t: string, depth: nat)
    requires depth > 0
    ensures PartEnd("," + t, depth) == 1 + PartEnd(t, depth)
  {
    assert ("," + t)[1..] == t;
  }

  // ---- parsing undoes printing ----

  lemma {:induction false} PrefixFound(name: string, t: string)
    requires '<' !in name
    ensures UpToBracket(name + ("<" + t)) == name
  {
    if name == "" {
      assert name + ("<" + t) == "<" + t;
    } else {
      assert (name + ("<" + t))[1..] == name[1..] + ("<" + t);
      PrefixFound(name[1..], t);
    }
  }

  lemma ContainerFound(users: seq<string>, name: string)
    requires name in CONTAINER_NAMES
    ensures Lookup(users, name) == Some(Type(name, Container))
  {
  }

  lemma ContainerText(users: seq<string>, name: string, inner: string)
    requires name in CONTAINER_NAMES && Plain(name)
    ensures var part := name + "<" + inner + ">";
            ByStr(users, part) == Some(Type(name, Container)) && |part| > |name| && Inside(part, name) == inner
  {
    hide Lookup, CONTAINER_NAMES, Mapped, UpToBracket;
    var part := name + "<" + inner + ">";
    assert part == name + ("<" + (inner + ">"));
    assert part[|name|] == '<' && part[|part| - 1] == '>';
    PrefixFound(name, inner + ">");
    ContainerFound(users, name);
    assert part[|name| + 1..|part| - 1] == inner;
  }

  lemma {:induction false} PartPrinted(users: seq<string>, node: TypeNode, t: string, index: nat)
    requires Good(users, node) && index <= 1
    ensures Part(users, Print(node) + t, |Print(node)|, index) == Some(node)
    decreases |Print(node)|, 0
  {
    assert (Print(node) + t)[..|Print(node)|] == Print(node);
    if node.ctype.style == Container {
      var inner := PrintAll(node.conttype);
      ContainerText(users, node.ctype.name, inner);
      PartsPrinted(users, node.conttype, 0);
    }
  }

  /** One or two printed types parse back to themselves. */
  lemma {:induction false} PartsPrinted(users: seq<string>, nodes: seq<TypeNode>, index: nat)
    requires AllGood(users, nodes) && nodes != [] && index + |nodes| <= 2
    ensures Parts(users, PrintAll(nodes), index) == Some(nodes)
    decreases |PrintAll(nodes)|, 1
  {
    hide Part, Parts, Print, Good, PartEnd;
    var first, more := Print(nodes[0]), PrintMore(nodes[1..]);
    var s := first + more;
    PrintSkipped(users, nodes[0], more, 0);
    PartPrinted(users, nodes[0], more, index);
    EndsHere(more);
    if |nodes| == 2 {
      var rest := PrintAll(nodes[1..]);
      assert more == "," + rest;
      assert s[|first| + 1..] == rest;
      PartsPrinted(users, nodes[1..], index + 1);
      FirstPart(users, s, index, |first|, nodes[0], nodes[1..]);
      assert nodes == [nodes[0]] + nodes[1..];
    } else {
      assert s == first;
      LastPart(users, s, index, nodes[0]);
      assert nodes == [nodes[0]];
    }
  }

  lemma EndsHere(t: string)
    requires t == "" || t[0] == ','
    ensures PartEnd(t, 0) == 0
  {
  }

  lemma LastPart(users: seq<string>, s: string, index: nat, node: TypeNode)
    requires PartEnd(s, 0) == |s| && Part(users, s, |s|, index) == Some(node)
    ensures Parts(users, s, index) == Some([node])
  {
    hide Part, PartEnd;
  }

  lemma FirstPart(users: seq<string>, s: string, index: nat, n: nat, node: TypeNode, rest: seq<TypeNode>)
    requires PartEnd(s, 0) == n < |s| && Part(users, s, n, index) == Some(node)
    requires Parts(users, s[n + 1..], index + 1) == Some(rest)
    ensures Parts(users, s, index) == Some([node] + rest)
  {
    hide Part, PartEnd;
  }

  // ---- the parser, cutting in place ----

  /** The position of the comma or the end behind the first part. */
  method FindPart(a: array<char>, str: nat, ghost hi: nat) returns (strp: nat)
    requires str <= hi < a.Length && a[hi] == NUL && NUL !in a[str..hi]
    ensures strp == str + PartEnd(a[str..hi], 0) && strp <= hi
  {
    var brace := 0;
    strp := str;
    assert a[str..hi] == a[strp..hi];
    while a[strp] != NUL && (brace != 0 || a[strp] != ',')
      invariant str <= strp <= hi
      invariant PartEnd(a[str..hi], 0) == strp - str + PartEnd(a[strp..hi], brace)
      decreases hi - strp
    {
      assert a[strp] in a[str..hi] || strp == hi;
      assert a[strp..hi][1..] == a[strp + 1..hi];
      if a[strp] == '<' { brace := brace + 1; }
      if a[strp] == '>' { brace := brace - 1; }
      strp := strp + 1;
    }
    if strp < hi {
      assert a[strp] == a[str..hi][strp - str];
    }
  }

  /** Terminate one part, look its type up, and parse the contents of a container. */
  method TakePart(users: seq<string>, a: array<char>, str: nat, strp: nat, index: nat) returns (node: Option<TypeNode>)
    requires str <= strp < a.Length && NUL !in a[str..strp]
    modifies a
    ensures node == Part(users, old(a[str..strp]), strp - str, index)
    ensures a[..str] == old(a[..str]) && a[strp + 1..] == old(a[strp + 1..])
    decreases strp - str, 0
  {
    hide Parts, ByStr;
    ghost var part := a[str..strp];
    assert part[..strp - str] == part;
    a[strp] := NUL;
    var t := ByStr(users, a[str..strp]);
    if t == None || index > 1 {
      return None;
    }
    if t.value.style != Container {
      return Some(TypeNode(t.value, []));
    }
    var len := |t.value.name|;
    if strp - str <= len {
      return None;
    }
    a[strp - 1] := NUL;
    var kids := ContentsOf(users, a, str, strp, len, part);
    if kids == None {
      return None;
    }
    node := Some(TypeNode(t.value, kids.value));
  }

  /** The contents start behind the name and the bracket; the last character has been cut off. */
  method ContentsOf(users: seq<string>, a: array<char>, str: nat, strp: nat, len: nat, ghost part: string)
      returns (kids: Option<seq<TypeNode>>)
    requires len < strp - str == |part| && strp < a.Length && a[strp] == NUL && a[strp - 1] == NUL
    requires a[str..strp - 1] == part[..|part| - 1] && NUL !in part
    modifies a
    ensures kids == Parts(users, if |part| == len + 1 then "" else part[len + 1..|part| - 1], 0)
    ensures a[..str] == old(a[..str]) && a[strp + 1..] == old(a[strp + 1..])
    decreases strp - str - 1, 2
  {
    hide Parts;
    ghost var inside := if |part| == len + 1 then "" else part[len + 1..|part| - 1];
    ghost var end := if strp - str == len + 1 then strp else strp - 1;
    var first := str + len + 1;
    if |part| > len + 1 {
      assert a[str..end][len + 1..] == a[first..end] && part[..|part| - 1][len + 1..] == inside;
    }
    ghost var before := a[..];
    kids := GetTypeNodeRecur(users, a, first, end);
    Framed(before, a[..], first, end, str, strp);
  }

  /** What lies outside the changed range lies outside a larger one. */
  lemma Framed(s: seq<char>, t: seq<char>, lo: nat, hi: nat, lo': nat, hi': nat)
    requires |s| == |t| && lo' <= lo <= |s| && hi <= hi' < |s| && s[..lo] == t[..lo] && s[hi + 1..] == t[hi + 1..]
    ensures s[..lo'] == t[..lo'] && s[hi' + 1..] == t[hi' + 1..]
  {
    assert s[..lo'] == s[..lo][..lo'] && t[..lo'] == t[..lo][..lo'];
    assert s[hi' + 1..] == s[hi + 1..][hi' - hi..] && t[hi' + 1..] == t[hi + 1..][hi' - hi..];
  }

  lemma RestKept(s: seq<char>, t: seq<char>, lo: nat, mid: nat, hi: nat)
    requires |s| == |t| && lo <= mid < hi < |s| && s[mid + 1..] == t[mid + 1..] && NUL !in s[lo..hi]
    ensures t[mid + 1..hi] == s[lo..hi][mid + 1 - lo..] && NUL !in t[mid + 1..hi] && t[hi] == s[hi]
  {
    assert s[mid + 1..hi] == s[mid + 1..][..hi - mid - 1] && t[mid + 1..hi] == t[mid + 1..][..hi - mid - 1];
    assert s[lo..hi][mid + 1 - lo..] == s[mid + 1..hi];
    assert s[hi] == s[mid + 1..][hi - mid - 1] && t[hi] == t[mid + 1..][hi - mid - 1];
    forall i | mid + 1 <= i < hi ensures t[i] != NUL {
      assert t[i] == s[i] == s[lo..hi][i - lo];
    }
  }

  /** The first parts, in front of what the rest gives. */
  function Prepend(done: seq<TypeNode>, r: Option<seq<TypeNode>>): Option<seq<TypeNode>> {
    if r == None then None else Some(done + r.value)
  }

  /** Take one part after the other, up to the end of the text. */
  method GetTypeNodeRecur(users: seq<string>, a: array<char>, start: nat, ghost hi: nat)
      returns (r: Option<seq<TypeNode>>)
    requires start <= hi < a.Length && a[hi] == NUL && NUL !in a[start..hi]
    modifies a
    ensures r == Parts(users, old(a[start..hi]), 0)
    ensures a[..start] == old(a[..start]) && a[hi + 1..] == old(a[hi + 1..])
    decreases hi - start, 1
  {
    hide Part, Parts, PartEnd;
    ghost var s := a[start..hi];
    var index, str, kids := 0, start, [];
    var next := true;
    PrependNothing(Parts(users, s, 0));
    while next
      invariant start <= str <= hi && index >= 0
      invariant next ==> a[hi] == NUL && NUL !in a[str..hi] && a[str..hi] == s[str - start..]
      invariant next ==> Parts(users, s, 0) == Prepend(kids, Parts(users, s[str - start..], index))
      invariant !next ==> Parts(users, s, 0) == Some(kids)
      invariant a[..start] == old(a[..start]) && a[hi + 1..] == old(a[hi + 1..])
      decreases next, hi - str
    {
      ghost var before, rest := a[..], a[str..hi];
      var strp := FindPart(a, str, hi);
      next := a[strp] != NUL;
      OneStep(users, rest, index, strp - str, kids);
      assert rest[..strp - str] == a[str..strp];
      var node := TakePart(users, a, str, strp, index);
      if node == None {
        return None;
      }
      kids := kids + [node.value];
      Framed(before, a[..], str, strp, start, hi);
      if next {
        RestKept(before, a[..], str, strp, hi);
        str := strp + 1;
        index := index + 1;
      }
    }
    r := Some(kids);
  }

  lemma PrependNothing(r: Option<seq<TypeNode>>)
    ensures Prepend([], r) == r
  {
    if r.Some? {
      assert [] + r.value == r.value;
    }
  }

  /** How the parts of a text follow from its first one. */
  lemma OneStep(users: seq<string>, s: string, index: nat, n: nat, done: seq<TypeNode>)
    requires n == PartEnd(s, 0)
    ensures var first := Part(users, s[..n], n, index);
            && (first == None ==> Prepend(done, Parts(users, s, index)) == None)
            && (first.Some? && n == |s| ==> Prepend(done, Parts(users, s, index)) == Some(done + [first.value]))
            && (first.Some? && n < |s| ==>
                  (Prepend(done, Parts(users, s, index))
                    == Prepend(done + [first.value], Parts(users, s[n + 1..], index + 1))))
  {
    hide Part, PartEnd;
    PartOnly(users, s, n, index);
    var first := Part(users, s, n, index);
    if first.Some? && n < |s| {
      var rest := Parts(users, s[n + 1..], index + 1);
      if rest.Some? {
        assert done + ([first.value] + rest.value) == (done + [first.value]) + rest.value;
      }
    }
  }

  lemma PartOnly(users: seq<string>, s: string, n: nat, index: nat)
    requires n <= |s|
    ensures Part(users, s, n, index) == Part(users, s[..n], n, index)
  {
    assert s[..n][..n] == s[..n];
  }

  /** The text without its spaces. */
  function NoSpaces(s: string): string {
    if s == "" then "" else (if s[0] == ' ' then "" else [s[0]]) + NoSpaces(s[1..])
  }

  /** No type in the trees has a space in its name. */
  predicate SpaceFree(nodes: seq<TypeNode>) {
    forall i :: 0 <= i < |nodes| ==> SpaceFreeNode(nodes[i])
  }

  predicate SpaceFreeNode(node: TypeNode) {
    ' ' !in node.ctype.name && SpaceFree(node.conttype)
  }

  /** However it is spaced, the text of good contents parses back to them exactly if no name has a space. */
  lemma RoundTrip(users: seq<string>, s: string, nodes: seq<TypeNode>)
    requires AllGood(users, nodes) && 1 <= |nodes| <= 2 && NoSpaces(s) == NoSpaces(PrintAll(nodes))
    ensures Parts(users, NoSpaces(s), 0) == Some(nodes) <==> SpaceFree(nodes)
  {
    hide Parts, PrintAll, AllGood;
    if SpaceFree(nodes) {
      PrintAllFree(nodes);
      PartsPrinted(users, nodes, 0);
    } else {
      SpacesGone(s);
      ParsedFree(users, NoSpaces(s), 0);
    }
  }

  lemma {:induction false} SpacesGone(s: string)
    ensures ' ' !in NoSpaces(s) && (' ' !in s ==> NoSpaces(s) == s)
  {
    if s != "" {
      SpacesGone(s[1..]);
    }
  }

  lemma {:induction false} PrintAllFree(nodes: seq<TypeNode>)
    requires SpaceFree(nodes)
    ensures ' ' !in PrintAll(nodes) && NoSpaces(PrintAll(nodes)) == PrintAll(nodes)
    decreases nodes, 1
  {
    if nodes != [] {
      PrintFree(nodes[0]);
      PrintMoreFree(nodes[1..]);
    }
    SpacesGone(PrintAll(nodes));
  }

  lemma {:induction false} PrintMoreFree(nodes: seq<TypeNode>)
    requires SpaceFree(nodes)
    ensures ' ' !in PrintMore(nodes)
    decreases nodes, 1
  {
    if nodes != [] {
      PrintFree(nodes[0]);
      PrintMoreFree(nodes[1..]);
    }
  }

  lemma {:induction false} PrintFree(node: TypeNode)
    requires SpaceFreeNode(node)
    ensures ' ' !in Print(node)
    decreases node, 0
  {
    if node.ctype.style == Container {
      PrintAllFree(node.conttype);
    }
  }

  /** A text without spaces names no type with a space in its name. */
  lemma {:induction false} ParsedFree(users: seq<string>, s: string, index: nat)
    requires ' ' !in s
    ensures Parts(users, s, index).Some? ==> SpaceFree(Parts(users, s, index).value)
    decreases |s|, 1
  {
    hide PartEnd, Part, SpaceFreeNode;
    var n := PartEnd(s, 0);
    PartFree(users, s, n, index);
    if n < |s| {
      ParsedFree(users, s[n + 1..], index + 1);
    }
  }

  lemma {:induction false} PartFree(users: seq<string>, s: string, n: nat, index: nat)
    requires ' ' !in s && n <= |s|
    ensures Part(users, s, n, index).Some? ==> SpaceFreeNode(Part(users, s, n, index).value)
    decreases |s|, 0
  {
    var part := s[..n];
    ByStrFree(users, part);
    var t := ByStr(users, part);
    if t.Some? && t.value.style == Container && |part| > |t.value.name| {
      ParsedFree(users, Inside(part, t.value.name), 0);
    }
  }

  lemma ByStrFree(users: seq<string>, s: string)
    requires ' ' !in s
    ensures ByStr(users, s).Some? ==> ' ' !in ByStr(users, s).value.name
  {
    hide Lookup, Mapped;
    BracketPrefix(s);
    MappedFree(s);
  }

  lemma MappedFree(s: string)
    requires ' ' !in s
    ensures ' ' !in Mapped(s) && ' ' !in "pointer"
  {
  }

  lemma {:induction false} BracketPrefix(s: string)
    ensures UpToBracket(s) <= s
  {
    if s != "" {
      BracketPrefix(s[1..]);
    }
  }

  lemma NoSpacesAt(s: string, i: nat)
    requires i <= |s|
    ensures NoSpaces(s[i..]) ==
              if i == |s| then "" else (if s[i] == ' ' then "" else [s[i]]) + NoSpaces(s[i + 1..])
  {
    if i < |s| {
      assert s[i..][1..] == s[i + 1..];
    }
  }

  /** A text of one leaf is what its name is found as. */
  lemma LeafText(users: seq<string>, s: string)
    requires s != "" && Plain(s) && s[|s| - 1] != '*'
    ensures var t := Lookup(users, Mapped(s));
            && (t.None? ==> Parts(users, s, 0) == None)
            && (t.Some? && t.value.style != Container ==> Parts(users, s, 0) == Some([TypeNode(t.value, [])]))
            && (t.Some? && t.value.style == Container && |s| <= |t.value.name| ==> Parts(users, s, 0) == None)
  {
    hide Lookup, Mapped;
    PlainSkipped(s, "", 0);
    EndsHere("");
    assert s + "" == s && s[..|s|] == s;
  }

  predicate StandardName(s: string) {
    || s == "int8_t" || s == "uint8_t" || s == "int16_t" || s == "uint16_t" || s == "int32_t" || s == "uint32_t"
    || s == "int64_t" || s == "uint64_t" || s == "float" || s == "double" || s == "pointer"
  }

  predicate ContainerName(s: string) {
    || s == "vector_t" || s == "list_t" || s == "heap_t" || s == "pair_t" || s == "set_t" || s == "map_t"
    || s == "string_t"
  }

  /**
   * What a text without spaces, brackets and commas names: anything that ends in a star is a pointer, every
   * standard name is itself, three more names stand for standard ones, a container lacks its contents, and
   * everything else is what the user has registered under that name, if anything.
   */
  lemma PlainText(users: seq<string>, s: string)
    requires Plain(s) && s != "" && ' ' !in s
    ensures s[|s| - 1] == '*' ==> Parts(users, s, 0) == Some([TypeNode(Type("pointer", Builtin), [])])
    ensures s == "char" ==> Parts(users, s, 0) == Some([TypeNode(Type("int8_t", Builtin), [])])
    ensures s == "short" ==> Parts(users, s, 0) == Some([TypeNode(Type("int16_t", Builtin), [])])
    ensures s == "int" ==> Parts(users, s, 0) == Some([TypeNode(Type("int32_t", Builtin), [])])
    ensures StandardName(s) ==> Parts(users, s, 0) == Some([TypeNode(Type(s, Builtin), [])])
    ensures ContainerName(s) ==> Parts(users, s, 0) == None
    ensures s[|s| - 1] != '*' && s != "char" && s != "short" && s != "int" && !StandardName(s) && !ContainerName(s) ==>
              Parts(users, s, 0) == if s in users then Some([TypeNode(Type(s, User), [])]) else None
  {
    hide Parts, StandardName, ContainerName, Lookup, Mapped, Plain;
    if s[|s| - 1] == '*' {
      StarText(users, s);
      NoStar(s);
    } else {
      LeafText(users, s);
      if s == "char" || s == "short" || s == "int" {
        SecondFound(users, s);
        SecondOnly(s);
      } else if StandardName(s) {
        StandardFound(users, s);
        Exclusive(s);
      } else if ContainerName(s) {
        ContainerNameFound(users, s);
      } else {
        OtherFound(users, s);
      }
    }
  }

  lemma Words(s: string)
    ensures StandardName(s) || s == "char" || s == "short" || s == "int" ==> s != "" && Plain(s)
  {
  }

  lemma SecondOnly(s: string)
    requires s == "char" || s == "short" || s == "int"
    ensures !StandardName(s) && !ContainerName(s)
    ensures (s == "char" ==> s != "short" && s != "int") && (s == "short" ==> s != "int")
  {
    assert |s| <= 5;
  }

  lemma Exclusive(s: string)
    requires StandardName(s)
    ensures !ContainerName(s)
  {
    if ContainerName(s) {
      ContainerAlone(s);
    }
  }

  lemma StarText(users: seq<string>, s: string)
    requires Plain(s) && s != "" && s[|s| - 1] == '*'
    ensures Parts(users, s, 0) == Some([TypeNode(Type("pointer", Builtin), [])])
  {
    hide Lookup, Mapped;
    PlainSkipped(s, "", 0);
    EndsHere("");
    StandardFound(users, "pointer");
    assert s + "" == s && s[..|s|] == s;
  }

  lemma NoStar(s: string)
    requires s != "" && s[|s| - 1] == '*'
    ensures s != "char" && s != "short" && s != "int" && !StandardName(s) && !ContainerName(s)
  {
  }

  lemma Listed(s: string)
    ensures s in BUILTIN_NAMES <==> StandardName(s)
    ensures s in CONTAINER_NAMES <==> ContainerName(s)
  {
  }

  lemma SecondFound(users: seq<string>, s: string)
    ensures s == "char" ==> Lookup(users, Mapped(s)) == Some(Type("int8_t", Builtin))
    ensures s == "short" ==> Lookup(users, Mapped(s)) == Some(Type("int16_t", Builtin))
    ensures s == "int" ==> Lookup(users, Mapped(s)) == Some(Type("int32_t", Builtin))
  {
    hide BUILTIN_NAMES;
    Listed(Mapped(s));
  }

  lemma StandardFound(users: seq<string>, s: string)
    requires StandardName(s)
    ensures Lookup(users, Mapped(s)) == Lookup(users, s) == Some(Type(s, Builtin))
  {
    Listed(s);
    StandardAlone(s);
  }

  lemma ContainerNameFound(users: seq<string>, s: string)
    requires ContainerName(s)
    ensures Lookup(users, Mapped(s)) == Some(Type(s, Container))
  {
    Listed(s);
    ContainerAlone(s);
  }

  lemma OtherFound(users: seq<string>, s: string)
    requires ' ' !in s && s != "char" && s != "short" && s != "int" && !StandardName(s) && !ContainerName(s)
    ensures Lookup(users, Mapped(s)) == if s in users then Some(Type(s, User)) else None
  {
    Listed(s);
    OneWord(s);
  }

  /** No standard name is a second name. */
  lemma StandardAlone(s: string)
    requires StandardName(s)
    ensures Mapped(s) == s
  {
    assert s[0] in "iufdp" && (s[0] == 'i' ==> |s| > 3);
  }

  lemma ContainerAlone(s: string)
    requires ContainerName(s)
    ensures Mapped(s) == s && !StandardName(s)
  {
    assert |s| >= 2 && s[0] in "vlhpsm" && (s[0] == 'p' ==> s[1] == 'a');
    assert s[0] == 's' ==> s[1] != 'h';
  }

  /** A second name of one word is one of three. */
  lemma OneWord(s: string)
    requires ' ' !in s
    ensures Mapped(s) == s || s == "char" || s == "short" || s == "int"
  {
    assert "unsigned char"[8] == ' ' && "unsigned short"[8] == ' ' && "unsigned int"[8] == ' ';
    assert "long long"[4] == ' ' && "unsigned long long"[8] == ' ';
  }

  predicate SeveralWords(text: string) {
    || text == "unsigned char" || text == "unsigned short" || text == "unsigned int" || text == "long long"
    || text == "unsigned long long"
  }

  /**
   * A second name of several words is lost with its spaces: what remains of it is at most a type of the
   * user's.
   */
  lemma SecondName(users: seq<string>, text: string)
    requires SeveralWords(text)
    ensures var s := NoSpaces(text);
            Parts(users, s, 0) == if s in users then Some([TypeNode(Type(s, User), [])]) else None
  {
    hide Parts, NoSpaces, StandardName, ContainerName, SeveralWords;
    WordsBegin(text);
    NoSpacesIn(text);
    SpacesGone(text);
    FirstTwo(text);
    Unlike(NoSpaces(text));
    PlainText(users, NoSpaces(text));
  }

  lemma WordsBegin(text: string)
    requires SeveralWords(text)
    ensures |text| >= 2 && ((text[0] == 'u' && text[1] == 'n') || (text[0] == 'l' && text[1] == 'o'))
    ensures Plain(text) && '*' !in text
  {
  }

  lemma FirstTwo(text: string)
    requires |text| >= 2 && text[0] != ' ' && text[1] != ' '
    ensures var s := NoSpaces(text); |s| >= 2 && s[0] == text[0] && s[1] == text[1]
  {
    assert text[1..][0] == text[1];
  }

  /** Names of several words begin as no single name does. */
  lemma Unlike(s: string)
    requires |s| >= 2 && ((s[0] == 'u' && s[1] == 'n') || (s[0] == 'l' && s[1] == 'o'))
    ensures s != "char" && s != "short" && s != "int" && !StandardName(s) && !ContainerName(s)
  {
  }

  /** There is room for two contents: a text of three parts or more fails, whatever they are. */
  lemma ThirdRefused(users: seq<string>, s: string)
    requires var n := PartEnd(s, 0); n < |s| && PartEnd(s[n + 1..], 0) < |s[n + 1..]|
    ensures Parts(users, s, 0) == None
  {
    hide PartEnd, ByStr;
    var rest := s[PartEnd(s, 0) + 1..];
    assert Part(users, rest[PartEnd(rest, 0) + 1..], PartEnd(rest[PartEnd(rest, 0) + 1..], 0), 2) == None;
    assert Parts(users, rest[PartEnd(rest, 0) + 1..], 2) == None;
    assert Parts(users, rest, 1) == None;
  }

  lemma Regrouped(s: string, t: string, u: string)
    ensures s + (t + u) == (s + t) + u
  {
  }

  /** Remove the spaces, into a fresh text that ends in a zero. */
  method Compacted(str: string) returns (rstr: array<char>, ghost n: nat)
    ensures fresh(rstr) && n < rstr.Length && rstr[..n] == NoSpaces(str) && rstr[n] == NUL
  {
    hide NoSpaces;
    rstr := new char[|str| + 1](_ => NUL);
    var k := 0;
    assert str[0..] == str;
    for i := 0 to |str|
      invariant k <= i && NoSpaces(str) == rstr[..k] + NoSpaces(str[i..])
    {
      NoSpacesAt(str, i);
      if str[i] != ' ' {
        ghost var done := rstr[..k];
        rstr[k] := str[i];
        assert rstr[..k + 1] == done + [str[i]];
        Regrouped(done, [str[i]], NoSpaces(str[i + 1..]));
        k := k + 1;
      }
    }
    NoSpacesAt(str, |str|);
    rstr[k] := NUL;
    n := k;
  }

  /** The type tree of a container whose contents are described by the text. */
  method GetTypeNode(users: seq<string>, root: Type, str: string) returns (node: Option<TypeNode>)
    requires NUL !in str
    ensures node == match Parts(users, NoSpaces(str), 0) case None => None case Some(kids) => Some(TypeNode(root, kids))
    ensures forall nodes ::
              AllGood(users, nodes) && 1 <= |nodes| <= 2 && NoSpaces(str) == NoSpaces(PrintAll(nodes)) ==>
                (node == Some(TypeNode(root, nodes)) <==> SpaceFree(nodes))
    ensures NoSpaces(str) == "char" ==> node == Some(TypeNode(root, [TypeNode(Type("int8_t", Builtin), [])]))
    ensures NoSpaces(str) == "short" ==> node == Some(TypeNode(root, [TypeNode(Type("int16_t", Builtin), [])]))
    ensures NoSpaces(str) == "int" ==> node == Some(TypeNode(root, [TypeNode(Type("int32_t", Builtin), [])]))
    ensures StandardName(NoSpaces(str)) ==>
              node == Some(TypeNode(root, [TypeNode(Type(NoSpaces(str), Builtin), [])]))
    ensures var s := NoSpaces(str);
            s != "" && Plain(s) && s[|s| - 1] == '*' ==>
              node == Some(TypeNode(root, [TypeNode(Type("pointer", Builtin), [])]))
  {
    hide Parts, AllGood, PrintAll, NoSpaces, SpaceFree, StandardName, Plain;
    Words(NoSpaces(str));
    if NoSpaces(str) != "" && Plain(NoSpaces(str)) {
      SpacesGone(str);
      PlainText(users, NoSpaces(str));
    }
    NoSpacesIn(str);
    var rstr, n := Compacted(str);
    assert rstr[0..n] == rstr[..n];
    var kids := GetTypeNodeRecur(users, rstr, 0, n);
    node := if kids == None then None else Some(TypeNode(root, kids.value));
    forall nodes | AllGood(users, nodes) && 1 <= |nodes| <= 2 && NoSpaces(str) == NoSpaces(PrintAll(nodes))
      ensures Parts(users, NoSpaces(str), 0) == Some(nodes) <==> SpaceFree(nodes)
    {
      RoundTrip(users, str, nodes);
    }
  }

  lemma {:induction false} NoSpacesIn(s: string)
    ensures forall c :: c in NoSpaces(s) ==> c in s
  {
    if s != "" {
      NoSpacesIn(s[1..]);
    }
  }
}
