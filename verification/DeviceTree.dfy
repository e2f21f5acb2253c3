/** Devicetrees and their flattened form, after the Devicetree Specification.

Tokens follow section 5.4.1, the layout of nodes and properties section 5.4.2.
NOP tokens may stand anywhere among the properties and among the subnodes.
*/
module DeviceTree {
  import opened CString
  import opened Wrappers

  type u32 = x: int | 0 <= x < 0x1_0000_0000

  const FDT_BEGIN_NODE: u32 := 1
  const FDT_END_NODE: u32 := 2
  const FDT_PROP: u32 := 3
  const FDT_NOP: u32 := 4

  datatype Node = Node(name: seq<byte>, props: Props, kids: Kids)

  datatype Props = NoProps | PropNop(rest: Props) | Prop(nameoff: u32, value: seq<byte>, rest: Props)

  datatype Kids = NoKids | KidNop(rest: Kids) | Kid(node: Node, rest: Kids)

  // ---- Encoding ----

  /** A 32-bit big-endian word. */
  function Be32(n: u32): (r: seq<byte>)
    ensures |r| == 4
  {
    [n / 0x100_0000, n / 0x1_0000 % 256, n / 256 % 256, n % 256]
  }

  /** Zero bytes up to the next multiple of four. */
  function Padding(n: nat): (r: seq<byte>)
    ensures (n + |r|) % 4 == 0 && |r| < 4
  {
    seq((4 - n % 4) % 4, _ => 0)
  }

  function EncodeName(name: seq<byte>): seq<byte> {
    name + [0] + Padding(|name| + 1)
  }

  function EncodeProps(props: Props): seq<byte>
    requires SmallValues(props)
  {
    match props
    case NoProps => []
    case PropNop(rest) => Be32(FDT_NOP) + EncodeProps(rest)
    case Prop(nameoff, value, rest) =>
      Be32(FDT_PROP) + Be32(|value|) + Be32(nameoff) + value + Padding(|value|) + EncodeProps(rest)
  }

  function EncodeKids(kids: Kids): seq<byte>
    requires SmallKids(kids)
  {
    match kids
    case NoKids => []
    case KidNop(rest) => Be32(FDT_NOP) + EncodeKids(rest)
    case Kid(node, rest) => Encode(node) + EncodeKids(rest)
  }

  function Encode(node: Node): seq<byte>
    requires Small(node)
  {
    Be32(FDT_BEGIN_NODE) + EncodeName(node.name) + EncodeProps(node.props) + EncodeKids(node.kids) + Be32(FDT_END_NODE)
  }

  /** Names hold no NUL, and value lengths can be rounded up to whole words in 32 bits. */
  predicate SmallValues(props: Props) {
    match props
    case NoProps => true
    case PropNop(rest) => SmallValues(rest)
    case Prop(_, value, rest) => |value| <= 0xffff_fffc && SmallValues(rest)
  }

  predicate SmallKids(kids: Kids) {
    match kids
    case NoKids => true
    case KidNop(rest) => SmallKids(rest)
    case Kid(node, rest) => Small(node) && SmallKids(rest)
  }

  predicate Small(node: Node) {
    && (forall i :: 0 <= i < |node.name| ==> node.name[i] != 0)
    && SmallValues(node.props) && SmallKids(node.kids)
  }

  // ---- The reference search: nodes in preorder, properties in order ----

  /** A node together with the position of its first token. */
  datatype Found = Found(at: nat, node: Node)

  function Preorder(node: Node, at: nat): seq<Found>
    requires Small(node)
  {
    [Found(at, node)] + KidsPreorder(node.kids, at + 4 + |EncodeName(node.name)| + |EncodeProps(node.props)|)
  }

  function KidsPreorder(kids: Kids, at: nat): seq<Found>
    requires SmallKids(kids)
  {
    match kids
    case NoKids => []
    case KidNop(rest) => KidsPreorder(rest, at + 4)
    case Kid(node, rest) => Preorder(node, at) + KidsPreorder(rest, at + |Encode(node)|)
  }

  function FirstNamed(nodes: seq<Found>, name: seq<byte>): Option<Found> {
    if nodes == [] then None
    else if nodes[0].node.name == name then Some(nodes[0])
    else FirstNamed(nodes[1..], name)
  }

  /** A property: where its name starts in the strings block, its length, where its value starts. */
  datatype PropAt = PropAt(nameoff: u32, len: nat, value: nat)

  function PropList(props: Props, at: nat): seq<PropAt> {
    match props
    case NoProps => []
    case PropNop(rest) => PropList(rest, at + 4)
    case Prop(nameoff, value, rest) =>
      [PropAt(nameoff, |value|, at + 12)] + PropList(rest, at + 12 + |value| + |Padding(|value|)|)
  }

  lemma {:induction false} FirstNamedConcat(a: seq<Found>, b: seq<Found>, name: seq<byte>)
    ensures FirstNamed(a + b, name) == if FirstNamed(a, name).Some? then FirstNamed(a, name) else FirstNamed(b, name)
    decreases |a|
  {
    if a == [] {
      assert a + b == b;
    } else {
      FirstNamedConcat(a[1..], b, name);
      assert (a + b)[1..] == a[1..] + b;
    }
  }

  /** FirstNamed finds a node exactly if one has the name, and none before it does. */
  lemma {:induction false} FirstNamedIsFirst(nodes: seq<Found>, name: seq<byte>)
    ensures FirstNamed(nodes, name).None? <==> forall i :: 0 <= i < |nodes| ==> nodes[i].node.name != name
    ensures FirstNamed(nodes, name).Some? ==>
              exists i :: && 0 <= i < |nodes| && nodes[i] == FirstNamed(nodes, name).value && nodes[i].node.name == name
                          && forall j :: 0 <= j < i ==> nodes[j].node.name != name
    decreases |nodes|
  {
    if nodes != [] && nodes[0].node.name != name {
      var rest := nodes[1..];
      FirstNamedIsFirst(rest, name);
      assert forall i :: 0 < i < |nodes| ==> nodes[i] == rest[i - 1];
      if FirstNamed(rest, name).Some? {
        var i :| && 0 <= i < |rest| && rest[i] == FirstNamed(rest, name).value && rest[i].node.name == name
                 && forall j :: 0 <= j < i ==> rest[j].node.name != name;
        assert nodes[i + 1] == rest[i];
      }
    }
  }

  // ---- What preorder means: every node of the tree, by ascending position ----

  /** n is the node or one below it. */
  ghost predicate Contains(node: Node, n: Node) {
    n == node || KidsContain(node.kids, n)
  }

  ghost predicate KidsContain(kids: Kids, n: Node) {
    match kids
    case NoKids => false
    case KidNop(rest) => KidsContain(rest, n)
    case Kid(node, rest) => Contains(node, n) || KidsContain(rest, n)
  }

  /** Positions ascend, from lo on and below hi. */
  ghost predicate Ascending(nodes: seq<Found>, lo: nat, hi: nat) {
    && (forall i :: 0 <= i < |nodes| ==> lo <= nodes[i].at < hi)
    && (forall i, j :: 0 <= i < j < |nodes| ==> nodes[i].at < nodes[j].at)
  }

  lemma AscendingConcat(a: seq<Found>, b: seq<Found>, lo: nat, mid: nat, hi: nat)
    requires Ascending(a, lo, mid) && Ascending(b, mid, hi) && lo <= mid <= hi
    ensures Ascending(a + b, lo, hi)
  {
  }

  ghost predicate Lists(nodes: seq<Found>, n: Node) {
    exists i :: 0 <= i < |nodes| && nodes[i].node == n
  }

  lemma ListsConcat(a: seq<Found>, b: seq<Found>, n: Node)
    ensures Lists(a + b, n) <==> Lists(a, n) || Lists(b, n)
  {
    if Lists(b, n) {
      var i :| 0 <= i < |b| && b[i].node == n;
      assert (a + b)[|a| + i].node == n;
    }
    if Lists(a, n) {
      var i :| 0 <= i < |a| && a[i].node == n;
      assert (a + b)[i].node == n;
    }
  }

  /** Preorder lists exactly the nodes of the tree, by the position of their first token. */
  lemma {:induction false} PreorderMeans(node: Node, at: nat, n: Node)
    requires Small(node)
    ensures Ascending(Preorder(node, at), at, at + |Encode(node)|)
    ensures Lists(Preorder(node, at), n) <==> Contains(node, n)
    decreases node, 1
  {
    hide Be32, EncodeName, EncodeProps, Ascending, Lists;
    var from := at + 4 + |EncodeName(node.name)| + |EncodeProps(node.props)|;
    KidsPreorderMeans(node.kids, from, n);
    OnlyOne(Found(at, node), at, from, n);
    Wider(KidsPreorder(node.kids, from), from, from + |EncodeKids(node.kids)|, at + |Encode(node)|);
    AscendingConcat([Found(at, node)], KidsPreorder(node.kids, from), at, from, at + |Encode(node)|);
    ListsConcat([Found(at, node)], KidsPreorder(node.kids, from), n);
  }

  lemma OnlyOne(f: Found, lo: nat, hi: nat, n: Node)
    requires lo <= f.at < hi
    ensures Ascending([f], lo, hi) && (Lists([f], n) <==> f.node == n)
  {
    assert [f][0] == f;
  }

  lemma Wider(nodes: seq<Found>, lo: nat, hi: nat, hi2: nat)
    requires Ascending(nodes, lo, hi) && hi <= hi2
    ensures Ascending(nodes, lo, hi2)
  {
  }

  lemma {:induction false} KidsPreorderMeans(kids: Kids, at: nat, n: Node)
    requires SmallKids(kids)
    ensures Ascending(KidsPreorder(kids, at), at, at + |EncodeKids(kids)|)
    ensures Lists(KidsPreorder(kids, at), n) <==> KidsContain(kids, n)
    decreases kids, 0
  {
    hide Be32, Encode, Preorder;
    match kids
    case NoKids =>
    case KidNop(rest) =>
      KidsPreorderMeans(rest, at + 4, n);
    case Kid(node, rest) =>
      var mid := at + |Encode(node)|;
      PreorderMeans(node, at, n);
      KidsPreorderMeans(rest, mid, n);
      hide Ascending, Lists;
      AscendingConcat(Preorder(node, at), KidsPreorder(rest, mid), at, mid, mid + |EncodeKids(rest)|);
      ListsConcat(Preorder(node, at), KidsPreorder(rest, mid), n);
  }

  /** So the node found is, of all nodes of the tree with the name, the one that begins first. */
  lemma FirstNamedIsLowest(root: Node, at: nat, name: seq<byte>)
    requires Small(root)
    ensures var nodes := Preorder(root, at);
            && (FirstNamed(nodes, name).Some? ==>
                  && FirstNamed(nodes, name).value in nodes && FirstNamed(nodes, name).value.node.name == name
                  && forall f :: f in nodes && f.node.name == name ==> FirstNamed(nodes, name).value.at <= f.at)
            && (FirstNamed(nodes, name).None? ==> forall n: Node :: Contains(root, n) ==> n.name != name)
  {
    hide Contains, Preorder;
    var nodes := Preorder(root, at);
    PreorderMeans(root, at, root);
    FirstNamedIsFirst(nodes, name);
    forall n: Node | Contains(root, n) && FirstNamed(nodes, name).None? ensures n.name != name {
      PreorderMeans(root, at, n);
    }
  }

  // ---- The encoding, byte by byte ----

  /** A big-endian word: the first byte weighs most. */
  lemma Be32Means(n: u32)
    ensures Be32(n)[0] as int * 0x100_0000 + Be32(n)[1] as int * 0x1_0000 + Be32(n)[2] as int * 0x100
            + Be32(n)[3] as int == n
  {
    assert n / 0x1_0000 == n / 256 / 256 && n / 0x100_0000 == n / 256 / 256 / 256;
  }

  /** The tokens of section 5.4.1. */
  lemma TokenBytes()
    ensures Be32(FDT_BEGIN_NODE) == [0, 0, 0, 1] && Be32(FDT_END_NODE) == [0, 0, 0, 2]
    ensures Be32(FDT_PROP) == [0, 0, 0, 3] && Be32(FDT_NOP) == [0, 0, 0, 4]
  {
  }

  /** Zeros up to a multiple of four. */
  lemma PaddingMeans(n: nat)
    ensures Padding(n) == [] || Padding(n) == [0] || Padding(n) == [0, 0] || Padding(n) == [0, 0, 0]
    ensures |Padding(n)| < 4 && (n + |Padding(n)|) % 4 == 0
  {
  }

  /** A node is its begin token, its name with a NUL and padding, its properties, its subnodes and its end token. */
  lemma EncodeMeans(node: Node)
    requires Small(node)
    ensures Encode(node) == [0, 0, 0, 1] + (node.name + [0] + Padding(|node.name| + 1))
                            + EncodeProps(node.props) + EncodeKids(node.kids) + [0, 0, 0, 2]
  {
    TokenBytes();
  }

  /** A property is its token, the length of its value, the offset of its name, the value and padding. */
  lemma EncodePropMeans(nameoff: u32, value: seq<byte>, rest: Props)
    requires |value| <= 0xffff_fffc && SmallValues(rest)
    ensures EncodeProps(Prop(nameoff, value, rest))
         == [0, 0, 0, 3] + Be32(|value|) + Be32(nameoff) + value + Padding(|value|) + EncodeProps(rest)
    ensures EncodeProps(PropNop(rest)) == [0, 0, 0, 4] + EncodeProps(rest) && EncodeProps(NoProps) == []
  {
    TokenBytes();
  }
}
