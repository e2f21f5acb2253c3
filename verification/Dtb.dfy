/** src/dtb.c: searching the flattened devicetree by node name and property name. */
module Dtb {
  import opened Bits64
  import opened CString
  import opened DeviceTree
  import opened Wrappers

  /** Pointers are byte offsets into the blob; dtb_node.end is never set by the code. */
  datatype DtbNode = DtbNode(name: nat, start: nat, propStart: nat)

  datatype SearchResult = SearchResult(matched: bool, node: DtbNode, ptr: nat)

  /** The null name of a property that was not found is None. */
  datatype DtbProp = DtbProp(name: nat, len: nat, value: nat)

  datatype Token = Unknown | BeginNode | EndNode | PropToken | NopToken | EndToken

  const NULL_NODE := DtbNode(0, 0, 0)

  /** The value the code gives to FDT_END.  In the specification FDT_END is 9, which the code reads as unknown. */
  const FDT_END: u32 := 5

  // ---- Reading words ----

  /** *ptr on a little-endian machine. */
  function LoadU32(blob: seq<byte>, p: nat): u32
    requires p + 4 <= |blob|
  {
    blob[p] as int + 0x100 * blob[p + 1] as int + 0x1_0000 * blob[p + 2] as int + 0x100_0000 * blob[p + 3] as int
  }

  /** be_to_le(): the same four bytes, in reverse order. */
  function BeToLe(be: u32): u32 {
    be / 0x100_0000 + 0x100 * (be / 0x1_0000 % 256) + 0x1_0000 * (be / 0x100 % 256) + 0x100_0000 * (be % 256)
  }

  /** be_to_le(*ptr) */
  function Word(blob: seq<byte>, p: nat): u32
    requires p + 4 <= |blob|
  {
    BeToLe(LoadU32(blob, p))
  }

  /** The first byte weighs most. */
  lemma WordMeans(blob: seq<byte>, p: nat)
    requires p + 4 <= |blob|
    ensures Word(blob, p) == blob[p] as int * 0x100_0000 + blob[p + 1] as int * 0x1_0000
                             + blob[p + 2] as int * 0x100 + blob[p + 3] as int
  {
    BytesOfLoad(blob[p], blob[p + 1], blob[p + 2], blob[p + 3]);
  }

  /** Reading a big-endian word gives back the number it encodes. */
  lemma WordOfBe32(blob: seq<byte>, p: nat, n: u32)
    requires At(blob, p, Be32(n))
    ensures Word(blob, p) == n
  {
    var s := Be32(n);
    assert forall i :: 0 <= i < 4 ==> blob[p + i] == blob[p..p + 4][i] == s[i];
    BytesOfLoad(s[0], s[1], s[2], s[3]);
    BigEndian(n);
  }

  lemma BytesOfLoad(a: int, b: int, c: int, d: int)
    requires 0 <= a < 256 && 0 <= b < 256 && 0 <= c < 256 && 0 <= d < 256
    ensures var x := a + 0x100 * b + 0x1_0000 * c + 0x100_0000 * d;
            && x % 256 == a && x / 0x100 % 256 == b && x / 0x1_0000 % 256 == c && x / 0x100_0000 == d
  {
    var x := a + 0x100 * b + 0x1_0000 * c + 0x100_0000 * d;
    assert x / 0x100 == b + 0x100 * c + 0x1_0000 * d;
    assert x / 0x1_0000 == c + 0x100 * d;
  }

  lemma BigEndian(n: u32)
    ensures n == 0x100_0000 * (n / 0x100_0000) + 0x1_0000 * (n / 0x1_0000 % 256) + 0x100 * (n / 256 % 256) + n % 256
  {
    assert n / 0x1_0000 == n / 256 / 256 && n / 0x100_0000 == n / 256 / 256 / 256;
  }

  /** s stands in the blob at p. */
  predicate At(blob: seq<byte>, p: nat, s: seq<byte>) {
    p + |s| <= |blob| && blob[p..p + |s|] == s
  }

  lemma AtConcat(blob: seq<byte>, p: nat, a: seq<byte>, b: seq<byte>)
    requires At(blob, p, a + b)
    ensures At(blob, p, a) && At(blob, p + |a|, b)
  {
    var s := blob[p..p + |a + b|];
    assert s[..|a|] == a && s[|a|..] == b;
    assert blob[p..p + |a|] == s[..|a|];
    assert blob[p + |a|..p + |a| + |b|] == s[|a|..];
  }

  // ---- Rounding lengths up to words ----

  /** DIV_ROUND_UP(len, 4) on a u32, as the node search computes it. */
  function Words32(len: u32): nat {
    (len - 1 + 4) % 0x1_0000_0000 / 4
  }

  /** DIV_ROUND_UP(len, 4) on a size_t, as the property scan and the name skip compute it. */
  function Words64(len: u64): nat {
    (len - 1 + 4) % WORD / 4
  }

  /** The two skips agree exactly on the lengths that 32 bits can round up. */
  lemma SkipsAgree(len: u32)
    ensures Words32(len) == Words64(len) <==> len <= 0xffff_fffc
    ensures len <= 0xffff_fffc ==> 4 * Words32(len) == len + |Padding(len)|
  {
    hide Words32, Words64, Padding;
    Words64Rounds(len);
    Words32Rounds(len);
  }

  lemma Words64Rounds(len: u32)
    ensures 4 * Words64(len) == len + |Padding(len)|
  {
  }

  lemma Words32Rounds(len: u32)
    ensures len <= 0xffff_fffc ==> 4 * Words32(len) == len + |Padding(len)|
    ensures len > 0xffff_fffc ==> 4 * Words32(len) < len
  {
  }

  // ---- What stands after a node's name ----

  function Tail(props: Props, kids: Kids): seq<byte>
    requires SmallValues(props) && SmallKids(kids)
  {
    EncodeProps(props) + EncodeKids(kids) + Be32(FDT_END_NODE)
  }

  lemma TailLength(props: Props, kids: Kids)
    requires SmallValues(props) && SmallKids(kids)
    ensures |Tail(props, kids)| == |EncodeProps(props)| + |EncodeKids(kids)| + 4
  {
  }

  /** The tail begins with a property or a NOP among the properties. */
  lemma TailProp(blob: seq<byte>, p: nat, props: Props, kids: Kids)
    requires SmallValues(props) && SmallKids(kids) && props.Prop? && At(blob, p, Tail(props, kids))
    ensures p + 12 <= |blob|
    ensures Word(blob, p) == FDT_PROP && Word(blob, p + 4) == |props.value| && Word(blob, p + 8) == props.nameoff
    ensures At(blob, p + 12, props.value)
    ensures At(blob, p + 12 + |props.value| + |Padding(|props.value|)|, Tail(props.rest, kids))
  {
    hide Be32, Padding, Word, At, Tail;
    var len := |props.value|;
    var tag, size, off, pad := Be32(FDT_PROP), Be32(len), Be32(props.nameoff), Padding(len);
    var t4 := Tail(props.rest, kids);
    var t3 := pad + t4;
    var t2 := props.value + t3;
    var t1 := off + t2;
    var t0 := size + t1;
    Regroup(tag, size, off, props.value, pad, t4);
    TailOfProp(props, kids);
    AtConcat(blob, p, tag, t0);
    AtConcat(blob, p + 4, size, t1);
    AtConcat(blob, p + 8, off, t2);
    AtConcat(blob, p + 12, props.value, t3);
    AtConcat(blob, p + 12 + len, pad, t4);
    WordOfBe32(blob, p, FDT_PROP);
    WordOfBe32(blob, p + 4, len);
    WordOfBe32(blob, p + 8, props.nameoff);
    AtFits(blob, p + 8, off);
  }

  lemma Assoc(x: seq<byte>, y: seq<byte>, z: seq<byte>)
    ensures (x + y) + z == x + (y + z)
  {
  }

  lemma Regroup(a: seq<byte>, b: seq<byte>, c: seq<byte>, d: seq<byte>, e: seq<byte>, f: seq<byte>)
    ensures a + b + c + d + e + f == a + (b + (c + (d + (e + f))))
  {
  }

  lemma TailOfProp(props: Props, kids: Kids)
    requires SmallValues(props) && SmallKids(kids) && props.Prop?
    ensures Tail(props, kids) == Be32(FDT_PROP) + Be32(|props.value|) + Be32(props.nameoff) + props.value
                                 + Padding(|props.value|) + Tail(props.rest, kids)
  {
    var head := Be32(FDT_PROP) + Be32(|props.value|) + Be32(props.nameoff) + props.value + Padding(|props.value|);
    var rest, k, z := EncodeProps(props.rest), EncodeKids(kids), Be32(FDT_END_NODE);
    Assoc(head, rest, k);
    Assoc(head, rest + k, z);
  }

  lemma TailNop(blob: seq<byte>, p: nat, props: Props, kids: Kids)
    requires SmallValues(props) && SmallKids(kids) && At(blob, p, Tail(props, kids))
    requires props.PropNop? || (props.NoProps? && kids.KidNop?)
    ensures p + 4 <= |blob| && Word(blob, p) == FDT_NOP
    ensures At(blob, p + 4, if props.PropNop? then Tail(props.rest, kids) else Tail(NoProps, kids.rest))
  {
    hide Be32, Word;
    var nop, k, z := Be32(FDT_NOP), EncodeKids(kids), Be32(FDT_END_NODE);
    if props.PropNop? {
      Assoc(nop, EncodeProps(props.rest), k);
      Assoc(nop, EncodeProps(props.rest) + k, z);
    } else {
      assert EncodeProps(props) + k == k && EncodeProps(NoProps) + EncodeKids(kids.rest) == EncodeKids(kids.rest);
      Assoc(nop, EncodeKids(kids.rest), z);
    }
    var rest := if props.PropNop? then Tail(props.rest, kids) else Tail(NoProps, kids.rest);
    assert Tail(props, kids) == Be32(FDT_NOP) + rest;
    AtConcat(blob, p, Be32(FDT_NOP), rest);
    WordOfBe32(blob, p, FDT_NOP);
  }

  lemma TailKid(blob: seq<byte>, p: nat, kids: Kids)
    requires |blob| < WORD && SmallKids(kids) && kids.Kid? && At(blob, p, Tail(NoProps, kids))
    ensures At(blob, p, Encode(kids.node)) && p + 4 <= |blob| && Word(blob, p) == FDT_BEGIN_NODE
    ensures At(blob, p + |Encode(kids.node)|, Tail(NoProps, kids.rest))
  {
    var node := Encode(kids.node);
    assert Tail(NoProps, kids) == node + Tail(NoProps, kids.rest);
    AtConcat(blob, p, node, Tail(NoProps, kids.rest));
    NodeBegins(blob, p, kids.node);
  }

  lemma TailEnd(blob: seq<byte>, p: nat)
    requires At(blob, p, Tail(NoProps, NoKids))
    ensures p + 4 <= |blob| && Word(blob, p) == FDT_END_NODE
  {
    assert Tail(NoProps, NoKids) == Be32(FDT_END_NODE);
    WordOfBe32(blob, p, FDT_END_NODE);
  }

  /** A node begins with its token and its NUL-terminated name; its properties start at the next word. */
  lemma NodeBegins(blob: seq<byte>, p: nat, node: Node)
    requires Small(node) && At(blob, p, Encode(node)) && |blob| < WORD
    ensures p + 4 <= |blob| && Word(blob, p) == FDT_BEGIN_NODE && |node.name| + 1 < WORD
    ensures Terminated(blob, p + 4) && Str(blob, p + 4) == node.name
    ensures |EncodeName(node.name)| == 4 * Words64(|node.name| + 1)
    ensures At(blob, p + 4 + |EncodeName(node.name)|, Tail(node.props, node.kids))
    ensures |Encode(node)| == 4 + |EncodeName(node.name)| + |Tail(node.props, node.kids)|
  {
    hide Be32, Word, Terminated, Str, Words64, EncodeName, Tail, Encode;
    var name, tail := EncodeName(node.name), Tail(node.props, node.kids);
    NodeParts(node);
    AtConcat(blob, p, Be32(FDT_BEGIN_NODE), name + tail);
    AtConcat(blob, p + 4, name, tail);
    WordOfBe32(blob, p, FDT_BEGIN_NODE);
    NameAt(blob, p + 4, node.name);
  }

  lemma NodeParts(node: Node)
    requires Small(node)
    ensures Encode(node) == Be32(FDT_BEGIN_NODE) + (EncodeName(node.name) + Tail(node.props, node.kids))
  {
    var b, n := Be32(FDT_BEGIN_NODE), EncodeName(node.name);
    var p, k, z := EncodeProps(node.props), EncodeKids(node.kids), Be32(FDT_END_NODE);
    Assoc(b + n, p, k);
    Assoc(b + n, p + k, z);
    Assoc(b, n, p + k + z);
  }

  lemma NameLength(name: seq<byte>)
    requires |EncodeName(name)| < WORD
    ensures |name| + 1 < WORD && |EncodeName(name)| == 4 * Words64(|name| + 1)
  {
  }

  lemma NameAt(blob: seq<byte>, p: nat, name: seq<byte>)
    requires At(blob, p, EncodeName(name)) && |blob| < WORD && forall i :: 0 <= i < |name| ==> name[i] != 0
    ensures Terminated(blob, p) && Str(blob, p) == name
    ensures |name| + 1 < WORD && |EncodeName(name)| == 4 * Words64(|name| + 1)
  {
    hide Terminated, Str, Words64;
    var n := |name|;
    var s := EncodeName(name);
    assert blob[p..p + n] == blob[p..p + |s|][..n] == s[..n] == name;
    assert blob[p + n] == blob[p..p + |s|][n] == s[n] == 0;
    StrIs(blob, p, name);
    NameLength(name);
  }

  // ---- The scanners ----

  method DtbReadStructToken(blob: seq<byte>, p: nat) returns (token: Token)
    requires p + 4 <= |blob|
    ensures token == TokenOf(Word(blob, p))
  {
    var data := Word(blob, p);
    if data == FDT_BEGIN_NODE {
      token := BeginNode;
    } else if data == FDT_END_NODE {
      token := EndNode;
    } else if data == FDT_PROP {
      token := PropToken;
    } else if data == FDT_NOP {
      token := NopToken;
    } else if data == FDT_END {
      token := EndToken;
    } else {
      token := Unknown;
    }
  }

  function TokenOf(word: u32): Token {
    if word == 1 then BeginNode else if word == 2 then EndNode else if word == 3 then PropToken
    else if word == 4 then NopToken else if word == 5 then EndToken else Unknown
  }

  /** The record the search returns for a node that starts at p. */
  function NodeRecord(f: Found): DtbNode {
    DtbNode(f.at + 4, f.at, f.at + 4 + |EncodeName(f.node.name)|)
  }

  /** Size of a tree, for termination of the search. */
  function Size(node: Node): nat {
    1 + KidsSize(node.kids)
  }

  function KidsSize(kids: Kids): nat {
    match kids
    case NoKids => 0
    case KidNop(rest) => 1 + KidsSize(rest)
    case Kid(node, rest) => 1 + Size(node) + KidsSize(rest)
  }

  /** ptr stands before the properties ps and subnodes rest of a node whose encoding ends at end, and
      whose nodes in preorder, from here on, are nodes. */
  ghost predicate Standing(blob: seq<byte>, ptr: nat, ps: Props, rest: Kids, end: nat, nodes: seq<Found>) {
    && SmallValues(ps) && SmallKids(rest)
    && At(blob, ptr, Tail(ps, rest)) && ptr + |Tail(ps, rest)| == end
    && KidsPreorder(rest, ptr + |EncodeProps(ps)|) == nodes
  }

  lemma StepProp(blob: seq<byte>, ptr: nat, ps: Props, rest: Kids, end: nat, nodes: seq<Found>)
    requires Standing(blob, ptr, ps, rest, end, nodes) && ps.Prop?
    ensures ptr + 12 <= |blob| && |ps.value| <= 0xffff_fffc
    ensures Word(blob, ptr + 4) == |ps.value| && Word(blob, ptr + 8) == ps.nameoff
    ensures Standing(blob, ptr + 12 + 4 * Words32(|ps.value|), ps.rest, rest, end, nodes)
  {
    hide Be32, Word, At, Tail, Words32, Padding;
    TailProp(blob, ptr, ps, rest);
    TailLength(ps, rest);
    TailLength(ps.rest, rest);
    SkipsAgree(|ps.value|);
  }

  /** The properties and subnodes left after a NOP. */
  function AfterNop(ps: Props, rest: Kids): (Props, Kids) {
    if ps.PropNop? then (ps.rest, rest) else if rest.KidNop? then (ps, rest.rest) else (ps, rest)
  }

  lemma StepNop(blob: seq<byte>, ptr: nat, ps: Props, rest: Kids, end: nat, nodes: seq<Found>)
    requires Standing(blob, ptr, ps, rest, end, nodes)
    requires ps.PropNop? || (ps.NoProps? && rest.KidNop?)
    ensures Standing(blob, ptr + 4, AfterNop(ps, rest).0, AfterNop(ps, rest).1, end, nodes)
  {
    hide Be32, Word, At, Tail;
    TailNop(blob, ptr, ps, rest);
    TailLength(ps, rest);
    TailLength(AfterNop(ps, rest).0, AfterNop(ps, rest).1);
  }

  /** src/dtb.c:165-185: up to the first token that is neither a property nor a NOP. */
  method SkipProps(blob: seq<byte>, p: nat, ghost props: Props, ghost kids: Kids, ghost end: nat, ghost nodes: seq<Found>)
    returns (ptr: nat, ghost rest: Kids)
    requires |blob| < WORD && Standing(blob, p, props, kids, end, nodes)
    ensures Standing(blob, ptr, NoProps, rest, end, nodes) && !rest.KidNop? && KidsSize(rest) <= KidsSize(kids)
  {
    hide Standing, Be32, Word, At, Tail;
    ptr, rest := p, kids;
    ghost var ps := props;
    while true
      invariant Standing(blob, ptr, ps, rest, end, nodes) && KidsSize(rest) <= KidsSize(kids)
      decreases ps, rest
    {
      TailToken(blob, ptr, ps, rest, end, nodes);
      var token := DtbReadStructToken(blob, ptr);
      if token == PropToken {
        StepProp(blob, ptr, ps, rest, end, nodes);
        ptr := ptr + 4;
        var len := Word(blob, ptr);
        ptr := ptr + 4;
        ptr := ptr + 4;
        ptr := ptr + 4 * Words32(len);
        ps := ps.rest;
      } else if token == NopToken {
        StepNop(blob, ptr, ps, rest, end, nodes);
        ptr := ptr + 4;
        ps, rest := AfterNop(ps, rest).0, AfterNop(ps, rest).1;
      } else {
        break;
      }
    }
  }

  /** The token at the start of a tail tells what the tail begins with. */
  lemma TailToken(blob: seq<byte>, p: nat, props: Props, kids: Kids, end: nat, nodes: seq<Found>)
    requires |blob| < WORD && Standing(blob, p, props, kids, end, nodes)
    ensures p + 4 <= |blob|
    ensures TokenOf(Word(blob, p)) == (if props.Prop? then PropToken
                                       else if props.PropNop? || kids.KidNop? then NopToken
                                       else if kids.Kid? then BeginNode else EndNode)
  {
    hide Be32, At, Word, Tail;
    if props.Prop? {
      TailProp(blob, p, props, kids);
    } else if props.PropNop? || kids.KidNop? {
      TailNop(blob, p, props, kids);
    } else if kids.Kid? {
      TailKid(blob, p, kids);
    } else {
      TailEnd(blob, p);
    }
  }

  /** What the search of a subtree reports: the first node in preorder with the name, or the end of the subtree. */
  ghost predicate Reports(r: SearchResult, nodes: seq<Found>, name: seq<byte>, end: nat) {
    match FirstNamed(nodes, name)
    case Some(f) => r.matched && r.node == NodeRecord(f)
    case None => !r.matched && r.ptr == end
  }

  lemma NodeStanding(blob: seq<byte>, p: nat, node: Node)
    requires |blob| < WORD && Small(node) && At(blob, p, Encode(node))
    ensures var at := p + 4 + |EncodeName(node.name)|;
            Standing(blob, at, node.props, node.kids, p + |Encode(node)|,
                     KidsPreorder(node.kids, at + |EncodeProps(node.props)|))
  {
    hide Be32, Word, At, Tail, Words64;
    NodeBegins(blob, p, node);
  }

  /** The first subnode, and what is left after it. */
  lemma StepKid(blob: seq<byte>, ptr: nat, kids: Kids, end: nat, nodes: seq<Found>, name: seq<byte>)
    requires |blob| < WORD && Standing(blob, ptr, NoProps, kids, end, nodes) && kids.Kid?
    ensures ptr + 4 <= |blob| && Small(kids.node) && At(blob, ptr, Encode(kids.node)) && SmallKids(kids.rest)
    ensures var next, first := ptr + |Encode(kids.node)|, Preorder(kids.node, ptr);
            && Standing(blob, next, NoProps, kids.rest, end, KidsPreorder(kids.rest, next))
            && FirstNamed(nodes, name) == if FirstNamed(first, name).Some? then FirstNamed(first, name)
                                          else FirstNamed(KidsPreorder(kids.rest, next), name)
  {
    hide Be32, Word, At, Tail, Encode, Preorder;
    TailKid(blob, ptr, kids);
    TailLength(NoProps, kids);
    TailLength(NoProps, kids.rest);
    FirstNamedConcat(Preorder(kids.node, ptr), KidsPreorder(kids.rest, ptr + |Encode(kids.node)|), name);
  }

  lemma StandsAtEnd(blob: seq<byte>, ptr: nat, end: nat, nodes: seq<Found>, name: seq<byte>)
    requires Standing(blob, ptr, NoProps, NoKids, end, nodes)
    ensures ptr + 4 == end && FirstNamed(nodes, name) == None
  {
  }

  /** dtb_match_node_name_rec().  If no node is present at p, another token stands there and nothing
      is found. */
  method DtbMatchNodeNameRec(blob: seq<byte>, name: seq<byte>, p: nat, ghost present: bool, ghost node: Node)
    returns (r: SearchResult)
    requires |blob| < WORD && p + 4 <= |blob| && Terminated(name, 0)
    requires present ==> Small(node) && At(blob, p, Encode(node))
    requires !present ==> Word(blob, p) != FDT_BEGIN_NODE
    ensures present ==> Reports(r, Preorder(node, p), Str(name, 0), p + |Encode(node)|)
    ensures !present ==> !r.matched && r.ptr == p
    decreases Size(node)
  {
    hide At, Be32, Word, Tail, Encode, Str, Terminated, Standing, Words64, FirstNamed,
         KidsPreorder, EncodeName, EncodeProps;
    if present {
      NodeBegins(blob, p, node);
    }
    var token := DtbReadStructToken(blob, p);
    if token != BeginNode {
      return SearchResult(false, NULL_NODE, p);
    }
    var ptr: nat := p + 4;
    var len := StrLen(blob, ptr);
    var record := DtbNode(ptr, p, ptr + 4 * Words64(len + 1));
    ghost var all := KidsPreorder(node.kids, record.propStart + |EncodeProps(node.props)|);
    FirstOfPreorder(node, p, Str(name, 0));
    var cmp := StrCmp(blob, ptr, name, 0);
    if cmp == 0 {
      return SearchResult(true, record, ptr);
    }
    ghost var end, nodes, kids := p + |Encode(node)|, all, node.kids;
    NodeStanding(blob, p, node);
    ptr, kids := SkipProps(blob, record.propStart, node.props, kids, end, nodes);
    token := Unknown;
    while true
      invariant Standing(blob, ptr, NoProps, kids, end, nodes)
      invariant KidsSize(kids) <= KidsSize(node.kids)
      invariant FirstNamed(nodes, Str(name, 0)) == FirstNamed(all, Str(name, 0))
      decreases KidsSize(kids)
    {
      TailToken(blob, ptr, NoProps, kids, end, nodes);
      token := DtbReadStructToken(blob, ptr);
      if token == NopToken {
        StepNop(blob, ptr, NoProps, kids, end, nodes);
        ptr := ptr + 4;
        kids := kids.rest;
      } else if token == BeginNode {
        StepKid(blob, ptr, kids, end, nodes, Str(name, 0));
        r := DtbMatchNodeNameRec(blob, name, ptr, true, kids.node);
        if r.matched {
          return;
        }
        ptr := r.ptr;
        kids, nodes := kids.rest, KidsPreorder(kids.rest, ptr);
      } else {
        break;
      }
    }
    StandsAtEnd(blob, ptr, end, nodes, Str(name, 0));
    if token == EndNode {
      ptr := ptr + 4;
    }
    return SearchResult(false, NULL_NODE, ptr);
  }

  lemma FirstOfPreorder(node: Node, p: nat, name: seq<byte>)
    requires Small(node)
    ensures FirstNamed(Preorder(node, p), name)
         == if node.name == name then Some(Found(p, node))
            else FirstNamed(KidsPreorder(node.kids, p + 4 + |EncodeName(node.name)| + |EncodeProps(node.props)|), name)
  {
    hide EncodeName, EncodeProps, KidsPreorder;
    FirstNamedConcat([Found(p, node)],
                     KidsPreorder(node.kids, p + 4 + |EncodeName(node.name)| + |EncodeProps(node.props)|), name);
  }

  // ---- Whole-blob searches ----

  /** DTB_STRUCTS and DTB_STRINGS: header fields at byte offsets 8 and 12. */
  function Structs(blob: seq<byte>): nat
    requires 16 <= |blob|
  {
    Word(blob, 8)
  }

  function Strings(blob: seq<byte>): nat
    requires 16 <= |blob|
  {
    Word(blob, 12)
  }

  function Nops(n: nat): seq<byte> {
    if n == 0 then [] else Be32(FDT_NOP) + Nops(n - 1)
  }

  /** The two offsets of the header, as section 5.2 places them: off_dt_struct at byte 8, off_dt_strings at byte 12. */
  ghost predicate Header(blob: seq<byte>, structs: u32, strings: u32) {
    At(blob, 8, Be32(structs)) && At(blob, 12, Be32(strings))
  }

  lemma HeaderFields(blob: seq<byte>, structs: u32, strings: u32)
    requires At(blob, 8, Be32(structs)) && At(blob, 12, Be32(strings))
    ensures Header(blob, structs, strings)
    ensures 16 <= |blob| && Structs(blob) == structs && Strings(blob) == strings
  {
    hide Word;
    assert |Be32(strings)| == 4;
    WordOfBe32(blob, 8, structs);
    WordOfBe32(blob, 12, strings);
  }

  /** A blob by its bytes: the header says where the blocks are, and the structure block opens with some NOP tokens,
      which the specification allows, and the root. */
  ghost predicate Blob(blob: seq<byte>, structs: u32, strings: u32, nops: nat, root: Node) {
    && |blob| < WORD && Small(root) && Header(blob, structs, strings)
    && At(blob, structs, Nops(nops) + Encode(root))
  }

  lemma {:induction false} NopsLength(n: nat)
    ensures |Nops(n)| == 4 * n
  {
    if n > 0 {
      NopsLength(n - 1);
    }
  }

  /** What a search by name should return: the record of the first node in preorder, or nothing. */
  function NodeNamed(root: Node, at: nat, name: seq<byte>): DtbNode
    requires Small(root)
  {
    match FirstNamed(Preorder(root, at), name)
    case Some(f) => NodeRecord(f)
    case None => NULL_NODE
  }

  /** The first word of the structure block is a NOP, or the root stands there. */
  lemma BlockStart(blob: seq<byte>, structs: u32, strings: u32, nops: nat, root: Node)
    requires Blob(blob, structs, strings, nops, root)
    ensures 16 <= |blob| && Structs(blob) == structs && Strings(blob) == strings && structs + 4 <= |blob|
    ensures nops == 0 ==> At(blob, structs, Encode(root))
    ensures nops > 0 ==> Word(blob, structs) == FDT_NOP
  {
    hide Be32, Word, At, Encode, Structs, Strings;
    HeaderFields(blob, structs, strings);
    AtConcat(blob, structs, Nops(nops), Encode(root));
    NopsLength(nops);
    if nops == 0 {
      NodeBegins(blob, structs, root);
    } else {
      AtConcat(blob, structs, Be32(FDT_NOP), Nops(nops - 1));
      WordOfBe32(blob, structs, FDT_NOP);
      AtFits(blob, structs, Nops(nops));
    }
  }

  lemma AtFits(blob: seq<byte>, p: nat, s: seq<byte>)
    requires At(blob, p, s)
    ensures p + |s| <= |blob|
  {
  }

  /** dtb_match_node_name(): the right node exactly when no NOP stands before the root, or no node has
      the name.  Behind a leading NOP nothing is found. */
  method DtbMatchNodeName(blob: seq<byte>, name: seq<byte>, ghost structs: u32, ghost strings: u32, ghost nops: nat,
                          ghost root: Node)
    returns (node: DtbNode)
    requires Blob(blob, structs, strings, nops, root) && Terminated(name, 0)
    ensures ghost var expected := NodeNamed(root, structs + 4 * nops, Str(name, 0));
            node == expected <==> nops == 0 || expected == NULL_NODE
    ensures nops > 0 ==> node == NULL_NODE
  {
    hide Be32, Word, At, Encode, Str, Terminated, Preorder, FirstNamed;
    BlockStart(blob, structs, strings, nops, root);
    var ptr := Structs(blob);
    var result := DtbMatchNodeNameRec(blob, name, ptr, nops == 0, root);
    if result.matched {
      node := result.node;
    } else {
      node := NULL_NODE;
    }
  }

  /** Every property name is a string of the strings block. */
  predicate NamedIn(blob: seq<byte>, strings: nat, props: Props) {
    match props
    case NoProps => true
    case PropNop(rest) => NamedIn(blob, strings, rest)
    case Prop(nameoff, _, rest) => Named(blob, strings + nameoff) && NamedIn(blob, strings, rest)
  }

  predicate Named(blob: seq<byte>, p: nat) {
    p < |blob| && exists q: nat :: p <= q < |blob| && blob[q] == 0
  }

  /** The string at p is the name. */
  ghost predicate NameIs(blob: seq<byte>, p: nat, name: seq<byte>) {
    Terminated(blob, p) && Str(blob, p) == name
  }

  function Record(strings: nat, p: PropAt): DtbProp {
    DtbProp(strings + p.nameoff, p.len, p.value)
  }

  /** The first property of a list with the name. */
  ghost function FirstProp(blob: seq<byte>, strings: nat, list: seq<PropAt>, name: seq<byte>): Option<DtbProp> {
    if list == [] then None
    else if NameIs(blob, strings + list[0].nameoff, name) then Some(Record(strings, list[0]))
    else FirstProp(blob, strings, list[1..], name)
  }

  /** dtb_node_match_property(), on a node whose properties start at node.propStart. */
  method DtbNodeMatchProperty(blob: seq<byte>, node: DtbNode, name: seq<byte>,
                              ghost structs: u32, ghost strings: u32,
                              ghost props: Props, ghost kids: Kids, ghost end: nat, ghost nodes: seq<Found>)
    returns (prop: Option<DtbProp>)
    requires |blob| < WORD && Header(blob, structs, strings) && Terminated(name, 0)
    requires Standing(blob, node.propStart, props, kids, end, nodes) && NamedIn(blob, strings, props)
    ensures prop == FirstProp(blob, strings, PropList(props, node.propStart), Str(name, 0))
  {
    hide Standing, Be32, Word, At, Tail, Terminated, Str, Words32, Words64;
    HeaderFields(blob, structs, strings);
    var ptr: nat := node.propStart;
    ghost var ps, rest := props, kids;
    while true
      invariant Standing(blob, ptr, ps, rest, end, nodes) && NamedIn(blob, strings, ps)
      invariant FirstProp(blob, strings, PropList(ps, ptr), Str(name, 0))
             == FirstProp(blob, strings, PropList(props, node.propStart), Str(name, 0))
      decreases ps, rest
    {
      TailToken(blob, ptr, ps, rest, end, nodes);
      var token := DtbReadStructToken(blob, ptr);
      if token == PropToken {
        StepProp(blob, ptr, ps, rest, end, nodes);
        var len := Word(blob, ptr + 4);
        var propName := Strings(blob) + Word(blob, ptr + 8);
        NamedIsTerminated(blob, propName);
        SkipsAgree(len);
        PropListStep(ps, ptr);
        var cmp := StrCmp(blob, propName, name, 0);
        if cmp == 0 {
          return Some(DtbProp(propName, len, ptr + 12));
        }
        ptr := ptr + 12 + 4 * Words64(len);
        ps := ps.rest;
      } else if token == NopToken {
        StepNop(blob, ptr, ps, rest, end, nodes);
        ptr := ptr + 4;
        ps, rest := AfterNop(ps, rest).0, AfterNop(ps, rest).1;
      } else {
        return None;
      }
    }
  }

  lemma PropListStep(props: Props, at: nat)
    requires props.Prop?
    ensures PropList(props, at) != []
    ensures PropList(props, at)[0] == PropAt(props.nameoff, |props.value|, at + 12)
    ensures PropList(props, at)[1..] == PropList(props.rest, at + 12 + |props.value| + |Padding(|props.value|)|)
  {
  }

  lemma NamedIsTerminated(blob: seq<byte>, p: nat)
    requires Named(blob, p)
    ensures Terminated(blob, p)
  {
  }

  /** Every node listed in preorder is encoded where the list says. */
  lemma {:induction false} PreorderAt(blob: seq<byte>, node: Node, p: nat, f: Found)
    requires |blob| < WORD && Small(node) && At(blob, p, Encode(node)) && f in Preorder(node, p)
    ensures Small(f.node) && At(blob, f.at, Encode(f.node))
    decreases node, 0
  {
    hide Be32, At, Encode, EncodeName, EncodeProps, KidsPreorder, Tail, Word, Words64;
    if f != Found(p, node) {
      NodeBegins(blob, p, node);
      var at := p + 4 + |EncodeName(node.name)|;
      KidsPreorderAt(blob, node.props, node.kids, at, f);
    }
  }

  lemma {:induction false} KidsPreorderAt(blob: seq<byte>, props: Props, kids: Kids, p: nat, f: Found)
    requires |blob| < WORD && SmallValues(props) && SmallKids(kids) && At(blob, p, Tail(props, kids))
    requires f in KidsPreorder(kids, p + |EncodeProps(props)|)
    ensures Small(f.node) && At(blob, f.at, Encode(f.node))
    decreases kids, 1
  {
    Assoc(EncodeProps(props), EncodeKids(kids), Be32(FDT_END_NODE));
    AtConcat(blob, p, EncodeProps(props), EncodeKids(kids) + Be32(FDT_END_NODE));
    OnlyKids(kids);
    KidsOnlyAt(blob, kids, p + |EncodeProps(props)|, f);
  }

  lemma OnlyKids(kids: Kids)
    requires SmallKids(kids)
    ensures Tail(NoProps, kids) == EncodeKids(kids) + Be32(FDT_END_NODE)
  {
  }

  lemma {:induction false} KidsOnlyAt(blob: seq<byte>, kids: Kids, p: nat, f: Found)
    requires |blob| < WORD && SmallKids(kids) && At(blob, p, Tail(NoProps, kids)) && f in KidsPreorder(kids, p)
    ensures Small(f.node) && At(blob, f.at, Encode(f.node))
    decreases kids, 0
  {
    hide At, Tail, Encode, Preorder;
    match kids
    case NoKids =>
    case KidNop(rest) =>
      TailNop(blob, p, NoProps, kids);
      KidsOnlyAt(blob, rest, p + 4, f);
    case Kid(node, rest) =>
      TailKid(blob, p, kids);
      if f in Preorder(node, p) {
        PreorderAt(blob, node, p, f);
      } else {
        KidsOnlyAt(blob, rest, p + |Encode(node)|, f);
      }
  }

  /** The node search and the property scan fit together: the record of any node of the tree names it, and is
      one the property scan accepts, with that node's own properties. */
  lemma FoundNodeStands(blob: seq<byte>, structs: u32, strings: u32, root: Node, f: Found)
    requires Blob(blob, structs, strings, 0, root) && f in Preorder(root, structs)
    ensures Small(f.node) && NodeRecord(f).start == f.at && NameIs(blob, NodeRecord(f).name, f.node.name)
    ensures Standing(blob, NodeRecord(f).propStart, f.node.props, f.node.kids, f.at + |Encode(f.node)|,
                     KidsPreorder(f.node.kids, NodeRecord(f).propStart + |EncodeProps(f.node.props)|))
  {
    hide At, Encode, Preorder, Standing, Str, Terminated, Word, Structs, Strings, Words64, Tail;
    BlockStart(blob, structs, strings, 0, root);
    PreorderAt(blob, root, structs, f);
    NodeStanding(blob, f.at, f.node);
    NodeBegins(blob, f.at, f.node);
  }

  // ---- What a property record means ----

  /** The properties of a node: offset of the name, and value. */
  function Values(props: Props): seq<(u32, seq<byte>)> {
    match props
    case NoProps => []
    case PropNop(rest) => Values(rest)
    case Prop(nameoff, value, rest) => [(nameoff, value)] + Values(rest)
  }

  /** The list of properties has one entry for each property of the node, in order: its length is that of the value,
      and the bytes at its value offset are the value. */
  lemma {:induction false} ValuesStand(blob: seq<byte>, at: nat, props: Props, kids: Kids, i: nat)
    requires |blob| < WORD && SmallValues(props) && SmallKids(kids) && At(blob, at, Tail(props, kids))
    requires i < |PropList(props, at)|
    ensures |PropList(props, at)| == |Values(props)|
    ensures var p, v := PropList(props, at)[i], Values(props)[i];
            p.nameoff == v.0 && p.len == |v.1| && At(blob, p.value, v.1)
    decreases props
  {
    hide Be32, Word, At, Tail, Padding;
    match props
    case PropNop(rest) =>
      TailNop(blob, at, props, kids);
      ValuesStand(blob, at + 4, rest, kids, i);
    case Prop(nameoff, value, rest) =>
      TailProp(blob, at, props, kids);
      var next := at + 12 + |value| + |Padding(|value|)|;
      SameCount(props, at);
      SameCount(rest, next);
      if i > 0 {
        ValuesStand(blob, next, rest, kids, i - 1);
      }
  }

  lemma {:induction false} SameCount(props: Props, at: nat)
    ensures |PropList(props, at)| == |Values(props)|
    decreases props
  {
    hide Padding;
    match props
    case NoProps =>
    case PropNop(rest) => SameCount(rest, at + 4);
    case Prop(_, value, rest) => SameCount(rest, at + 12 + |value| + |Padding(|value|)|);
  }

  /** What prop says about the i-th property of a node: it is named so, no property before it is, and the record has its
      length and points to its name and to its value. */
  ghost predicate IsProperty(blob: seq<byte>, strings: nat, props: Props, name: seq<byte>, prop: DtbProp, i: nat) {
    && i < |Values(props)|
    && NameIs(blob, strings + Values(props)[i].0, name) && prop.name == strings + Values(props)[i].0
    && prop.len == |Values(props)[i].1| && At(blob, prop.value, Values(props)[i].1)
    && forall j :: 0 <= j < i ==> !NameIs(blob, strings + Values(props)[j].0, name)
  }

  /** The record is that of the first property with the name; there is none exactly if no property has the name. */
  ghost predicate Answers(blob: seq<byte>, strings: nat, props: Props, name: seq<byte>, prop: Option<DtbProp>) {
    match prop
    case Some(p) => exists i: nat :: IsProperty(blob, strings, props, name, p, i)
    case None => forall i :: 0 <= i < |Values(props)| ==> !NameIs(blob, strings + Values(props)[i].0, name)
  }

  /** The first entry of the list with the name answers the question. */
  lemma PropertyMeans(blob: seq<byte>, strings: nat, at: nat, props: Props, kids: Kids, name: seq<byte>)
    requires |blob| < WORD && SmallValues(props) && SmallKids(kids) && At(blob, at, Tail(props, kids))
    ensures Answers(blob, strings, props, name, FirstProp(blob, strings, PropList(props, at), name))
  {
    hide NameIs, At, Tail, FirstProp, PropList, Values;
    var list := PropList(props, at);
    SameCount(props, at);
    FirstPropIsFirst(blob, strings, list, name);
    forall i | 0 <= i < |list|
      ensures list[i].nameoff == Values(props)[i].0 && list[i].len == |Values(props)[i].1|
      ensures At(blob, list[i].value, Values(props)[i].1)
    {
      ValuesStand(blob, at, props, kids, i);
    }
    var prop := FirstProp(blob, strings, list, name);
    if prop.Some? {
      var i: nat :| && i < |list| && prop.value == Record(strings, list[i])
                    && NameIs(blob, strings + list[i].nameoff, name)
                    && forall j :: 0 <= j < i ==> !NameIs(blob, strings + list[j].nameoff, name);
      assert IsProperty(blob, strings, props, name, prop.value, i);
    }
  }

  // ---- Both searches ----

  /** Every property name of every node is a string of the strings block. */
  ghost predicate AllNamed(blob: seq<byte>, structs: u32, strings: u32, root: Node)
    requires Small(root)
  {
    forall f :: f in Preorder(root, structs) ==> NamedIn(blob, strings, f.node.props)
  }

  lemma {:induction false} FirstNamedIn(nodes: seq<Found>, name: seq<byte>)
    requires FirstNamed(nodes, name).Some?
    ensures FirstNamed(nodes, name).value in nodes
  {
    if nodes[0].node.name != name {
      FirstNamedIn(nodes[1..], name);
    }
  }

  /** The two searches one after the other, as src/ktest/startup.c:21-22 makes them for chosen and bootargs:
      the first property with the name among those of the first node with the name. */
  method PropertyOfNode(blob: seq<byte>, nodeName: seq<byte>, propName: seq<byte>, ghost structs: u32,
                        ghost strings: u32, ghost root: Node)
    returns (prop: Option<DtbProp>)
    requires Blob(blob, structs, strings, 0, root) && AllNamed(blob, structs, strings, root)
    requires Terminated(nodeName, 0) && Terminated(propName, 0)
    // without such a node the property scan would read through a null pointer
    requires FirstNamed(Preorder(root, structs), Str(nodeName, 0)).Some?
    ensures ghost var props := FirstNamed(Preorder(root, structs), Str(nodeName, 0)).value.node.props;
            Answers(blob, strings, props, Str(propName, 0), prop)
  {
    hide Blob, Preorder, Terminated, Str, Standing, FirstProp, NamedIn, FirstNamed, Answers, NodeRecord, Encode;
    BlobIsSmall(blob, structs, strings, root);
    ghost var f := FirstNamed(Preorder(root, structs), Str(nodeName, 0)).value;
    FirstNamedIn(Preorder(root, structs), Str(nodeName, 0));
    FoundNodeStands(blob, structs, strings, root, f);
    NodeExists(f);
    var node := DtbMatchNodeName(blob, nodeName, structs, strings, 0, root);
    ghost var nodes := KidsPreorder(f.node.kids, node.propStart + |EncodeProps(f.node.props)|);
    prop := DtbNodeMatchProperty(blob, node, propName, structs, strings, f.node.props, f.node.kids,
                                 f.at + |Encode(f.node)|, nodes);
    StandingIsAt(blob, node.propStart, f.node.props, f.node.kids, f.at + |Encode(f.node)|, nodes);
    PropertyMeans(blob, strings, node.propStart, f.node.props, f.node.kids, Str(propName, 0));
  }

  lemma StandingIsAt(blob: seq<byte>, ptr: nat, ps: Props, rest: Kids, end: nat, nodes: seq<Found>)
    requires Standing(blob, ptr, ps, rest, end, nodes)
    ensures SmallValues(ps) && SmallKids(rest) && At(blob, ptr, Tail(ps, rest))
  {
  }

  lemma BlobIsSmall(blob: seq<byte>, structs: u32, strings: u32, root: Node)
    requires Blob(blob, structs, strings, 0, root)
    ensures |blob| < WORD && Small(root) && Header(blob, structs, strings)
  {
  }

  lemma NodeExists(f: Found)
    ensures NodeRecord(f) != NULL_NODE
  {
  }

  // ---- Blobs exist ----

  /** The structure block: NOPs, the root, and the end token of the specification. */
  function StructureBlock(nops: nat, root: Node): seq<byte>
    requires Small(root)
  {
    Nops(nops) + Encode(root) + Be32(9)
  }

  /** A blob for any tree, with any number of NOPs before its root: a header of ten words as in section 5.2, the
      structure block behind it, and behind that the strings block. */
  function BlobOf(nops: nat, root: Node, strings: seq<byte>): seq<byte>
    requires Small(root) && 40 + |StructureBlock(nops, root)| + |strings| < 0x1_0000_0000
  {
    var n := |StructureBlock(nops, root)|;
    Be32(0xd00d_feed) + Be32(40 + n + |strings|)
    + (Be32(40) + (Be32(40 + n) + (Be32(0) + Be32(17) + Be32(16) + Be32(0) + Be32(|strings|) + Be32(n)
                                   + (StructureBlock(nops, root) + strings))))
  }

  /** Leading NOPs do occur: every tree has a blob with any number of them, as far as its offsets fit. */
  lemma LeadingNops(nops: nat, root: Node, strings: seq<byte>)
    requires Small(root) && 40 + |StructureBlock(nops, root)| + |strings| < 0x1_0000_0000
    ensures Blob(BlobOf(nops, root, strings), 40, 40 + |StructureBlock(nops, root)|, nops, root)
  {
    hide Be32, Nops, Encode, At;
    var blob, body, n := BlobOf(nops, root, strings), Nops(nops) + Encode(root), |StructureBlock(nops, root)|;
    var six := Be32(0) + Be32(17) + Be32(16) + Be32(0) + Be32(|strings|) + Be32(n);
    var tail := StructureBlock(nops, root) + strings;
    var first := Be32(0xd00d_feed) + Be32(40 + n + |strings|);
    WholeAt(blob);
    AtConcat(blob, 0, first, Be32(40) + (Be32(40 + n) + (six + tail)));
    AtConcat(blob, 8, Be32(40), Be32(40 + n) + (six + tail));
    AtConcat(blob, 12, Be32(40 + n), six + tail);
    AtConcat(blob, 16, six, tail);
    Assoc(body, Be32(9), strings);
    AtConcat(blob, 40, body, Be32(9) + strings);
  }

  lemma WholeAt(blob: seq<byte>)
    ensures At(blob, 0, blob)
  {
  }

  /** So the search does fail: behind a single NOP it misses a root that has the name. */
  lemma LeadingNopHidesRoot(name: seq<byte>)
    requires (forall i :: 0 <= i < |name| ==> name[i] != 0) && |name| < 0x1000_0000
    ensures var root := Node(name, NoProps, NoKids);
            && Small(root) && |StructureBlock(1, root)| < 0x2000_0000
            && Blob(BlobOf(1, root, []), 40, 40 + |StructureBlock(1, root)|, 1, root)
            && NodeNamed(root, 44, name) != NULL_NODE
  {
    var root := Node(name, NoProps, NoKids);
    NopsLength(1);
    assert |Encode(root)| == 4 + |EncodeName(name)| + 4 && |EncodeName(name)| <= |name| + 4;
    LeadingNops(1, root, []);
  }

  /** What the first entry of a list contributes to the search. */
  lemma FirstPropStep(blob: seq<byte>, strings: nat, list: seq<PropAt>, name: seq<byte>, i: nat)
    requires list != [] && !NameIs(blob, strings + list[0].nameoff, name)
    requires && i < |list| - 1 && FirstProp(blob, strings, list[1..], name) == Some(Record(strings, list[1..][i]))
             && NameIs(blob, strings + list[1..][i].nameoff, name)
             && forall j :: 0 <= j < i ==> !NameIs(blob, strings + list[1..][j].nameoff, name)
    ensures && FirstProp(blob, strings, list, name) == Some(Record(strings, list[i + 1]))
            && NameIs(blob, strings + list[i + 1].nameoff, name)
            && forall j :: 0 <= j < i + 1 ==> !NameIs(blob, strings + list[j].nameoff, name)
  {
    hide NameIs, Record;
    assert list[1..][i] == list[i + 1];
    forall j | 0 < j < i + 1 ensures !NameIs(blob, strings + list[j].nameoff, name) {
      assert list[1..][j - 1] == list[j];
    }
  }

  /** The property found is the first in the node's own list with the name; none is found exactly if
      the list has none. */
  lemma {:induction false} FirstPropIsFirst(blob: seq<byte>, strings: nat, list: seq<PropAt>, name: seq<byte>)
    ensures FirstProp(blob, strings, list, name).None? <==>
              forall i :: 0 <= i < |list| ==> !NameIs(blob, strings + list[i].nameoff, name)
    ensures FirstProp(blob, strings, list, name).Some? ==>
              exists i :: && 0 <= i < |list| && FirstProp(blob, strings, list, name).value == Record(strings, list[i])
                          && NameIs(blob, strings + list[i].nameoff, name)
                          && forall j :: 0 <= j < i ==> !NameIs(blob, strings + list[j].nameoff, name)
    decreases |list|
  {
    hide NameIs, Record;
    if list != [] && !NameIs(blob, strings + list[0].nameoff, name) {
      var rest := list[1..];
      FirstPropIsFirst(blob, strings, rest, name);
      if FirstProp(blob, strings, rest, name).Some? {
        var i: nat :| && i < |rest| && FirstProp(blob, strings, rest, name).value == Record(strings, rest[i])
                      && NameIs(blob, strings + rest[i].nameoff, name)
                      && forall j :: 0 <= j < i ==> !NameIs(blob, strings + rest[j].nameoff, name);
        FirstPropStep(blob, strings, list, name, i);
      } else {
        NoPropStep(blob, strings, list, name);
      }
    }
  }

  lemma NoPropStep(blob: seq<byte>, strings: nat, list: seq<PropAt>, name: seq<byte>)
    requires list != [] && !NameIs(blob, strings + list[0].nameoff, name)
    requires forall i :: 0 <= i < |list| - 1 ==> !NameIs(blob, strings + list[1..][i].nameoff, name)
    ensures forall i :: 0 <= i < |list| ==> !NameIs(blob, strings + list[i].nameoff, name)
  {
    hide NameIs;
    forall i | 0 < i < |list| ensures !NameIs(blob, strings + list[i].nameoff, name) {
      assert list[1..][i - 1] == list[i];
    }
  }
}
