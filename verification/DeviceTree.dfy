/** The flattened-device-tree writer: a structure block of tokens and a strings block of
    interned property names behind a header (chapter 5 of the Devicetree Specification). */
module DeviceTree {
  import opened Words

  const BEGIN_NODE: nat := 1
  const END_NODE: nat := 2
  const PROP: nat := 3
  const END: nat := 9

  type Bytes = seq<Byte>

  datatype Prop = Prop(name: Bytes, value: Bytes)
  datatype Tree = Node(name: Bytes, props: seq<Prop>, children: seq<Tree>)

  function Pack(v: nat): Bytes {
    ToBe(v, 4)
  }

  /** How many bytes follow to reach a multiple of four. */
  function Gap(n: nat): nat {
    (0 - n) % 4
  }

  function Padded(b: Bytes): Bytes {
    b + Zeros(Gap(|b|))
  }

  /** A string is its bytes and a NUL. */
  function Text(name: Bytes): Bytes {
    name + [0]
  }

  // --- Interned names ---

  /** The strings block and where each name starts in it. */
  datatype Table = Table(strings: Bytes, offsets: map<Bytes, nat>)

  function Intern(t: Table, name: Bytes): Table {
    if name in t.offsets then t
    else Table(t.strings + Text(name), t.offsets[name := |t.strings|])
  }

  function InternProps(t: Table, props: seq<Prop>): Table
    decreases |props|
  {
    if props == [] then t else InternProps(Intern(t, props[0].name), props[1..])
  }

  function InternTree(t: Table, tree: Tree): Table
    decreases tree, 1, 0
  {
    InternFrom(InternProps(t, tree.props), tree, 0)
  }

  /** The names below the children from number `n` on. */
  function InternFrom(t: Table, tree: Tree, n: nat): Table
    requires n <= |tree.children|
    decreases tree, 0, |tree.children| - n
  {
    if n == |tree.children| then t else InternFrom(InternTree(t, tree.children[n]), tree, n + 1)
  }

  // --- The structure block, for given name offsets ---

  function OffsetOf(offsets: map<Bytes, nat>, name: Bytes): nat {
    if name in offsets then offsets[name] else 0
  }

  function EncodeProp(p: Prop, offsets: map<Bytes, nat>): Bytes {
    Pack(PROP) + Pack(|p.value|) + Pack(OffsetOf(offsets, p.name)) + Padded(p.value)
  }

  function EncodeProps(props: seq<Prop>, offsets: map<Bytes, nat>): Bytes
    decreases |props|
  {
    if props == [] then [] else EncodeProp(props[0], offsets) + EncodeProps(props[1..], offsets)
  }

  function Encode(tree: Tree, offsets: map<Bytes, nat>): Bytes
    decreases tree, 1, 0
  {
    Pack(BEGIN_NODE) + (Padded(Text(tree.name)) + (EncodeProps(tree.props, offsets)
    + (EncodeFrom(tree, 0, offsets) + Pack(END_NODE))))
  }

  function EncodeFrom(tree: Tree, n: nat, offsets: map<Bytes, nat>): Bytes
    requires n <= |tree.children|
    decreases tree, 0, |tree.children| - n
  {
    if n == |tree.children| then [] else Encode(tree.children[n], offsets) + EncodeFrom(tree, n + 1, offsets)
  }

  // --- Reading a tree back, independently of how it was written ---

  /** What was read, and the bytes after it. */
  type Parsed<T> = Option<(T, Bytes)>

  function TakeToken(s: Bytes): (r: Parsed<nat>)
    ensures r.Some? ==> |r.value.1| < |s|
  {
    if |s| < 4 then None else Some((FromBe(s[..4]), s[4..]))
  }

  /** The bytes before the first NUL. */
  function UntilNul(s: Bytes): (r: Option<Bytes>)
    ensures r.Some? ==> |r.value| < |s|
  {
    if s == [] then None
    else if s[0] == 0 then Some([])
    else match UntilNul(s[1..])
      case None => None
      case Some(n) => Some([s[0]] + n)
  }

  /** `n` bytes and the padding after them. */
  function TakePadded(s: Bytes, n: nat): (r: Parsed<Bytes>)
    ensures r.Some? ==> |r.value.1| <= |s|
  {
    if |s| < n + Gap(n) then None else Some((s[..n], s[n + Gap(n)..]))
  }

  function TakeName(s: Bytes): (r: Parsed<Bytes>)
    ensures r.Some? ==> |r.value.1| <= |s|
  {
    match UntilNul(s)
    case None => None
    case Some(name) =>
      match TakePadded(s, |name| + 1)
      case None => None
      case Some((_, rest)) => Some((name, rest))
  }

  /** The NUL-terminated name at an offset of the strings block. */
  function NameAt(strings: Bytes, offset: nat): Option<Bytes> {
    if offset > |strings| then None else UntilNul(strings[offset..])
  }

  /** The length, the name and the value that follow a property token. */
  function TakeProp(s: Bytes, strings: Bytes): (r: Parsed<Prop>)
    ensures r.Some? ==> |r.value.1| <= |s|
  {
    if |s| < 8 then None else
      match (NameAt(strings, FromBe(s[4..8])), TakePadded(s[8..], FromBe(s[..4])))
      case (Some(name), Some((value, rest))) => Some((Prop(name, value), rest))
      case _ => None
  }

  /** All properties at the start of `s`. */
  function ParseProps(s: Bytes, strings: Bytes): (r: Parsed<seq<Prop>>)
    ensures r.Some? ==> |r.value.1| <= |s|
    decreases |s|
  {
    match TakeToken(s)
    case Some((3, body)) =>
      (match TakeProp(body, strings)
       case None => None
       case Some((p, rest)) =>
         match ParseProps(rest, strings)
         case None => None
         case Some((props, end)) => Some(([p] + props, end)))
    case _ => Some(([], s))
  }

  function ParseNode(s: Bytes, strings: Bytes): (r: Parsed<Tree>)
    ensures r.Some? ==> |r.value.1| < |s|
    decreases |s|, 0
  {
    match TakeToken(s)
    case Some((1, body)) => ParseBody(body, strings)
    case _ => None
  }

  /** A node after its first token. */
  function ParseBody(s: Bytes, strings: Bytes): (r: Parsed<Tree>)
    ensures r.Some? ==> |r.value.1| < |s|
    decreases |s|, 2
  {
    match TakeName(s)
    case None => None
    case Some((name, rest)) =>
      match ParseProps(rest, strings)
      case None => None
      case Some((props, rest)) =>
        match ParseNodes(rest, strings)
        case None => None
        case Some((children, rest)) =>
          match TakeToken(rest)
          case Some((2, end)) => Some((Node(name, props, children), end))
          case _ => None
  }

  /** All nodes at the start of `s`. */
  function ParseNodes(s: Bytes, strings: Bytes): (r: Parsed<seq<Tree>>)
    ensures r.Some? ==> |r.value.1| <= |s|
    decreases |s|, 1
  {
    match TakeToken(s)
    case Some((1, _)) =>
      (match ParseNode(s, strings)
       case None => None
       case Some((node, rest)) =>
         match ParseNodes(rest, strings)
         case None => None
         case Some((nodes, end)) => Some(([node] + nodes, end)))
    case _ => Some(([], s))
  }

  // --- Reading gives back what was written ---

  predicate NulFree(name: Bytes) {
    forall i :: 0 <= i < |name| ==> name[i] != 0
  }

  predicate NulFreeTree(tree: Tree) {
    NulFree(tree.name) && (forall p :: p in tree.props ==> NulFree(p.name))
    && (forall c :: c in tree.children ==> NulFreeTree(c))
  }

  /** The name's text, with its NUL, is at the offset. */
  predicate Located(strings: Bytes, offset: nat, name: Bytes) {
    offset + |name| < |strings| && strings[offset..offset + |name|] == name && strings[offset + |name|] == 0
  }

  /** Every number in the property fits its word, and the name is in the strings block. */
  predicate Packable(p: Prop, t: Table) {
    NulFree(p.name) && |p.value| < 0x1_0000_0000
    && p.name in t.offsets && t.offsets[p.name] < 0x1_0000_0000 && Located(t.strings, t.offsets[p.name], p.name)
  }

  predicate Readable(tree: Tree, t: Table) {
    NulFree(tree.name) && (forall p :: p in tree.props ==> Packable(p, t))
    && (forall c :: c in tree.children ==> Readable(c, t))
  }

  lemma Glue(a: Bytes, b: Bytes)
    ensures (a + b)[..|a|] == a && (a + b)[|a|..] == b
  {
  }

  lemma Uncons<T>(s: seq<T>, n: nat)
    requires n < |s|
    ensures [s[n]] + s[n + 1..] == s[n..]
  {
  }

  lemma Assoc(a: Bytes, b: Bytes, c: Bytes)
    ensures a + b + c == a + (b + c)
  {
  }

  lemma {:induction false} TokenReads(v: nat, tail: Bytes)
    requires v < 0x1_0000_0000
    ensures TakeToken(Pack(v) + tail) == Some((v, tail))
  {
    Glue(Pack(v), tail);
    PowersOf256();
    BeRoundTrip(v, 4);
  }

  lemma {:induction false} NulEnds(name: Bytes, tail: Bytes)
    requires NulFree(name)
    ensures UntilNul(name + ([0] + tail)) == Some(name)
  {
    if name != [] {
      assert (name + ([0] + tail))[1..] == name[1..] + ([0] + tail);
      NulEnds(name[1..], tail);
      assert [name[0]] + name[1..] == name;
    }
  }

  lemma {:induction false} PaddedReads(b: Bytes, tail: Bytes)
    ensures TakePadded(Padded(b) + tail, |b|) == Some((b, tail))
  {
    Glue(Padded(b), tail);
    assert Padded(b) + tail == b + (Zeros(Gap(|b|)) + tail);
    Glue(b, Zeros(Gap(|b|)) + tail);
  }

  lemma {:induction false} NameReads(name: Bytes, tail: Bytes)
    requires NulFree(name)
    ensures TakeName(Padded(Text(name)) + tail) == Some((name, tail))
  {
    var rest := Zeros(Gap(|name| + 1)) + tail;
    assert Padded(Text(name)) + tail == name + ([0] + rest);
    NulEnds(name, rest);
    PaddedReads(Text(name), tail);
  }

  lemma {:induction false} LocatedReads(strings: Bytes, offset: nat, name: Bytes)
    requires Located(strings, offset, name) && NulFree(name)
    ensures NameAt(strings, offset) == Some(name)
  {
    var rest := strings[offset + |name| + 1..];
    assert strings[offset..] == strings[offset..offset + |name|] + ([0] + rest);
    NulEnds(name, rest);
  }

  lemma TwoWords(a: Bytes, b: Bytes, rest: Bytes)
    requires |a| == 4 && |b| == 4
    ensures var s := a + (b + rest); s[..4] == a && s[4..8] == b && s[8..] == rest
  {
  }

  lemma PropLayout(a: Bytes, b: Bytes, c: Bytes, d: Bytes, tail: Bytes)
    ensures a + b + c + d + tail == a + (b + (c + (d + tail)))
  {
    Assoc(a + b + c, d, tail);
    Assoc(a + b, c, d + tail);
    Assoc(a, b, c + (d + tail));
  }

  lemma PackReads(v: nat)
    requires v < 0x1_0000_0000
    ensures FromBe(Pack(v)) == v
  {
    PowersOf256();
    BeRoundTrip(v, 4);
  }

  lemma {:induction false} PropReads(p: Prop, t: Table, tail: Bytes)
    requires Packable(p, t)
    ensures TakeToken(EncodeProp(p, t.offsets) + tail).Some?
    ensures var (token, body) := TakeToken(EncodeProp(p, t.offsets) + tail).value;
            token == PROP && TakeProp(body, t.strings) == Some((p, tail))
  {
    var size, name, value := Pack(|p.value|), Pack(t.offsets[p.name]), Padded(p.value) + tail;
    PropLayout(Pack(PROP), size, name, Padded(p.value), tail);
    TokenReads(PROP, size + (name + value));
    TwoWords(size, name, value);
    PackReads(|p.value|);
    PackReads(t.offsets[p.name]);
    PaddedReads(p.value, tail);
    LocatedReads(t.strings, t.offsets[p.name], p.name);
  }

  predicate StartsWith(s: Bytes, token: nat) {
    TakeToken(s).Some? && TakeToken(s).value.0 == token
  }

  lemma {:induction false} PropsRead(props: seq<Prop>, t: Table, tail: Bytes)
    requires forall p :: p in props ==> Packable(p, t)
    requires !StartsWith(tail, PROP)
    ensures ParseProps(EncodeProps(props, t.offsets) + tail, t.strings) == Some((props, tail))
    decreases |props|
  {
    if props == [] {
      assert EncodeProps(props, t.offsets) + tail == tail;
    } else {
      var rest := EncodeProps(props[1..], t.offsets) + tail;
      assert EncodeProps(props, t.offsets) + tail == EncodeProp(props[0], t.offsets) + rest;
      PropReads(props[0], t, rest);
      PropsRead(props[1..], t, tail);
      assert [props[0]] + props[1..] == props;
    }
  }

  /** What follows the properties: the children and the end token, none of which starts a
      property. */
  lemma {:induction false} AfterProps(tree: Tree, offsets: map<Bytes, nat>, n: nat, tail: Bytes)
    requires n <= |tree.children|
    ensures var s := EncodeFrom(tree, n, offsets) + (Pack(END_NODE) + tail);
            if n < |tree.children| then StartsWith(s, BEGIN_NODE) else StartsWith(s, END_NODE)
  {
    var end := Pack(END_NODE) + tail;
    if n < |tree.children| {
      var c := tree.children[n];
      var next := EncodeFrom(tree, n + 1, offsets) + end;
      var body := Padded(Text(c.name)) + (EncodeProps(c.props, offsets) + (EncodeFrom(c, 0, offsets) + (Pack(END_NODE) + next)));
      Assoc(Encode(c, offsets), EncodeFrom(tree, n + 1, offsets), end);
      NodeLayout(c, offsets, next);
      TokenReads(BEGIN_NODE, body);
    } else {
      assert EncodeFrom(tree, n, offsets) + end == end;
      TokenReads(END_NODE, tail);
    }
  }

  lemma {:induction false} NodeLayout(tree: Tree, offsets: map<Bytes, nat>, tail: Bytes)
    ensures Encode(tree, offsets) + tail
            == Pack(BEGIN_NODE) + (Padded(Text(tree.name)) + (EncodeProps(tree.props, offsets)
               + (EncodeFrom(tree, 0, offsets) + (Pack(END_NODE) + tail))))
  {
    var children, end := EncodeFrom(tree, 0, offsets), Pack(END_NODE);
    var props, name := EncodeProps(tree.props, offsets), Padded(Text(tree.name));
    Assoc(children, end, tail);
    Assoc(props, children + end, tail);
    Assoc(name, props + (children + end), tail);
    Assoc(Pack(BEGIN_NODE), name + (props + (children + end)), tail);
  }

  /** A node is parsed piece by piece. */
  lemma {:induction false} BodyPieces(body: Bytes, strings: Bytes, tree: Tree, props: Bytes, children: Bytes, end: Bytes, tail: Bytes)
    requires TakeName(body) == Some((tree.name, props))
    requires ParseProps(props, strings) == Some((tree.props, children))
    requires ParseNodes(children, strings) == Some((tree.children, end))
    requires TakeToken(end) == Some((END_NODE, tail))
    ensures ParseBody(body, strings) == Some((tree, tail))
  {
  }

  lemma {:induction false} NodePieces(s: Bytes, strings: Bytes, body: Bytes, tree: Tree, tail: Bytes)
    requires TakeToken(s) == Some((BEGIN_NODE, body))
    requires ParseBody(body, strings) == Some((tree, tail))
    ensures ParseNode(s, strings) == Some((tree, tail))
  {
  }

  lemma {:induction false} NodesPieces(s: Bytes, strings: Bytes, node: Tree, rest: Bytes, nodes: seq<Tree>, end: Bytes)
    requires StartsWith(s, BEGIN_NODE)
    requires ParseNode(s, strings) == Some((node, rest))
    requires ParseNodes(rest, strings) == Some((nodes, end))
    ensures ParseNodes(s, strings) == Some(([node] + nodes, end))
  {
  }

  lemma {:induction false} NoNodes(s: Bytes, strings: Bytes)
    requires StartsWith(s, END_NODE)
    ensures ParseNodes(s, strings) == Some(([], s))
  {
  }

  /** Parsing a written node gives back exactly that tree, whatever follows. */
  lemma {:induction false} NodeReads(tree: Tree, t: Table, tail: Bytes)
    requires Readable(tree, t)
    ensures ParseNode(Encode(tree, t.offsets) + tail, t.strings) == Some((tree, tail))
    decreases tree, 1, 0
  {
    var end := Pack(END_NODE) + tail;
    var children := EncodeFrom(tree, 0, t.offsets) + end;
    var props := EncodeProps(tree.props, t.offsets) + children;
    var body := Padded(Text(tree.name)) + props;
    NodeLayout(tree, t.offsets, tail);
    assert ParseBody(body, t.strings) == Some((tree, tail)) by {
      NameReads(tree.name, props);
      AfterProps(tree, t.offsets, 0, tail);
      PropsRead(tree.props, t, children);
      ChildrenRead(tree, 0, t, tail);
      TokenReads(END_NODE, tail);
      BodyPieces(body, t.strings, tree, props, children, end, tail);
    }
    TokenReads(BEGIN_NODE, body);
    NodePieces(Pack(BEGIN_NODE) + body, t.strings, body, tree, tail);
  }

  lemma {:induction false} ChildrenRead(tree: Tree, n: nat, t: Table, tail: Bytes)
    requires Readable(tree, t) && n <= |tree.children|
    ensures ParseNodes(EncodeFrom(tree, n, t.offsets) + (Pack(END_NODE) + tail), t.strings)
            == Some((tree.children[n..], Pack(END_NODE) + tail))
    decreases tree, 0, |tree.children| - n
  {
    var end := Pack(END_NODE) + tail;
    AfterProps(tree, t.offsets, n, tail);
    if n == |tree.children| {
      assert EncodeFrom(tree, n, t.offsets) + end == end;
      assert tree.children[n..] == [];
      NoNodes(end, t.strings);
    } else {
      var c := tree.children[n];
      var rest := EncodeFrom(tree, n + 1, t.offsets) + end;
      Assoc(Encode(c, t.offsets), EncodeFrom(tree, n + 1, t.offsets), end);
      NodeReads(c, t, rest);
      ChildrenRead(tree, n + 1, t, tail);
      NodesPieces(Encode(c, t.offsets) + rest, t.strings, c, rest, tree.children[n + 1..], end);
      Uncons(tree.children, n);
    }
  }

  /** Names that were read never hold a NUL. */
  lemma {:induction false} UntilNulIsFree(s: Bytes)
    ensures UntilNul(s).Some? ==> NulFree(UntilNul(s).value)
  {
    if s != [] && s[0] != 0 {
      UntilNulIsFree(s[1..]);
    }
  }

  lemma {:induction false} PropsAreFree(s: Bytes, strings: Bytes)
    ensures ParseProps(s, strings).Some? ==> forall p :: p in ParseProps(s, strings).value.0 ==> NulFree(p.name)
    decreases |s|
  {
    if StartsWith(s, PROP) {
      var body := s[4..];
      if TakeProp(body, strings).Some? {
        UntilNulIsFree(strings[FromBe(body[4..8])..]);
        PropsAreFree(TakeProp(body, strings).value.1, strings);
      }
    }
  }

  lemma {:induction false} NodeIsFree(s: Bytes, strings: Bytes)
    ensures ParseNode(s, strings).Some? ==> NulFreeTree(ParseNode(s, strings).value.0)
    decreases |s|, 0
  {
    if StartsWith(s, BEGIN_NODE) {
      BodyIsFree(s[4..], strings);
    }
  }

  lemma {:induction false} BodyIsFree(s: Bytes, strings: Bytes)
    ensures ParseBody(s, strings).Some? ==> NulFreeTree(ParseBody(s, strings).value.0)
    decreases |s|, 2
  {
    if TakeName(s).Some? {
      UntilNulIsFree(s);
      var props := TakeName(s).value.1;
      PropsAreFree(props, strings);
      if ParseProps(props, strings).Some? {
        NodesAreFree(ParseProps(props, strings).value.1, strings);
      }
    }
  }

  lemma {:induction false} NodesAreFree(s: Bytes, strings: Bytes)
    ensures ParseNodes(s, strings).Some? ==> forall c :: c in ParseNodes(s, strings).value.0 ==> NulFreeTree(c)
    decreases |s|, 1
  {
    if StartsWith(s, BEGIN_NODE) && ParseNode(s, strings).Some? {
      NodeIsFree(s, strings);
      NodesAreFree(ParseNode(s, strings).value.1, strings);
    }
  }

  // --- What interning keeps ---

  /** Every offset points at its name's text. */
  predicate Sound(t: Table) {
    forall n :: n in t.offsets ==> Located(t.strings, t.offsets[n], n)
  }

  /** Nothing that was interned moves. */
  predicate Extends(offsets: map<Bytes, nat>, more: map<Bytes, nat>) {
    forall n :: n in offsets ==> n in more && more[n] == offsets[n]
  }

  predicate Covers(tree: Tree, offsets: map<Bytes, nat>) {
    (forall p :: p in tree.props ==> p.name in offsets) && (forall c :: c in tree.children ==> Covers(c, offsets))
  }

  lemma InternKeeps(t: Table, name: Bytes)
    ensures Extends(t.offsets, Intern(t, name).offsets) && name in Intern(t, name).offsets
    ensures |t.strings| <= |Intern(t, name).strings|
    ensures Sound(t) ==> Sound(Intern(t, name))
  {
    if Sound(t) && name !in t.offsets {
      var u := Intern(t, name);
      forall n | n in u.offsets
        ensures Located(u.strings, u.offsets[n], n)
      {
        if n == name {
          assert u.strings == t.strings + name + [0];
        } else {
          assert Located(t.strings, t.offsets[n], n);
          assert u.strings[..|t.strings|] == t.strings;
        }
      }
    }
  }

  lemma {:induction false} InternPropsKeeps(t: Table, props: seq<Prop>)
    ensures Extends(t.offsets, InternProps(t, props).offsets)
    ensures forall p :: p in props ==> p.name in InternProps(t, props).offsets
    ensures |t.strings| <= |InternProps(t, props).strings|
    ensures Sound(t) ==> Sound(InternProps(t, props))
    decreases |props|
  {
    if props != [] {
      InternKeeps(t, props[0].name);
      InternPropsKeeps(Intern(t, props[0].name), props[1..]);
    }
  }

  lemma {:induction false} CoversMore(tree: Tree, offsets: map<Bytes, nat>, more: map<Bytes, nat>)
    requires Covers(tree, offsets) && Extends(offsets, more)
    ensures Covers(tree, more)
  {
    forall c | c in tree.children ensures Covers(c, more) {
      CoversMore(c, offsets, more);
    }
  }

  lemma {:induction false} InternTreeKeeps(t: Table, tree: Tree)
    ensures Extends(t.offsets, InternTree(t, tree).offsets) && Covers(tree, InternTree(t, tree).offsets)
    ensures |t.strings| <= |InternTree(t, tree).strings|
    ensures Sound(t) ==> Sound(InternTree(t, tree))
    decreases tree, 1, 0
  {
    InternPropsKeeps(t, tree.props);
    InternFromKeeps(InternProps(t, tree.props), tree, 0);
  }

  lemma {:induction false} InternFromKeeps(t: Table, tree: Tree, n: nat)
    requires n <= |tree.children|
    ensures Extends(t.offsets, InternFrom(t, tree, n).offsets)
    ensures forall i :: n <= i < |tree.children| ==> Covers(tree.children[i], InternFrom(t, tree, n).offsets)
    ensures |t.strings| <= |InternFrom(t, tree, n).strings|
    ensures Sound(t) ==> Sound(InternFrom(t, tree, n))
    decreases tree, 0, |tree.children| - n
  {
    if n < |tree.children| {
      var u := InternTree(t, tree.children[n]);
      InternTreeKeeps(t, tree.children[n]);
      InternFromKeeps(u, tree, n + 1);
      CoversMore(tree.children[n], u.offsets, InternFrom(u, tree, n + 1).offsets);
    }
  }

  lemma {:induction false} NextProp(t: Table, props: seq<Prop>, n: nat, final: map<Bytes, nat>)
    requires n < |props| && Sound(t) && Extends(InternProps(t, props[n..]).offsets, final)
    ensures Extends(Intern(t, props[n].name).offsets, final) && Sound(Intern(t, props[n].name))
    ensures InternProps(t, props[n..]) == InternProps(Intern(t, props[n].name), props[n + 1..])
    ensures EncodeProps(props[n..], final) == EncodeProp(props[n], final) + EncodeProps(props[n + 1..], final)
  {
    assert props[n..][1..] == props[n + 1..];
    InternKeeps(t, props[n].name);
    InternPropsKeeps(Intern(t, props[n].name), props[n + 1..]);
  }

  /** While the children are written, no offset differs from the final ones. */
  lemma {:induction false} NextChild(t: Table, tree: Tree, n: nat, final: map<Bytes, nat>)
    requires n < |tree.children| && Sound(t) && Extends(InternFrom(t, tree, n).offsets, final)
    ensures Extends(InternTree(t, tree.children[n]).offsets, final) && Sound(InternTree(t, tree.children[n]))
    ensures InternFrom(t, tree, n) == InternFrom(InternTree(t, tree.children[n]), tree, n + 1)
  {
    InternTreeKeeps(t, tree.children[n]);
    InternFromKeeps(InternTree(t, tree.children[n]), tree, n + 1);
  }

  // --- Alignment and sizes ---

  lemma PaddedAligned(b: Bytes)
    ensures |Padded(b)| % 4 == 0 && |b| <= |Padded(b)|
  {
  }

  lemma Aligned2(a: Bytes, b: Bytes)
    requires |a| % 4 == 0 && |b| % 4 == 0
    ensures |a + b| % 4 == 0 && |a| <= |a + b| && |b| <= |a + b|
  {
  }

  lemma AlignedWords(block: Bytes, x: nat, y: nat, z: nat)
    requires |block| % 4 == 0
    ensures |block + (Pack(x) + Pack(y) + Pack(z))| % 4 == 0
  {
  }

  lemma {:induction false} PropAligned(p: Prop, offsets: map<Bytes, nat>)
    ensures |EncodeProp(p, offsets)| % 4 == 0 && |p.value| <= |EncodeProp(p, offsets)|
  {
    PaddedAligned(p.value);
    Aligned2(Pack(PROP) + Pack(|p.value|) + Pack(OffsetOf(offsets, p.name)), Padded(p.value));
  }

  lemma {:induction false} PropsAligned(props: seq<Prop>, offsets: map<Bytes, nat>)
    ensures |EncodeProps(props, offsets)| % 4 == 0
    ensures forall p :: p in props ==> |p.value| <= |EncodeProps(props, offsets)|
    decreases |props|
  {
    if props != [] {
      PropAligned(props[0], offsets);
      PropsAligned(props[1..], offsets);
      Aligned2(EncodeProp(props[0], offsets), EncodeProps(props[1..], offsets));
    }
  }

  /** Whole nodes, and so the tokens before and after them, lie on 4-byte boundaries. */
  lemma {:induction false} NodeAligned(tree: Tree, offsets: map<Bytes, nat>)
    ensures |Encode(tree, offsets)| % 4 == 0
    ensures |EncodeProps(tree.props, offsets)| <= |Encode(tree, offsets)|
    ensures |EncodeFrom(tree, 0, offsets)| <= |Encode(tree, offsets)|
    decreases tree, 1, 0
  {
    PropsAligned(tree.props, offsets);
    ChildrenAligned(tree, 0, offsets);
    PaddedAligned(Text(tree.name));
    var children, end := EncodeFrom(tree, 0, offsets), Pack(END_NODE);
    var props, name := EncodeProps(tree.props, offsets), Padded(Text(tree.name));
    Aligned2(children, end);
    Aligned2(props, children + end);
    Aligned2(name, props + (children + end));
    Aligned2(Pack(BEGIN_NODE), name + (props + (children + end)));
  }

  lemma {:induction false} ChildrenAligned(tree: Tree, n: nat, offsets: map<Bytes, nat>)
    requires n <= |tree.children|
    ensures |EncodeFrom(tree, n, offsets)| % 4 == 0
    decreases tree, 0, |tree.children| - n
  {
    if n < |tree.children| {
      NodeAligned(tree.children[n], offsets);
      ChildrenAligned(tree, n + 1, offsets);
      Aligned2(Encode(tree.children[n], offsets), EncodeFrom(tree, n + 1, offsets));
    }
  }

  // --- Every token lies on a 4-byte boundary ---

  datatype Token = Token(at: nat, kind: nat)

  /** Where the tokens of the properties, of a node and of its children are when their
      encodings start at `at`. */
  function PropTokens(props: seq<Prop>, offsets: map<Bytes, nat>, at: nat): seq<Token>
    decreases |props|
  {
    if props == [] then []
    else [Token(at, PROP)] + PropTokens(props[1..], offsets, at + |EncodeProp(props[0], offsets)|)
  }

  function NodeTokens(tree: Tree, offsets: map<Bytes, nat>, at: nat): seq<Token>
    decreases tree, 1, 0
  {
    [Token(at, BEGIN_NODE)] + (PropTokens(tree.props, offsets, PropsAt(tree, at))
    + (ChildTokens(tree, 0, offsets, ChildrenAt(tree, offsets, at)) + [Token(EndAt(tree, offsets, at), END_NODE)]))
  }

  /** Where a node's properties, its children and its end token are. */
  function PropsAt(tree: Tree, at: nat): nat {
    at + 4 + |Padded(Text(tree.name))|
  }

  function ChildrenAt(tree: Tree, offsets: map<Bytes, nat>, at: nat): nat {
    PropsAt(tree, at) + |EncodeProps(tree.props, offsets)|
  }

  function EndAt(tree: Tree, offsets: map<Bytes, nat>, at: nat): nat {
    ChildrenAt(tree, offsets, at) + |EncodeFrom(tree, 0, offsets)|
  }

  function ChildTokens(tree: Tree, n: nat, offsets: map<Bytes, nat>, at: nat): seq<Token>
    requires n <= |tree.children|
    decreases tree, 0, |tree.children| - n
  {
    if n == |tree.children| then []
    else NodeTokens(tree.children[n], offsets, at)
         + ChildTokens(tree, n + 1, offsets, at + |Encode(tree.children[n], offsets)|)
  }

  ghost predicate Here(block: Bytes, at: nat, part: Bytes) {
    at + |part| <= |block| && block[at..at + |part|] == part
  }

  lemma HereSplits(block: Bytes, at: nat, a: Bytes, b: Bytes)
    requires Here(block, at, a + b)
    ensures Here(block, at, a) && Here(block, at + |a|, b)
  {
    assert block[at..at + |a|] == (a + b)[..|a|];
    assert block[at + |a|..at + |a| + |b|] == (a + b)[|a|..];
  }

  /** The token stands there, on a 4-byte boundary. */
  ghost predicate Placed(block: Bytes, k: Token) {
    k.at % 4 == 0 && k.at <= |block| && StartsWith(block[k.at..], k.kind)
  }

  /** `site` says which bytes stand where in a block, on 4-byte boundaries, and `good` which
      tokens do. */
  type Site = (nat, Bytes) -> bool
  type Check = Token -> bool

  ghost predicate SplitsAt(site: Site, at: nat, a: Bytes, b: Bytes) {
    site(at, a + b) && |a| % 4 == 0 ==> site(at, a) && site(at + |a|, b)
  }

  ghost predicate ShowsToken(site: Site, good: Check, at: nat, v: nat) {
    site(at, Pack(v)) && v < 0x1_0000_0000 ==> good(Token(at, v))
  }

  ghost predicate Fits(site: Site, good: Check) {
    (forall at: nat, a, b :: SplitsAt(site, at, a, b)) && (forall at: nat, v: nat :: ShowsToken(site, good, at, v))
  }

  ghost predicate All(good: Check, tokens: seq<Token>) {
    forall k :: k in tokens ==> good(k)
  }

  lemma AllAppend(good: Check, a: seq<Token>, b: seq<Token>, both: seq<Token>)
    requires both == a + b && All(good, a) && All(good, b)
    ensures All(good, both)
  {
  }

  lemma AllOne(good: Check, k: Token)
    requires good(k)
    ensures All(good, [k])
  {
  }

  lemma AllFour(good: Check, x: Token, a: seq<Token>, b: seq<Token>, y: Token, all: seq<Token>)
    requires all == [x] + (a + (b + [y])) && good(x) && good(y) && All(good, a) && All(good, b)
    ensures All(good, all)
  {
    AllOne(good, x);
    AllOne(good, y);
    AllAppend(good, b, [y], b + [y]);
    AllAppend(good, a, b + [y], a + (b + [y]));
    AllAppend(good, [x], a + (b + [y]), all);
  }

  lemma Part(site: Site, good: Check, at: nat, a: Bytes, b: Bytes)
    requires Fits(site, good) && site(at, a + b) && |a| % 4 == 0
    ensures site(at, a) && site(at + |a|, b)
  {
    assert SplitsAt(site, at, a, b);
  }

  lemma {:induction false} PropTokensPlaced(site: Site, good: Check, props: seq<Prop>, offsets: map<Bytes, nat>, at: nat)
    requires Fits(site, good) && site(at, EncodeProps(props, offsets))
    ensures All(good, PropTokens(props, offsets, at))
    decreases |props|
  {
    if props != [] {
      var rest, next := OtherProps(site, good, props, offsets, at);
      PropTokensPlaced(site, good, rest, offsets, next);
      TokensOfProps(good, props, offsets, at, rest, next);
    }
  }

  /** Where the properties behind the first are, and that its token is in place. */
  lemma {:induction false} OtherProps(site: Site, good: Check, props: seq<Prop>, offsets: map<Bytes, nat>, at: nat)
    returns (rest: seq<Prop>, next: nat)
    requires props != [] && Fits(site, good) && site(at, EncodeProps(props, offsets))
    ensures FollowsFirst(props, offsets, at, rest, next) && |rest| < |props|
    ensures site(next, EncodeProps(rest, offsets)) && good(Token(at, PROP))
  {
    rest, next := props[1..], at + |EncodeProp(props[0], offsets)|;
    PropAligned(props[0], offsets);
    PropsStep(props, offsets);
    Part(site, good, at, EncodeProp(props[0], offsets), EncodeProps(rest, offsets));
    PropTokenPlaced(site, good, props[0], offsets, at);
  }

  predicate FollowsFirst(props: seq<Prop>, offsets: map<Bytes, nat>, at: nat, rest: seq<Prop>, next: nat) {
    props != [] && rest == props[1..] && next == at + |EncodeProp(props[0], offsets)|
  }

  lemma {:induction false} TokensOfProps(
      good: Check, props: seq<Prop>, offsets: map<Bytes, nat>, at: nat, rest: seq<Prop>, next: nat)
    requires FollowsFirst(props, offsets, at, rest, next) && good(Token(at, PROP)) && All(good, PropTokens(rest, offsets, next))
    ensures All(good, PropTokens(props, offsets, at))
  {
    AllOne(good, Token(at, PROP));
    AllAppend(good, [Token(at, PROP)], PropTokens(rest, offsets, next), PropTokens(props, offsets, at));
  }

  lemma PropsStep(props: seq<Prop>, offsets: map<Bytes, nat>)
    requires props != []
    ensures EncodeProps(props, offsets) == EncodeProp(props[0], offsets) + EncodeProps(props[1..], offsets)
  {
  }

  lemma {:induction false} PropTokenPlaced(site: Site, good: Check, p: Prop, offsets: map<Bytes, nat>, at: nat)
    requires Fits(site, good) && site(at, EncodeProp(p, offsets))
    ensures good(Token(at, PROP))
  {
    var size, name, value := Pack(|p.value|), Pack(OffsetOf(offsets, p.name)), Padded(p.value);
    PropLayout(Pack(PROP), size, name, value, []);
    assert Pack(PROP) + size + name + value + [] == EncodeProp(p, offsets);
    Part(site, good, at, Pack(PROP), size + (name + (value + [])));
    assert ShowsToken(site, good, at, PROP);
  }

  /** Where the parts of a node are. */
  lemma {:induction false} NodeParts(site: Site, good: Check, tree: Tree, offsets: map<Bytes, nat>, at: nat, p: nat, c: nat, e: nat)
    requires Fits(site, good) && site(at, Encode(tree, offsets)) && EvenParts(tree, offsets)
    requires p == PropsAt(tree, at) && c == ChildrenAt(tree, offsets, at) && e == EndAt(tree, offsets, at)
    ensures site(at, Pack(BEGIN_NODE)) && site(p, EncodeProps(tree.props, offsets))
    ensures site(c, EncodeFrom(tree, 0, offsets)) && site(e, Pack(END_NODE))
  {
    PartsInOrder(tree, offsets);
    FiveParts(site, good, at, Pack(BEGIN_NODE), Padded(Text(tree.name)), EncodeProps(tree.props, offsets),
              EncodeFrom(tree, 0, offsets), Pack(END_NODE));
  }

  lemma PartsInOrder(tree: Tree, offsets: map<Bytes, nat>)
    ensures Encode(tree, offsets)
            == Pack(BEGIN_NODE) + (Padded(Text(tree.name)) + (EncodeProps(tree.props, offsets) + (EncodeFrom(tree, 0, offsets) + Pack(END_NODE))))
  {
  }

  /** The parts of a node fill whole words. */
  ghost predicate EvenParts(tree: Tree, offsets: map<Bytes, nat>) {
    |Padded(Text(tree.name))| % 4 == 0 && |EncodeProps(tree.props, offsets)| % 4 == 0
    && |EncodeFrom(tree, 0, offsets)| % 4 == 0
  }

  lemma {:induction false} PartsAligned(tree: Tree, offsets: map<Bytes, nat>)
    ensures EvenParts(tree, offsets)
  {
    PaddedAligned(Text(tree.name));
    PropsAligned(tree.props, offsets);
    ChildrenAligned(tree, 0, offsets);
  }

  lemma {:induction false} FiveParts(
      site: Site, good: Check, at: nat, begin: Bytes, name: Bytes, props: Bytes, children: Bytes, end: Bytes)
    requires Fits(site, good) && site(at, begin + (name + (props + (children + end))))
    requires |begin| == 4 && |name| % 4 == 0 && |props| % 4 == 0 && |children| % 4 == 0
    ensures var p := at + 4 + |name|;
            site(at, begin) && site(p, props) && site(p + |props|, children) && site(p + |props| + |children|, end)
  {
    Part(site, good, at, begin, name + (props + (children + end)));
    Part(site, good, at + 4, name, props + (children + end));
    Part(site, good, at + 4 + |name|, props, children + end);
    Part(site, good, at + 4 + |name| + |props|, children, end);
  }

  lemma {:induction false} NodeTokensPlaced(site: Site, good: Check, tree: Tree, offsets: map<Bytes, nat>, at: nat)
    requires Fits(site, good) && site(at, Encode(tree, offsets))
    ensures All(good, NodeTokens(tree, offsets, at))
    decreases tree, 1, 0
  {
    var p, c, e := PropsAt(tree, at), ChildrenAt(tree, offsets, at), EndAt(tree, offsets, at);
    PartsAligned(tree, offsets);
    NodeParts(site, good, tree, offsets, at, p, c, e);
    assert ShowsToken(site, good, at, BEGIN_NODE);
    PropTokensPlaced(site, good, tree.props, offsets, p);
    ChildTokensPlaced(site, good, tree, 0, offsets, c);
    assert ShowsToken(site, good, e, END_NODE);
    AllFour(good, Token(at, BEGIN_NODE), PropTokens(tree.props, offsets, p), ChildTokens(tree, 0, offsets, c),
            Token(e, END_NODE), NodeTokens(tree, offsets, at));
  }

  lemma {:induction false} ChildTokensPlaced(site: Site, good: Check, tree: Tree, n: nat, offsets: map<Bytes, nat>, at: nat)
    requires n <= |tree.children| && Fits(site, good) && site(at, EncodeFrom(tree, n, offsets))
    ensures All(good, ChildTokens(tree, n, offsets, at))
    decreases tree, 0, |tree.children| - n
  {
    if n < |tree.children| {
      var child, next := tree.children[n], at + |Encode(tree.children[n], offsets)|;
      ChildParts(site, good, tree, n, offsets, at);
      NodeTokensPlaced(site, good, child, offsets, at);
      ChildTokensPlaced(site, good, tree, n + 1, offsets, next);
      AllAppend(good, NodeTokens(child, offsets, at), ChildTokens(tree, n + 1, offsets, next), ChildTokens(tree, n, offsets, at));
    }
  }

  lemma {:induction false} ChildParts(site: Site, good: Check, tree: Tree, n: nat, offsets: map<Bytes, nat>, at: nat)
    requires n < |tree.children| && Fits(site, good) && site(at, EncodeFrom(tree, n, offsets))
    ensures site(at, Encode(tree.children[n], offsets))
    ensures site(at + |Encode(tree.children[n], offsets)|, EncodeFrom(tree, n + 1, offsets))
  {
    NodeAligned(tree.children[n], offsets);
    Part(site, good, at, Encode(tree.children[n], offsets), EncodeFrom(tree, n + 1, offsets));
  }

  lemma SumAligned(m: nat, n: nat)
    requires m % 4 == 0 && n % 4 == 0
    ensures (m + n) % 4 == 0
  {
    DivModUnique(m + n, 4, m / 4 + n / 4, 0);
  }

  lemma {:induction false} TokenPlaced(block: Bytes, at: nat, v: nat)
    requires Here(block, at, Pack(v)) && at % 4 == 0 && v < 0x1_0000_0000
    ensures Placed(block, Token(at, v))
  {
    var rest := block[at + 4..];
    assert block[at..] == Pack(v) + rest;
    TokenReads(v, rest);
  }

  /** The tokens of a whole structure block: those of the tree, and the one that ends it. */
  function StructTokens(tree: Tree): seq<Token> {
    var offsets := NamesOf(tree).offsets;
    NodeTokens(tree, offsets, 0) + [Token(|Encode(tree, offsets)|, END)]
  }

  /** Every token of a structure block stands on a 4-byte boundary (section 5.4 of the
      Devicetree Specification), and the last one is its last four bytes. */
  lemma {:induction false} TokensAligned(tree: Tree)
    ensures forall k :: k in StructTokens(tree) ==> Placed(StructOf(tree), k)
    ensures var ks := StructTokens(tree); ks[|ks| - 1] == Token(|StructOf(tree)| - 4, END)
  {
    var block, offsets := StructOf(tree), NamesOf(tree).offsets;
    var site: Site := (at: nat, part: Bytes) => at % 4 == 0 && at + |part| <= |block| && block[at..at + |part|] == part;
    var good: Check := (k: Token) => k.at % 4 == 0 && k.at <= |block| && StartsWith(block[k.at..], k.kind);
    BlockFits(block, site, good);
    WholeBlock(Encode(tree, offsets), block);
    NodeTokensPlaced(site, good, tree, offsets, 0);
    NodeAligned(tree, offsets);
    TokenPlaced(block, |Encode(tree, offsets)|, END);
  }

  lemma WholeBlock(tree: Bytes, block: Bytes)
    requires block == tree + Pack(END)
    ensures Here(block, 0, tree) && Here(block, |tree|, Pack(END))
  {
  }

  lemma {:induction false} BlockFits(block: Bytes, site: Site, good: Check)
    requires forall at: nat, part: Bytes :: site(at, part) <==> at % 4 == 0 && Here(block, at, part)
    requires forall k: Token :: good(k) <==> Placed(block, k)
    ensures Fits(site, good)
  {
    forall at: nat, a, b ensures SplitsAt(site, at, a, b) {
      if site(at, a + b) && |a| % 4 == 0 {
        HereSplits(block, at, a, b);
        SumAligned(at, |a|);
      }
    }
    forall at: nat, v: nat ensures ShowsToken(site, good, at, v) {
      if site(at, Pack(v)) && v < 0x1_0000_0000 {
        TokenPlaced(block, at, v);
      }
    }
  }

  lemma {:induction false} ChildFits(tree: Tree, n: nat, i: nat, offsets: map<Bytes, nat>)
    requires n <= i < |tree.children|
    ensures |Encode(tree.children[i], offsets)| <= |EncodeFrom(tree, n, offsets)|
    decreases i - n
  {
    var size, rest := |EncodeFrom(tree, n, offsets)|, |EncodeFrom(tree, n + 1, offsets)|;
    assert size == |Encode(tree.children[n], offsets)| + rest;
    if n < i {
      assert |Encode(tree.children[i], offsets)| <= rest by {
        ChildFits(tree, n + 1, i, offsets);
      }
    }
  }

  /** If the blocks are small enough, every number in them is. */
  lemma {:induction false} SmallIsReadable(tree: Tree, t: Table)
    requires NulFreeTree(tree) && Covers(tree, t.offsets) && Sound(t)
    requires |Encode(tree, t.offsets)| < 0x1_0000_0000 && |t.strings| <= 0x1_0000_0000
    ensures Readable(tree, t)
  {
    PropsAligned(tree.props, t.offsets);
    NodeAligned(tree, t.offsets);
    forall c | c in tree.children ensures Readable(c, t) {
      var i :| 0 <= i < |tree.children| && c == tree.children[i];
      ChildFits(tree, 0, i, t.offsets);
      SmallIsReadable(c, t);
    }
  }

  // --- The whole blob ---

  const HEADER_SIZE: nat := 40
  const STRUCT_OFFSET: nat := 56
  const MAGIC: nat := 0xD00DFEED

  function NamesOf(tree: Tree): Table {
    InternTree(Table([], map[]), tree)
  }

  function StructOf(tree: Tree): Bytes {
    Encode(tree, NamesOf(tree).offsets) + Pack(END)
  }

  function PackAll(values: seq<nat>): (b: Bytes)
    ensures |b| == 4 * |values|
  {
    if values == [] then [] else Pack(values[0]) + PackAll(values[1..])
  }

  /** The ten header fields for blocks of the given sizes. */
  function HeaderFields(structSize: nat, stringsSize: nat): seq<nat> {
    [MAGIC, STRUCT_OFFSET + structSize + stringsSize, STRUCT_OFFSET, STRUCT_OFFSET + structSize, HEADER_SIZE,
     17, 16, 0, stringsSize, structSize]
  }

  /** Header, an empty reservation block, structure and strings. */
  function Blob(structBlk: Bytes, strings: Bytes): Bytes {
    PackAll(HeaderFields(|structBlk|, |strings|)) + (Zeros(16) + (structBlk + strings))
  }

  function BlobOf(tree: Tree): Bytes {
    Blob(StructOf(tree), NamesOf(tree).strings)
  }

  function Field(blob: Bytes, n: nat): nat
    requires 4 * n + 4 <= |blob|
  {
    FromBe(blob[4 * n..4 * n + 4])
  }

  /** A reader that trusts nothing but the header. */
  function ReadBlob(blob: Bytes): Option<Tree> {
    if |blob| < HEADER_SIZE || Field(blob, 0) != MAGIC || Field(blob, 1) != |blob| || Field(blob, 6) > 17 then None
    else
      var structAt, stringsAt, stringsSize, structSize := Field(blob, 2), Field(blob, 3), Field(blob, 8), Field(blob, 9);
      if structAt + structSize > |blob| || stringsAt + stringsSize > |blob| then None
      else ReadBlocks(blob[structAt..structAt + structSize], blob[stringsAt..stringsAt + stringsSize])
  }

  /** One node and the end token, and nothing else. */
  function ReadBlocks(structBlk: Bytes, strings: Bytes): Option<Tree> {
    match ParseNode(structBlk, strings)
    case None => None
    case Some((tree, rest)) => if TakeToken(rest) == Some((END, [])) then Some(tree) else None
  }

  lemma {:induction false} PackedField(values: seq<nat>, n: nat, tail: Bytes)
    requires n < |values| && values[n] < 0x1_0000_0000
    ensures Field(PackAll(values) + tail, n) == values[n]
    decreases n
  {
    var rest := PackAll(values[1..]) + tail;
    Assoc(Pack(values[0]), PackAll(values[1..]), tail);
    if n == 0 {
      Glue(Pack(values[0]), rest);
      PowersOf256();
      BeRoundTrip(values[0], 4);
    } else {
      PackedField(values[1..], n - 1, tail);
      NextField(Pack(values[0]), rest, n);
    }
  }

  lemma NextField(first: Bytes, rest: Bytes, n: nat)
    requires |first| == 4 && n > 0 && 4 * n <= |rest|
    ensures Field(first + rest, n) == Field(rest, n - 1)
  {
    assert (first + rest)[4 * n..4 * n + 4] == rest[4 * (n - 1)..4 * (n - 1) + 4];
  }

  /** The fields as the reader finds them. */
  lemma {:induction false} HeaderRead(structBlk: Bytes, strings: Bytes)
    requires |Blob(structBlk, strings)| < 0x1_0000_0000
    ensures var blob := Blob(structBlk, strings);
            Field(blob, 0) == MAGIC && Field(blob, 1) == |blob| && Field(blob, 2) == STRUCT_OFFSET
            && Field(blob, 3) == STRUCT_OFFSET + |structBlk| && Field(blob, 4) == HEADER_SIZE
            && Field(blob, 5) == 17 && Field(blob, 6) == 16 && Field(blob, 7) == 0
            && Field(blob, 8) == |strings| && Field(blob, 9) == |structBlk|
  {
    var values, tail := HeaderFields(|structBlk|, |strings|), Zeros(16) + (structBlk + strings);
    PackedField(values, 0, tail);
    PackedField(values, 1, tail);
    PackedField(values, 2, tail);
    PackedField(values, 3, tail);
    PackedField(values, 4, tail);
    PackedField(values, 5, tail);
    PackedField(values, 7, tail);
    PackedField(values, 6, tail);
    PackedField(values, 8, tail);
    PackedField(values, 9, tail);
  }

  predicate InBounds(blob: Bytes, at: nat, size: nat) {
    at + size <= |blob|
  }

  function Slice(blob: Bytes, at: nat, size: nat): Bytes
    requires InBounds(blob, at, size)
  {
    blob[at..at + size]
  }

  /** The header describes adjacent blocks that fill the blob to its end: the reservation
      block (8-byte aligned, empty), the structure block (4-byte aligned), the strings. */
  lemma {:induction false} HeaderDescribes(structBlk: Bytes, strings: Bytes)
    requires |Blob(structBlk, strings)| < 0x1_0000_0000
    ensures var blob := Blob(structBlk, strings);
            var rsvAt, structAt, stringsAt := Field(blob, 4), Field(blob, 2), Field(blob, 3);
            var stringsSize, structSize := Field(blob, 8), Field(blob, 9);
            rsvAt % 8 == 0 && structAt % 4 == 0
            && rsvAt + 16 == structAt && structAt + structSize == stringsAt
            && stringsAt + stringsSize == |blob| == Field(blob, 1)
            && InBounds(blob, rsvAt, 16) && Slice(blob, rsvAt, 16) == Zeros(16)
            && InBounds(blob, structAt, structSize) && Slice(blob, structAt, structSize) == structBlk
            && InBounds(blob, stringsAt, stringsSize) && Slice(blob, stringsAt, stringsSize) == strings
  {
    HeaderRead(structBlk, strings);
    BlobSlices(PackAll(HeaderFields(|structBlk|, |strings|)), Zeros(16), structBlk, strings);
  }

  /** The fixed fields of the header (section 5.2 of the Devicetree Specification): the magic
      number, versions 17 and 16, and boot CPU 0; ten fields of four bytes. */
  lemma {:induction false} FixedFields(structBlk: Bytes, strings: Bytes)
    requires |Blob(structBlk, strings)| < 0x1_0000_0000
    ensures var blob := Blob(structBlk, strings);
            Field(blob, 0) == 0xD00D_FEED && Field(blob, 4) == 40 && Field(blob, 5) == 17 && Field(blob, 6) == 16 && Field(blob, 7) == 0
  {
    HeaderRead(structBlk, strings);
  }

  /** The numbers of the tokens (section 5.4.1): a node begins with 1 and ends with 2, a
      property starts with 3, and the structure block ends with 9. */
  lemma {:induction false} TokenNumbers(tree: Tree, p: Prop, offsets: map<Bytes, nat>)
    ensures Encode(tree, offsets)[..4] == [0, 0, 0, 1]
    ensures Encode(tree, offsets)[|Encode(tree, offsets)| - 4..] == [0, 0, 0, 2]
    ensures EncodeProp(p, offsets)[..4] == [0, 0, 0, 3]
    ensures StructOf(tree)[|StructOf(tree)| - 4..] == [0, 0, 0, 9]
  {
    PackedToken(1);
    PackedToken(2);
    PackedToken(3);
    PackedToken(9);
    var children := EncodeFrom(tree, 0, offsets);
    var rest := Padded(Text(tree.name)) + (EncodeProps(tree.props, offsets) + (children + Pack(END_NODE)));
    FirstAndLast(Pack(BEGIN_NODE), rest, Pack(BEGIN_NODE) + rest);
    var head := Pack(BEGIN_NODE) + (Padded(Text(tree.name)) + (EncodeProps(tree.props, offsets) + children));
    assert Encode(tree, offsets) == head + Pack(END_NODE);
    FirstAndLast(head, Pack(END_NODE), Encode(tree, offsets));
    PropLayout(Pack(PROP), Pack(|p.value|), Pack(OffsetOf(offsets, p.name)), Padded(p.value), []);
    FirstAndLast(Encode(tree, NamesOf(tree).offsets), Pack(END), StructOf(tree));
  }

  lemma FirstAndLast(a: Bytes, b: Bytes, both: Bytes)
    requires both == a + b
    ensures both[..|a|] == a && both[|a|..] == b
  {
  }

  lemma PackedToken(v: nat)
    requires v < 0x100
    ensures Pack(v) == [0, 0, 0, v]
  {
    BeByte(v, 4, 0);
    BeByte(v, 4, 1);
    BeByte(v, 4, 2);
    BeByte(v, 4, 3);
  }

  lemma BlobSlices(a: Bytes, b: Bytes, c: Bytes, d: Bytes)
    ensures var s := a + (b + (c + d));
            |s| == |a| + |b| + |c| + |d|
            && s[|a|..|a| + |b|] == b
            && s[|a| + |b|..|a| + |b| + |c|] == c
            && s[|a| + |b| + |c|..|a| + |b| + |c| + |d|] == d
  {
  }

  lemma {:induction false} ReadThroughHeader(structBlk: Bytes, strings: Bytes)
    requires |Blob(structBlk, strings)| < 0x1_0000_0000
    ensures ReadBlob(Blob(structBlk, strings)) == ReadBlocks(structBlk, strings)
  {
    HeaderRead(structBlk, strings);
    HeaderDescribes(structBlk, strings);
  }

  /** Reading the blob of a tree gives back that tree exactly when no name holds a NUL. */
  lemma {:induction false} BlobRoundTrip(tree: Tree)
    requires |BlobOf(tree)| < 0x1_0000_0000
    ensures ReadBlob(BlobOf(tree)) == Some(tree) <==> NulFreeTree(tree)
  {
    var t, structBlk := NamesOf(tree), StructOf(tree);
    ReadThroughHeader(structBlk, t.strings);
    NodeIsFree(structBlk, t.strings);
    if NulFreeTree(tree) {
      BlocksRead(tree);
    }
  }

  lemma {:induction false} BlocksRead(tree: Tree)
    requires |BlobOf(tree)| < 0x1_0000_0000 && NulFreeTree(tree)
    ensures ReadBlocks(StructOf(tree), NamesOf(tree).strings) == Some(tree)
  {
    var t := NamesOf(tree);
    InternTreeKeeps(Table([], map[]), tree);
    SmallIsReadable(tree, t);
    NodeReads(tree, t, Pack(END));
    assert Pack(END) + [] == Pack(END);
    TokenReads(END, []);
  }

  // --- The writer ---

  lemma SameGap(m: nat, n: nat)
    requires m % 4 == 0
    ensures Gap(m + n) == Gap(n)
  {
    DivModUnique(0 - (m + n), 4, (0 - n) / 4 - m / 4, Gap(n));
  }

  /** Appending a padded piece to an aligned block pads the block. */
  lemma PadAppended(block: Bytes, b: Bytes)
    requires |block| % 4 == 0
    ensures Padded(block + b) == block + Padded(b)
  {
    SameGap(|block|, |b|);
    Assoc(block, b, Zeros(Gap(|b|)));
  }

  /** The writer's shared buffers. Packing a number that does not fit into a word raises an
      exception in the source; `raised` records that, and the result is then dropped. */
  class Writer {
    var structBlk: Bytes
    var strings: Bytes
    var strOff: map<Bytes, nat>
    var raised: bool

    constructor ()
      ensures structBlk == [] && Names() == Table([], map[]) && !raised
    {
      structBlk, strings, strOff, raised := [], [], map[], false;
    }

    ghost function Names(): Table
      reads this
    {
      Table(strings, strOff)
    }

    /** An exception so far means that the blocks are already too large. */
    ghost predicate Honest()
      reads this
    {
      raised ==> |structBlk| + |strings| >= 0x1_0000_0000
    }

    method StrOff(name: Bytes) returns (offset: nat)
      modifies this`strings, this`strOff
      ensures Names() == Intern(old(Names()), name) && offset == OffsetOf(strOff, name)
    {
      if name !in strOff {
        strOff := strOff[name := |strings|];
        strings := strings + Text(name);
      }
      offset := strOff[name];
    }

    method Append(b: Bytes)
      modifies this`structBlk
      ensures structBlk == old(structBlk) + b
    {
      structBlk := structBlk + b;
    }

    method Pad4()
      modifies this`structBlk
      ensures structBlk == Padded(old(structBlk))
    {
      ghost var n := 0;
      while |structBlk| % 4 != 0
        invariant n <= Gap(old(|structBlk|)) && structBlk == old(structBlk) + Zeros(n)
        decreases Gap(old(|structBlk|)) - n
      {
        assert Zeros(n) + [0] == Zeros(n + 1);
        structBlk := structBlk + [0];
        n := n + 1;
      }
    }

    /** Appends bytes and pads the block. */
    method AppendPadded(b: Bytes)
      requires |structBlk| % 4 == 0
      modifies this`structBlk
      ensures structBlk == old(structBlk) + Padded(b) && |structBlk| % 4 == 0
      ensures |structBlk| >= old(|structBlk|) + |b|
    {
      PadAppended(structBlk, b);
      PaddedAligned(structBlk + b);
      Append(b);
      Pad4();
    }

    method EmitProp(p: Prop, ghost final: map<Bytes, nat>)
      requires |structBlk| % 4 == 0 && Honest() && Sound(Names())
      requires Extends(Intern(Names(), p.name).offsets, final)
      modifies this
      ensures structBlk == old(structBlk) + EncodeProp(p, final) && |structBlk| % 4 == 0
      ensures Names() == Intern(old(Names()), p.name) && Honest()
    {
      InternKeeps(Names(), p.name);
      var offset := StrOff(p.name);
      assert Located(strings, offset, p.name);
      if |p.value| >= 0x1_0000_0000 || offset >= 0x1_0000_0000 {
        raised := true;
      }
      var head := Pack(PROP) + Pack(|p.value|) + Pack(offset);
      Assoc(structBlk, head, Padded(p.value));
      AlignedWords(structBlk, PROP, |p.value|, offset);
      Append(head);
      AppendPadded(p.value);
    }

    /** Writes a node. Offsets never change once assigned, so the tokens can be stated with
        the offsets `final` that hold when the whole tree is written. */
    method Emit(node: Tree, ghost final: map<Bytes, nat>)
      requires |structBlk| % 4 == 0 && Honest() && Sound(Names())
      requires Extends(InternTree(Names(), node).offsets, final)
      modifies this
      ensures structBlk == old(structBlk) + Encode(node, final) && |structBlk| % 4 == 0
      ensures Names() == InternTree(old(Names()), node) && Honest()
      decreases node, 1
    {
      ghost var was, begin, name := structBlk, Pack(BEGIN_NODE), Padded(Text(node.name));
      ghost var props, children := EncodeProps(node.props, final), EncodeFrom(node, 0, final);
      InternFromKeeps(InternProps(Names(), node.props), node, 0);
      Aligned2(structBlk, Pack(BEGIN_NODE));
      Append(Pack(BEGIN_NODE));
      AppendPadded(Text(node.name));
      EmitProps(node.props, final);
      EmitChildren(node, final);
      Aligned2(structBlk, Pack(END_NODE));
      Append(Pack(END_NODE));
      Five(was, begin, name, props, children, Pack(END_NODE));
    }

    method EmitProps(props: seq<Prop>, ghost final: map<Bytes, nat>)
      requires |structBlk| % 4 == 0 && Honest() && Sound(Names())
      requires Extends(InternProps(Names(), props).offsets, final)
      modifies this
      ensures structBlk == old(structBlk) + EncodeProps(props, final) && |structBlk| % 4 == 0
      ensures Names() == InternProps(old(Names()), props) && Honest() && Sound(Names())
    {
      for i := 0 to |props|
        invariant |structBlk| % 4 == 0 && Honest() && Sound(Names())
        invariant structBlk + EncodeProps(props[i..], final) == old(structBlk) + EncodeProps(props, final)
        invariant InternProps(Names(), props[i..]) == InternProps(old(Names()), props)
      {
        NextProp(Names(), props, i, final);
        Assoc(structBlk, EncodeProp(props[i], final), EncodeProps(props[i + 1..], final));
        EmitProp(props[i], final);
      }
    }

    method EmitChildren(node: Tree, ghost final: map<Bytes, nat>)
      requires |structBlk| % 4 == 0 && Honest() && Sound(Names())
      requires Extends(InternFrom(Names(), node, 0).offsets, final)
      modifies this
      ensures structBlk == old(structBlk) + EncodeFrom(node, 0, final) && |structBlk| % 4 == 0
      ensures Names() == InternFrom(old(Names()), node, 0) && Honest() && Sound(Names())
      decreases node, 0
    {
      for i := 0 to |node.children|
        invariant |structBlk| % 4 == 0 && Honest() && Sound(Names())
        invariant structBlk + EncodeFrom(node, i, final) == old(structBlk) + EncodeFrom(node, 0, final)
        invariant InternFrom(Names(), node, i) == InternFrom(old(Names()), node, 0)
      {
        var c := node.children[i];
        NextChild(Names(), node, i, final);
        Assoc(structBlk, Encode(c, final), EncodeFrom(node, i + 1, final));
        Emit(c, final);
      }
    }
  }

  lemma Five(was: Bytes, a: Bytes, b: Bytes, c: Bytes, d: Bytes, e: Bytes)
    ensures was + a + b + c + d + e == was + (a + (b + (c + (d + e))))
  {
    Assoc(was + a + b + c, d, e);
    Assoc(was + a + b, c, d + e);
    Assoc(was + a, b, c + (d + e));
    Assoc(was, a, b + (c + (d + e)));
  }

  lemma BlobSize(structBlk: Bytes, strings: Bytes)
    ensures |Blob(structBlk, strings)| == STRUCT_OFFSET + |structBlk| + |strings|
  {
  }

  /** The blob of any tree; no result, as packing raises, exactly when it would reach
      2^32 bytes. */
  method Build(tree: Tree) returns (r: Option<Bytes>)
    ensures r == if |BlobOf(tree)| < 0x1_0000_0000 then Some(BlobOf(tree)) else None
  {
    var blk, strings, raised := WriteTree(tree);
    BlobSize(blk, strings);
    if raised || STRUCT_OFFSET + |blk| + |strings| >= 0x1_0000_0000 {
      return None;
    }
    var header := PackHeader(|blk|, |strings|);
    var reservations := Zeros(STRUCT_OFFSET - HEADER_SIZE);
    BlobParts(blk, strings, header, reservations);
    r := Some(header + (reservations + (blk + strings)));
  }

  method PackHeader(blkSize: nat, stringsSize: nat) returns (header: Bytes)
    ensures header == PackAll(HeaderFields(blkSize, stringsSize))
  {
    var stringsAt := STRUCT_OFFSET + blkSize;
    var fields := [MAGIC, stringsAt + stringsSize, STRUCT_OFFSET, stringsAt, HEADER_SIZE, 17, 16, 0, stringsSize, blkSize];
    SamePacked(fields, HeaderFields(blkSize, stringsSize));
    header := PackAll(fields);
  }

  lemma SamePacked(a: seq<nat>, b: seq<nat>)
    requires a == b
    ensures PackAll(a) == PackAll(b)
  {
  }

  lemma BlobParts(blk: Bytes, strings: Bytes, header: Bytes, reservations: Bytes)
    requires header == PackAll(HeaderFields(|blk|, |strings|)) && reservations == Zeros(STRUCT_OFFSET - HEADER_SIZE)
    ensures header + (reservations + (blk + strings)) == Blob(blk, strings)
  {
  }

  /** The two blocks of a tree. */
  method WriteTree(tree: Tree) returns (blk: Bytes, strings: Bytes, raised: bool)
    ensures blk == StructOf(tree) && strings == NamesOf(tree).strings
    ensures raised ==> |blk| + |strings| >= 0x1_0000_0000
  {
    var w := new Writer();
    ghost var t := NamesOf(tree);
    w.Emit(tree, t.offsets);
    w.Append(Pack(END));
    assert [] + Encode(tree, t.offsets) == Encode(tree, t.offsets);
    blk, strings, raised := w.structBlk, w.strings, w.raised;
  }
}
