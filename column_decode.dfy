/** How the import path turns one column of a parsed row into a value: its
    dotted name is resolved to an element, a miss splices a "null" element
    under the top node, and the element's text is converted by the column's
    type. */
module ColumnDecode {
  import opened XmlTree
  import opened Schema
  import opened Scalar

  /** A column value as the context's values array holds it. Zero is the
      cleared Datum; a float is kept as the text atof would convert. */
  datatype Value = Zero | IntValue(n: int) | FloatValue(text: string) | TextValue(s: string)

  /** What the per-type switch makes of one column. */
  datatype Decoded =
    | Null
    | Present(v: Value)
    /** the column's type has no conversion */
    | BadType
    /** the resolved element has no text as its first child, where the
        source reads val->child->value.text.string regardless */
    | NoText

  /** The element the import path splices into the tree for a column it
      cannot find. */
  const NullNode := Node(Element("null"), [])

  /** The strsep loop's search (src/xml_formatter.c:331-340): each segment is
      looked for after the previous match, the first from the top node. */
  function Resolve(top: Node, start: Path, segs: seq<string>): (r: Option<Path>)
    ensures r.Some? && segs != [] ==> IsElement(At(top, r.value), segs[|segs| - 1])
    ensures segs == [] ==> r == Some(start)
    decreases |segs|
  {
    if segs == [] then Some(start)
    else match Find(top, start, segs[0])
      case None => None
      case Some(p) => Resolve(top, p, segs[1..])
  }

  /** The resolution loop itself, with strsep over the column name. */
  method ResolvePath(top: Node, name: string) returns (r: Option<Path>)
    ensures r == Resolve(top, [], Split(name))
  {
    var val: Path := [];
    var dbcolname: Option<string> := Some(name);
    while dbcolname.Some?
      invariant Resolve(top, val, Pending(dbcolname)) == Resolve(top, [], Split(name))
      decreases match dbcolname case None => 0 case Some(s) => |s| + 1
    {
      var (objname, rest) := Strsep(dbcolname.value);
      assert Pending(dbcolname) == [objname] + Pending(rest);
      dbcolname := rest;
      var found := Find(top, val, objname);
      if found.None? {
        return None;
      }
      val := found.value;
    }
    r := Some(val);
  }

  /** The text of n's first child, when that child is text. */
  function FirstText(n: Node): Option<string>
  {
    if |n.children| > 0 && n.children[0].kind.Text? then Some(n.children[0].kind.text) else None
  }

  /** The conversion of an element's text for a supported family: atoi for
      the integers, the text itself (for atof) for the floats, the bytes up
      to the first NUL for the text types. */
  function Convert(fam: Family, s: string): Value
  {
    match fam
    case IntFamily => IntValue(Atoi(s))
    case FloatFamily => FloatValue(s)
    case _ => TextValue(s[..CStrLen(s)])
  }

  /** The per-type switch (src/xml_formatter.c:350-409) on the element
      resolved for a column. */
  function DecodeScalar(n: Node, t: ColumnType): (d: Decoded)
    ensures d == BadType <==> FamilyOf(t) == Unsupported
    ensures FamilyOf(t) != Unsupported ==> (d == Null <==> n.kind == Element("null"))
    ensures d == NoText ==> FirstText(n).None?
  {
    if FamilyOf(t) == Unsupported then BadType
    else if n.kind == Element("null") then Null
    else match FirstText(n)
      case None => NoText
      case Some(s) => Present(Convert(FamilyOf(t), s))
  }

  /** An integer column whose element holds text s decodes to atoi of s. */
  lemma IntegerText(tag: string, ws: bool, s: string, t: ColumnType)
    requires tag != "null" && FamilyOf(t) == IntFamily
    ensures DecodeScalar(Node(Element(tag), [Node(Text(ws, s), [])]), t) == Present(IntValue(Atoi(s)))
  {
  }

  /** One column: its decoded value and the tree afterwards, into which a
      miss has spliced a "null" element under the top node. */
  function DecodeColumn(tree: Node, col: Column): (r: (Decoded, Node))
  {
    match Resolve(tree, [], Split(col.name))
    case None => (DecodeScalar(NullNode, col.typ), AppendChild(tree, [], NullNode))
    case Some(p) => (DecodeScalar(At(tree, p).value, col.typ), tree)
  }

  /** The body of the column loop for one column: resolve its path, splice
      a "null" element under the top node when that fails, and convert. */
  method DecodeField(tree: Node, col: Column) returns (d: Decoded, tree': Node)
    ensures (d, tree') == DecodeColumn(tree, col)
  {
    var p := ResolvePath(tree, col.name);
    var val: Node;
    if p.None? {
      tree' := AppendChild(tree, [], NullNode);
      val := NullNode;
    } else {
      tree' := tree;
      val := At(tree, p.value).value;
    }
    d := DecodeScalar(val, col.typ);
  }

  /** Each column decoded on the tree as the parser built it. */
  function Columns(tree: Node, cols: seq<Column>): (ds: seq<Decoded>)
    ensures |ds| == |cols|
    decreases |cols|
  {
    if cols == [] then [] else [DecodeColumn(tree, cols[0]).0] + Columns(tree, cols[1..])
  }

  lemma {:induction false} ColumnsAt(tree: Node, cols: seq<Column>, j: nat)
    requires j < |cols|
    ensures Columns(tree, cols)[j] == DecodeColumn(tree, cols[j]).0
    decreases j
  {
    if j > 0 {
      ColumnsAt(tree, cols[1..], j - 1);
    }
  }

  /** The column loop's body as the loop sees it: on a tree that is the
      parsed tree t with "null" elements spliced in, column i decodes as it
      does on t, and the tree stays such a tree. */
  method DecodeNext(ghost t: Node, tree: Node, cols: seq<Column>, i: nat) returns (d: Decoded, tree': Node)
    requires i < |cols| && Padded(t, tree)
    ensures d == Columns(t, cols)[i] && Padded(t, tree')
  {
    d, tree' := DecodeField(tree, cols[i]);
    SplicedNullsInvisible(t, tree, cols[i]);
    ColumnsAt(t, cols, i);
  }

  /** A column that cannot be found, or is found as a "null" element, is
      null for every supported type; one that is found otherwise takes its
      value from the element's first text child: atoi for integers, the
      text up to its first NUL for text. */
  lemma ColumnValues(tree: Node, col: Column)
    requires FamilyOf(col.typ) != Unsupported
    ensures var r := Resolve(tree, [], Split(col.name));
      var d := DecodeColumn(tree, col).0;
      (r.None? ==> d == Null) &&
      (r.Some? ==> (d == Null <==> At(tree, r.value).value.kind == Element("null"))) &&
      (r.Some? && d.Present? ==>
        var s := FirstText(At(tree, r.value).value).value;
        (FamilyOf(col.typ) == IntFamily ==> d.v == IntValue(Atoi(s))) &&
        (FamilyOf(col.typ) == TextFamily ==> d.v == TextValue(s[..CStrLen(s)])))
  {
  }

  // The null elements a row's misses splice in.

  /** u is t with zero or more "null" elements appended under its top node. */
  predicate Padded(t: Node, u: Node)
  {
    u.kind == t.kind && |t.children| <= |u.children| && u.children[..|t.children|] == t.children &&
    forall j :: |t.children| <= j < |u.children| ==> u.children[j] == NullNode
  }

  /** q names one of the spliced "null" elements. */
  predicate IsPad(t: Node, u: Node, q: Path)
  {
    |q| == 1 && |t.children| <= q[0] < |u.children|
  }

  /** The paths [a], [a+1], ..., [b-1]. */
  function Pads(a: nat, b: nat): (r: seq<Path>)
    ensures |r| == if a < b then b - a else 0
    ensures forall k :: 0 <= k < |r| ==> r[k] == [a + k]
    decreases b - a
  {
    if a >= b then [] else [[a]] + Pads(a + 1, b)
  }

  lemma PaddedAppend(t: Node, u: Node)
    requires Padded(t, u)
    ensures Padded(t, AppendChild(u, [], NullNode))
  {
    var u' := AppendChild(u, [], NullNode);
    assert u'.children[..|t.children|] == u.children[..|t.children|];
  }

  /** A node the top node already had is unchanged. */
  lemma PaddedAt(t: Node, u: Node, p: Path)
    requires Padded(t, u) && p != [] && At(t, p).Some?
    ensures At(u, p) == At(t, p)
  {
    assert u.children[p[0]] == u.children[..|t.children|][p[0]];
  }

  /** The top node decodes as before: its kind is the same, and so is its
      first child, or it still has no text as its first child. */
  lemma PaddedScalar(t: Node, u: Node, typ: ColumnType)
    requires Padded(t, u)
    ensures DecodeScalar(u, typ) == DecodeScalar(t, typ)
  {
    if |t.children| > 0 {
      assert u.children[0] == u.children[..|t.children|][0];
    }
  }

  lemma {:induction false} SubtreesOfPads(u: Node, i: nat)
    requires i <= |u.children|
    requires forall j :: i <= j < |u.children| ==> u.children[j] == NullNode
    ensures Subtrees(u, i) == Pads(i, |u.children|)
    decreases |u.children| - i
  {
    if i < |u.children| {
      SubtreesOfPads(u, i + 1);
      assert Preorder(u.children[i]) == [[]];
      assert [i] + [] == [i];
      assert Prefixed(i, [[]]) == [[i]];
    }
  }

  lemma {:induction false} SubtreesPadded(t: Node, u: Node, i: nat)
    requires Padded(t, u) && i <= |t.children|
    ensures Subtrees(u, i) == Subtrees(t, i) + Pads(|t.children|, |u.children|)
    decreases |t.children| - i
  {
    if i < |t.children| {
      SubtreesPadded(t, u, i + 1);
      assert u.children[i] == u.children[..|t.children|][i];
    } else {
      SubtreesOfPads(u, i);
    }
  }

  /** The document order of the padded tree is the old order followed by
      the spliced elements. */
  lemma PreorderPadded(t: Node, u: Node)
    requires Padded(t, u)
    ensures Preorder(u) == Preorder(t) + Pads(|t.children|, |u.children|)
  {
    SubtreesPadded(t, u, 0);
  }

  /** Position by position, the padded tree's document order names the
      old nodes, with their kinds, and then the spliced elements. */
  lemma PreorderPaddedFacts(t: Node, u: Node)
    requires Padded(t, u)
    ensures |Preorder(t)| <= |Preorder(u)|
    ensures forall j :: 0 <= j < |Preorder(t)| ==>
      Preorder(u)[j] == Preorder(t)[j] && At(t, Preorder(t)[j]).Some? && At(u, Preorder(u)[j]).Some? &&
      At(u, Preorder(u)[j]).value.kind == At(t, Preorder(t)[j]).value.kind
    ensures forall j :: |Preorder(t)| <= j < |Preorder(u)| ==>
      IsPad(t, u, Preorder(u)[j]) && At(u, Preorder(u)[j]) == Some(NullNode)
  {
    var A := Preorder(t);
    var P := Pads(|t.children|, |u.children|);
    PreorderPadded(t, u);
    PreorderValid(t);
    forall j | 0 <= j < |A|
      ensures At(u, A[j]).Some? && At(u, A[j]).value.kind == At(t, A[j]).value.kind
    {
      if A[j] != [] {
        PaddedAt(t, u, A[j]);
      }
    }
    forall j | |A| <= j < |A + P|
      ensures IsPad(t, u, (A + P)[j]) && At(u, (A + P)[j]) == Some(NullNode)
    {
      var q := (A + P)[j];
      assert q == P[j - |A|];
      assert q[1..] == [];
    }
  }

  /** The position of x in an order that extends A, where A already
      holds x. */
  lemma IndexOfExtended(A: seq<Path>, O: seq<Path>, x: Path)
    requires |A| <= |O| && x in A
    requires forall j :: 0 <= j < |A| ==> O[j] == A[j]
    ensures IndexOf(O, x) == IndexOf(A, x) < |A|
  {
    var s := IndexOf(A, x);
    var s' := IndexOf(O, x);
    assert s < |A|;
    assert O[s] == x;
    assert s' <= s;
  }

  /** Two searches that see the same matches on the first |A| positions
      agree there, and the second can only find something beyond. */
  lemma FirstElementExtended(t: Node, A: seq<Path>, u: Node, O: seq<Path>, from: nat, tag: string)
    requires from <= |A| <= |O|
    requires forall j :: from <= j < |A| ==> (IsElement(At(u, O[j]), tag) <==> IsElement(At(t, A[j]), tag))
    ensures var f := FirstElement(t, A, from, tag);
      var g := FirstElement(u, O, from, tag);
      (f.Some? ==> g == f) && (f.None? ==> g.None? || g.value >= |A|)
  {
    var f := FirstElement(t, A, from, tag);
    FirstElementFirst(t, A, from, tag);
    FirstElementFirst(u, O, from, tag);
    if f.Some? {
      assert IsElement(At(u, O[f.value]), tag);
      assert forall i :: from <= i < f.value ==> !IsElement(At(u, O[i]), tag);
    } else {
      assert forall i :: from <= i < |A| ==> !IsElement(At(u, O[i]), tag);
    }
  }

  /** A search over an order O that extends the order A of t, where the
      nodes of A keep their kinds in u, finds what the search over A found,
      or else nothing or a node beyond A. */
  lemma FindInExtended(t: Node, A: seq<Path>, u: Node, O: seq<Path>, start: Path, tag: string)
    requires |A| <= |O| && start in A
    requires forall j :: 0 <= j < |A| ==> O[j] == A[j]
    requires forall j :: 0 <= j < |A| ==> (IsElement(At(u, O[j]), tag) <==> IsElement(At(t, A[j]), tag))
    ensures var f := FindIn(t, A, start, tag);
      var g := FindIn(u, O, start, tag);
      (f.Some? ==> g == f && f.value in A) &&
      (f.None? && g.Some? ==> exists j :: |A| <= j < |O| && g.value == O[j])
  {
    IndexOfExtended(A, O, start);
    var s := IndexOf(A, start);
    FirstElementExtended(t, A, u, O, s + 1, tag);
    var fe := FirstElement(t, A, s + 1, tag);
    var ge := FirstElement(u, O, s + 1, tag);
    if fe.Some? {
      assert O[fe.value] == A[fe.value];
    } else if ge.Some? {
      assert |A| <= ge.value < |O|;
    }
  }

  /** A search from a node the tree already had finds what it found before
      if it found something, and otherwise nothing or a spliced element. */
  lemma FindPadded(t: Node, u: Node, start: Path, tag: string)
    requires Padded(t, u) && start in Preorder(t)
    ensures var f := Find(t, start, tag);
      var g := Find(u, start, tag);
      (f.Some? ==> g == f && f.value in Preorder(t)) &&
      (f.None? ==> g.None? || IsPad(t, u, g.value))
  {
    var A := Preorder(t);
    var O := Preorder(u);
    PreorderPaddedFacts(t, u);
    FindInExtended(t, A, u, O, start, tag);
    if Find(t, start, tag).None? && Find(u, start, tag).Some? {
      var j :| |A| <= j < |O| && Find(u, start, tag).value == O[j];
      assert IsPad(t, u, O[j]);
    }
  }

  /** A search that starts at position m or later of the order finds
      nothing or a node at a later position. */
  lemma FindInBeyond(u: Node, O: seq<Path>, q: Path, tag: string, m: nat)
    requires IndexOf(O, q) >= m
    ensures var g := FindIn(u, O, q, tag);
      g.Some? ==> exists j :: m < j < |O| && g.value == O[j]
  {
    var ge := FirstElement(u, O, IndexOf(O, q) + 1, tag);
    if ge.Some? {
      assert FindIn(u, O, q, tag).value == O[ge.value];
    }
  }

  /** A search from a spliced element finds nothing or a later one. */
  lemma FindFromPad(t: Node, u: Node, q: Path, tag: string)
    requires Padded(t, u) && IsPad(t, u, q)
    ensures var g := Find(u, q, tag); g.Some? ==> IsPad(t, u, g.value)
  {
    var A := Preorder(t);
    var O := Preorder(u);
    PreorderPadded(t, u);
    PreorderPaddedFacts(t, u);
    assert O[|A| + q[0] - |t.children|] == q;
    assert At(t, q) == None;
    assert forall j :: 0 <= j < |A| ==> O[j] != q;
    assert IndexOf(O, q) >= |A|;
    FindInBeyond(u, O, q, tag, |A|);
    if Find(u, q, tag).Some? {
      var j :| |A| < j < |O| && Find(u, q, tag).value == O[j];
      assert IsPad(t, u, O[j]);
    }
  }

  lemma {:induction false} ResolveFromPad(t: Node, u: Node, q: Path, segs: seq<string>)
    requires Padded(t, u) && IsPad(t, u, q)
    ensures var g := Resolve(u, q, segs); g.Some? ==> IsPad(t, u, g.value)
    decreases |segs|
  {
    if segs != [] {
      FindFromPad(t, u, q, segs[0]);
      if Find(u, q, segs[0]).Some? {
        ResolveFromPad(t, u, Find(u, q, segs[0]).value, segs[1..]);
      }
    }
  }

  /** Resolution in the padded tree agrees with resolution in the tree
      before, except that a miss may now end on a spliced element. */
  lemma {:induction false} ResolvePadded(t: Node, u: Node, start: Path, segs: seq<string>)
    requires Padded(t, u) && start in Preorder(t)
    ensures var f := Resolve(t, start, segs);
      var g := Resolve(u, start, segs);
      (f.Some? ==> g == f) && (f.None? ==> g.None? || IsPad(t, u, g.value))
    decreases |segs|
  {
    if segs != [] {
      FindPadded(t, u, start, segs[0]);
      match Find(t, start, segs[0]) {
        case Some(p) =>
          ResolvePadded(t, u, p, segs[1..]);
        case None =>
          if Find(u, start, segs[0]).Some? {
            ResolveFromPad(t, u, Find(u, start, segs[0]).value, segs[1..]);
          }
      }
    }
  }

  /** The "null" elements spliced in for earlier misses never change what a
      later column decodes to, and the tree stays the parsed tree with only
      such elements added under its top node. */
  lemma SplicedNullsInvisible(t: Node, u: Node, col: Column)
    requires Padded(t, u)
    ensures DecodeColumn(u, col).0 == DecodeColumn(t, col).0
    ensures Padded(t, DecodeColumn(u, col).1)
  {
    var segs := Split(col.name);
    assert Preorder(t)[0] == [];
    ResolvePadded(t, u, [], segs);
    match Resolve(t, [], segs) {
      case Some(p) =>
        if p == [] {
          PaddedScalar(t, u, col.typ);
        } else {
          PaddedAt(t, u, p);
        }
      case None =>
        match Resolve(u, [], segs) {
          case None =>
            PaddedAppend(t, u);
          case Some(q) =>
            assert q[1..] == [];
            assert At(u, q) == Some(NullNode);
        }
    }
  }

  lemma PaddedRefl(t: Node)
    ensures Padded(t, t)
  {
    assert t.children[..|t.children|] == t.children;
  }
}
