/** The element trees the formatter builds and searches with the Mini-XML
    library (mxml). The library's code is not part of this model: a tree is a
    value, every node has a kind and an ordered list of children, and a node
    is named by its path of child indices from the top node. mxml adds a new
    node as the LAST child of its parent, so the path of a node stays valid
    while the tree grows, as a pointer would. */
module XmlTree {

  datatype Option<T> = None | Some(value: T)

  /** The node kinds the formatter creates or reads. */
  datatype Kind =
    | Element(tag: string)
    | Text(whitespace: bool, text: string)
    | Integer(number: int)
    | Real(amount: real)

  datatype Node = Node(kind: Kind, children: seq<Node>)

  type Path = seq<nat>

  /** The node at path p below n, if there is one. */
  function At(n: Node, p: Path): Option<Node>
    decreases p
  {
    if p == [] then Some(n)
    else if p[0] < |n.children| then At(n.children[p[0]], p[1..])
    else None
  }

  predicate IsElement(n: Option<Node>, tag: string)
  {
    n.Some? && n.value.kind == Element(tag)
  }

  /** mxmlNewElement / mxmlNewInteger / mxmlNewReal / mxmlNewText: c becomes
      the last child of the node at p. */
  function AppendChild(t: Node, p: Path, c: Node): Node
    decreases p
  {
    if p == [] then Node(t.kind, t.children + [c])
    else if p[0] < |t.children| then
      Node(t.kind, t.children[p[0] := AppendChild(t.children[p[0]], p[1..], c)])
    else t
  }

  /** The tree with the kind of the node at p replaced by k. */
  function SetKind(t: Node, p: Path, k: Kind): Node
    decreases p
  {
    if p == [] then Node(k, t.children)
    else if p[0] < |t.children| then
      Node(t.kind, t.children[p[0] := SetKind(t.children[p[0]], p[1..], k)])
    else t
  }

  /** Appending a child keeps every node that was there, with its kind, and
      puts the new child at the end of p's children. */
  lemma {:induction false} AppendChildKeeps(t: Node, p: Path, c: Node, q: Path)
    requires At(t, p).Some? && At(t, q).Some?
    ensures At(AppendChild(t, p, c), q).Some?
    ensures At(AppendChild(t, p, c), q).value.kind == At(t, q).value.kind
    ensures q != p ==> |At(AppendChild(t, p, c), q).value.children| == |At(t, q).value.children|
    decreases q
  {
    if q != [] && p != [] && p[0] == q[0] {
      AppendChildKeeps(t.children[p[0]], p[1..], c, q[1..]);
    }
  }

  lemma {:induction false} AppendChildAt(t: Node, p: Path, c: Node)
    requires At(t, p).Some?
    ensures At(AppendChild(t, p, c), p + [|At(t, p).value.children|]) == Some(c)
    decreases p
  {
    if p != [] {
      AppendChildAt(t.children[p[0]], p[1..], c);
      assert (p + [|At(t, p).value.children|])[1..] == p[1..] + [|At(t, p).value.children|];
    }
  }

  /** Setting a kind changes the node at p and no other node's kind, and
      keeps every node's children count. */
  lemma {:induction false} SetKindAt(t: Node, p: Path, k: Kind, q: Path)
    requires At(t, p).Some? && At(t, q).Some?
    ensures At(SetKind(t, p, k), q).Some?
    ensures At(SetKind(t, p, k), q).value.kind == if q == p then k else At(t, q).value.kind
    ensures |At(SetKind(t, p, k), q).value.children| == |At(t, q).value.children|
    decreases q
  {
    if q != [] && p != [] && p[0] == q[0] {
      SetKindAt(t.children[p[0]], p[1..], k, q[1..]);
    }
  }

  /** The kinds with their payload erased; the tree skeleton is what the
      per-row export updates must not change. */
  function Erase(k: Kind): Kind
  {
    match k
    case Element(_) => k
    case Text(_, _) => Text(false, "")
    case Integer(_) => Integer(0)
    case Real(_) => Real(0.0)
  }

  function Skeleton(n: Node): Node
    decreases n
  {
    Node(Erase(n.kind), seq(|n.children|, i requires 0 <= i < |n.children| => Skeleton(n.children[i])))
  }

  /** Replacing a kind by one of the same class keeps the skeleton. */
  lemma {:induction false} SetKindSkeleton(t: Node, p: Path, k: Kind)
    requires At(t, p).Some? && Erase(k) == Erase(At(t, p).value.kind)
    ensures Skeleton(SetKind(t, p, k)) == Skeleton(t)
    decreases p
  {
    if p != [] {
      var i := p[0];
      var t' := SetKind(t, p, k);
      SetKindSkeleton(t.children[i], p[1..], k);
      assert forall j :: 0 <= j < |t.children| ==> Skeleton(t'.children[j]) == Skeleton(t.children[j]);
    }
  }

  /** The path of a node extended by a child index names that child. */
  lemma {:induction false} AtChild(t: Node, p: Path, i: nat)
    requires At(t, p).Some? && i < |At(t, p).value.children|
    ensures At(t, p + [i]) == Some(At(t, p).value.children[i])
    decreases p
  {
    if p != [] {
      AtChild(t.children[p[0]], p[1..], i);
      assert (p + [i])[1..] == p[1..] + [i];
    }
  }

  /** The skeleton of a tree has a node wherever the tree has one, and it
      is that node's skeleton. */
  lemma {:induction false} SkeletonAt(t: Node, p: Path)
    ensures At(Skeleton(t), p) == if At(t, p).Some? then Some(Skeleton(At(t, p).value)) else None
    decreases p
  {
    if p != [] && p[0] < |t.children| {
      SkeletonAt(t.children[p[0]], p[1..]);
    }
  }

  /** u has every node of t, at the same path and with the same kind: how
      a tree changes while nodes are only added to it. */
  ghost predicate Grows(t: Node, u: Node)
  {
    forall q :: At(t, q).Some? ==> At(u, q).Some? && At(u, q).value.kind == At(t, q).value.kind
  }

  lemma AppendChildGrows(t: Node, p: Path, c: Node)
    requires At(t, p).Some?
    ensures Grows(t, AppendChild(t, p, c))
  {
    forall q | At(t, q).Some?
      ensures At(AppendChild(t, p, c), q).Some? && At(AppendChild(t, p, c), q).value.kind == At(t, q).value.kind
    {
      AppendChildKeeps(t, p, c, q);
    }
  }

  /** All paths of n in pre-order document order: n itself, then the
      subtree of each child in turn. */
  function Preorder(n: Node): seq<Path>
    decreases n, 1, 0
  {
    [[]] + Subtrees(n, 0)
  }

  function Subtrees(n: Node, i: nat): seq<Path>
    decreases n, 0, |n.children| - i
  {
    if i >= |n.children| then []
    else Prefixed(i, Preorder(n.children[i])) + Subtrees(n, i + 1)
  }

  function Prefixed(i: nat, ps: seq<Path>): (r: seq<Path>)
    ensures |r| == |ps|
    ensures forall k :: 0 <= k < |ps| ==> r[k] == [i] + ps[k]
  {
    seq(|ps|, k requires 0 <= k < |ps| => [i] + ps[k])
  }

  /** Every path the pre-order lists is a node of the tree. */
  lemma {:induction false} PreorderValid(n: Node)
    ensures forall k :: 0 <= k < |Preorder(n)| ==> At(n, Preorder(n)[k]).Some?
    decreases n, 1, 0
  {
    SubtreesValid(n, 0);
  }

  lemma {:induction false} SubtreesValid(n: Node, i: nat)
    ensures forall k :: 0 <= k < |Subtrees(n, i)| ==>
      Subtrees(n, i)[k] != [] && i <= Subtrees(n, i)[k][0] && At(n, Subtrees(n, i)[k]).Some?
    decreases n, 0, |n.children| - i
  {
    if i < |n.children| {
      var c := n.children[i];
      PreorderValid(c);
      SubtreesValid(n, i + 1);
      var pre := Prefixed(i, Preorder(c));
      forall k | 0 <= k < |pre| ensures At(n, pre[k]).Some? {
        assert pre[k][1..] == Preorder(c)[k];
      }
    }
  }

  /** The position of x in s, or |s| when x is absent. */
  function IndexOf(s: seq<Path>, x: Path): (k: nat)
    ensures k <= |s|
    ensures k < |s| ==> s[k] == x
    ensures forall j :: 0 <= j < k ==> s[j] != x
  {
    if s == [] then 0
    else if s[0] == x then 0
    else 1 + IndexOf(s[1..], x)
  }

  /** The first index j >= from whose path in order names an element with
      the given tag. */
  function FirstElement(top: Node, order: seq<Path>, from: nat, tag: string): (r: Option<nat>)
    ensures r.Some? ==> from <= r.value < |order| && IsElement(At(top, order[r.value]), tag)
    decreases |order| - from
  {
    if from >= |order| then None
    else if IsElement(At(top, order[from]), tag) then Some(from)
    else FirstElement(top, order, from + 1, tag)
  }

  /** The search skips no match: nothing before the one found, or nothing
      at all from from on when none is found. */
  lemma {:induction false} FirstElementFirst(top: Node, order: seq<Path>, from: nat, tag: string)
    ensures var r := FirstElement(top, order, from, tag);
      (r.Some? ==> forall j :: from <= j < r.value ==> !IsElement(At(top, order[j]), tag)) &&
      (r.None? ==> forall j :: from <= j < |order| ==> !IsElement(At(top, order[j]), tag))
    decreases |order| - from
  {
    if from < |order| && !IsElement(At(top, order[from]), tag) {
      FirstElementFirst(top, order, from + 1, tag);
    }
  }

  /** mxmlFindElement(start, top, tag, NULL, NULL, MXML_DESCEND), as this
      model assumes the library behaves: the first element after start in
      the pre-order of top whose tag is tag, or none. */
  function Find(top: Node, start: Path, tag: string): (r: Option<Path>)
    ensures r.Some? ==> IsElement(At(top, r.value), tag)
  {
    FindIn(top, Preorder(top), start, tag)
  }

  /** The search over a given document order of top. */
  function FindIn(top: Node, order: seq<Path>, start: Path, tag: string): (r: Option<Path>)
    ensures r.Some? ==> IsElement(At(top, r.value), tag)
  {
    match FirstElement(top, order, IndexOf(order, start) + 1, tag)
    case None => None
    case Some(j) => Some(order[j])
  }
}
