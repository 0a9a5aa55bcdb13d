/** The export direction (xml_formatter_export, src/xml_formatter.c:423-655):
    on the first call one document is built with an element path and a
    value node per column; every call then writes the row's values into
    those value nodes, serialises the whole document and returns it as a
    bytea with one newline appended. */
module ExportFormatter {
  import opened XmlTree
  import opened Schema
  import opened Scalar
  import ColumnDecode

  /** The size of a varlena header. */
  const VARHDRSZ: nat := 4

  /** mxmlNewXML("1.0"): the document node every path hangs from. The
      library's code is not part of this model; the node is assumed to be an
      element whose name is the declaration. */
  const Document := Node(Element("?xml version=\"1.0\" encoding=\"utf-8\"?"), [])

  /** A column value as heap_deform_tuple hands it over. */
  datatype Datum = IntDatum(v: int) | FloatDatum(x: real) | TextDatum(s: string)

  /** The bytea the call returns: its varlena size, header included, and
      its data bytes. */
  datatype Blob = Blob(size: nat, data: string)

  datatype ExportError =
    /** setup met a column of a type it has no value node for
        (src/xml_formatter.c:518-520) */
    | SetupUnsupported(column: nat)
    /** mxmlSetInteger, mxmlSetReal or mxmlSetText refused the column's node */
    | CannotSet(column: nat)
    /** the per-row switch met a type it does not write (src/xml_formatter.c:625-629) */
    | RowUnsupported(column: nat)

  datatype ExportOutcome = Written(blob: Blob) | Failed(error: ExportError)

  /** A datum is of the kind its column's type stores. */
  predicate Conforms(t: ColumnType, d: Datum)
  {
    match FamilyOf(t)
    case IntFamily => d.IntDatum?
    case FloatFamily => d.FloatDatum?
    case TextFamily => d.TextDatum?
    case Unsupported => true
  }

  /** Every non-null field of the row conforms to its column. */
  predicate RowConforms(cols: seq<Column>, row: seq<Datum>, nulls: seq<bool>)
    requires |row| == |cols| == |nulls|
  {
    forall i :: 0 <= i < |cols| ==> nulls[i] || Conforms(cols[i].typ, row[i])
  }

  // ---------------------------------------------------------------------
  // Setup: one element path and one value node per column.

  /** The value node setup puts under a column's element
      (src/xml_formatter.c:486-513): integer 0, real 0.0 or an empty text
      preceded by white space; none for the other types. */
  function Leaf(t: ColumnType): (k: Option<Kind>)
    ensures k.None? <==> FamilyOf(t) == Unsupported
  {
    match FamilyOf(t)
    case IntFamily => Some(Integer(0))
    case FloatFamily => Some(Real(0.0))
    case TextFamily => Some(Text(true, ""))
    case Unsupported => None
  }

  /** One pass of the setup's strsep loop (src/xml_formatter.c:470-483): the
      segment is looked for after the parent, and appended under the parent
      as a new element when it is not found. */
  function FindOrCreate(t: Node, parent: Path, seg: string): (r: (Node, Path))
    requires At(t, parent).Some?
    ensures IsElement(At(r.0, r.1), seg)
  {
    match Find(t, parent, seg)
    case Some(p) => (t, p)
    case None =>
      var c := Node(Element(seg), []);
      AppendChildAt(t, parent, c);
      (AppendChild(t, parent, c), parent + [|At(t, parent).value.children|])
  }

  /** The whole strsep loop: each segment is found or created below the
      node the previous one ended at, the first below the given parent. */
  function Place(t: Node, parent: Path, segs: seq<string>): (r: (Node, Path))
    requires At(t, parent).Some?
    ensures At(r.0, r.1).Some?
    ensures segs != [] ==> IsElement(At(r.0, r.1), segs[|segs| - 1])
    ensures segs == [] ==> r == (t, parent)
    decreases |segs|, 1
  {
    if segs == [] then (t, parent) else PlaceNext(t, parent, segs)
  }

  /** The loop from its next segment on. */
  function PlaceNext(t: Node, parent: Path, segs: seq<string>): (r: (Node, Path))
    requires At(t, parent).Some? && segs != []
    ensures At(r.0, r.1).Some? && IsElement(At(r.0, r.1), segs[|segs| - 1])
    decreases |segs|, 0
  {
    var step := FindOrCreate(t, parent, segs[0]);
    Place(step.0, step.1, segs[1..])
  }

  /** The tag of the element a column's value sits under: the last segment
      of its name. */
  function LastSegment(name: string): string
  {
    var segs := Split(name);
    segs[|segs| - 1]
  }

  /** Setup for one column: the path placed from the document node, then
      the value node of its type appended under it; none for a type setup
      does not handle. */
  function SetupColumn(t: Node, col: Column): (r: Placed)
    ensures r.NoLeaf? <==> FamilyOf(col.typ) == Unsupported
    ensures r.Placed? ==> IsElement(At(r.tree, r.path), LastSegment(col.name))
  {
    match Leaf(col.typ)
    case None => NoLeaf
    case Some(k) =>
      var placed := Place(t, [], Split(col.name));
      AppendChildKeeps(placed.0, placed.1, Node(k, []), placed.1);
      Placed(AppendChild(placed.0, placed.1, Node(k, [])), placed.1)
  }

  lemma GrowsTransitive(t: Node, u: Node, w: Node)
    requires Grows(t, u) && Grows(u, w)
    ensures Grows(t, w)
  {
  }

  /** Setup only adds nodes: the tree it leaves has every node it was given,
      whether found or created. */
  lemma {:induction false} PlaceGrows(t: Node, parent: Path, segs: seq<string>)
    requires At(t, parent).Some?
    ensures Grows(t, Place(t, parent, segs).0)
    decreases |segs|
  {
    if segs != [] {
      var step := FindOrCreate(t, parent, segs[0]);
      assert Place(t, parent, segs) == PlaceNext(t, parent, segs) == Place(step.0, step.1, segs[1..]);
      if Find(t, parent, segs[0]).None? {
        AppendChildGrows(t, parent, Node(Element(segs[0]), []));
      }
      PlaceGrows(step.0, step.1, segs[1..]);
      GrowsTransitive(t, step.0, Place(t, parent, segs).0);
    }
  }

  lemma SetupColumnGrows(t: Node, col: Column)
    requires SetupColumn(t, col).Placed?
    ensures Grows(t, SetupColumn(t, col).tree)
  {
    var k := Leaf(col.typ).value;
    var placed := Place(t, [], Split(col.name));
    PlaceGrows(t, [], Split(col.name));
    AppendChildGrows(placed.0, placed.1, Node(k, []));
    GrowsTransitive(t, placed.0, AppendChild(placed.0, placed.1, Node(k, [])));
  }

  /** A column set up: the tree with its element path and value node, and
      the path of the element. */
  datatype Placed = NoLeaf | Placed(tree: Node, path: Path)

  datatype Layout = Laid(tree: Node, vals: seq<Path>) | TypeNotSupported(column: nat)

  /** Setup over the first n columns. It succeeds exactly when every one of
      them has a supported type, and otherwise names the first that has
      not. */
  function LayoutOf(t: Node, cols: seq<Column>, n: nat): (r: Layout)
    requires n <= |cols|
    ensures r.Laid? ==> |r.vals| == n
    decreases n, 1
  {
    if n == 0 then Laid(t, []) else LayoutNext(t, cols, n)
  }

  /** The layout of the first n - 1 columns, then column n - 1. */
  function LayoutNext(t: Node, cols: seq<Column>, n: nat): (r: Layout)
    requires 0 < n <= |cols|
    ensures r.Laid? ==> |r.vals| == n
    decreases n, 0
  {
    match LayoutOf(t, cols, n - 1)
    case TypeNotSupported(k) => TypeNotSupported(k)
    case Laid(u, ps) =>
      match SetupColumn(u, cols[n - 1])
      case NoLeaf => TypeNotSupported(n - 1)
      case Placed(w, p) => Laid(w, ps + [p])
  }

  /** A failed layout names the first column whose type has no leaf. */
  lemma {:induction false} LayoutBlames(t: Node, cols: seq<Column>, n: nat)
    requires n <= |cols|
    ensures var r := LayoutOf(t, cols, n);
      r.TypeNotSupported? ==> (r.column < n && FamilyOf(cols[r.column].typ) == Unsupported &&
        forall i :: 0 <= i < r.column ==> FamilyOf(cols[i].typ) != Unsupported)
    decreases n
  {
    if n > 0 {
      match LayoutOf(t, cols, n - 1)
      case TypeNotSupported(k) =>
        LayoutBlames(t, cols, n - 1);
        SetupStops(t, cols, n - 1, n);
      case Laid(u, ps) =>
        LayoutSupport(t, cols, n - 1);
        LayoutStep(t, cols, n - 1, u, ps);
    }
  }

  /** The layout succeeds exactly when every column's type has a leaf. */
  lemma {:induction false} LayoutSupport(t: Node, cols: seq<Column>, n: nat)
    requires n <= |cols|
    ensures LayoutOf(t, cols, n).Laid? <==> forall i :: 0 <= i < n ==> FamilyOf(cols[i].typ) != Unsupported
    decreases n
  {
    if n > 0 {
      LayoutSupport(t, cols, n - 1);
      match LayoutOf(t, cols, n - 1)
      case TypeNotSupported(k) =>
        LayoutBlames(t, cols, n - 1);
        SetupStops(t, cols, n - 1, n);
        assert FamilyOf(cols[k].typ) == Unsupported;
      case Laid(u, ps) =>
        LayoutStep(t, cols, n - 1, u, ps);
        if FamilyOf(cols[n - 1].typ) == Unsupported {
          assert LayoutOf(t, cols, n).TypeNotSupported?;
        } else {
          forall i | 0 <= i < n ensures FamilyOf(cols[i].typ) != Unsupported {
            if i < n - 1 {
              assert FamilyOf(cols[i].typ) != Unsupported;
            }
          }
        }
    }
  }

  /** Each of the first |vals| columns has an element at its path, named by
      the last segment of the column's name. */
  ghost predicate Labelled(tree: Node, vals: seq<Path>, cols: seq<Column>)
    requires |vals| <= |cols|
  {
    forall i :: 0 <= i < |vals| ==> IsElement(At(tree, vals[i]), LastSegment(cols[i].name))
  }

  /** After setup every column has an element named by the last segment of
      its name, in a tree that has kept every node it started with. */
  lemma {:induction false} LayoutPaths(t: Node, cols: seq<Column>, n: nat)
    requires n <= |cols| && LayoutOf(t, cols, n).Laid?
    ensures Grows(t, LayoutOf(t, cols, n).tree) && Labelled(LayoutOf(t, cols, n).tree, LayoutOf(t, cols, n).vals, cols)
    decreases n
  {
    if n > 0 {
      LayoutPaths(t, cols, n - 1);
      var r := LayoutOf(t, cols, n - 1);
      var s := SetupColumn(r.tree, cols[n - 1]);
      LayoutStep(t, cols, n - 1, r.tree, r.vals);
      SetupColumnGrows(r.tree, cols[n - 1]);
      ExtendLabelled(t, r.tree, s.tree, r.vals, s.path, cols);
    }
  }

  lemma ExtendLabelled(t: Node, u: Node, w: Node, ps: seq<Path>, p: Path, cols: seq<Column>)
    requires |ps| < |cols|
    requires Grows(t, u) && Grows(u, w) && Labelled(u, ps, cols)
    requires IsElement(At(w, p), LastSegment(cols[|ps|].name))
    ensures Grows(t, w) && Labelled(w, ps + [p], cols)
  {
    GrowsTransitive(t, u, w);
    forall i | 0 <= i < |ps| + 1
      ensures IsElement(At(w, (ps + [p])[i]), LastSegment(cols[i].name))
    {
      if i < |ps| {
        assert (ps + [p])[i] == ps[i];
      }
    }
  }

  lemma LayoutStep(t: Node, cols: seq<Column>, i: nat, u: Node, ps: seq<Path>)
    requires i < |cols| && LayoutOf(t, cols, i) == Laid(u, ps)
    ensures LayoutOf(t, cols, i + 1) ==
      match SetupColumn(u, cols[i])
      case NoLeaf => TypeNotSupported(i)
      case Placed(w, p) => Laid(w, ps + [p])
  {
    assert LayoutOf(t, cols, i + 1) == LayoutNext(t, cols, i + 1);
  }

  lemma {:induction false} SetupStops(t: Node, cols: seq<Column>, k: nat, m: nat)
    requires k <= m <= |cols| && LayoutOf(t, cols, k).TypeNotSupported?
    ensures LayoutOf(t, cols, m) == LayoutOf(t, cols, k)
    decreases m
  {
    if m > k {
      SetupStops(t, cols, k, m - 1);
      assert LayoutOf(t, cols, m) == LayoutNext(t, cols, m) == LayoutOf(t, cols, m - 1);
    }
  }

  // ---------------------------------------------------------------------
  // Per row: the values written into the value nodes.

  /** The node mxmlSetInteger, mxmlSetReal or mxmlSetText writes when given
      the node at p, as this model assumes the library behaves: an element
      whose first child is a value node of k's class hands over that child;
      a value node of k's class is written itself; anything else is refused
      (the call returns -1). */
  function Target(t: Node, p: Path, k: Kind): Option<Path>
  {
    match At(t, p)
    case None => None
    case Some(n) =>
      if n.kind.Element? && |n.children| > 0 && Erase(n.children[0].kind) == Erase(k) then Some(p + [0])
      else if Erase(n.kind) == Erase(k) then Some(p)
      else None
  }

  /** The node a write lands on exists and is of the written kind's class. */
  lemma TargetValid(t: Node, p: Path, k: Kind)
    requires Target(t, p, k).Some?
    ensures At(t, Target(t, p, k).value).Some? && Erase(At(t, Target(t, p, k).value).value.kind) == Erase(k)
  {
    if Target(t, p, k) != Some(p) {
      AtChild(t, p, 0);
    }
  }

  /** A write through the node at p, or None when the library refuses it. */
  function SetValue(t: Node, p: Path, k: Kind): Option<Node>
  {
    match Target(t, p, k)
    case None => None
    case Some(q) => Some(SetKind(t, q, k))
  }

  /** What one field becomes (src/xml_formatter.c:554-624): an integer
      narrowed to the int mxmlSetInteger takes, a real, or a text preceded by
      white space, with 0, 0.0 and "" for a null; no node for other types. */
  function Encode(t: ColumnType, d: Datum, isNull: bool): (k: Option<Kind>)
    requires isNull || Conforms(t, d)
    ensures k.None? <==> FamilyOf(t) == Unsupported
    ensures k.Some? ==> Erase(k.value) == Erase(Leaf(t).value)
  {
    match FamilyOf(t)
    case IntFamily => Some(Integer(Int32Wrap(if isNull then 0 else d.v)))
    case FloatFamily => Some(Real(if isNull then 0.0 else d.x))
    case TextFamily => Some(Text(true, if isNull then "" else d.s[..CStrLen(d.s)]))
    case Unsupported => None
  }

  /** The node a column's values are written to, on a tree laid out by
      setup: found through its element as the library would. */
  function Slot(t: Node, p: Path, typ: ColumnType): Option<Path>
  {
    match Leaf(typ)
    case None => None
    case Some(k) => Target(t, p, k)
  }

  datatype Filled = Filled(tree: Node, error: Option<ExportError>)

  /** The column loop over the first n fields; the loop stops at the first
      field that cannot be written, with the tree as it stood then. */
  function FillRow(t: Node, vals: seq<Path>, cols: seq<Column>, row: seq<Datum>, nulls: seq<bool>, n: nat): Filled
    requires n <= |cols| && |vals| == |row| == |cols| == |nulls| && RowConforms(cols, row, nulls)
    decreases n, 1
  {
    if n == 0 then Filled(t, None) else FillNext(t, vals, cols, row, nulls, n)
  }

  /** The loop up to field n - 1, then field n - 1. */
  function FillNext(t: Node, vals: seq<Path>, cols: seq<Column>, row: seq<Datum>, nulls: seq<bool>, n: nat): Filled
    requires 0 < n <= |cols| && |vals| == |row| == |cols| == |nulls| && RowConforms(cols, row, nulls)
    decreases n, 0
  {
    FillField(FillRow(t, vals, cols, row, nulls, n - 1), vals[n - 1], cols[n - 1].typ, row[n - 1], nulls[n - 1], n - 1)
  }

  lemma FillRowUnfold(t: Node, vals: seq<Path>, cols: seq<Column>, row: seq<Datum>, nulls: seq<bool>, n: nat)
    requires 0 < n <= |cols| && |vals| == |row| == |cols| == |nulls| && RowConforms(cols, row, nulls)
    ensures FillRow(t, vals, cols, row, nulls, n) ==
      FillField(FillRow(t, vals, cols, row, nulls, n - 1), vals[n - 1], cols[n - 1].typ, row[n - 1], nulls[n - 1], n - 1)
  {
    assert FillRow(t, vals, cols, row, nulls, n) == FillNext(t, vals, cols, row, nulls, n);
  }

  /** The loop body for field i, after the fields before it. */
  function FillField(f: Filled, p: Path, typ: ColumnType, d: Datum, isNull: bool, i: nat): Filled
    requires isNull || Conforms(typ, d)
  {
    if f.error.Some? then f
    else match Encode(typ, d, isNull)
      case None => Filled(f.tree, Some(RowUnsupported(i)))
      case Some(k) =>
        match SetValue(f.tree, p, k)
        case None => Filled(f.tree, Some(CannotSet(i)))
        case Some(u) => Filled(u, None)
  }

  lemma {:induction false} FillRowStops(t: Node, vals: seq<Path>, cols: seq<Column>, row: seq<Datum>, nulls: seq<bool>, k: nat, m: nat)
    requires k <= m <= |cols| && |vals| == |row| == |cols| == |nulls| && RowConforms(cols, row, nulls)
    requires FillRow(t, vals, cols, row, nulls, k).error.Some?
    ensures FillRow(t, vals, cols, row, nulls, m) == FillRow(t, vals, cols, row, nulls, k)
    decreases m
  {
    if m > k {
      FillRowStops(t, vals, cols, row, nulls, k, m - 1);
      FillRowUnfold(t, vals, cols, row, nulls, m);
    }
  }

  /** Writing a row changes payloads only: the tree keeps its shape and the
      class of every node. */
  lemma {:induction false} FillRowSkeleton(t: Node, vals: seq<Path>, cols: seq<Column>, row: seq<Datum>, nulls: seq<bool>, n: nat)
    requires n <= |cols| && |vals| == |row| == |cols| == |nulls| && RowConforms(cols, row, nulls)
    ensures Skeleton(FillRow(t, vals, cols, row, nulls, n).tree) == Skeleton(t)
    decreases n
  {
    if n > 0 {
      FillRowSkeleton(t, vals, cols, row, nulls, n - 1);
      FillRowUnfold(t, vals, cols, row, nulls, n);
      var f := FillRow(t, vals, cols, row, nulls, n - 1);
      if f.error.None? {
        FillFieldStep(f, t, vals[n - 1], cols[n - 1].typ, row[n - 1], nulls[n - 1], n - 1);
        var g := FillRow(t, vals, cols, row, nulls, n);
        if g.error.None? {
          var e := Encode(cols[n - 1].typ, row[n - 1], nulls[n - 1]).value;
          var q := Slot(t, vals[n - 1], cols[n - 1].typ).value;
          TargetSkeleton(f.tree, t, vals[n - 1], e);
          TargetValid(f.tree, vals[n - 1], e);
          SetKindSkeleton(f.tree, q, e);
        }
      }
    }
  }

  /** Where a write lands depends on the tree's shape and classes only. */
  lemma TargetSkeleton(t: Node, u: Node, p: Path, k: Kind)
    requires Skeleton(t) == Skeleton(u)
    ensures Target(t, p, k) == Target(u, p, k)
  {
    SkeletonAt(t, p);
    SkeletonAt(u, p);
    if At(t, p).Some? {
      var a := At(t, p).value;
      var b := At(u, p).value;
      assert Skeleton(a) == Skeleton(b);
      assert |Skeleton(a).children| == |a.children| && |Skeleton(b).children| == |b.children|;
      if |a.children| > 0 {
        assert Skeleton(a).children[0] == Skeleton(a.children[0]);
        assert Skeleton(b).children[0] == Skeleton(b.children[0]);
      }
    }
  }

  /** One field, on a tree of the same shape as t: the write goes through
      exactly when t has a slot for it, and lands in that slot. */
  lemma FillFieldStep(f: Filled, t: Node, p: Path, typ: ColumnType, d: Datum, isNull: bool, i: nat)
    requires isNull || Conforms(typ, d)
    requires f.error.None? && Skeleton(f.tree) == Skeleton(t)
    ensures var g := FillField(f, p, typ, d, isNull, i);
      (g.error.None? <==> Slot(t, p, typ).Some?) &&
      (g.error.Some? ==> (g.error.value.column == i && !g.error.value.SetupUnsupported? &&
        (g.error.value.RowUnsupported? <==> FamilyOf(typ) == Unsupported))) &&
      (g.error.None? ==> g.tree == SetKind(f.tree, Slot(t, p, typ).value, Encode(typ, d, isNull).value))
  {
    var e := Encode(typ, d, isNull);
    if e.Some? {
      TargetSkeleton(f.tree, t, p, e.value);
      assert Target(t, p, e.value) == Slot(t, p, typ);
    }
  }

  /** A failing row, stated on the tree before the row: it stops at the
      first column whose node the library will not write, blaming the type
      when the type has no value node at all. */
  lemma {:induction false} FillRowBlames(t: Node, vals: seq<Path>, cols: seq<Column>, row: seq<Datum>, nulls: seq<bool>, n: nat)
    requires n <= |cols| && |vals| == |row| == |cols| == |nulls| && RowConforms(cols, row, nulls)
    ensures var f := FillRow(t, vals, cols, row, nulls, n);
      f.error.Some? ==>
        var c := f.error.value.column;
        c < n && Slot(t, vals[c], cols[c].typ).None? &&
        (forall i :: 0 <= i < c ==> Slot(t, vals[i], cols[i].typ).Some?) &&
        !f.error.value.SetupUnsupported? &&
        (f.error.value.RowUnsupported? <==> FamilyOf(cols[c].typ) == Unsupported)
    decreases n
  {
    if n > 0 {
      FillRowUnfold(t, vals, cols, row, nulls, n);
      var f := FillRow(t, vals, cols, row, nulls, n - 1);
      if f.error.None? {
        FillRowSucceeds(t, vals, cols, row, nulls, n - 1);
        FillRowSkeleton(t, vals, cols, row, nulls, n - 1);
        FillFieldStep(f, t, vals[n - 1], cols[n - 1].typ, row[n - 1], nulls[n - 1], n - 1);
      } else {
        FillRowBlames(t, vals, cols, row, nulls, n - 1);
      }
    }
  }

  /** The row gets through all n fields exactly when every column's node is
      one the library will write. */
  lemma {:induction false} FillRowSucceeds(t: Node, vals: seq<Path>, cols: seq<Column>, row: seq<Datum>, nulls: seq<bool>, n: nat)
    requires n <= |cols| && |vals| == |row| == |cols| == |nulls| && RowConforms(cols, row, nulls)
    ensures FillRow(t, vals, cols, row, nulls, n).error.None? <==>
      forall i :: 0 <= i < n ==> Slot(t, vals[i], cols[i].typ).Some?
    decreases n
  {
    if n > 0 {
      FillRowUnfold(t, vals, cols, row, nulls, n);
      var f := FillRow(t, vals, cols, row, nulls, n - 1);
      FillRowSucceeds(t, vals, cols, row, nulls, n - 1);
      if f.error.None? {
        FillRowSkeleton(t, vals, cols, row, nulls, n - 1);
        FillFieldStep(f, t, vals[n - 1], cols[n - 1].typ, row[n - 1], nulls[n - 1], n - 1);
        if FillRow(t, vals, cols, row, nulls, n).error.None? {
          forall i | 0 <= i < n ensures Slot(t, vals[i], cols[i].typ).Some? {
            if i < n - 1 {
              assert Slot(t, vals[i], cols[i].typ).Some?;
            }
          }
        }
      } else {
        var k :| 0 <= k < n - 1 && Slot(t, vals[k], cols[k].typ).None?;
        assert !(forall i :: 0 <= i < n ==> Slot(t, vals[i], cols[i].typ).Some?) by {
          assert Slot(t, vals[k], cols[k].typ).None?;
        }
      }
    }
  }

  /** After a complete row, column i's node holds column i's field, unless
      a later column writes the same node (a later column wins). */
  lemma {:induction false} FillRowContents(t: Node, vals: seq<Path>, cols: seq<Column>, row: seq<Datum>, nulls: seq<bool>, n: nat, i: nat)
    requires n <= |cols| && |vals| == |row| == |cols| == |nulls| && RowConforms(cols, row, nulls)
    requires i < n && FillRow(t, vals, cols, row, nulls, n).error.None?
    requires forall j :: i < j < n ==> Slot(t, vals[j], cols[j].typ) != Slot(t, vals[i], cols[i].typ)
    ensures Slot(t, vals[i], cols[i].typ).Some?
    ensures var q := Slot(t, vals[i], cols[i].typ).value;
      At(FillRow(t, vals, cols, row, nulls, n).tree, q).Some? &&
      At(FillRow(t, vals, cols, row, nulls, n).tree, q).value.kind == Encode(cols[i].typ, row[i], nulls[i]).value
    decreases n
  {
    FillRowUnfold(t, vals, cols, row, nulls, n);
    var f := FillRow(t, vals, cols, row, nulls, n - 1);
    assert f.error.None?;
    FillRowSkeleton(t, vals, cols, row, nulls, n - 1);
    FillFieldStep(f, t, vals[n - 1], cols[n - 1].typ, row[n - 1], nulls[n - 1], n - 1);
    var e := Encode(cols[n - 1].typ, row[n - 1], nulls[n - 1]).value;
    var q := Slot(t, vals[n - 1], cols[n - 1].typ).value;
    TargetSkeleton(f.tree, t, vals[n - 1], e);
    TargetValid(f.tree, vals[n - 1], e);
    if i < n - 1 {
      FillRowContents(t, vals, cols, row, nulls, n - 1, i);
      SetKindAt(f.tree, q, e, Slot(t, vals[i], cols[i].typ).value);
    } else {
      SetKindAt(f.tree, q, e, q);
    }
  }

  // ---------------------------------------------------------------------
  // Framing.

  /** The bytea around the serialised document (src/xml_formatter.c:640-651):
      the strlen bytes of the text, then one newline, under a varlena header
      counting the header, the text and the newline. */
  function Frame(xbuf: string): (b: Blob)
    ensures b.size == CStrLen(xbuf) + VARHDRSZ + 1 == |b.data| + VARHDRSZ
  {
    Blob(CStrLen(xbuf) + VARHDRSZ + 1, xbuf[..CStrLen(xbuf)] + "\n")
  }

  /** The text a reader of the bytea sees: its data without the last byte. */
  function Unframe(b: Blob): string
  {
    if b.data == [] then [] else b.data[..|b.data| - 1]
  }

  /** The blob holds exactly the serialised text followed by one newline,
      and no NUL cuts it short. */
  lemma FrameRoundTrip(xbuf: string)
    ensures Unframe(Frame(xbuf)) == xbuf[..CStrLen(xbuf)]
    ensures Frame(xbuf).data[|Frame(xbuf).data| - 1] == '\n'
    ensures CStrLen(Frame(xbuf).data) == |Frame(xbuf).data|
  {
    var d := Frame(xbuf).data;
    assert d[..|d| - 1] == xbuf[..CStrLen(xbuf)];
    assert forall i :: 0 <= i < |d| ==> d[i] != '\0' by {
      forall i | 0 <= i < |d| ensures d[i] != '\0' {
        if i < CStrLen(xbuf) {
          assert d[i] == xbuf[i];
        }
      }
    }
    CStrLenNoNul(d);
  }

  lemma {:induction false} CStrLenNoNul(s: string)
    requires forall i :: 0 <= i < |s| ==> s[i] != '\0'
    ensures CStrLen(s) == |s|
  {
  }

  // ---------------------------------------------------------------------
  // Values written and read back.

  /** A null field is written exactly as the zero of its type. */
  lemma NullWritesZero(t: ColumnType, d: Datum)
    requires FamilyOf(t) != Unsupported
    ensures FamilyOf(t) == IntFamily ==> Encode(t, d, true) == Encode(t, IntDatum(0), false) == Some(Integer(0))
    ensures FamilyOf(t) == FloatFamily ==> Encode(t, d, true) == Encode(t, FloatDatum(0.0), false) == Leaf(t)
    ensures FamilyOf(t) == TextFamily ==> Encode(t, d, true) == Encode(t, TextDatum(""), false) == Leaf(t)
  {
  }

  /** An integer field inside the int range, written as "%d" text and read
      back by the import direction's atoi, is the same value; the narrowing
      to int only shows outside that range. */
  lemma IntegerReadsBack(v: int, rest: string)
    requires -0x8000_0000 <= v < 0x8000_0000
    requires rest == [] || !IsDigit(rest[0])
    ensures Encode(Int8, IntDatum(v), false) == Some(Integer(v))
    ensures Atoi(DecimalString(v) + rest) == v
  {
    AtoiDecimal(v, rest);
  }

  /** A 64-bit value just past the int range comes back as the most
      negative int. */
  lemma WideIntegerWraps()
    ensures Encode(Int8, IntDatum(0x8000_0000), false) == Some(Integer(-0x8000_0000))
  {
  }

  /** An element whose text is the "%d" rendering of an exported integer
      decodes on import, for any integer column, to that integer. */
  lemma ExportedIntegerImports(tag: string, ws: bool, v: int, t: ColumnType)
    requires tag != "null" && FamilyOf(t) == IntFamily
    requires -0x8000_0000 <= v < 0x8000_0000
    ensures var n := Node(Element(tag), [Node(Text(ws, DecimalString(Int32Wrap(v))), [])]);
      ColumnDecode.DecodeScalar(n, t) == ColumnDecode.Present(ColumnDecode.IntValue(v))
  {
    var s := DecimalString(Int32Wrap(v));
    assert Int32Wrap(v) == v;
    ColumnDecode.IntegerText(tag, ws, s, t);
    AtoiDecimalAlone(v);
  }

  // ---------------------------------------------------------------------
  // The export context and the call.

  /** The export direction's context (src/xml_formatter.c:36-45). The
      deformed row (dbvalues, dbnulls) is an argument of each call here. */
  class WriteContext {
    const ncolumns: nat
    /** xml_root: the document all rows are written into */
    var root: Node
    /** xml_vals: the element each column's value hangs from */
    var vals: array<Path>
    /** buf: the last bytea returned; None before the first row */
    var buf: Option<Blob>

    ghost predicate Valid()
      reads this
    {
      vals.Length == ncolumns
    }

    constructor(ncolumns: nat)
      ensures this.ncolumns == ncolumns && Valid() && fresh(vals)
      ensures root == Document && buf == None
    {
      this.ncolumns := ncolumns;
      root := Document;
      vals := new Path[ncolumns](_ => []);
      buf := None;
    }

    /** One segment: mxmlFindElement below the parent, and mxmlNewElement
        under the parent when that finds nothing (src/xml_formatter.c:475-483). */
    method FindOrAppend(parent: Path, objname: string) returns (p: Path)
      requires At(root, parent).Some?
      modifies this`root
      ensures (root, p) == FindOrCreate(old(root), parent, objname)
    {
      var found := Find(root, parent, objname);
      if found.Some? {
        return found.value;
      }
      p := parent + [|At(root, parent).value.children|];
      root := AppendChild(root, parent, Node(Element(objname), []));
    }

    /** The strsep loop of setup for one column name
        (src/xml_formatter.c:463-484). */
    method PlaceColumn(name: string) returns (p: Path)
      modifies this`root
      ensures (root, p) == Place(old(root), [], Split(name))
    {
      var parent: Path := [];
      var val: Option<Path> := None;
      var dbcolname: Option<string> := Some(name);
      while dbcolname.Some?
        invariant val.None? ==> dbcolname == Some(name) && parent == [] && root == old(root)
        invariant val.Some? ==> (At(root, val.value).Some? &&
          Place(root, val.value, Pending(dbcolname)) == Place(old(root), [], Split(name)))
        decreases match dbcolname case None => 0 case Some(s) => |s| + 1
      {
        var (objname, rest) := Strsep(dbcolname.value);
        ghost var segs := [objname] + Pending(rest);
        assert Pending(dbcolname) == segs;
        dbcolname := rest;
        if val.Some? {
          parent := val.value;
        }
        ghost var before := root;
        var found := FindOrAppend(parent, objname);
        assert Place(before, parent, segs) == PlaceNext(before, parent, segs) == Place(root, found, Pending(rest));
        val := Some(found);
      }
      p := val.value;
    }

    /** Setup for one column (src/xml_formatter.c:463-518): its path, then
        the value node of its type; false, with the path placed, for a type
        setup does not handle. */
    method SetupField(col: Column) returns (p: Path, ok: bool)
      modifies this`root
      ensures ok <==> SetupColumn(old(root), col).Placed?
      ensures ok ==> SetupColumn(old(root), col) == Placed(root, p)
    {
      p := PlaceColumn(col.name);
      var leaf := Leaf(col.typ);
      if leaf.None? {
        return p, false;
      }
      root := AppendChild(root, p, Node(leaf.value, []));
      ok := true;
    }

    /** The setup loop over all columns (src/xml_formatter.c:459-520). */
    method Setup(cols: seq<Column>) returns (err: Option<nat>)
      requires Valid() && vals.Length == |cols|
      modifies this`root, vals
      ensures Valid()
      ensures match LayoutOf(old(root), cols, |cols|)
        case Laid(t, ps) => err.None? && root == t && vals[..] == ps
        case TypeNotSupported(k) => err == Some(k)
    {
      ghost var t0 := root;
      for i := 0 to |cols|
        invariant LayoutOf(t0, cols, i) == Laid(root, vals[..i])
      {
        ghost var before := root;
        var p, ok := SetupField(cols[i]);
        LayoutStep(t0, cols, i, before, vals[..i]);
        if !ok {
          SetupStops(t0, cols, i + 1, |cols|);
          return Some(i);
        }
        vals[i] := p;
        assert vals[..i + 1] == vals[..i] + [p];
      }
      assert vals[..] == vals[..|cols|];
      err := None;
    }

    /** The column loop of one row (src/xml_formatter.c:550-631): each
        field is encoded and set on its node; the first failure stops it. */
    method WriteFields(cols: seq<Column>, row: seq<Datum>, nulls: seq<bool>) returns (err: Option<ExportError>)
      requires Valid() && vals.Length == |row| == |cols| == |nulls| && RowConforms(cols, row, nulls)
      modifies this`root
      ensures Valid()
      ensures var f := FillRow(old(root), vals[..], cols, row, nulls, |cols|);
        root == f.tree && err == f.error
    {
      ghost var t0 := root;
      for i := 0 to |cols|
        invariant FillRow(t0, vals[..], cols, row, nulls, i) == Filled(root, None)
      {
        FillRowUnfold(t0, vals[..], cols, row, nulls, i + 1);
        var k := Encode(cols[i].typ, row[i], nulls[i]);
        if k.None? {
          assert FillRow(t0, vals[..], cols, row, nulls, i + 1) == Filled(root, Some(RowUnsupported(i)));
          FillRowStops(t0, vals[..], cols, row, nulls, i + 1, |cols|);
          return Some(RowUnsupported(i));
        }
        var u := SetValue(root, vals[i], k.value);
        if u.None? {
          FillRowStops(t0, vals[..], cols, row, nulls, i + 1, |cols|);
          return Some(CannotSet(i));
        }
        root := u.value;
      }
      err := None;
    }

    /** One row: the column loop, then the document saved into a fresh
        buffer framed with its varlena header and a trailing newline
        (src/xml_formatter.c:636-654). A failing row leaves buf as it was. */
    method ExportRow(cols: seq<Column>, row: seq<Datum>, nulls: seq<bool>, save: Node -> string) returns (r: ExportOutcome)
      requires Valid() && vals.Length == |row| == |cols| == |nulls| && RowConforms(cols, row, nulls)
      modifies this`root, this`buf
      ensures Valid()
      ensures var f := FillRow(old(root), vals[..], cols, row, nulls, |cols|);
        root == f.tree && Skeleton(root) == Skeleton(old(root)) &&
        match f.error
        case Some(e) => r == Failed(e) && buf == old(buf)
        case None => r == Written(Frame(save(root))) && buf == Some(Frame(save(root)))
    {
      FillRowSkeleton(root, vals[..], cols, row, nulls, |cols|);
      var err := WriteFields(cols, row, nulls);
      if err.Some? {
        return Failed(err.value);
      }
      var xbuf := save(root);
      buf := Some(Frame(xbuf));
      r := Written(buf.value);
    }
  }

  /** One call of the export formatter. The first call builds the context
      and lays out the document; an unsupported column type fails it and no
      context is kept. Every call then writes its row. */
  method FormatterExport(ctx: WriteContext?, cols: seq<Column>, row: seq<Datum>, nulls: seq<bool>, save: Node -> string)
    returns (c: WriteContext?, r: ExportOutcome)
    requires |row| == |cols| == |nulls| && RowConforms(cols, row, nulls)
    requires ctx != null ==> ctx.Valid() && ctx.vals.Length == |cols|
    modifies ctx
    ensures ctx != null ==> c == ctx
    ensures ctx == null && LayoutOf(Document, cols, |cols|).TypeNotSupported? ==>
      c == null && r == Failed(SetupUnsupported(LayoutOf(Document, cols, |cols|).column))
    ensures ctx == null && LayoutOf(Document, cols, |cols|).Laid? ==>
      c != null && fresh(c) && c.vals[..] == LayoutOf(Document, cols, |cols|).vals
    ensures c != null ==> c.Valid() && c.vals.Length == |cols|
    ensures c != null ==>
      var t := if ctx == null then LayoutOf(Document, cols, |cols|).tree else old(ctx.root);
      var f := FillRow(t, c.vals[..], cols, row, nulls, |cols|);
      c.root == f.tree &&
      match f.error
      case Some(e) => r == Failed(e)
      case None => r == Written(Frame(save(f.tree)))
  {
    c := ctx;
    if c == null {
      c := new WriteContext(|cols|);
      var err := c.Setup(cols);
      if err.Some? {
        return null, Failed(SetupUnsupported(err.value));
      }
    }
    r := c.ExportRow(cols, row, nulls, save);
  }
}
