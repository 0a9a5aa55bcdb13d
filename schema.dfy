/** The table schema as the formatter sees it: each column has a name and a
    type, and a name with dots in it is a path of element tags. */
module Schema {
  import opened XmlTree

  /** The column types the formatter switches on; any other type is carried
      with its type oid. */
  datatype ColumnType = Int2 | Int4 | Int8 | Float4 | Float8 | TextType | Varchar | Other(oid: nat)

  /** The three families of types the formatter converts. */
  datatype Family = IntFamily | FloatFamily | TextFamily | Unsupported

  function FamilyOf(t: ColumnType): Family
  {
    match t
    case Int2 | Int4 | Int8 => IntFamily
    case Float4 | Float8 => FloatFamily
    case TextType | Varchar => TextFamily
    case Other(_) => Unsupported
  }

  datatype Column = Column(name: string, typ: ColumnType)

  /** One call of strsep(&rest, "."): the token before the first dot, and
      what remains after it, or None when the token was the last one. */
  function Strsep(s: string): (r: (string, Option<string>))
    ensures '.' !in r.0
    ensures r.1.None? ==> r.0 == s
    ensures r.1.Some? ==> s == r.0 + "." + r.1.value
  {
    if s == [] then ("", None)
    else if s[0] == '.' then
      assert s == "" + "." + s[1..];
      ("", Some(s[1..]))
    else
      var (tok, rest) := Strsep(s[1..]);
      assert s == [s[0]] + s[1..];
      ([s[0]] + tok, rest)
  }

  /** The path segments of a column name, as the strsep loops visit them. */
  function Split(s: string): (segs: seq<string>)
    ensures |segs| >= 1
    ensures Join(segs) == s
    decreases |s|
  {
    match Strsep(s)
    case (tok, None) => [tok]
    case (tok, Some(rest)) => [tok] + Split(rest)
  }

  /** No segment holds a dot. */
  lemma {:induction false} SplitSegments(s: string)
    ensures forall i :: 0 <= i < |Split(s)| ==> '.' !in Split(s)[i]
    decreases |s|
  {
    match Strsep(s)
    case (tok, None) =>
    case (tok, Some(rest)) =>
      SplitSegments(rest);
      assert Split(s) == [tok] + Split(rest);
  }

  /** The segments strsep has still to return, when rest is what it has
      left to scan. */
  function Pending(rest: Option<string>): seq<string>
  {
    match rest
    case None => []
    case Some(s) => Split(s)
  }

  /** The segments glued back together with dots. */
  function Join(segs: seq<string>): string
    requires |segs| >= 1
  {
    if |segs| == 1 then segs[0] else segs[0] + "." + Join(segs[1..])
  }

  /** Splitting undoes joining, as long as no segment holds a dot. */
  lemma {:induction false} SplitJoin(segs: seq<string>)
    requires |segs| >= 1
    requires forall i :: 0 <= i < |segs| ==> '.' !in segs[i]
    ensures Split(Join(segs)) == segs
    decreases |segs|
  {
    if |segs| == 1 {
      StrsepNoDot(segs[0]);
    } else {
      StrsepAtDot(segs[0], Join(segs[1..]));
      SplitJoin(segs[1..]);
    }
  }

  lemma {:induction false} StrsepNoDot(s: string)
    requires '.' !in s
    ensures Strsep(s) == (s, None)
    decreases |s|
  {
    if s != [] {
      assert '.' !in s[1..] by {
        forall i | 0 <= i < |s[1..]| ensures s[1..][i] != '.' {
          assert s[1..][i] == s[i + 1];
        }
      }
      StrsepNoDot(s[1..]);
    }
  }

  lemma {:induction false} StrsepAtDot(a: string, b: string)
    requires '.' !in a
    ensures Strsep(a + "." + b) == (a, Some(b))
    decreases |a|
  {
    if a == [] {
      assert a + "." + b == "." + b;
    } else {
      assert (a + "." + b)[0] == a[0] && (a + "." + b)[1..] == a[1..] + "." + b;
      assert '.' !in a[1..] by {
        forall i | 0 <= i < |a[1..]| ensures a[1..][i] != '.' {
          assert a[1..][i] == a[i + 1];
        }
      }
      StrsepAtDot(a[1..], b);
      assert a[0] in a && [a[0]] + a[1..] == a;
    }
  }
}
