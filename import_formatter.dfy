/** xml_formatter_import: one call finds one row in the host's buffer, has
    the XML parser build its tree, and fills the context's values and nulls
    arrays column by column. */
module ImportFormatter {
  import opened XmlTree
  import opened Schema
  import opened Scalar
  import opened Scanner
  import opened ColumnDecode

  datatype ImportError =
    | InvalidHeader(at: nat)
    | InvalidObject(reason: RootError, at: nat)
    /** the end of the stream inside a row: the bad row number and the
        start and byte count given to the host as the bad row data */
    | UnbalancedRow(rownum: int, begin: nat, length: nat)
    | ParseFailure
    | UnsupportedType(rownum: int, column: nat, badRow: seq<char>)
    | MissingText(column: nat)

  datatype ImportOutcome =
    | NeedMoreData(cursor: nat)
    | Failed(error: ImportError)
    /** the call never returns (a '<' in the last byte of the declaration) */
    | Hangs(at: nat)
    | Tuple(values: seq<Value>, nulls: seq<bool>, cursor: nat)

  predicate Decodes(d: Decoded)
  {
    d.Null? || d.Present?
  }

  function ValueOf(d: Decoded): Value
  {
    if d.Present? then d.v else Zero
  }

  /** The first column that fails to decode, or |ds|. */
  function FirstBad(ds: seq<Decoded>): (k: nat)
    ensures k <= |ds|
    ensures forall j :: 0 <= j < k ==> Decodes(ds[j])
    ensures k < |ds| ==> !Decodes(ds[k])
  {
    if ds == [] || !Decodes(ds[0]) then 0 else 1 + FirstBad(ds[1..])
  }

  /** The first failing position is i when every position before i
      decodes and i does not (or is the end). */
  lemma FirstBadAt(ds: seq<Decoded>, i: nat)
    requires i <= |ds| && (i < |ds| ==> !Decodes(ds[i]))
    requires forall j :: 0 <= j < i ==> Decodes(ds[j])
    ensures FirstBad(ds) == i
  {
  }

  /** What the call returns once the row's tree is parsed: the first
      column that fails decides the error; otherwise the tuple. */
  function RowOutcome(tree: Node, cols: seq<Column>, cursor: nat, rownum: int, xmlBuf: seq<char>): ImportOutcome
  {
    var ds := Columns(tree, cols);
    var k := FirstBad(ds);
    if k < |ds| then
      if ds[k].BadType? then Failed(UnsupportedType(rownum, k, xmlBuf)) else Failed(MissingText(k))
    else
      Tuple(seq(|ds|, j requires 0 <= j < |ds| => ValueOf(ds[j])),
            seq(|ds|, j requires 0 <= j < |ds| => ds[j].Null?),
            cursor)
  }

  /** The tuple a row yields when every column decodes. */
  lemma RowTuple(tree: Node, cols: seq<Column>, cursor: nat, rownum: int, xmlBuf: seq<char>,
                 vs: seq<Value>, ns: seq<bool>)
    requires FirstBad(Columns(tree, cols)) == |cols| == |vs| == |ns|
    requires forall j :: 0 <= j < |cols| ==>
      vs[j] == ValueOf(Columns(tree, cols)[j]) && ns[j] == Columns(tree, cols)[j].Null?
    ensures RowOutcome(tree, cols, cursor, rownum, xmlBuf) == Tuple(vs, ns, cursor)
  {
  }

  /** The bytes memcpy moves into xml_buf: from begin through buf[cursor],
      one past the row's final '>'; when that is past the valid data, the
      byte found there in memory is beyond. */
  function RowCopy(buf: seq<char>, begin: nat, cursor: nat, beyond: char): (s: seq<char>)
    requires begin <= cursor <= |buf|
    ensures |s| == cursor - begin + 1
    ensures s[..|s| - 1] == buf[begin..cursor]
  {
    buf[begin..cursor] + [if cursor < |buf| then buf[cursor] else beyond]
  }

  /** The import formatter's per-session context (user_read_ctx_t): the
      column buffers, the row text and tree, and the counters that persist
      from one call to the next. */
  /** What one call returns, and the depth counter, row length and row
      buffer it leaves in the context, given the counter it started from
      and the row number it runs under: each scan outcome becomes its
      notification or error, and a found row is copied, parsed and
      decoded. */
  predicate CallResult(buf: seq<char>, cur: nat, counter: nat, eof: bool, beyond: char,
                       cols: seq<Column>, parse: string -> Option<Node>, rownum: int,
                       o: ImportOutcome, counter': int, xmlLen': int, xmlBuf': seq<char>)
    requires cur <= |buf|
  {
    match Scan(buf, cur, counter, eof)
    case ScanNeedMore(c, k) => o == NeedMoreData(c) && counter' == k
    case ScanBadHeader(at) => o == Failed(InvalidHeader(at))
    case ScanHangs(at) => o == Hangs(at)
    case ScanBadObject(why, at) => o == Failed(InvalidObject(why, at))
    case ScanUnbalanced(k, b, n) => o == Failed(UnbalancedRow(rownum, b, n)) && counter' == k
    case ScanRow(b, len, c) =>
      b <= c <= |buf| && counter' == 0 && xmlLen' == len && xmlBuf' == RowCopy(buf, b, c, beyond) &&
      match parse(xmlBuf'[..CStrLen(xmlBuf')])
      case None => o == Failed(ParseFailure)
      case Some(t) => o == RowOutcome(t, cols, c, rownum, xmlBuf')
  }

  class ReadContext {
    var values: array<Value>
    var nulls: array<bool>
    var xmlBuf: seq<char>
    var xmlRoot: Option<Node>
    var xmlLen: int
    var xmlCounter: int
    var rownum: int

    ghost predicate Valid()
      reads this
    {
      values.Length == nulls.Length && xmlCounter >= 0
    }

    /** The first call's setup (src/xml_formatter.c:80-93). */
    constructor (ncols: nat)
      ensures Valid() && fresh(values) && fresh(nulls)
      ensures values.Length == ncols
      ensures xmlBuf == [] && xmlRoot == None && xmlLen == 0 && xmlCounter == 0 && rownum == 0
    {
      values := new Value[ncols](_ => Zero);
      nulls := new bool[ncols](_ => false);
      xmlBuf, xmlRoot, xmlLen := [], None, 0;
      xmlCounter, rownum := 0, 0;
    }

    /** The root loop (src/xml_formatter.c:191-235): runs while the depth
        counter is 0 and raises it to 1 at the end of the root's opening tag. */
    method OpenRoot(buf: seq<char>, start: nat, length: nat) returns (r: RootResult)
      requires Valid() && xmlCounter == 0 && start <= |buf|
      modifies this`xmlCounter
      ensures Valid()
      ensures r == Root(buf, start, false, length)
      ensures xmlCounter == if r.RootOpened? then 1 else 0
    {
      var leftSymbol, rightSymbol := false, false;
      var cur, n := start, length;
      while xmlCounter == 0
        invariant cur <= |buf| && !rightSymbol
        invariant xmlCounter == 0 ==> Root(buf, cur, leftSymbol, n) == Root(buf, start, false, length)
        invariant xmlCounter != 0 ==> xmlCounter == 1 && Root(buf, start, false, length) == RootOpened(cur, n)
        decreases |buf| - cur, 1 - xmlCounter
      {
        if cur == |buf| {
          return RootNeedMore(cur);
        }
        if IsBlank(buf[cur]) {
          cur := cur + 1;
          continue;
        }
        if buf[cur] == '<' {
          leftSymbol := !leftSymbol;
          if !leftSymbol {
            return RootInvalid(StrayOpen, cur);
          }
          cur, n := cur + 1, n + 1;
        } else if buf[cur] == '>' {
          rightSymbol := !rightSymbol;
          if !(leftSymbol && rightSymbol) {
            return RootInvalid(StrayClose, cur);
          }
          xmlCounter := xmlCounter + 1;
          cur, n := cur + 1, n + 1;
          rightSymbol := false;
        } else {
          if !leftSymbol {
            return RootInvalid(MissingOpen, cur);
          }
          cur, n := cur + 1, n + 1;
        }
      }
      r := RootOpened(cur, n);
    }

    /** The depth loop (src/xml_formatter.c:247-290). The counter lives in
        the context, so a suspension keeps it; the tag flags are locals and
        a suspension loses them. The counter is at least 1 at every head of
        the loop, every round advances the cursor by one, and the loop stops
        exactly when the counter reaches 0. */
    method ScanBody(buf: seq<char>, start: nat, eof: bool, length: nat) returns (r: BodyResult)
      requires Valid() && start <= |buf|
      modifies this`xmlCounter
      ensures Valid()
      ensures r == Body(buf, start, Tags(old(xmlCounter), false, false), eof, length)
      ensures xmlCounter == match r
        case BodyClosed(_, _) => 0
        case BodySuspended(_, k) => k
        case BodyUnbalanced(k, _) => k
    {
      var beginSymbol, endSymbol := false, false;
      var cur, n := start, length;
      ghost var spec := Body(buf, start, Tags(old(xmlCounter), false, false), eof, length);
      while xmlCounter > 0
        invariant start <= cur <= |buf| && n == length + (cur - start)
        invariant xmlCounter >= 0
        invariant Body(buf, cur, Tags(xmlCounter, beginSymbol, endSymbol), eof, n) == spec
        decreases |buf| - cur
      {
        if cur == |buf| {
          if eof {
            return BodyUnbalanced(xmlCounter, n);
          }
          return BodySuspended(cur, xmlCounter);
        }
        var c := buf[cur];
        if c == '<' {
          if cur < |buf| - 1 {
            var nextChar := buf[cur + 1];
            if nextChar != '/' {
              beginSymbol := true;
            } else {
              endSymbol := true;
            }
          }
        } else if c == '>' {
          if beginSymbol {
            xmlCounter := xmlCounter + 1;
          } else if endSymbol {
            xmlCounter := xmlCounter - 1;
          }
          beginSymbol, endSymbol := false, false;
        }
        cur, n := cur + 1, n + 1;
      }
      r := BodyClosed(cur, n);
    }

    /** The three scanning phases of one call (src/xml_formatter.c:98-290):
        the declaration, the root's opening tag while the counter is 0, and
        the depth loop. */
    method FindRow(buf: seq<char>, cur: nat, eof: bool) returns (r: ScanResult)
      requires Valid() && cur <= |buf|
      modifies this`xmlCounter
      ensures Valid()
      ensures r == Scan(buf, cur, old(xmlCounter), eof)
      ensures xmlCounter == match r
        case ScanNeedMore(_, k) => k
        case ScanUnbalanced(k, _, _) => k
        case ScanRow(_, _, _) => 0
        case _ => old(xmlCounter)
    {
      if cur == |buf| {
        return ScanNeedMore(cur, xmlCounter);
      }
      var pr := ScanProlog(buf, cur);
      match pr
      case PrologNeedMore(c) =>
        return ScanNeedMore(c, xmlCounter);
      case PrologInvalid(at) =>
        return ScanBadHeader(at);
      case PrologHangs(at) =>
        return ScanHangs(at);
      case PrologDone(c, begin, n) =>
        var c', n' := c, n;
        if xmlCounter == 0 {
          var rr := OpenRoot(buf, c, n);
          match rr
          case RootNeedMore(e) =>
            return ScanNeedMore(e, 0);
          case RootInvalid(why, at) =>
            return ScanBadObject(why, at);
          case RootOpened(e, m) =>
            c', n' := e, m;
        }
        var br := ScanBody(buf, c', eof, n');
        BodyOutcomes(buf, c', Tags(if old(xmlCounter) == 0 then 1 else old(xmlCounter), false, false), eof, n');
        PrologBegin(buf, cur, false, 0, 0);
        r := FinishBody(br, begin);
    }

    /** The column loop (src/xml_formatter.c:309-411) over the parsed tree:
        resolves each column, splices a "null" element into the tree for
        each miss, and fills values and nulls, stopping at the first column
        that cannot be converted. Every column decodes as it would on the
        tree the parser built: the spliced elements change nothing. */
    method DecodeColumns(cols: seq<Column>) returns (k: nat, unsupported: bool)
      requires Valid() && xmlRoot.Some? && |cols| == values.Length
      modifies this`xmlRoot, values, nulls
      ensures Valid() && xmlRoot.Some? && Padded(old(xmlRoot).value, xmlRoot.value)
      ensures var ds := Columns(old(xmlRoot).value, cols);
        k == FirstBad(ds) && (unsupported <==> k < |cols| && ds[k].BadType?) &&
        (k == |cols| ==> forall j :: 0 <= j < |cols| ==> values[j] == ValueOf(ds[j]) && nulls[j] == ds[j].Null?)
    {
      ghost var top := xmlRoot.value;
      ghost var ds := Columns(top, cols);
      var tree := xmlRoot.value;
      PaddedRefl(top);
      var i := 0;
      while i < |cols|
        invariant 0 <= i <= |cols| && xmlRoot == Some(tree) && Padded(top, tree)
        invariant forall j :: 0 <= j < i ==> Decodes(ds[j]) && values[j] == ValueOf(ds[j]) && nulls[j] == ds[j].Null?
      {
        var d;
        d, tree := DecodeNext(top, tree, cols, i);
        xmlRoot := Some(tree);
        if !Decodes(d) {
          FirstBadAt(ds, i);
          return i, d.BadType?;
        }
        StoreField(i, d);
        i := i + 1;
      }
      FirstBadAt(ds, i);
      k, unsupported := i, false;
    }

    /** Records one decoded column in the values and nulls arrays. */
    method StoreField(i: nat, d: Decoded)
      requires Valid() && i < values.Length
      modifies values, nulls
      ensures values[..] == old(values[..])[i := ValueOf(d)]
      ensures nulls[..] == old(nulls[..])[i := d.Null?]
    {
      values[i] := ValueOf(d);
      nulls[i] := d.Null?;
    }

    /** One call after the context is set up (src/xml_formatter.c:98-419),
        given the host's buffer, cursor and end-of-stream flag, the byte in
        memory just past the buffer, the schema, and the XML parser. */
    method Import(buf: seq<char>, cur: nat, eof: bool, beyond: char,
                  cols: seq<Column>, parse: string -> Option<Node>) returns (o: ImportOutcome)
      requires Valid() && cur <= |buf| && |cols| == values.Length
      modifies this, values, nulls
      ensures Valid() && values == old(values) && nulls == old(nulls) && rownum == old(rownum)
      ensures CallResult(buf, cur, old(xmlCounter), eof, beyond, cols, parse, rownum, o, xmlCounter, xmlLen, xmlBuf)
    {
      forall j | 0 <= j < values.Length {
        values[j] := Zero;
      }
      forall j | 0 <= j < nulls.Length {
        nulls[j] := false;
      }
      xmlBuf := [];
      RowRange(buf, cur, xmlCounter, eof);
      var sr := FindRow(buf, cur, eof);
      match sr
      case ScanNeedMore(c, _) =>
        return NeedMoreData(c);
      case ScanBadHeader(at) =>
        return Failed(InvalidHeader(at));
      case ScanHangs(at) =>
        return Hangs(at);
      case ScanBadObject(why, at) =>
        return Failed(InvalidObject(why, at));
      case ScanUnbalanced(_, b, n) =>
        return Failed(UnbalancedRow(rownum, b, n));
      case ScanRow(begin, len, c) =>
        o := ParseRow(buf, begin, len, c, beyond, cols, parse);
    }

    /** A complete row found (src/xml_formatter.c:292-411): the bytes from
        begin are copied into the context's buffer with one byte more,
        parsed, and decoded column by column. */
    method ParseRow(buf: seq<char>, begin: nat, len: nat, c: nat, beyond: char,
                    cols: seq<Column>, parse: string -> Option<Node>) returns (o: ImportOutcome)
      requires Valid() && begin <= c <= |buf| && |cols| == values.Length
      modifies this, values, nulls
      ensures Valid() && values == old(values) && nulls == old(nulls) && rownum == old(rownum)
      ensures xmlCounter == 0 && xmlLen == len && xmlBuf == RowCopy(buf, begin, c, beyond)
      ensures match parse(xmlBuf[..CStrLen(xmlBuf)])
        case None => o == Failed(ParseFailure)
        case Some(t) => o == RowOutcome(t, cols, c, rownum, xmlBuf)
    {
      xmlLen := len;
      xmlBuf := RowCopy(buf, begin, c, beyond);
      xmlCounter := 0;
      var root := parse(xmlBuf[..CStrLen(xmlBuf)]);
      if root.None? {
        return Failed(ParseFailure);
      }
      xmlRoot := root;
      var k, unsupported := DecodeColumns(cols);
      if k < |cols| {
        if unsupported {
          return Failed(UnsupportedType(rownum, k, xmlBuf));
        }
        return Failed(MissingText(k));
      }
      o := Tuple(values[..], nulls[..], c);
      RowTuple(root.value, cols, c, rownum, xmlBuf, values[..], nulls[..]);
    }
  }

  /** xml_formatter_import as the host calls it: the first call creates the
      context, every later call, a resumption included, adds one to the row
      number first (src/xml_formatter.c:80-96). */
  method FormatterImport(ctx: ReadContext?, buf: seq<char>, cur: nat, eof: bool, beyond: char,
                         cols: seq<Column>, parse: string -> Option<Node>)
    returns (c: ReadContext, o: ImportOutcome)
    requires cur <= |buf|
    requires ctx != null ==> ctx.Valid() && ctx.values.Length == |cols|
    modifies if ctx == null then {} else {ctx, ctx.values, ctx.nulls}
    ensures c.Valid() && c.values.Length == |cols|
    ensures ctx == null ==> fresh(c) && c.rownum == 0
    ensures ctx != null ==> c == ctx && c.rownum == old(ctx.rownum) + 1
    ensures Scan(buf, cur, if ctx == null then 0 else old(ctx.xmlCounter), eof).ScanNeedMore? <==> o.NeedMoreData?
    ensures CallResult(buf, cur, if ctx == null then 0 else old(ctx.xmlCounter), eof, beyond, cols, parse,
                       c.rownum, o, c.xmlCounter, c.xmlLen, c.xmlBuf)
  {
    if ctx == null {
      c := new ReadContext(|cols|);
    } else {
      c := ctx;
      c.rownum := c.rownum + 1;
    }
    o := c.Import(buf, cur, eof, beyond, cols, parse);
  }
}
