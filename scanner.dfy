/** The import row-boundary scanner of xml_formatter_import: a byte-at-a-time
    state machine over the host's buffer, from the host's cursor to the end
    of the valid data, in three phases. Each phase is a function that gives
    the outcome of the source's loop from a cursor and the loop's local
    flags; the loops themselves are the methods ScanProlog here and
    ImportFormatter.ReadContext.OpenRoot and ScanBody, proved to compute
    these functions. */
module Scanner {

  /** The bytes every phase skips. */
  predicate IsBlank(c: char)
  {
    c == ' ' || c == '\n' || c == '\r'
  }

  /** The first position at or after cur that is not blank, or |buf|. */
  function FirstNonBlank(buf: seq<char>, cur: nat): (p: nat)
    requires cur <= |buf|
    ensures cur <= p <= |buf|
    ensures forall i :: cur <= i < p ==> IsBlank(buf[i])
    ensures p < |buf| ==> !IsBlank(buf[p])
    decreases |buf| - cur
  {
    if cur < |buf| && IsBlank(buf[cur]) then FirstNonBlank(buf, cur + 1) else cur
  }

  /** The first position at or after cur holding one of the bytes in cs, or |buf|. */
  function FirstOf(buf: seq<char>, cur: nat, cs: set<char>): (p: nat)
    requires cur <= |buf|
    ensures cur <= p <= |buf|
    ensures forall i :: cur <= i < p ==> buf[i] !in cs
    ensures p < |buf| ==> buf[p] in cs
    decreases |buf| - cur
  {
    if cur < |buf| && buf[cur] !in cs then FirstOf(buf, cur + 1, cs) else cur
  }

  // ---------------------------------------------------------------------
  // Phase 1: the XML declaration "<?" ... "?>"

  datatype PrologResult =
    | PrologDone(cursor: nat, begin: nat, length: nat)
    | PrologNeedMore(cursor: nat)
    | PrologInvalid(at: nat)
    /** a '<' in the last byte of the buffer: the source's loop never
        advances from here and never returns */
    | PrologHangs(at: nat)

  /** The outcome of the declaration loop from cur, where open is the
      "<? seen" flag, begin the recorded start and length the byte count the
      source keeps. */
  function Prolog(buf: seq<char>, cur: nat, open: bool, begin: nat, length: nat): (r: PrologResult)
    requires cur <= |buf|
    requires open ==> begin + 2 <= cur
    ensures r.PrologDone? ==> cur + 2 <= r.cursor <= |buf| && r.begin + 4 <= r.cursor
    ensures r.PrologNeedMore? ==> r.cursor == |buf|
    decreases |buf| - cur
  {
    if cur == |buf| then PrologNeedMore(cur)
    else if IsBlank(buf[cur]) then Prolog(buf, cur + 1, open, begin, length)
    else if buf[cur] == '<' then
      if cur < |buf| - 1 then
        var open' := if buf[cur + 1] == '?' then !open else open;
        if !open' then PrologInvalid(cur) else Prolog(buf, cur + 2, open', cur, length + 2)
      else PrologHangs(cur)
    else if buf[cur] == '?' then
      if open && cur < |buf| - 1 && buf[cur + 1] == '>' then PrologDone(cur + 2, begin, length + 1)
      else PrologInvalid(cur)
    else if !open then PrologInvalid(cur)
    else Prolog(buf, cur + 1, open, begin, length + 2)
  }

  /** The declaration loop (src/xml_formatter.c:131-183). Where the source
      spins forever on a '<' in the last byte, this returns PrologHangs. */
  method ScanProlog(buf: seq<char>, start: nat) returns (r: PrologResult)
    requires start <= |buf|
    ensures r == Prolog(buf, start, false, 0, 0)
  {
    var leftBeginFind, rightBeginFind := false, false;
    var beginCur, length := 0, 0;
    var cur := start;
    while !(leftBeginFind && rightBeginFind)
      invariant cur <= |buf|
      invariant leftBeginFind ==> beginCur + 2 <= cur
      invariant !rightBeginFind ==>
        Prolog(buf, cur, leftBeginFind, beginCur, length) == Prolog(buf, start, false, 0, 0)
      invariant rightBeginFind ==>
        leftBeginFind && Prolog(buf, start, false, 0, 0) == PrologDone(cur, beginCur, length)
      decreases |buf| - cur, if rightBeginFind then 0 else 1
    {
      if cur == |buf| {
        return PrologNeedMore(cur);
      }
      if IsBlank(buf[cur]) {
        cur := cur + 1;
        continue;
      }
      if buf[cur] == '<' {
        if cur < |buf| - 1 {
          if buf[cur + 1] == '?' {
            leftBeginFind := !leftBeginFind;
          }
          if !leftBeginFind {
            return PrologInvalid(cur);
          }
          beginCur := cur;
          cur := cur + 2;
          length := length + 2;
          continue;
        }
        return PrologHangs(cur);
      } else if buf[cur] == '?' {
        if cur < |buf| - 1 && buf[cur + 1] == '>' {
          rightBeginFind := !rightBeginFind;
        }
        if leftBeginFind && rightBeginFind {
          length := length + 1;
          cur := cur + 2;
          continue;
        }
        return PrologInvalid(cur);
      } else {
        if !leftBeginFind {
          return PrologInvalid(cur);
        }
        cur := cur + 1;
        length := length + 2;
      }
    }
    r := PrologDone(cur, beginCur, length);
  }

  /** Blanks in front of the declaration are skipped. */
  lemma {:induction false} PrologSkipsBlanks(buf: seq<char>, cur: nat, open: bool, begin: nat, length: nat)
    requires cur <= |buf|
    requires open ==> begin + 2 <= cur
    ensures Prolog(buf, cur, open, begin, length) == Prolog(buf, FirstNonBlank(buf, cur), open, begin, length)
    decreases |buf| - cur
  {
    if cur < |buf| && IsBlank(buf[cur]) {
      PrologSkipsBlanks(buf, cur + 1, open, begin, length);
    }
  }

  /** The first byte that is not blank must open "<?"; anything else fails,
      except a lone '<' at the end of the buffer, on which the source hangs. */
  lemma PrologOpening(buf: seq<char>, cur: nat)
    requires cur <= |buf|
    ensures var p := FirstNonBlank(buf, cur);
      var r := Prolog(buf, cur, false, 0, 0);
      (p == |buf| ==> r == PrologNeedMore(|buf|)) &&
      (p < |buf| && buf[p] != '<' ==> r == PrologInvalid(p)) &&
      (p == |buf| - 1 && buf[p] == '<' ==> r == PrologHangs(p)) &&
      (p < |buf| - 1 && buf[p] == '<' && buf[p + 1] != '?' ==> r == PrologInvalid(p)) &&
      (p < |buf| - 1 && buf[p] == '<' && buf[p + 1] == '?' ==> r == Prolog(buf, p + 2, true, p, 2))
  {
    PrologSkipsBlanks(buf, cur, false, 0, 0);
  }

  /** Inside the declaration, the scan ends at the first '?' and only if a
      '>' follows it: success leaves the cursor just past that "?>", and the
      buffer running out means no '?' was left to see. */
  lemma {:induction false} PrologClosesAtFirstQuestion(buf: seq<char>, cur: nat, begin: nat, length: nat)
    requires cur <= |buf| && begin + 2 <= cur
    ensures var j := FirstOf(buf, cur, {'?'});
      var r := Prolog(buf, cur, true, begin, length);
      (r.PrologDone? ==> j + 1 < |buf| && buf[j + 1] == '>' && r.cursor == j + 2) &&
      (r.PrologNeedMore? ==> j == |buf|)
    decreases |buf| - cur
  {
    var j := FirstOf(buf, cur, {'?'});
    if cur < |buf| && buf[cur] != '?' {
      var r := Prolog(buf, cur, true, begin, length);
      if IsBlank(buf[cur]) {
        PrologClosesAtFirstQuestion(buf, cur + 1, begin, length);
      } else if buf[cur] == '<' {
        if cur < |buf| - 1 && buf[cur + 1] != '?' {
          PrologClosesAtFirstQuestion(buf, cur + 2, cur, length + 2);
          assert FirstOf(buf, cur + 2, {'?'}) == j by {
            assert FirstOf(buf, cur, {'?'}) == FirstOf(buf, cur + 1, {'?'});
          }
        }
      } else {
        PrologClosesAtFirstQuestion(buf, cur + 1, begin, length + 2);
      }
    }
  }

  // ---------------------------------------------------------------------
  // Phase 2: the opening tag of the row's root element

  datatype RootError = StrayOpen | StrayClose | MissingOpen

  datatype RootResult =
    | RootOpened(cursor: nat, length: nat)
    | RootNeedMore(cursor: nat)
    | RootInvalid(reason: RootError, at: nat)

  /** The outcome of the root loop from cur, where open is the "< seen" flag. */
  function Root(buf: seq<char>, cur: nat, open: bool, length: nat): (r: RootResult)
    requires cur <= |buf|
    ensures r.RootOpened? ==> cur < r.cursor <= |buf|
    ensures r.RootNeedMore? ==> r.cursor == |buf|
    decreases |buf| - cur
  {
    if cur == |buf| then RootNeedMore(cur)
    else if IsBlank(buf[cur]) then Root(buf, cur + 1, open, length)
    else if buf[cur] == '<' then
      if open then RootInvalid(StrayOpen, cur) else Root(buf, cur + 1, true, length + 1)
    else if buf[cur] == '>' then
      if open then RootOpened(cur + 1, length + 1) else RootInvalid(StrayClose, cur)
    else if !open then RootInvalid(MissingOpen, cur)
    else Root(buf, cur + 1, open, length + 1)
  }

  lemma {:induction false} RootSkipsBlanks(buf: seq<char>, cur: nat, length: nat)
    requires cur <= |buf|
    ensures Root(buf, cur, false, length) == Root(buf, FirstNonBlank(buf, cur), false, length)
    decreases |buf| - cur
  {
    if cur < |buf| && IsBlank(buf[cur]) {
      RootSkipsBlanks(buf, cur + 1, length);
    }
  }

  lemma {:induction false} RootInsideTag(buf: seq<char>, cur: nat, length: nat)
    requires cur <= |buf|
    ensures var q := FirstOf(buf, cur, {'<', '>'});
      var r := Root(buf, cur, true, length);
      (q == |buf| ==> r == RootNeedMore(|buf|)) &&
      (q < |buf| && buf[q] == '<' ==> r == RootInvalid(StrayOpen, q)) &&
      (q < |buf| && buf[q] == '>' ==> r.RootOpened? && r.cursor == q + 1)
    decreases |buf| - cur
  {
    if cur < |buf| && buf[cur] != '<' && buf[cur] != '>' {
      RootInsideTag(buf, cur + 1, if IsBlank(buf[cur]) then length else length + 1);
    }
  }

  /** The root tag, characterised: after blanks comes '<', and the first
      '<' or '>' after it decides. A '>' opens the root and leaves the
      cursor just past it; a second '<' first is an error, and so is any
      other byte, or a '>', before the first '<'. */
  lemma RootOpening(buf: seq<char>, cur: nat, length: nat)
    requires cur <= |buf|
    ensures var p := FirstNonBlank(buf, cur);
      var r := Root(buf, cur, false, length);
      (p == |buf| ==> r == RootNeedMore(|buf|)) &&
      (p < |buf| && buf[p] == '>' ==> r == RootInvalid(StrayClose, p)) &&
      (p < |buf| && buf[p] != '<' && buf[p] != '>' ==> r == RootInvalid(MissingOpen, p)) &&
      (p < |buf| && buf[p] == '<' ==>
        var q := FirstOf(buf, p + 1, {'<', '>'});
        (q == |buf| ==> r == RootNeedMore(|buf|)) &&
        (q < |buf| && buf[q] == '<' ==> r == RootInvalid(StrayOpen, q)) &&
        (q < |buf| && buf[q] == '>' ==> r.RootOpened? && r.cursor == q + 1))
  {
    RootSkipsBlanks(buf, cur, length);
    var p := FirstNonBlank(buf, cur);
    if p < |buf| && buf[p] == '<' {
      RootInsideTag(buf, p + 1, length + 1);
    }
  }

  // ---------------------------------------------------------------------
  // Phase 3: depth counting up to the end of the root element

  /** The depth counter and the two tag flags of the body loop. */
  datatype Tags = Tags(counter: nat, open: bool, close: bool)

  /** One byte of the body loop. A '<' arms the open flag, or the close flag
      when '/' follows it; a '<' in the buffer's last byte arms nothing. A
      '>' counts the armed tag (open first) and clears both flags. */
  function Step(t: Tags, buf: seq<char>, cur: nat): Tags
    requires cur < |buf| && t.counter > 0
  {
    if buf[cur] == '<' then
      if cur < |buf| - 1 then
        if buf[cur + 1] != '/' then t.(open := true) else t.(close := true)
      else t
    else if buf[cur] == '>' then
      Tags(if t.open then t.counter + 1 else if t.close then t.counter - 1 else t.counter, false, false)
    else t
  }

  datatype BodyResult =
    | BodyClosed(cursor: nat, length: nat)
    | BodySuspended(cursor: nat, counter: nat)
    | BodyUnbalanced(counter: nat, length: nat)

  /** The outcome of the body loop from cur with tag state t. */
  function Body(buf: seq<char>, cur: nat, t: Tags, eof: bool, length: nat): (r: BodyResult)
    requires cur <= |buf|
    ensures r.BodyClosed? ==> cur <= r.cursor <= |buf|
    decreases |buf| - cur
  {
    if t.counter == 0 then BodyClosed(cur, length)
    else if cur == |buf| then
      if eof then BodyUnbalanced(t.counter, length) else BodySuspended(cur, t.counter)
    else Body(buf, cur + 1, Step(t, buf, cur), eof, length + 1)
  }

  /** A row closes just past a '>', the buffer runs out only at its end,
      and the end of the stream turns running out into the unbalanced error. */
  lemma {:induction false} BodyOutcomes(buf: seq<char>, cur: nat, t: Tags, eof: bool, length: nat)
    requires cur <= |buf| && t.counter > 0
    ensures var r := Body(buf, cur, t, eof, length);
      (r.BodyClosed? ==> cur < r.cursor && buf[r.cursor - 1] == '>') &&
      (r.BodySuspended? ==> !eof && r.cursor == |buf| && r.counter > 0) &&
      (r.BodyUnbalanced? ==> eof && r.counter > 0)
    decreases |buf| - cur
  {
    if cur < |buf| {
      var t' := Step(t, buf, cur);
      if t'.counter > 0 {
        BodyOutcomes(buf, cur + 1, t', eof, length + 1);
      }
    }
  }

  /** A self-closing element counts as an opening tag that is never closed:
      behind the root "<r>", the rest of the row "<a/></r>" does not bring
      the depth back to zero, and at the end of the stream the row is
      reported unbalanced. */
  lemma SelfClosingNeverCloses()
    ensures Body("<a/></r>", 0, Tags(1, false, false), true, 0) == BodyUnbalanced(1, 8)
  {
    var s := "<a/></r>";
    assert Body(s, 4, Tags(2, false, false), true, 4) == BodyUnbalanced(1, 8) by {
      assert Body(s, 8, Tags(1, false, false), true, 8) == BodyUnbalanced(1, 8);
      assert Body(s, 7, Tags(2, false, true), true, 7) == BodyUnbalanced(1, 8);
      assert Body(s, 6, Tags(2, false, true), true, 6) == BodyUnbalanced(1, 8);
      assert Body(s, 5, Tags(2, false, true), true, 5) == BodyUnbalanced(1, 8);
    }
    assert Body(s, 3, Tags(1, true, false), true, 3) == BodyUnbalanced(1, 8);
    assert Body(s, 2, Tags(1, true, false), true, 2) == BodyUnbalanced(1, 8);
    assert Body(s, 1, Tags(1, true, false), true, 1) == BodyUnbalanced(1, 8);
  }

  /** The tag flags are locals of the source's loop, so a suspension inside
      a tag loses them. The row tail "<a></a></r>" closes at its end when it
      arrives whole; when it arrives as "<a" and then "></a></r>", the first
      part suspends at depth 1 and the resumed scan takes the "</a>" for the
      root's closing tag. */
  lemma ResumeInsideTagMisplacesRowEnd()
    ensures Body("<a></a></r>", 0, Tags(1, false, false), false, 0) == BodyClosed(11, 11)
    ensures Body("<a", 0, Tags(1, false, false), false, 0) == BodySuspended(2, 1)
    ensures Body("></a></r>", 0, Tags(1, false, false), false, 0) == BodyClosed(5, 5)
  {
    WholeTailCloses();
    ResumedTailCloses();
  }

  lemma WholeTailCloses()
    ensures Body("<a></a></r>", 0, Tags(1, false, false), false, 0) == BodyClosed(11, 11)
  {
    var w := "<a></a></r>";
    assert Body(w, 7, Tags(1, false, false), false, 7) == BodyClosed(11, 11) by {
      assert Body(w, 10, Tags(1, false, true), false, 10) == BodyClosed(11, 11);
      assert Body(w, 9, Tags(1, false, true), false, 9) == BodyClosed(11, 11);
      assert Body(w, 8, Tags(1, false, true), false, 8) == BodyClosed(11, 11);
    }
    assert Body(w, 3, Tags(2, false, false), false, 3) == BodyClosed(11, 11) by {
      assert Body(w, 6, Tags(2, false, true), false, 6) == BodyClosed(11, 11);
      assert Body(w, 5, Tags(2, false, true), false, 5) == BodyClosed(11, 11);
      assert Body(w, 4, Tags(2, false, true), false, 4) == BodyClosed(11, 11);
    }
    assert Body(w, 2, Tags(1, true, false), false, 2) == BodyClosed(11, 11);
    assert Body(w, 1, Tags(1, true, false), false, 1) == BodyClosed(11, 11);
  }

  lemma ResumedTailCloses()
    ensures Body("></a></r>", 0, Tags(1, false, false), false, 0) == BodyClosed(5, 5)
  {
    var u := "></a></r>";
    assert Body(u, 4, Tags(1, false, true), false, 4) == BodyClosed(5, 5);
    assert Body(u, 3, Tags(1, false, true), false, 3) == BodyClosed(5, 5);
    assert Body(u, 2, Tags(1, false, true), false, 2) == BodyClosed(5, 5);
    assert Body(u, 1, Tags(1, false, false), false, 1) == BodyClosed(5, 5);
  }

  // ---------------------------------------------------------------------
  // One call: the three phases in turn

  datatype ScanResult =
    | ScanNeedMore(cursor: nat, counter: nat)
    | ScanBadHeader(at: nat)
    | ScanHangs(at: nat)
    | ScanBadObject(reason: RootError, at: nat)
    | ScanUnbalanced(counter: nat, begin: nat, length: nat)
    /** the row is the len bytes from begin; cursor is where the scan stopped */
    | ScanRow(begin: nat, len: nat, cursor: nat)

  function FinishBody(b: BodyResult, begin: nat): ScanResult
    requires b.BodyClosed? ==> begin < b.cursor
  {
    match b
    case BodyClosed(c, _) => ScanRow(begin, c - begin + 1, c)
    case BodySuspended(c, k) => ScanNeedMore(c, k)
    case BodyUnbalanced(k, n) => ScanUnbalanced(k, begin, n)
  }

  /** What one call of the import formatter scans, given the buffer, the
      host's cursor, the persisted depth counter and the end-of-stream flag.
      The declaration phase runs on every call; the root phase only while
      the counter is 0. */
  function Scan(buf: seq<char>, cur: nat, counter: nat, eof: bool): ScanResult
    requires cur <= |buf|
  {
    if cur == |buf| then ScanNeedMore(cur, counter)
    else match Prolog(buf, cur, false, 0, 0)
      case PrologNeedMore(c) => ScanNeedMore(c, counter)
      case PrologInvalid(at) => ScanBadHeader(at)
      case PrologHangs(at) => ScanHangs(at)
      case PrologDone(c, begin, n) =>
        if counter == 0 then
          match Root(buf, c, false, n)
          case RootNeedMore(c') => ScanNeedMore(c', 0)
          case RootInvalid(why, at) => ScanBadObject(why, at)
          case RootOpened(c', n') => FinishBody(Body(buf, c', Tags(1, false, false), eof, n'), begin)
        else FinishBody(Body(buf, c, Tags(counter, false, false), eof, n), begin)
  }

  lemma {:induction false} PrologBegin(buf: seq<char>, cur: nat, open: bool, begin: nat, length: nat)
    requires cur <= |buf| && (open ==> begin + 2 <= cur && buf[begin] == '<' && begin >= 0)
    ensures var r := Prolog(buf, cur, open, begin, length);
      r.PrologDone? ==> buf[r.begin] == '<' && ((open && r.begin == begin) || cur <= r.begin)
    decreases |buf| - cur
  {
    if cur < |buf| {
      if IsBlank(buf[cur]) {
        PrologBegin(buf, cur + 1, open, begin, length);
      } else if buf[cur] == '<' && cur < |buf| - 1 {
        var open' := if buf[cur + 1] == '?' then !open else open;
        if open' {
          PrologBegin(buf, cur + 2, open', cur, length + 2);
        }
      } else if buf[cur] != '?' && open {
        PrologBegin(buf, cur + 1, open, begin, length + 2);
      }
    }
  }

  /** A row found by one call starts at a '<' of the declaration, ends just
      past a '>', and spans cursor - begin + 1 bytes: one more than the row,
      so that when the row ends at the end of the buffer the copy reads the
      byte past the valid data. */
  lemma RowRange(buf: seq<char>, cur: nat, counter: nat, eof: bool)
    requires cur <= |buf|
    ensures var r := Scan(buf, cur, counter, eof);
      r.ScanRow? ==>
        cur <= r.begin < r.cursor <= |buf| && buf[r.begin] == '<' && buf[r.cursor - 1] == '>' &&
        r.len == r.cursor - r.begin + 1 && (r.cursor == |buf| <==> r.begin + r.len == |buf| + 1)
  {
    if cur < |buf| {
      PrologBegin(buf, cur, false, 0, 0);
      match Prolog(buf, cur, false, 0, 0)
      case PrologDone(c, begin, n) =>
        if counter == 0 {
          match Root(buf, c, false, n)
          case RootOpened(c', n') => BodyOutcomes(buf, c', Tags(1, false, false), eof, n');
          case _ =>
        } else {
          BodyOutcomes(buf, c, Tags(counter, false, false), eof, n);
        }
      case _ =>
    }
  }

  /** Running out of bytes suspends only at the end of the buffer, and the
      end of the stream turns it into an error only in the body phase. */
  lemma Exhaustion(buf: seq<char>, cur: nat, counter: nat, eof: bool)
    requires cur <= |buf|
    ensures var r := Scan(buf, cur, counter, eof);
      (r.ScanNeedMore? ==> r.cursor == |buf|) &&
      (r.ScanUnbalanced? ==> eof && r.counter > 0)
  {
    if cur < |buf| {
      match Prolog(buf, cur, false, 0, 0)
      case PrologDone(c, begin, n) =>
        if counter == 0 {
          match Root(buf, c, false, n)
          case RootOpened(c', n') => BodyOutcomes(buf, c', Tags(1, false, false), eof, n');
          case _ =>
        } else {
          BodyOutcomes(buf, c, Tags(counter, false, false), eof, n);
        }
      case _ =>
    }
  }

  /** A call that resumes a row suspended in the body phase still runs the
      declaration phase first: the continuation is scanned for "<?" and
      fails unless its first byte that is not blank is a '<'. */
  lemma ResumeRescansDeclaration(buf: seq<char>, cur: nat, counter: nat, eof: bool)
    requires cur < |buf| && counter > 0
    requires var p := FirstNonBlank(buf, cur); p < |buf| && buf[p] != '<'
    ensures Scan(buf, cur, counter, eof) == ScanBadHeader(FirstNonBlank(buf, cur))
  {
    PrologOpening(buf, cur);
  }

  /** The declaration start that the row copy begins at is the LAST '<' the
      declaration loop consumed: in "<?x <y?><r></r>" the row is taken from
      the '<' of "<y", not from "<?". */
  lemma BeginFollowsInnerOpen()
    ensures Scan("<?x <y?><r></r>", 0, 0, false) == ScanRow(4, 12, 15)
  {
    var s := "<?x <y?><r></r>";
    assert Prolog(s, 0, false, 0, 0) == PrologDone(8, 4, 7) by {
      assert Prolog(s, 6, true, 4, 6) == PrologDone(8, 4, 7);
      assert Prolog(s, 4, true, 2, 4) == PrologDone(8, 4, 7);
      assert Prolog(s, 3, true, 0, 4) == PrologDone(8, 4, 7);
      assert Prolog(s, 2, true, 0, 2) == PrologDone(8, 4, 7);
    }
    assert Root(s, 8, false, 7) == RootOpened(11, 10) by {
      assert Root(s, 10, true, 9) == RootOpened(11, 10);
      assert Root(s, 9, true, 8) == RootOpened(11, 10);
    }
    assert Body(s, 11, Tags(1, false, false), false, 10) == BodyClosed(15, 14) by {
      assert Body(s, 14, Tags(1, false, true), false, 13) == BodyClosed(15, 14);
      assert Body(s, 13, Tags(1, false, true), false, 12) == BodyClosed(15, 14);
      assert Body(s, 12, Tags(1, false, true), false, 11) == BodyClosed(15, 14);
    }
  }

  /** The same misplaced row end, seen through whole calls. The row
      "<?x?><r><a></a></r>" read in one call ends at its last byte. Split
      after "<a", the first call asks for more data at depth 1; a resumed
      call whose buffer continues with "></a></r>" fails at its first byte,
      because every call scans a declaration first, and one that continues
      with its own declaration, "<?x?>></a></r>", ends the row after "</a>",
      before the root's closing tag. */
  lemma ResumedCallMisplacesRowEnd()
    ensures Scan("<?x?><r><a", 0, 0, false) == ScanNeedMore(10, 1)
    ensures Scan("<?x?>></a></r>", 0, 1, false) == ScanRow(0, 11, 10)
    ensures Scan("<?x?><r><a></a></r>", 0, 0, false) == ScanRow(0, 20, 19)
    ensures Scan("></a></r>", 0, 1, false) == ScanBadHeader(0)
  {
    SplitRowHead();
    SplitRowTail();
    WholeRow();
  }

  /** A buffer that starts with "<?x?>" has its declaration end there. */
  lemma DeclarationCloses(s: seq<char>)
    requires |s| >= 5 && s[..5] == "<?x?>"
    ensures Prolog(s, 0, false, 0, 0) == PrologDone(5, 0, 5)
  {
    assert s[0] == '<' && s[1] == '?' && s[2] == 'x' && s[3] == '?' && s[4] == '>';
    assert Prolog(s, 3, true, 0, 4) == PrologDone(5, 0, 5);
    assert Prolog(s, 2, true, 0, 2) == PrologDone(5, 0, 5);
  }

  lemma SplitRowHead()
    ensures Scan("<?x?><r><a", 0, 0, false) == ScanNeedMore(10, 1)
  {
    var s := "<?x?><r><a";
    DeclarationCloses(s);
    assert Root(s, 5, false, 5) == RootOpened(8, 8) by {
      assert Root(s, 7, true, 7) == RootOpened(8, 8);
      assert Root(s, 6, true, 6) == RootOpened(8, 8);
    }
    assert Body(s, 8, Tags(1, false, false), false, 8) == BodySuspended(10, 1) by {
      assert Body(s, 10, Tags(1, true, false), false, 10) == BodySuspended(10, 1);
      assert Body(s, 9, Tags(1, true, false), false, 9) == BodySuspended(10, 1);
    }
  }

  lemma SplitRowTail()
    ensures Scan("<?x?>></a></r>", 0, 1, false) == ScanRow(0, 11, 10)
  {
    var s := "<?x?>></a></r>";
    DeclarationCloses(s);
    assert Body(s, 5, Tags(1, false, false), false, 5) == BodyClosed(10, 10) by {
      assert Body(s, 9, Tags(1, false, true), false, 9) == BodyClosed(10, 10);
      assert Body(s, 8, Tags(1, false, true), false, 8) == BodyClosed(10, 10);
      assert Body(s, 7, Tags(1, false, true), false, 7) == BodyClosed(10, 10);
      assert Body(s, 6, Tags(1, false, false), false, 6) == BodyClosed(10, 10);
    }
  }

  lemma WholeRow()
    ensures Scan("<?x?><r><a></a></r>", 0, 0, false) == ScanRow(0, 20, 19)
  {
    var s := "<?x?><r><a></a></r>";
    DeclarationCloses(s);
    assert Root(s, 5, false, 5) == RootOpened(8, 8) by {
      assert Root(s, 7, true, 7) == RootOpened(8, 8);
      assert Root(s, 6, true, 6) == RootOpened(8, 8);
    }
    WholeRowBody(s);
  }

  lemma WholeRowBody(s: seq<char>)
    requires s == "<?x?><r><a></a></r>"
    ensures Body(s, 8, Tags(1, false, false), false, 8) == BodyClosed(19, 19)
  {
    WholeRowInner(s);
    assert Body(s, 10, Tags(1, true, false), false, 10) == BodyClosed(19, 19);
    assert Body(s, 9, Tags(1, true, false), false, 9) == BodyClosed(19, 19);
  }

  lemma WholeRowInner(s: seq<char>)
    requires s == "<?x?><r><a></a></r>"
    ensures Body(s, 11, Tags(2, false, false), false, 11) == BodyClosed(19, 19)
  {
    WholeRowEnd(s);
    assert Body(s, 14, Tags(2, false, true), false, 14) == BodyClosed(19, 19);
    assert Body(s, 13, Tags(2, false, true), false, 13) == BodyClosed(19, 19);
    assert Body(s, 12, Tags(2, false, true), false, 12) == BodyClosed(19, 19);
  }

  lemma WholeRowEnd(s: seq<char>)
    requires s == "<?x?><r><a></a></r>"
    ensures Body(s, 15, Tags(1, false, false), false, 15) == BodyClosed(19, 19)
  {
    assert Body(s, 18, Tags(1, false, true), false, 18) == BodyClosed(19, 19);
    assert Body(s, 17, Tags(1, false, true), false, 17) == BodyClosed(19, 19);
    assert Body(s, 16, Tags(1, false, true), false, 16) == BodyClosed(19, 19);
  }
}
