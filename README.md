# XML formatter for Greenplum external tables, modelled in Dafny

The formatter is a pair of C functions that the Greenplum format manager
calls for external tables.

- `xml_formatter_import` is called once per row. It scans the host's byte
  buffer for the next XML object: first an `<?…?>` declaration, then a root
  element whose nesting depth it tracks. It copies that object into its
  context, has the mxml library parse it, and fills one value per table
  column. A column named `a.b.c` is looked up as the element `c` found
  after `b`, which is found after `a`. A column with no matching element
  gets a `null` element spliced under the top of the tree. Each value is
  converted by the column's type: `atoi` for the integers, the text kept
  for `atof` for the floats, the C string for text and varchar.
- `xml_formatter_export` builds one document tree on its first call. Each
  column gets a find-or-create path of elements, ending in a value node of
  the column's type. Every call then overwrites those value nodes with the
  row's fields, writing a null field as 0, 0.0 or "". It saves the whole
  document to a string and returns it in a bytea of size
  `strlen + VARHDRSZ + 1`: the text followed by one newline.

The model's modules follow that structure:

| module | file | models |
|---|---|---|
| `XmlTree` | xml_tree.dfy | mxml trees as values. A node is named by its path of child indices; `Find` is `mxmlFindElement` with `MXML_DESCEND`. |
| `Schema` | schema.dfy | the column types the switches recognise, and `strsep` over a dotted column name |
| `Scalar` | scalar.dfy | `strlen`, `atoi` (section 7.22.1.2 of the C11 standard), `"%d"` and the narrowing of an `int64` to `int` |
| `Scanner` | scanner.dfy | the import scanner's three phases (declaration, root opening, depth) and their outcomes |
| `ColumnDecode` | column_decode.dfy | resolving a dotted name in the parsed tree, the `null` splice and the per-type conversion |
| `ImportFormatter` | import_formatter.dfy | the read context (a class over the values and nulls arrays) and one import call |
| `ExportFormatter` | export_formatter.dfy | the write context (a class holding the document and the per-column value paths), setup, one row, and the bytea framing |

The scanner phases are specified by recursive functions: `Prolog`, `Root`
and `Body`, composed by `Scan`. The method `Scanner.ScanProlog` and the
read context's methods `OpenRoot`, `ScanBody` and `FindRow` run the same
loops as `while` loops and are proved equal to those functions. Likewise, `ResolvePath`,
`DecodeColumns`, `Setup` and `WriteFields` are loops proved against
`Resolve`, `Columns`, `LayoutOf` and `FillRow`.

### What the code does, where a reading of its intent might differ

- **The declaration is rescanned on every call.** The prolog phase runs on
  every call, so every row must start with its own `<?…?>`
  (`PrologOpening`). A call that resumes after running out of data in the
  middle of a row re-enters the prolog phase. It then fails with an
  invalid header at the first non-blank byte, which is not `<`
  (`ResumeRescansDeclaration`).
- **A `<` in the buffer's last byte hangs the prolog phase.** When the
  declaration's `<` is the last byte, the loop neither advances nor
  returns. The model reports this as the outcome `Hangs` (`PrologOpening`).
- **The copied row starts at the last `<` of the declaration, not at the
  root.** The copy starts from the `<` that the prolog phase saw last
  (`BeginFollowsInnerOpen`). It is `cursor - begin + 1` bytes long, one
  byte past the closing `>`. When the row ends the buffer, that byte lies
  beyond it, so its value is a parameter of the model (`RowCopy`,
  `RowRange`).
- **The depth flags are local to one call.** Only the depth counter is
  saved between calls, not the flags that say whether a tag is open. The
  depth loop resumed inside a tag therefore counts the rest of the row
  differently from the same row read whole (`ResumeInsideTagMisplacesRowEnd`,
  on the depth loop alone). Through a whole call, a resumed buffer that
  simply continues the row fails at the declaration check instead. Only a
  continuation that starts with its own `<?…?>` reaches the depth loop;
  then the row ends at the nested closing tag, before the root's own
  (`ResumedCallMisplacesRowEnd`).
- **Self-closing tags are not recognised.** The depth counter never
  drops for `<a/>`, so such a row never closes
  (`SelfClosingNeverCloses`).
- **Nulls are detected by tag only.** On import, a column is null exactly
  when its element's tag is `null`; its text is not examined
  (`ColumnDecode.DecodeScalar`). A missing element is spliced in as such
  an element.
- **Import searches the whole document.** The search for each segment
  continues through the whole document in document order, not only under
  the previous match.
- **Missing text is read anyway.** The import switch reads the first
  child's text without checking that it exists. The model reports that
  case as `MissingText`.
- **Export columns can share a node.** The export setup searches the
  whole document too. Columns `x.y` and `y` therefore share the element
  `x/y`, and the later column's value wins (`FillRowContents` states each
  column's node only when no later column shares it). After `x.y`, a
  column `x` finds the element `x`, whose first child is an element, so
  every row fails to set it (`FillRowBlames`).
- **The row number is counted per call.** `rownum` is incremented on every
  call after the first, including calls that only ask for more data
  (`FormatterImport`).

## Model

| member | source | states |
|---|---|---|
| Scalar.CStrLen | src/xml_formatter.c:636-637 | the strlen result is at most the length, no NUL precedes it, and a NUL sits at it when it is short of the end |
| Scalar.AtoiDecimal | src/xml_formatter.c:351-364 | atoi applied to the "%d" rendering of any integer, followed by a non-digit, returns that integer |
| Scalar.AtoiDecimalAlone | src/xml_formatter.c:351-364 | atoi applied to the whole "%d" rendering returns the integer |
| Scalar.AtoiSkipsSpaces | src/xml_formatter.c:351-364 | leading white space does not change what atoi reads |
| Scalar.AtoiWithoutDigits | src/xml_formatter.c:351-364 | text with no sign or digit after its white space reads as 0 rather than failing |
| Scalar.Int32Wrap | src/xml_formatter.c:563-565 | the int that mxmlSetInteger receives from an int64 is in the int range, congruent to it modulo 2^32, and equal to it inside the range |
| Schema.Strsep | src/xml_formatter.c:331 | one strsep step: the token has no '.', and the token, a '.' and the rest rebuild the input; no rest means the token is the whole input |
| Schema.Split | src/xml_formatter.c:331-340 | strsep over a column name yields at least one segment, and the segments joined with '.' are the name |
| Schema.SplitSegments | src/xml_formatter.c:331-340 | no segment contains '.' |
| Schema.SplitJoin | src/xml_formatter.c:470-487 | segments without '.' joined with '.' split back into themselves |
| Schema.StrsepNoDot | src/xml_formatter.c:331 | strsep on a name without '.' returns it whole with no rest |
| Schema.StrsepAtDot | src/xml_formatter.c:331 | strsep stops at the first '.' |
| XmlTree.Find | src/xml_formatter.c:332-333 | a found node is an element with the searched tag |
| XmlTree.FirstElementFirst | src/xml_formatter.c:332-333 | the search skips no matching element: none before the one found, and none at all when it finds nothing |
| XmlTree.AppendChildAt | src/xml_formatter.c:341-343 | a new child is appended as the last child of its parent, at the next free index |
| XmlTree.AppendChildKeeps | src/xml_formatter.c:341-343 | appending a child keeps every existing node, its kind, and the child count of every other node |
| XmlTree.SetKindAt | src/xml_formatter.c:565 | setting a value changes that node's kind only, and no child count |
| XmlTree.SetKindSkeleton | src/xml_formatter.c:565 | setting a value without changing its class keeps the tree's shape |
| Scanner.ScanProlog | src/xml_formatter.c:131-183 | the declaration loop returns exactly what the declaration phase specifies |
| Scanner.Prolog | src/xml_formatter.c:131-183 | a found declaration ends after its opening; running out of data leaves the cursor at the end of the buffer |
| Scanner.PrologOpening | src/xml_formatter.c:131-183 | the first non-blank byte decides: the end asks for more data, a byte other than '<' is an invalid header, a '<' in the last byte hangs, '<' not before '?' is invalid, and "<?" opens the declaration |
| Scanner.PrologSkipsBlanks | src/xml_formatter.c:131-183 | blanks before the declaration are skipped |
| Scanner.PrologClosesAtFirstQuestion | src/xml_formatter.c:131-183 | the declaration closes just after the first "?" that is followed by ">", and needs more data when no "?" follows |
| Scanner.PrologBegin | src/xml_formatter.c:131-183 | the recorded start of the row is a '<' seen in the declaration phase |
| Scanner.Root | src/xml_formatter.c:191-235 | an opened root ends after the cursor; running out of data leaves the cursor at the end |
| Scanner.RootOpening | src/xml_formatter.c:191-235 | after the blanks, '>' is a stray close, a byte other than '<' is a missing open, and after '<' the next '<' is a stray open while the next '>' opens the root |
| Scanner.RootSkipsBlanks | src/xml_formatter.c:191-235 | blanks before the root are skipped |
| Scanner.RootInsideTag | src/xml_formatter.c:191-235 | inside the root's tag, only the next '<' or '>' decides |
| Scanner.Body | src/xml_formatter.c:247-290 | a closed row ends within the buffer |
| Scanner.BodyOutcomes | src/xml_formatter.c:247-290 | a closed row ends at a '>'; a suspension happens only before the end of the stream, at the end of the buffer, with the depth still positive; an unbalanced row happens only at the end of the stream |
| Scanner.SelfClosingNeverCloses | src/xml_formatter.c:247-290 | a row "<a/></r>" is unbalanced at the end of the stream |
| Scanner.ResumeInsideTagMisplacesRowEnd | src/xml_formatter.c:247-290 | the depth loop alone, on a row tail read whole, closes at its last byte; split after "<a", the resumed part closes five bytes in, before the root's own end |
| Scanner.ResumedCallMisplacesRowEnd | src/xml_formatter.c:124-290 | through whole calls: "<?x?><r><a></a></r>" ends at its last byte; split after "<a", the first call asks for more data at depth 1; a continuation "></a></r>" fails the declaration check, and "<?x?>></a></r>" ends the row after "</a>" |
| Scanner.WholeTailCloses | src/xml_formatter.c:247-290 | the unsplit row closes at its end |
| Scanner.ResumedTailCloses | src/xml_formatter.c:247-290 | the resumed tail closes early, at the nested closing tag |
| Scanner.RowRange | src/xml_formatter.c:131-294 | a found row starts at a '<' no earlier than the cursor, ends at a '>', is cursor - begin + 1 bytes long, and overruns the buffer by one byte exactly when it ends there |
| Scanner.Exhaustion | src/xml_formatter.c:124-290 | asking for more data leaves the cursor at the end of the buffer; an unbalanced row is reported only at the end of the stream, with a positive depth |
| Scanner.ResumeRescansDeclaration | src/xml_formatter.c:131-183 | resuming a suspended row at a byte other than '<' is an invalid header |
| Scanner.BeginFollowsInnerOpen | src/xml_formatter.c:131-183 | for "<?x <y?><r></r>" the row starts at the inner '<' of the declaration |
| ColumnDecode.Resolve | src/xml_formatter.c:331-340 | a resolved dotted name names an element with the last segment's tag |
| ColumnDecode.ResolvePath | src/xml_formatter.c:323-340 | the strsep loop finds exactly the element the segment-by-segment search specifies, or reports none |
| ColumnDecode.DecodeScalar | src/xml_formatter.c:350-409 | unsupported types fail; for the others, the result is null exactly when the tag is "null"; missing text is reported only when the element's first child is not text |
| ColumnDecode.IntegerText | src/xml_formatter.c:351-364 | an integer column whose element holds text decodes to atoi of that text |
| ColumnDecode.DecodeField | src/xml_formatter.c:331-409 | one column's decode, with the null splice, is what the per-column function specifies |
| ColumnDecode.ColumnsAt | src/xml_formatter.c:309-411 | column j of the row is decoded as that column alone would be on the parsed tree |
| ColumnDecode.DecodeNext | src/xml_formatter.c:309-411 | decoding column i on a tree with earlier splices gives the same result as on the parsed tree, and keeps the tree a padding of it |
| ColumnDecode.ColumnValues | src/xml_formatter.c:331-401 | a name that does not resolve reads as null; one that resolves is null exactly when its tag is "null"; otherwise integers are atoi of the text and text columns are its C string |
| ColumnDecode.PaddedAppend | src/xml_formatter.c:341-343 | splicing a "null" element under the top keeps the tree a padding of the parsed tree |
| ColumnDecode.PaddedAt | src/xml_formatter.c:341-343 | splices leave every node of the parsed tree where it was |
| ColumnDecode.PreorderPadded | src/xml_formatter.c:341-343 | the document order of a padded tree is the parsed tree's order followed by the splices |
| ColumnDecode.FindPadded | src/xml_formatter.c:332-333 | on a padded tree, a search from a parsed node finds what it found before, or else only a splice |
| ColumnDecode.FindFromPad | src/xml_formatter.c:332-333 | a search that starts from a splice finds only splices |
| ColumnDecode.ResolvePadded | src/xml_formatter.c:331-340 | a dotted name resolves on a padded tree as on the parsed tree, or else only to a splice |
| ColumnDecode.SplicedNullsInvisible | src/xml_formatter.c:331-343 | the "null" elements spliced for earlier columns do not change how a later column decodes |
| ImportFormatter.FirstBad | src/xml_formatter.c:309-411 | every column before the result decodes and the column at it does not |
| ImportFormatter.RowTuple | src/xml_formatter.c:413-419 | when every column decodes, the call returns the tuple of their values and null flags |
| ImportFormatter.RowCopy | src/xml_formatter.c:292-294 | the copy is cursor - begin + 1 bytes long, and all but its last byte are the buffer from begin to the cursor |
| ImportFormatter.ReadContext.constructor | src/xml_formatter.c:80-93 | a fresh context has arrays for every column, an empty buffer, no tree, depth 0 and row number 0 |
| ImportFormatter.ReadContext.OpenRoot | src/xml_formatter.c:191-235 | the root loop returns what the root phase specifies, and sets the depth to 1 exactly when the root opened |
| ImportFormatter.ReadContext.ScanBody | src/xml_formatter.c:247-290 | the depth loop returns what the depth phase specifies from the saved depth, and saves the depth it stopped at |
| ImportFormatter.ReadContext.FindRow | src/xml_formatter.c:124-290 | the three phases return what the scan specifies, and the saved depth is the one the scan reports |
| ImportFormatter.ReadContext.DecodeColumns | src/xml_formatter.c:309-411 | the column loop stops at the first column that fails, says whether its type was unsupported, and, when none fails, leaves every column's value and null flag in the arrays |
| ImportFormatter.ReadContext.ParseRow | src/xml_formatter.c:292-419 | the row is copied, its byte count saved and the depth reset; a parse failure fails the call, and otherwise the call returns the row's outcome |
| ImportFormatter.ReadContext.Import | src/xml_formatter.c:98-419 | each scan outcome maps to its notification or error; for a found row, it states the copy, the parse and the tuple or first column error; the arrays and row number are kept |
| ImportFormatter.FormatterImport | src/xml_formatter.c:79-419 | the first call makes a context with row number 0, and a later call increments it. Each scan outcome, scanned from the saved depth (0 on the first call), maps to its notification or error, with an unbalanced row carrying the new row number. For a found row the call states the copy, byte count and depth reset, a parse failure, or the tuple or first column error. It asks for more data exactly when the scan does |
| ExportFormatter.Leaf | src/xml_formatter.c:489-521 | a column gets an initial value node exactly when its type is supported |
| ExportFormatter.FindOrCreate | src/xml_formatter.c:474-484 | the path found or created is an element with the segment's tag |
| ExportFormatter.Place | src/xml_formatter.c:470-487 | the path built for a dotted name is an element with the last segment's tag |
| ExportFormatter.PlaceGrows | src/xml_formatter.c:470-487 | building a path only appends nodes, keeping every existing node with its kind |
| ExportFormatter.SetupColumn | src/xml_formatter.c:463-521 | a column's setup fails exactly when its type is unsupported, and its path names an element with its last segment's tag |
| ExportFormatter.LayoutBlames | src/xml_formatter.c:459-522 | a setup failure names the first column whose type is unsupported |
| ExportFormatter.LayoutSupport | src/xml_formatter.c:459-522 | setup succeeds exactly when every column's type is supported |
| ExportFormatter.LayoutPaths | src/xml_formatter.c:459-522 | a successful setup only adds to the tree, and each column's path names an element with its last segment's tag |
| ExportFormatter.LayoutStep | src/xml_formatter.c:459-522 | setup of one more column extends the previous layout by that column's setup |
| ExportFormatter.SetupStops | src/xml_formatter.c:518-520 | once a column fails setup, no later column changes the result |
| ExportFormatter.TargetValid | src/xml_formatter.c:565 | the node a value is written to exists and has the value's class |
| ExportFormatter.Encode | src/xml_formatter.c:555-629 | a field has an encoding exactly when its type is supported, and that encoding has the class of the node set up for the type |
| ExportFormatter.FillRowUnfold | src/xml_formatter.c:550-631 | the first n fields are written as the first n - 1 fields, then field n - 1 |
| ExportFormatter.FillRowStops | src/xml_formatter.c:566-570 | once a field fails, no later column changes the result |
| ExportFormatter.FillRowSkeleton | src/xml_formatter.c:550-631 | writing a row keeps the tree's shape: no node is added or removed and none changes class |
| ExportFormatter.TargetSkeleton | src/xml_formatter.c:565 | where a value goes depends only on the tree's shape |
| ExportFormatter.FillFieldStep | src/xml_formatter.c:555-629 | one field succeeds exactly when its node can take its value; it fails naming that column and whether its type is unsupported; otherwise it writes exactly its encoding |
| ExportFormatter.FillRowBlames | src/xml_formatter.c:550-631 | a row failure names the first column whose node cannot take its value; every earlier node can; and it is a type error exactly when that column's type is unsupported |
| ExportFormatter.FillRowSucceeds | src/xml_formatter.c:550-631 | a row is written exactly when every column's node can take its value |
| ExportFormatter.FillRowContents | src/xml_formatter.c:550-631 | after a written row, each column's node holds that column's encoding unless a later column shares the node |
| ExportFormatter.Frame | src/xml_formatter.c:643-651 | the bytea size is strlen + VARHDRSZ + 1, and its data is the header's worth shorter |
| ExportFormatter.FrameRoundTrip | src/xml_formatter.c:643-651 | the bytea holds the saved text up to its NUL, then a newline, with no NUL inside |
| ExportFormatter.NullWritesZero | src/xml_formatter.c:559-612 | a null field is written as 0, 0.0 or "" by type |
| ExportFormatter.IntegerReadsBack | src/xml_formatter.c:555-572 | an int-range integer is written as itself, and atoi reads its "%d" form back |
| ExportFormatter.WideIntegerWraps | src/xml_formatter.c:563-565 | the int64 value 2^31 is written as -2^31 |
| ExportFormatter.ExportedIntegerImports | src/xml_formatter.c:555-572 | an element holding the written text of an int-range integer imports, for any integer column, as that integer |
| ExportFormatter.WriteContext.constructor | src/xml_formatter.c:447-457 | a fresh context holds an empty document, a path slot per column and no bytea |
| ExportFormatter.WriteContext.FindOrAppend | src/xml_formatter.c:474-484 | the search-or-append for one segment changes the document and returns the path as specified |
| ExportFormatter.WriteContext.PlaceColumn | src/xml_formatter.c:463-487 | the strsep loop over a column name builds the document and path as specified |
| ExportFormatter.WriteContext.SetupField | src/xml_formatter.c:463-521 | one column's setup succeeds exactly when the specification does, with the same document and path |
| ExportFormatter.WriteContext.Setup | src/xml_formatter.c:459-522 | the setup loop leaves the document and every column's path as the layout specifies, or reports the layout's failing column |
| ExportFormatter.WriteContext.WriteFields | src/xml_formatter.c:550-631 | the per-row loop leaves the document and the error as the row specification does |
| ExportFormatter.WriteContext.ExportRow | src/xml_formatter.c:550-654 | the document is the written row and keeps its shape; a failure keeps the old bytea, and a success returns and keeps the framed saved document |
| ExportFormatter.FormatterExport | src/xml_formatter.c:447-654 | the first call fails setup at the first unsupported column or makes a context laid out as specified; every context then writes the row as specified, failing or returning the framed document |

## Left out

- Host plumbing is not modelled: the format-manager checks, the tuple
  descriptor, memory contexts, `heap_form_tuple` and `heap_deform_tuple`.
  The deformed row is an argument of the export call.
- `elog(ERROR)` and `ereport(ERROR)` abort the call in C. The model
  returns them as `Failed` outcomes; the bad-row number and data the host
  receives are kept in the error.
- Failed allocations are not modelled: `mxmlNewElement`, `mxmlNewInteger`,
  `mxmlNewReal` and `mxmlNewText` returning NULL during setup.
- The mxml parser (`mxmlLoadString`) and serialiser
  (`mxmlSaveAllocString`) are parameters `parse` and `save`. The model
  assumes four things about mxml:
  - `mxmlFindElement` with `MXML_DESCEND` returns the first element with
    the tag after the start node in document order over the whole
    document;
  - new children are appended last;
  - `mxmlSetInteger`, `mxmlSetReal` and `mxmlSetText` write an element's
    first child when that child is a value node of the right class, and
    otherwise write the node itself if it is one, and fail otherwise;
  - the row is parsed with `MXML_TEXT_CALLBACK`, so an element's text is
    split at white space into one text child per word. The text an import
    column reads (`ColumnDecode.FirstText`) is therefore only the first
    word; `parse` is assumed to build its tree that way.
- The document `mxmlNewXML("1.0")` creates is modelled as one element
  whose tag is the `?xml` declaration. The model uses only the fact that
  it starts with no children.
- Floating point is not modelled. Float fields are reals. On import, a
  float column keeps the text that `atof` would convert.
- `Scalar.Atoi`: overflow outside `int` is not modelled; C leaves it
  undefined.
- The capacity of `xml_buf` is not modelled. It is allocated as
  `data_len` bytes on the first call only, and a later, longer row would
  overrun it.
- After a failed row, the document holds the fields written before the
  failure. The model keeps that document, but the host aborts the
  statement anyway.
- The unused `pobjname` variable and the logging (`elog(NOTICE)`) are not
  modelled.
- The fact that `DatumGetInt64` reads an `int2` or `int4` Datum as its
  sign-extended value is taken as given: integer Datums are integers.
- `ImportFormatter.ReadContext.Import` gives the column values only
  through `RowOutcome`. It does not promise the contents of the values and
  nulls arrays after a failed column.
- `ExportFormatter.FillRowContents` states a column's node only when no
  later column writes the same node. A shared node holds the last
  writer's value, and that is not stated.
- `ExportFormatter.FormatterExport` does not state the bytea kept in the
  context. `ExportFormatter.WriteContext.ExportRow` states it.
