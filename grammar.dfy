/**
 * The grammar productions of the Mork reader as functions of the input and
 * the reader's state: what each `parse*` method of `Mork` reads, what it
 * changes and when it fails.  The class in the engine module runs the same
 * productions as loops and is proved to agree with these functions.
 */
module Grammar {
  import opened Base
  import opened Tokenizer
  import opened Ids
  import opened Store
  import opened Header

  /**
   * The reader's state: the cursor into the file, `$data`, `$dict`,
   * `$scopeDict` and `$scopeTable`.
   */
  datatype St = St(pos: nat, data: Data, dict: map<string, string>, scopeDict: string, scopeTable: string)

  /** The exceptions the reader throws. */
  datatype ParseError =
    | IncorrectHeader(header: string)
    | WrongVersion(version: string)
    | MissingMetadictTerminator
    | MissingMetarowTerminator
    | MissingTableTerminator
    | MissingGroupTerminator
    | NestedGroup
    | OrphanedRow(rowId: string)

  /** A production either returns the new state or throws. */
  datatype Outcome = Ok(st: St) | Fail(err: ParseError) {
    predicate IsFailure() { Fail? }
    function PropagateFailure(): Outcome requires Fail? { Fail(err) }
    function Extract(): St requires Ok? { st }
  }

  /** The state a fresh reader starts from, with the cursor after the header line. */
  function Initial(pos: nat): St {
    St(pos, Empty, map[], "a", "")
  }

  /**
   * What every production keeps: the cursor moves forward within the input,
   * tables and dictionary entries are never removed, the table order only
   * grows, and a valid or well-formed store stays so.
   */
  ghost predicate Keeps(inp: string, s: St, r: St) {
    s.pos <= r.pos <= |inp|
    && Prefix(s.data.order, r.data.order)
    && s.data.tables.Keys <= r.data.tables.Keys
    && s.dict.Keys <= r.dict.Keys
    && (Valid(s.data) ==> Valid(r.data))
    && (WellFormed(s.data) ==> WellFormed(r.data))
  }

  /** A production keeps the state's invariants, and cannot fail in lenient mode. */
  ghost predicate Steps(inp: string, strict: bool, s: St, o: Outcome) {
    (o.Ok? ==> Keeps(inp, s, o.st)) && (!strict ==> o.Ok?)
  }

  /** The byte before cursor `p` is `c`. */
  predicate After(inp: string, p: nat, c: char) {
    0 < p <= |inp| && inp[p - 1] == c
  }

  /** Nothing but the cursor differs between `s` and `r`. */
  predicate OnlyCursor(s: St, r: St) {
    r.data == s.data && r.dict == s.dict && r.scopeDict == s.scopeDict && r.scopeTable == s.scopeTable
  }

  /**
   * One pass of a production's loop: the loop is left with an outcome, or
   * goes on from the next state.
   */
  datatype Pass<T> = Done(o: Outcome) | Next(next: T)

  /** A pass keeps the state's invariants, and a loop that goes on has moved the cursor forward. */
  ghost predicate Advances(inp: string, strict: bool, s: St, p: Pass<St>) {
    match p
    case Done(o) => Steps(inp, strict, s, o)
    case Next(r) => Keeps(inp, s, r) && s.pos < r.pos
  }

  /** `parseComment`: the rest of the line. */
  function Comment(inp: string, pos: nat): (r: Read)
    requires pos <= |inp|
    ensures pos <= r.pos <= |inp|
    ensures r.tok.Some? ==> pos < r.pos
    ensures r.tok.Some? ==> inp[r.pos - 1] == '\n' || inp[r.pos - 1] == '\r'
    ensures '\n' !in r.text && '\r' !in r.text
  {
    ReadTokenOneLine(inp, pos, ["\n", "\r"]);
    ReadTokenFound(inp, pos, ["\n", "\r"]);
    ReadToken(inp, pos, ["\n", "\r"])
  }

  const IdDelimiters: seq<string> := [" ", "{", "[", "(", "=", "}", "]", ")"]

  /** `parseId`: the text up to the next delimiter, which is consumed too. */
  function Id(inp: string, pos: nat): (r: Read)
    requires pos <= |inp|
    ensures pos <= r.pos <= |inp|
    ensures r.tok.Some? ==> pos < r.pos
    ensures r.tok.Some? ==> r.tok.value in IdDelimiters
  {
    assert "HEX" !in IdDelimiters;
    ReadTokenFound(inp, pos, IdDelimiters);
    ReadToken(inp, pos, IdDelimiters)
  }

  /** A cell `(col=slot)` or `(col^slot)` as `parseCell` returns it, and the cursor after it. */
  datatype Cell = Cell(col: string, slot: string, pos: nat)

  const CellSeparators: seq<string> := ["^", "="]

  /**
   * `parseCell`, from just after `(`.  A cell that starts with `^` has a
   * dictionary reference as its column; a value after the separator `^` is
   * a dictionary reference.
   */
  function ParseCell(inp: string, pos: nat): (c: Cell)
    requires pos <= |inp|
    ensures pos <= c.pos <= |inp|
  {
    var column := CellColumn(inp, pos);
    var v := ReadToken(inp, column.0.pos, [")"]);
    Cell(column.1, if column.0.tok == Some("^") then "^" + v.text else v.text, v.pos)
  }

  /**
   * The column part of `parseCell`: the separator read after the column,
   * and the column, which a leading `^` (an empty first read ended by `^`)
   * makes a reference.
   */
  function CellColumn(inp: string, pos: nat): (r: (Read, string))
    requires pos <= |inp|
    ensures pos <= r.0.pos <= |inp|
  {
    var a := ReadToken(inp, pos, CellSeparators);
    if a.text == "" && a.tok == Some("^") then
      var b := ReadToken(inp, a.pos, CellSeparators);
      (b, "^" + b.text)
    else (a, a.text)
  }

  /**
   * `parseAlias`, from just after `(`: `dict[key] = value`, the key
   * qualified with the dictionary scope when it names none.  Nothing but
   * the cursor and that one entry changes.
   */
  function ParseAlias(inp: string, s: St): (r: St)
    requires s.pos <= |inp|
    ensures s.pos <= r.pos <= |inp| && s.dict.Keys <= r.dict.Keys
    ensures r.(pos := s.pos, dict := s.dict) == s
  {
    var a := ReadToken(inp, s.pos, ["="]);
    var v := ReadToken(inp, a.pos, [")"]);
    var key := QualifyKey(a.text, s.scopeDict);
    s.(pos := v.pos, dict := s.dict[key := v.text])
  }

  /**
   * One pass of `parseMetadict`'s loop: a cell `(a=X)` sets the dictionary
   * scope to X, any other cell is ignored, `>` ends the loop.
   */
  function MetadictPass(inp: string, strict: bool, s: St): (p: Pass<St>)
    requires s.pos <= |inp|
    ensures Advances(inp, strict, s, p)
    ensures p.Next? ==> p.next.data == s.data && p.next.dict == s.dict && p.next.scopeTable == s.scopeTable
    ensures p.Done? && p.o.Ok? ==> p.o.st.data == s.data && p.o.st.dict == s.dict && p.o.st.scopeTable == s.scopeTable
    ensures strict && p.Done? && p.o.Ok? ==> After(inp, p.o.st.pos, '>')
    ensures p.Done? && p.o.Fail? ==> p.o == Fail(MissingMetadictTerminator)
  {
    var r := ReadToken(inp, s.pos, ["(", ">"]);
    match r.tok
    case None => Done(if strict then Fail(MissingMetadictTerminator) else Ok(s.(pos := r.pos)))
    case Some(t) =>
      if t == ">" then
        assert After(inp, r.pos, '>');
        Done(Ok(s.(pos := r.pos)))
      else
        var c := ParseCell(inp, r.pos);
        Next(s.(pos := c.pos, scopeDict := if c.col == "a" then c.slot else s.scopeDict))
  }

  /** `parseMetadict`, from just after `<` inside a dict. */
  function Metadict(inp: string, strict: bool, s: St): (o: Outcome)
    requires s.pos <= |inp|
    ensures Steps(inp, strict, s, o)
    ensures o.Ok? ==> o.st.data == s.data && o.st.dict == s.dict && o.st.scopeTable == s.scopeTable
    ensures strict && o.Ok? ==> After(inp, o.st.pos, '>')
    ensures o.Fail? ==> o == Fail(MissingMetadictTerminator)
    decreases |inp| - s.pos
  {
    match MetadictPass(inp, strict, s)
    case Done(o) => o
    case Next(s2) => Metadict(inp, strict, s2)
  }

  const DictTokens: seq<string> := ["<", "(", "//", ">"]

  /**
   * One pass of `parseDict`'s loop: a metadict, an alias or a comment; `>`
   * ends the loop and resets the dictionary scope to `a`.  End of input is
   * tolerated, in strict mode too, and leaves the scope as it was.
   */
  function DictPass(inp: string, strict: bool, s: St): (p: Pass<St>)
    requires s.pos <= |inp|
    ensures Advances(inp, strict, s, p)
    ensures p.Next? ==> p.next.data == s.data && p.next.scopeTable == s.scopeTable
    ensures p.Done? && p.o.Ok? ==> p.o.st.data == s.data && p.o.st.scopeTable == s.scopeTable
    ensures p.Done? && p.o.Ok? && p.o.st.pos < |inp| ==> p.o.st.scopeDict == "a"
    ensures p.Done? && p.o.Fail? ==> p.o == Fail(MissingMetadictTerminator)
  {
    var r := ReadToken(inp, s.pos, DictTokens);
    match r.tok
    case None => Done(Ok(s.(pos := r.pos)))
    case Some(t) =>
      if t == ">" then Done(Ok(s.(pos := r.pos, scopeDict := "a")))
      else if t == "<" then
        match Metadict(inp, strict, s.(pos := r.pos))
        case Fail(e) => Done(Fail(e))
        case Ok(s2) => Next(s2)
      else if t == "(" then Next(ParseAlias(inp, s.(pos := r.pos)))
      else Next(s.(pos := Comment(inp, r.pos).pos))
  }

  /**
   * `parseDict`, from just after `<`: metadicts, aliases and comments up to
   * `>`.  End of input is tolerated, in strict mode too: only an
   * unterminated metadict fails.
   */
  function Dict(inp: string, strict: bool, s: St): (o: Outcome)
    requires s.pos <= |inp|
    ensures Steps(inp, strict, s, o)
    ensures o.Ok? ==> o.st.data == s.data && o.st.scopeTable == s.scopeTable
    ensures o.Ok? && o.st.pos < |inp| ==> o.st.scopeDict == "a"
    ensures o.Fail? ==> o == Fail(MissingMetadictTerminator)
    decreases |inp| - s.pos
  {
    match DictPass(inp, strict, s)
    case Done(o) => o
    case Next(s2) => Dict(inp, strict, s2)
  }

  /** One pass of `parseMetarow`'s loop: a cell is read and ignored, `]` ends the loop. */
  function MetarowPass(inp: string, strict: bool, s: St): (p: Pass<St>)
    requires s.pos <= |inp|
    ensures Advances(inp, strict, s, p)
    ensures p.Next? ==> OnlyCursor(s, p.next)
    ensures p.Done? && p.o.Ok? ==> OnlyCursor(s, p.o.st)
    ensures strict && p.Done? && p.o.Ok? ==> After(inp, p.o.st.pos, ']')
    ensures p.Done? && p.o.Fail? ==> p.o == Fail(MissingMetarowTerminator)
  {
    var r := ReadToken(inp, s.pos, ["(", "]"]);
    match r.tok
    case None => Done(if strict then Fail(MissingMetarowTerminator) else Ok(s.(pos := r.pos)))
    case Some(t) =>
      if t == "]" then
        assert After(inp, r.pos, ']');
        Done(Ok(s.(pos := r.pos)))
      else Next(s.(pos := ParseCell(inp, r.pos).pos))
  }

  /** `parseMetarow`: cells read and ignored up to `]`. */
  function Metarow(inp: string, strict: bool, s: St): (o: Outcome)
    requires s.pos <= |inp|
    ensures Steps(inp, strict, s, o)
    ensures o.Ok? ==> OnlyCursor(s, o.st)
    ensures strict && o.Ok? ==> After(inp, o.st.pos, ']')
    ensures o.Fail? ==> o == Fail(MissingMetarowTerminator)
    decreases |inp| - s.pos
  {
    match MetarowPass(inp, strict, s)
    case Done(o) => o
    case Next(s2) => Metarow(inp, strict, s2)
  }

  /** One pass of `parseMetatable`'s loop: a cell is read and ignored, `}` ends the loop. */
  function MetatablePass(inp: string, strict: bool, s: St): (p: Pass<St>)
    requires s.pos <= |inp|
    ensures Advances(inp, strict, s, p)
    ensures p.Next? ==> OnlyCursor(s, p.next)
    ensures p.Done? ==> p.o.Ok? && OnlyCursor(s, p.o.st)
  {
    var r := ReadToken(inp, s.pos, ["(", "}"]);
    match r.tok
    case None => Done(Ok(s.(pos := r.pos)))
    case Some(t) =>
      if t == "}" then Done(Ok(s.(pos := r.pos)))
      else Next(s.(pos := ParseCell(inp, r.pos).pos))
  }

  /** `parseMetatable`: cells read and ignored up to `}`; end of input is tolerated. */
  function Metatable(inp: string, strict: bool, s: St): (o: Outcome)
    requires s.pos <= |inp|
    ensures Steps(inp, strict, s, o)
    ensures o.Ok? && OnlyCursor(s, o.st)
    decreases |inp| - s.pos
  {
    match MetatablePass(inp, strict, s)
    case Done(o) => o
    case Next(s2) => Metatable(inp, strict, s2)
  }

  const RowTokens: seq<string> := ["[", "(", "]"]

  /**
   * The table `parseRow` works on: the one it was given, else the last
   * table in insertion order that holds the row.
   */
  function RowTable(d: Data, tableId: string, rid: string): (tid: string)
    requires Valid(d)
    ensures Truthy(tableId) ==> tid == tableId
    ensures !Truthy(tableId) ==> tid == tableId || HasRow(d, tid, rid)
    ensures !Truthy(tableId) && (exists t :: HasRow(d, t, rid)) ==> LastHolder(d, rid, tid)
    ensures !Truthy(tableId) && (forall t :: !HasRow(d, t, rid)) ==> tid == tableId
  {
    if Truthy(tableId) then tableId else HoldingTable(d, rid, tableId)
  }

  /**
   * `parseRow`, from just after `[`: the row id, the row's creation or
   * deletion, then metarows and cells up to `]`.  A row whose table is
   * unknown throws in strict mode; otherwise it lands in table `tableId`
   * (the empty key when parsed outside a table) and its cells are dropped.
   * End of input inside the row is tolerated, in strict mode too: only an
   * orphaned row or an unterminated metarow fails.
   */
  function Row(inp: string, strict: bool, s: St, tableId: string): (o: Outcome)
    requires s.pos <= |inp| && Valid(s.data)
    ensures Steps(inp, strict, s, o)
    ensures o.Ok? ==> o.st.dict == s.dict && o.st.scopeDict == s.scopeDict && o.st.scopeTable == s.scopeTable
    ensures o.Fail? ==> o.err.OrphanedRow? || o == Fail(MissingMetarowTerminator)
    ensures o.Fail? && o.err.OrphanedRow? ==> strict
  {
    var r := ReadToken(inp, s.pos, RowTokens);
    var n := NormalizeId(r.text, s.scopeTable);
    var tid := RowTable(s.data, tableId, n.id);
    if !Truthy(tid) && strict then Fail(OrphanedRow(n.id))
    else
      var d := if n.create then CreateRow(s.data, tid, n.id) else DeleteRow(s.data, tid, n.id);
      RowBody(inp, strict, s.(pos := r.pos, data := d), tid, n.id, r.tok)
  }

  /**
   * One pass of `parseRow`'s loop after token `t`: a metarow, or a cell of
   * row `rid` of table `tid`; then the next token.
   */
  function RowPass(inp: string, strict: bool, s: St, tid: string, rid: string, t: string): (p: Pass<(St, Option<string>)>)
    requires s.pos <= |inp| && ':' in rid
    ensures p.Done? ==> Steps(inp, strict, s, p.o)
    ensures p.Next? ==> Keeps(inp, s, p.next.0) && (p.next.1.Some? ==> s.pos < p.next.0.pos)
    ensures p.Done? && p.o.Ok? ==> p.o.st.dict == s.dict && p.o.st.scopeDict == s.scopeDict && p.o.st.scopeTable == s.scopeTable
    ensures p.Next? ==> p.next.0.dict == s.dict && p.next.0.scopeDict == s.scopeDict && p.next.0.scopeTable == s.scopeTable
    ensures !strict ==> p.Next?
    ensures p.Done? ==> p.o == Fail(MissingMetarowTerminator)
  {
    var item := if t == "[" then Metarow(inp, strict, s)
                else
                  var c := ParseCell(inp, s.pos);
                  Ok(s.(pos := c.pos, data := StoreCell(s.data, tid, rid, c.col, c.slot)));
    match item
    case Fail(e) => Done(Fail(e))
    case Ok(s2) =>
      var r := ReadToken(inp, s2.pos, RowTokens);
      Next((s2.(pos := r.pos), r.tok))
  }

  /**
   * The loop of `parseRow`, with `next` the token just read: metarows and
   * cells of row `rid` of table `tid` until `]` or the end of input.
   */
  function RowBody(inp: string, strict: bool, s: St, tid: string, rid: string, next: Option<string>): (o: Outcome)
    requires s.pos <= |inp| && ':' in rid
    ensures Steps(inp, strict, s, o)
    ensures o.Ok? ==> o.st.dict == s.dict && o.st.scopeDict == s.scopeDict && o.st.scopeTable == s.scopeTable
    ensures o.Fail? ==> o == Fail(MissingMetarowTerminator)
    decreases |inp| - s.pos, if next.Some? then 1 else 0
  {
    match next
    case None => Ok(s)
    case Some(t) =>
      if t == "]" then Ok(s)
      else
        match RowPass(inp, strict, s, tid, rid, t)
        case Done(o) => o
        case Next((s2, d)) => RowBody(inp, strict, s2, tid, rid, d)
  }

  /** The table id that `parseTable` reads after `{`, and the cursor after it. */
  function TableId(inp: string, pos: nat): (r: (string, nat))
    requires pos <= |inp|
    ensures pos <= r.1 <= |inp| && ':' in r.0
  {
    var h := ReadToken(inp, pos, ["HEX"]);
    var i := Id(inp, h.pos);
    var raw := (if h.tok.Some? then h.tok.value else "") + i.text;
    (NormalizeId(raw, "c").id, i.pos)
  }

  /**
   * The start of `parseTable`, from just after `{`: the table id (scope `c`
   * by default), the table's creation when new, and the table scope set to
   * the id's scope part.
   */
  function TableStart(inp: string, s: St): (r: St)
    requires s.pos <= |inp| && Valid(s.data)
    ensures Keeps(inp, s, r) && r.dict == s.dict && r.scopeDict == s.scopeDict
    ensures TableId(inp, s.pos).0 in r.data.tables
    ensures r.scopeTable == Field1(TableId(inp, s.pos).0)
    ensures r.pos == TableId(inp, s.pos).1
  {
    var (tableId, p) := TableId(inp, s.pos);
    var d := if tableId in s.data.tables then s.data else PutTable(s.data, tableId, map[]);
    assert WellFormed(s.data) ==> WellFormed(d);
    s.(pos := p, data := d, scopeTable := Field1(tableId))
  }

  /** `parseTable`, from just after `{`: the start of the table, then its body. */
  function Table(inp: string, strict: bool, s: St): (o: Outcome)
    requires s.pos <= |inp| && Valid(s.data)
    ensures Steps(inp, strict, s, o)
    ensures o.Ok? ==> TableId(inp, s.pos).0 in o.st.data.tables
  {
    TableBody(inp, strict, TableStart(inp, s), TableId(inp, s.pos).0)
  }

  const TableTokens: seq<string> := ["<", "{", "[", "}", "HEX", "-"]

  /**
   * One pass of `parseTable`'s loop: a dict, a metatable, a row or a bare
   * row id; `}` ends the loop and leaves the table scope set.  End of input
   * throws in strict mode and otherwise clears the table scope.
   */
  function TablePass(inp: string, strict: bool, s: St, tableId: string): (p: Pass<St>)
    requires s.pos <= |inp| && Valid(s.data)
    ensures Advances(inp, strict, s, p)
    ensures p.Next? ==> (tableId in s.data.tables ==> tableId in p.next.data.tables) && p.next.scopeTable == s.scopeTable
    ensures p.Done? && p.o.Ok? ==> tableId in s.data.tables ==> tableId in p.o.st.data.tables
    ensures p.Done? && p.o.Ok? ==> p.o.st.scopeTable == s.scopeTable || (p.o.st.scopeTable == "" && p.o.st.pos == |inp|)
    ensures strict && p.Done? && p.o.Ok? ==> After(inp, p.o.st.pos, '}')
  {
    var r := ReadToken(inp, s.pos, TableTokens);
    match r.tok
    case None => Done(if strict then Fail(MissingTableTerminator) else Ok(s.(pos := r.pos, scopeTable := "")))
    case Some(t) =>
      if t == "}" then
        assert After(inp, r.pos, '}');
        Done(Ok(s.(pos := r.pos)))
      else
        match TableItem(inp, strict, s.(pos := r.pos), tableId, t)
        case Fail(e) => Done(Fail(e))
        case Ok(s2) => Next(s2)
  }

  /** The loop of `parseTable`: dicts, metatables, rows and bare row ids up to `}`. */
  function TableBody(inp: string, strict: bool, s: St, tableId: string): (o: Outcome)
    requires s.pos <= |inp| && Valid(s.data)
    ensures Steps(inp, strict, s, o)
    ensures o.Ok? && tableId in s.data.tables ==> tableId in o.st.data.tables
    ensures o.Ok? ==> o.st.scopeTable == s.scopeTable || (o.st.scopeTable == "" && o.st.pos == |inp|)
    ensures strict && o.Ok? ==> After(inp, o.st.pos, '}')
    decreases |inp| - s.pos
  {
    match TablePass(inp, strict, s, tableId)
    case Done(o) => o
    case Next(s2) => TableBody(inp, strict, s2, tableId)
  }

  /**
   * One item of a table body after its token `t` (other than `}`): a dict,
   * a metatable, a row of this table, or a bare row id.
   */
  function TableItem(inp: string, strict: bool, s: St, tableId: string, t: string): (o: Outcome)
    requires s.pos <= |inp| && Valid(s.data)
    ensures Steps(inp, strict, s, o)
    ensures o.Ok? && tableId in s.data.tables ==> tableId in o.st.data.tables
    ensures o.Ok? ==> o.st.scopeTable == s.scopeTable
  {
    if t == "<" then Dict(inp, strict, s)
    else if t == "{" then Metatable(inp, strict, s)
    else if t == "[" then Row(inp, strict, s, tableId)
    else Ok(BareId(inp, s, tableId, t))
  }

  /**
   * The bare row id branch of `parseTable`, with `t` the hex digit or `-`
   * just read: the id is `t` and the rest of the id; one that asks for
   * creation makes the row in the table.
   */
  function BareId(inp: string, s: St, tableId: string, t: string): (r: St)
    requires s.pos <= |inp|
    ensures Keeps(inp, s, r)
    ensures r.dict == s.dict && r.scopeDict == s.scopeDict && r.scopeTable == s.scopeTable
    ensures tableId in s.data.tables ==> tableId in r.data.tables
    ensures var n := NormalizeId(t + Id(inp, s.pos).text, s.scopeTable);
            && (n.create ==> HasRow(r.data, tableId, n.id))
            && (n.create && WellFormed(s.data) ==> r.data == CreateRow(s.data, tableId, n.id))
            && (!n.create ==> r.data == s.data)
    ensures t == "-" ==> r.data == s.data
  {
    var i := Id(inp, s.pos);
    assert t == "-" ==> (t + i.text)[0] == '-';
    var n := NormalizeId(t + i.text, s.scopeTable);
    var d := if n.create then BareRow(s.data, tableId, n.id) else s.data;
    assert n.create && WellFormed(s.data) ==> d == CreateRow(s.data, tableId, n.id) by {
      if n.create && WellFormed(s.data) {
        BareRowOnlyCreates(s.data, tableId, n.id);
      }
    }
    s.(pos := i.pos, data := d)
  }

  /** The commit marker of group `gid`. */
  function CommitMarker(gid: string): (m: string)
    ensures |m| == |gid| + 6 && m[0] == '@'
  {
    "@$$}" + gid + "}@"
  }

  /** The abort marker of group `gid`. */
  function AbortMarker(gid: string): (m: string)
    ensures |m| == |gid| + 13 && m[0] == '@'
  {
    "@$$}~abort~" + gid + "}@"
  }

  /** `m` ends just before cursor `p`. */
  predicate EndsWith(inp: string, p: nat, m: string) {
    |m| <= p <= |inp| && inp[p - |m|..p] == m
  }

  /** What `parseGroup` reads before deciding: the group id, the cursor after `{@`, and the first marker found. */
  datatype GroupScan = GroupScan(gid: string, filePos: nat, marker: Read)

  /**
   * The group header up to `{@`, then the scan for the first commit, abort
   * or nested-group marker.  The group id is the text before `{@`, and the
   * saved cursor is just after `{@` (or at the end of input when there is
   * none, so no marker follows).
   */
  function ScanGroup(inp: string, pos: nat): (g: GroupScan)
    requires pos <= |inp|
    ensures pos <= g.filePos <= g.marker.pos <= |inp|
    ensures g.marker.tok.Some? ==> EndsWith(inp, g.marker.pos, g.marker.tok.value)
    ensures var h := ReadToken(inp, pos, ["{@"]);
            && g.gid == h.text
            && (h.tok.Some? ==> EndsWith(inp, g.filePos, "{@"))
            && (h.tok.None? ==> g.filePos == |inp| && g.marker.tok.None?)
  {
    var h := ReadToken(inp, pos, ["{@"]);
    ReadTokenFound(inp, pos, ["{@"]);
    var toks := [CommitMarker(h.text), AbortMarker(h.text), "@$${"];
    assert "HEX" !in toks;
    ReadTokenFound(inp, h.pos, toks);
    GroupScan(h.text, h.pos, ReadToken(inp, h.pos, toks))
  }

  /**
   * `parseGroup`, from just after `@$${`.  Only the matching commit marker
   * rewinds to just after `{@` and replays the group's content; an abort
   * marker, a nested group or the end of input leave everything but the
   * cursor as it was, and the last two throw in strict mode.
   */
  function Group(inp: string, strict: bool, s: St): (o: Outcome)
    requires s.pos <= |inp| && Valid(s.data)
    ensures Steps(inp, strict, s, o)
    ensures var g := ScanGroup(inp, s.pos);
            g.marker.tok != Some(CommitMarker(g.gid)) && o.Ok? ==> OnlyCursor(s, o.st) && o.st.pos == g.marker.pos
    ensures var g := ScanGroup(inp, s.pos);
            strict && g.marker.tok != Some(CommitMarker(g.gid)) && g.marker.tok != Some(AbortMarker(g.gid)) ==> o.Fail?
    ensures var g := ScanGroup(inp, s.pos);
            g.marker.tok == Some(CommitMarker(g.gid)) ==> o == Replay(inp, strict, s.(pos := g.filePos), g.gid)
  {
    var g := ScanGroup(inp, s.pos);
    var m := g.marker;
    if m.tok == Some(CommitMarker(g.gid)) then Replay(inp, strict, s.(pos := g.filePos), g.gid)
    else if m.tok == Some(AbortMarker(g.gid)) then Ok(s.(pos := m.pos))
    else if m.tok == Some("@$${") then (if strict then Fail(NestedGroup) else Ok(s.(pos := m.pos)))
    else if strict then Fail(MissingGroupTerminator) else Ok(s.(pos := m.pos))
  }

  /**
   * One pass of the replay loop of `parseGroup` for group `gid`: a dict, a
   * table, a row (with no table given) or a cell (read and dropped); the
   * commit marker or the end of input ends the loop.
   */
  function ReplayPass(inp: string, strict: bool, s: St, gid: string): (p: Pass<St>)
    requires s.pos <= |inp| && Valid(s.data)
    ensures Advances(inp, strict, s, p)
    ensures p.Done? && p.o.Ok? ==> p.o.st.pos == |inp| || EndsWith(inp, p.o.st.pos, CommitMarker(gid))
  {
    var commit := CommitMarker(gid);
    var toks := [commit, "<", "{", "[", "("];
    assert "HEX" !in toks;
    var r := ReadToken(inp, s.pos, toks);
    ReadTokenFound(inp, s.pos, toks);
    match r.tok
    case None => Done(Ok(s.(pos := r.pos)))
    case Some(t) =>
      if t == commit then
        assert EndsWith(inp, r.pos, commit);
        Done(Ok(s.(pos := r.pos)))
      else
        match ReplayItem(inp, strict, s.(pos := r.pos), t)
        case Fail(e) => Done(Fail(e))
        case Ok(s2) => Next(s2)
  }

  /**
   * The replay loop of `parseGroup` for group `gid`, up to the commit
   * marker.  It stops right after that marker or at the end of input.
   */
  function Replay(inp: string, strict: bool, s: St, gid: string): (o: Outcome)
    requires s.pos <= |inp| && Valid(s.data)
    ensures Steps(inp, strict, s, o)
    ensures o.Ok? ==> o.st.pos == |inp| || EndsWith(inp, o.st.pos, CommitMarker(gid))
    decreases |inp| - s.pos
  {
    match ReplayPass(inp, strict, s, gid)
    case Done(o) => o
    case Next(s2) => Replay(inp, strict, s2, gid)
  }

  /**
   * One item of a group's content after its token `t`: a dict, a table, a
   * row with no table given, or a cell that is read and dropped.
   */
  function ReplayItem(inp: string, strict: bool, s: St, t: string): (o: Outcome)
    requires s.pos <= |inp| && Valid(s.data)
    ensures Steps(inp, strict, s, o)
  {
    if t == "<" then Dict(inp, strict, s)
    else if t == "{" then Table(inp, strict, s)
    else if t == "[" then Row(inp, strict, s, "")
    else Ok(s.(pos := ParseCell(inp, s.pos).pos))
  }

  /** One pass of `parseFile`'s dispatch loop: a comment, a group, a dict or a table; end of input ends it. */
  function TopPass(inp: string, strict: bool, s: St): (p: Pass<St>)
    requires s.pos <= |inp| && Valid(s.data)
    ensures Advances(inp, strict, s, p)
    ensures p.Done? && p.o.Ok? ==> p.o.st.pos == |inp|
  {
    var r := ReadToken(inp, s.pos, ["//", "@$${", "<", "{"]);
    match r.tok
    case None => Done(Ok(s.(pos := r.pos)))
    case Some(t) =>
      match TopItem(inp, strict, s.(pos := r.pos), t)
      case Fail(e) => Done(Fail(e))
      case Ok(s2) => Next(s2)
  }

  /** The dispatch loop of `parseFile`: comments, groups, dicts and tables up to the end of input. */
  function Top(inp: string, strict: bool, s: St): (o: Outcome)
    requires s.pos <= |inp| && Valid(s.data)
    ensures Steps(inp, strict, s, o)
    ensures o.Ok? ==> o.st.pos == |inp|
    decreases |inp| - s.pos
  {
    match TopPass(inp, strict, s)
    case Done(o) => o
    case Next(s2) => Top(inp, strict, s2)
  }

  /** One top-level item after its token `t`: a comment, a group, a dict or a table. */
  function TopItem(inp: string, strict: bool, s: St, t: string): (o: Outcome)
    requires s.pos <= |inp| && Valid(s.data)
    ensures Steps(inp, strict, s, o)
  {
    if t == "//" then Ok(s.(pos := Comment(inp, s.pos).pos))
    else if t == "@$${" then Group(inp, strict, s)
    else if t == "<" then Dict(inp, strict, s)
    else Table(inp, strict, s)
  }

  /**
   * `parseFile` without the output stage: the header line must carry
   * version 1.4, in either mode; then the whole input is read.
   */
  function File(inp: string, strict: bool): (o: Outcome)
    ensures HeaderVersion(Comment(inp, 0).text).None? ==> o == Fail(IncorrectHeader(Comment(inp, 0).text))
    ensures var v := HeaderVersion(Comment(inp, 0).text); v.Some? && v.value != Version ==> o == Fail(WrongVersion(v.value))
    ensures HeaderVersion(Comment(inp, 0).text) == Some(Version) && !strict ==> o.Ok?
    ensures o.Ok? ==> o.st.pos == |inp| && WellFormed(o.st.data)
  {
    var h := Comment(inp, 0);
    match HeaderVersion(h.text)
    case None => Fail(IncorrectHeader(h.text))
    case Some(v) =>
      if v != Version then Fail(WrongVersion(v))
      else
        EmptyWellFormed();
        Top(inp, strict, Initial(h.pos))
  }
}
