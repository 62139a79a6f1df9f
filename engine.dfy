/**
 * The `Mork` reader as a class: the file is held in memory with a cursor in
 * place of the file handle, and each `parse*` method runs its loop over the
 * reader's fields.  Every method is proved to do what the matching grammar
 * function says, from the state it started in.
 */
module Engine {
  import opened Base
  import opened Tokenizer
  import opened Ids
  import opened Store
  import opened Header
  import opened Grammar

  class Mork {
    /** The bytes of the file being read. */
    const inp: string
    /** `$strict`: throw on irregularities instead of tolerating them. */
    const strict: bool
    /** The file position, which `fgetc`, `ftell` and `fseek` use. */
    var pos: nat
    var data: Data
    var dict: map<string, string>
    var scopeDict: string
    var scopeTable: string

    /** The fields the grammar functions read and produce. */
    function State(): St
      reads this
    {
      St(pos, data, dict, scopeDict, scopeTable)
    }

    /** The cursor is within the file and the table order matches the tables. */
    ghost predicate Valid()
      reads this
    {
      pos <= |inp| && Store.Valid(data)
    }

    /** What a method that returned `err` amounts to: the exception, or the reader's new state. */
    function Result(err: Option<ParseError>): Outcome
      reads this
    {
      if err.Some? then Fail(err.value) else Ok(State())
    }

    /** A reader on `inp` with the fields' initial values. */
    constructor(inp: string, strict: bool)
      ensures this.inp == inp && this.strict == strict
      ensures State() == Initial(0)
    {
      this.inp := inp;
      this.strict := strict;
      pos := 0;
      data := Empty;
      dict := map[];
      scopeDict := "a";
      scopeTable := "";
    }

    /**
     * `readUntil`: read byte by byte into a buffer until the buffer ends in
     * an unescaped candidate, then hand back the token and the cleaned text
     * before it; at end of file hand back no token.
     */
    method ReadUntil(toks: seq<string>) returns (tok: Option<string>, text: string)
      requires pos <= |inp|
      modifies this`pos
      ensures Read(tok, text, pos) == ReadToken(inp, old(pos), toks)
    {
      var cands := Expand(toks);
      var start := pos;
      ghost var goal := ReadFrom(inp, start, start, cands);
      var s := "";
      tok, text := None, "";
      while pos < |inp| && tok.None?
        invariant start <= pos <= |inp| && s == inp[start..pos]
        invariant tok.None? ==> text == "" && ReadFrom(inp, start, pos, cands) == goal
        invariant tok.Some? ==> Read(tok, text, pos) == goal
        decreases |inp| - pos
      {
        s := s + [inp[pos]];
        pos := pos + 1;
        tok := SuffixMatch(s, cands, 0);
        if tok.Some? {
          text := Clean(s[..|s| - |tok.value|]);
        }
        assert s == inp[start..pos];
      }
    }

    /** `parseComment`: the rest of the line. */
    method ParseComment() returns (txt: string)
      requires pos <= |inp|
      modifies this`pos
      ensures txt == Comment(inp, old(pos)).text && pos == Comment(inp, old(pos)).pos
    {
      var _, t := ReadUntil(["\n", "\r"]);
      txt := t;
    }

    /** `parseId`: the text up to a delimiter, which is dropped. */
    method ParseId() returns (id: string)
      requires pos <= |inp|
      modifies this`pos
      ensures id == Id(inp, old(pos)).text && pos == Id(inp, old(pos)).pos
    {
      var _, t := ReadUntil(IdDelimiters);
      id := t;
    }

    /** `parseCell`, from just after `(`. */
    method ParseCell() returns (col: string, slot: string)
      requires pos <= |inp|
      modifies this`pos
      ensures Cell(col, slot, pos) == Grammar.ParseCell(inp, old(pos))
    {
      var sep;
      sep, col := ReadUntil(CellSeparators);
      if col == "" && sep == Some("^") {
        sep, col := ReadUntil(CellSeparators);
        col := "^" + col;
      }
      var _, v := ReadUntil([")"]);
      slot := if sep == Some("^") then "^" + v else v;
    }

    /** `parseAlias`, from just after `(` in a dict. */
    method ParseAlias()
      requires pos <= |inp|
      modifies this
      ensures State() == Grammar.ParseAlias(inp, old(State()))
    {
      ghost var s0 := State();
      ghost var a := ReadToken(inp, pos, ["="]);
      var _, id := ReadUntil(["="]);
      ghost var v := ReadToken(inp, pos, [")"]);
      var _, val := ReadUntil([")"]);
      if ':' !in id {
        id := id + ":" + scopeDict;
      }
      assert id == QualifyKey(a.text, s0.scopeDict);
      dict := dict[id := val];
      assert State() == s0.(pos := v.pos, dict := s0.dict[id := v.text]);
    }

    /** `parseMetadict`, from just after `<` inside a dict. */
    method ParseMetadict() returns (err: Option<ParseError>)
      requires pos <= |inp|
      modifies this
      ensures Result(err) == Metadict(inp, strict, old(State()))
    {
      ghost var goal := Metadict(inp, strict, State());
      while true
        invariant pos <= |inp| && Metadict(inp, strict, State()) == goal
        decreases |inp| - pos
      {
        var d, _ := ReadUntil(["(", ">"]);
        if d.None? {
          break;
        }
        if d.value == ">" {
          return None;
        }
        var col, slot := ParseCell();
        if col == "a" {
          scopeDict := slot;
        }
      }
      err := if strict then Some(MissingMetadictTerminator) else None;
    }

    /** `parseDict`, from just after `<`. */
    method ParseDict() returns (err: Option<ParseError>)
      requires pos <= |inp|
      modifies this
      ensures Result(err) == Dict(inp, strict, old(State()))
    {
      ghost var goal := Dict(inp, strict, State());
      while true
        invariant pos <= |inp| && Dict(inp, strict, State()) == goal
        decreases |inp| - pos
      {
        var d, _ := ReadUntil(DictTokens);
        if d.None? {
          break;
        }
        if d.value == "<" {
          err := ParseMetadict();
          if err.Some? {
            return;
          }
        } else if d.value == ">" {
          scopeDict := "a";
          return None;
        } else if d.value == "(" {
          ParseAlias();
        } else {
          var _ := ParseComment();
        }
      }
      err := None;
    }

    /** `parseMetarow`: cells read and dropped up to `]`. */
    method ParseMetarow() returns (err: Option<ParseError>)
      requires pos <= |inp|
      modifies this`pos
      ensures Result(err) == Metarow(inp, strict, old(State()))
    {
      ghost var goal := Metarow(inp, strict, State());
      while true
        invariant pos <= |inp| && Metarow(inp, strict, State()) == goal
        decreases |inp| - pos
      {
        var d, _ := ReadUntil(["(", "]"]);
        if d.None? {
          break;
        }
        if d.value == "]" {
          return None;
        }
        var _, _ := ParseCell();
      }
      err := if strict then Some(MissingMetarowTerminator) else None;
    }

    /** `parseMetatable`: cells read and dropped up to `}`. */
    method ParseMetatable()
      requires pos <= |inp|
      modifies this`pos
      ensures Ok(State()) == Metatable(inp, strict, old(State()))
    {
      ghost var goal := Metatable(inp, strict, State());
      while true
        invariant pos <= |inp| && Metatable(inp, strict, State()) == goal
        decreases |inp| - pos
      {
        var d, _ := ReadUntil(["(", "}"]);
        if d.None? || d.value == "}" {
          return;
        }
        var _, _ := ParseCell();
      }
    }

    /**
     * The `foreach` of `parseRow` over the tables in insertion order: the
     * last one that holds row `rid`, else `fallback`.
     */
    method FindTable(rid: string, fallback: string) returns (tid: string)
      requires Store.Valid(data)
      ensures tid == HoldingTable(data, rid, fallback)
    {
      tid := fallback;
      var i := 0;
      while i < |data.order|
        invariant 0 <= i <= |data.order|
        invariant var j := LastHolding(data.order[..i], data.tables, rid);
                  tid == if j >= 0 then data.order[j] else fallback
      {
        assert data.order[..i + 1][..i] == data.order[..i];
        if HasRow(data, data.order[i], rid) {
          tid := data.order[i];
        }
        i := i + 1;
      }
      assert tid == HoldingTable(data, rid, fallback) by {
        assert data.order[..i] == data.order;
      }
    }

    /** `parseRow`, from just after `[`, in table `tableId` (empty when none is given). */
    method ParseRow(tableId: string) returns (err: Option<ParseError>)
      requires Valid()
      modifies this
      ensures Result(err) == Grammar.Row(inp, strict, old(State()), tableId)
    {
      ghost var s0 := State();
      var d, rowId := ReadUntil(RowTokens);
      var n := NormalizeId(rowId, scopeTable);
      rowId := n.id;
      var tid := tableId;
      if !Truthy(tid) {
        tid := FindTable(rowId, tableId);
      }
      assert tid == RowTable(s0.data, tableId, rowId);
      if !Truthy(tid) && strict {
        return Some(OrphanedRow(rowId));
      }
      if n.create {
        data := CreateRow(data, tid, rowId);
      } else {
        data := DeleteRow(data, tid, rowId);
      }
      assert RowBody(inp, strict, State(), tid, rowId, d) == Grammar.Row(inp, strict, s0, tableId);
      err := ParseRowBody(tid, rowId, d);
    }

    /**
     * The loop of `parseRow` over row `rowId` of table `tid`, with `d` the
     * token just read: metarows and cells until `]` or the end of the file.
     */
    method ParseRowBody(tid: string, rowId: string, d: Option<string>) returns (err: Option<ParseError>)
      requires pos <= |inp| && ':' in rowId
      modifies this
      ensures Result(err) == RowBody(inp, strict, old(State()), tid, rowId, d)
    {
      ghost var goal := RowBody(inp, strict, State(), tid, rowId, d);
      var next := d;
      while next.Some? && next.value != "]"
        invariant pos <= |inp| && RowBody(inp, strict, State(), tid, rowId, next) == goal
        decreases |inp| - pos, if next.Some? then 1 else 0
      {
        next, err := ParseRowStep(tid, rowId, next.value);
        if err.Some? {
          return;
        }
      }
      err := None;
    }

    /**
     * One pass of `parseRow`'s loop after token `t`: a metarow, or a cell
     * stored when its value is truthy and the table is known; then the next
     * token.
     */
    method ParseRowStep(tid: string, rowId: string, t: string) returns (next: Option<string>, err: Option<ParseError>)
      requires pos <= |inp| && ':' in rowId && t != "]"
      modifies this
      ensures RowPass(inp, strict, old(State()), tid, rowId, t)
              == if err.Some? then Done(Fail(err.value)) else Next((State(), next))
    {
      ghost var s := State();
      next, err := None, None;
      if t == "[" {
        err := ParseMetarow();
        if err.Some? {
          return;
        }
      } else {
        ghost var c := Grammar.ParseCell(inp, pos);
        var k, v := ParseCell();
        if Truthy(v) {
          k := ColumnKey(k);
          v := CellValue(v);
          if Truthy(tid) {
            data := SetCell(data, tid, rowId, k, v);
          }
        }
        assert State() == s.(pos := c.pos, data := StoreCell(s.data, tid, rowId, c.col, c.slot));
      }
      var skipped;
      next, skipped := ReadUntil(RowTokens);
    }

    /** The bare row id branch of `parseTable`, with `t` the byte just read. */
    method ParseBareId(tableId: string, t: string)
      requires pos <= |inp|
      modifies this
      ensures State() == BareId(inp, old(State()), tableId, t)
    {
      var rest := ParseId();
      var n := NormalizeId(t + rest, scopeTable);
      if n.create {
        data := BareRow(data, tableId, n.id);
      }
    }

    /** `parseTable`, from just after `{`. */
    method ParseTable() returns (err: Option<ParseError>)
      requires Valid()
      modifies this
      ensures Result(err) == Grammar.Table(inp, strict, old(State()))
    {
      ghost var s0 := State();
      var tableId := ParseTableStart();
      ghost var goal := Grammar.Table(inp, strict, s0);
      var done := false;
      err := None;
      while !done
        invariant !done ==> Valid()
        invariant goal == if done then Result(err) else TableBody(inp, strict, State(), tableId)
        decreases if done then 0 else |inp| - pos + 1
      {
        done, err := ParseTableStep(tableId);
      }
    }

    /** The start of a table: its id, its creation when new, and the table scope. */
    method ParseTableStart() returns (tableId: string)
      requires Valid()
      modifies this
      ensures tableId == TableId(inp, old(pos)).0 && State() == TableStart(inp, old(State()))
    {
      scopeTable := "c";
      tableId := ParseTableId();
      if tableId !in data.tables {
        data := PutTable(data, tableId, map[]);
      }
      scopeTable := Field1(tableId);
    }

    /** The table id after `{`, read in the default table scope `c`. */
    method ParseTableId() returns (tableId: string)
      requires pos <= |inp| && scopeTable == "c"
      modifies this`pos
      ensures (tableId, pos) == TableId(inp, old(pos))
    {
      var h, _ := ReadUntil(["HEX"]);
      var rest := ParseId();
      tableId := NormalizeId((if h.Some? then h.value else "") + rest, scopeTable).id;
    }

    /**
     * One pass of `parseTable`'s loop: read the next token and act on it;
     * `done` once the loop is left, by `}`, by an exception, or at the end
     * of the file, which throws in strict mode and otherwise clears the
     * table scope.
     */
    method ParseTableStep(tableId: string) returns (done: bool, err: Option<ParseError>)
      requires Valid()
      modifies this
      ensures TablePass(inp, strict, old(State()), tableId) == if done then Done(Result(err)) else Next(State())
    {
      var d, _ := ReadUntil(TableTokens);
      if d.None? {
        if strict {
          return true, Some(MissingTableTerminator);
        }
        scopeTable := "";
        return true, None;
      }
      if d.value == "}" {
        return true, None;
      }
      err := ParseTableItem(tableId, d.value);
      done := err.Some?;
    }

    /** One item of a table after its token `t`: a dict, a metatable, a row or a bare row id. */
    method ParseTableItem(tableId: string, t: string) returns (err: Option<ParseError>)
      requires Valid()
      modifies this
      ensures Result(err) == TableItem(inp, strict, old(State()), tableId, t)
    {
      if t == "<" {
        err := ParseDict();
      } else if t == "{" {
        ParseMetatable();
        err := None;
      } else if t == "[" {
        err := ParseRow(tableId);
      } else {
        ParseBareId(tableId, t);
        err := None;
      }
    }

    /**
     * `parseGroup`, from just after `@$${`: find the group's end, and only
     * on the matching commit marker go back to just after `{@` and replay
     * the group's content.
     */
    method ParseGroup() returns (err: Option<ParseError>)
      requires Valid()
      modifies this
      ensures Result(err) == Group(inp, strict, old(State()))
    {
      var g := ScanMarkers();
      var d := g.marker.tok;
      if d == Some(CommitMarker(g.gid)) {
        pos := g.filePos;
        err := ParseReplay(g.gid);
      } else if d == Some(AbortMarker(g.gid)) {
        err := None;
      } else if d == Some("@$${") {
        err := if strict then Some(NestedGroup) else None;
      } else {
        err := if strict then Some(MissingGroupTerminator) else None;
      }
    }

    /**
     * The start of `parseGroup`: the group id up to `{@`, the position
     * after it, and the first commit, abort or nested-group marker after it.
     */
    method ScanMarkers() returns (g: GroupScan)
      requires pos <= |inp|
      modifies this`pos
      ensures g == ScanGroup(inp, old(pos)) && pos == g.marker.pos
    {
      var _, groupId := ReadUntil(["{@"]);
      var filePos := pos;
      var d, text := ReadUntil([CommitMarker(groupId), AbortMarker(groupId), "@$${"]);
      g := GroupScan(groupId, filePos, Read(d, text, pos));
    }

    /** The replay loop of `parseGroup`: the group's content up to its commit marker. */
    method ParseReplay(groupId: string) returns (err: Option<ParseError>)
      requires Valid()
      modifies this
      ensures Result(err) == Replay(inp, strict, old(State()), groupId)
    {
      ghost var goal := Replay(inp, strict, State(), groupId);
      var done := false;
      err := None;
      while !done
        invariant !done ==> Valid()
        invariant goal == if done then Result(err) else Replay(inp, strict, State(), groupId)
        decreases if done then 0 else |inp| - pos + 1
      {
        done, err := ParseReplayStep(groupId);
      }
    }

    /**
     * One pass of the replay loop: read the next token and act on it;
     * `done` once the commit marker or the end of the file is reached, or
     * on an exception.
     */
    method ParseReplayStep(groupId: string) returns (done: bool, err: Option<ParseError>)
      requires Valid()
      modifies this
      ensures ReplayPass(inp, strict, old(State()), groupId) == if done then Done(Result(err)) else Next(State())
    {
      var commit := CommitMarker(groupId);
      var d, _ := ReadUntil([commit, "<", "{", "[", "("]);
      if d.None? || d == Some(commit) {
        done, err := true, None;
      } else {
        err := ParseReplayItem(d.value);
        done := err.Some?;
      }
    }

    /**
     * One item of a group's content after its token `t`: a dict, a table, a
     * row with no table given, or a cell, which is read and dropped.
     */
    method ParseReplayItem(t: string) returns (err: Option<ParseError>)
      requires Valid()
      modifies this
      ensures Result(err) == ReplayItem(inp, strict, old(State()), t)
    {
      if t == "<" {
        err := ParseDict();
      } else if t == "{" {
        err := ParseTable();
      } else if t == "[" {
        err := ParseRow("");
      } else {
        var _, _ := ParseCell();
        err := None;
      }
    }

    /**
     * `parseFile` on a fresh reader, without the output stage: check the
     * header line, then dispatch comments, groups, dicts and tables until
     * the end of the file.
     */
    method ParseFile() returns (err: Option<ParseError>)
      requires State() == Initial(0)
      modifies this
      ensures Result(err) == File(inp, strict)
    {
      var header := ParseComment();
      var v := HeaderVersion(header);
      if v.None? {
        return Some(IncorrectHeader(header));
      }
      if v.value != Version {
        return Some(WrongVersion(v.value));
      }
      ghost var goal := File(inp, strict);
      assert goal == Top(inp, strict, State());
      var done := false;
      err := None;
      while !done
        invariant !done ==> Valid()
        invariant goal == if done then Result(err) else Top(inp, strict, State())
        decreases if done then 0 else |inp| - pos + 1
      {
        done, err := ParseTopStep();
      }
    }

    /** One pass of `parseFile`'s loop: read the next token and act on it; `done` at the end of the file or on an exception. */
    method ParseTopStep() returns (done: bool, err: Option<ParseError>)
      requires Valid()
      modifies this
      ensures TopPass(inp, strict, old(State())) == if done then Done(Result(err)) else Next(State())
    {
      var d, _ := ReadUntil(["//", "@$${", "<", "{"]);
      if d.None? {
        return true, None;
      }
      err := ParseTopItem(d.value);
      done := err.Some?;
    }

    /** One top-level item after its token `t`: a comment, a group, a dict or a table. */
    method ParseTopItem(t: string) returns (err: Option<ParseError>)
      requires Valid()
      modifies this
      ensures Result(err) == TopItem(inp, strict, old(State()), t)
    {
      if t == "//" {
        var _ := ParseComment();
        err := None;
      } else if t == "@$${" {
        err := ParseGroup();
      } else if t == "<" {
        err := ParseDict();
      } else {
        err := ParseTable();
      }
    }
  }
}
