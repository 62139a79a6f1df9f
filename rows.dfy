/**
 * What `Mork::parseRow` makes of the written forms of a row: a lone id, and
 * an id with one cell.  The row is created or removed, then its cells are
 * stored, in the table the row is given or else the last one that holds it.
 */
module Rows {
  import opened Base
  import opened Tokenizer
  import opened Ids
  import opened Store
  import opened Grammar
  import opened Forms

  /** The store after the row id: created, or removed when the id is marked `-`. */
  function RowEdit(d: Data, tid: string, n: Normalized): (r: Data)
    requires ':' in n.id
    ensures n.create ==> HasRow(r, tid, n.id)
    ensures !n.create ==> !HasRow(r, tid, n.id)
  {
    if n.create then CreateRow(d, tid, n.id) else DeleteRow(d, tid, n.id)
  }

  /**
   * A written row id `w` and its delimiter `c`: the row `n` goes to its
   * table `tid`, or fails as an orphan in strict mode, and the loop starts on
   * `c` in state `s1`.
   */
  lemma RowStart(inp: string, strict: bool, s: St, tableId: string, w: string, c: char,
                 n: Normalized, tid: string, s1: St)
    requires s.pos <= |inp| && Valid(s.data)
    requires Word(w, RowTokens) && [c] in RowTokens && At(inp, s.pos, w + [c])
    requires n == NormalizeId(w, s.scopeTable) && tid == RowTable(s.data, tableId, n.id)
    requires s1 == s.(pos := s.pos + |w| + 1, data := RowEdit(s.data, tid, n))
    ensures strict && !Truthy(tid) ==> Grammar.Row(inp, strict, s, tableId) == Fail(OrphanedRow(n.id))
    ensures !(strict && !Truthy(tid)) ==> Grammar.Row(inp, strict, s, tableId) == RowBody(inp, strict, s1, tid, n.id, Some([c]))
  {
    var r := ReadToken(inp, s.pos, RowTokens);
    assert r == Read(Some([c]), w, s.pos + |w| + 1) by {
      assert "HEX" !in RowTokens && SingleBytes(RowTokens);
      ReadWordAt(inp, s.pos, RowTokens, w, c);
    }
    assert s.(pos := r.pos, data := RowEdit(s.data, tid, n)) == s1;
  }

  /** A pass of `parseRow`'s loop that goes on leaves the rest of the loop to the new state. */
  lemma RowNext(inp: string, strict: bool, s: St, tid: string, rid: string, t: string, s2: St, next: Option<string>)
    requires s.pos <= |inp| && ':' in rid && t != "]"
    requires RowPass(inp, strict, s, tid, rid, t) == Next((s2, next))
    ensures RowBody(inp, strict, s, tid, rid, Some(t)) == RowBody(inp, strict, s2, tid, rid, next)
  {
  }

  /** A written cell and the delimiter after it: the cell is stored and the loop goes on. */
  lemma RowPassCell(inp: string, strict: bool, s: St, tid: string, rid: string,
                    refCol: bool, col: string, refVal: bool, val: string, c: char)
    requires s.pos <= |inp| && ':' in rid
    requires col != [] && Word(col, CellSeparators) && Word(val, [")"]) && [c] in RowTokens
    requires At(inp, s.pos, CellText(refCol, col, refVal, val))
    requires At(inp, s.pos + |CellText(refCol, col, refVal, val)|, [c])
    ensures RowPass(inp, strict, s, tid, rid, "(")
            == Next((s.(pos := s.pos + |CellText(refCol, col, refVal, val)| + 1,
                        data := StoreCell(s.data, tid, rid, Ref(refCol, col), Ref(refVal, val))),
                     Some([c])))
  {
    var k := s.pos + |CellText(refCol, col, refVal, val)|;
    ParseCellText(inp, s.pos, refCol, col, refVal, val);
    ReadByteAt(inp, k, RowTokens, c);
  }

  /**
   * `id]`: the row is created (or, for `-id]`, removed) in its table, and
   * nothing else changes; with no table to hold it, strict mode fails.
   */
  lemma RowAlone(inp: string, strict: bool, s: St, tableId: string, w: string)
    requires s.pos <= |inp| && Valid(s.data)
    requires Word(w, RowTokens) && At(inp, s.pos, w + [']'])
    ensures var n := NormalizeId(w, s.scopeTable);
            var tid := RowTable(s.data, tableId, n.id);
            && (strict && !Truthy(tid) ==> Grammar.Row(inp, strict, s, tableId) == Fail(OrphanedRow(n.id)))
            && (!(strict && !Truthy(tid)) && !Marked(w) ==>
                  Grammar.Row(inp, strict, s, tableId) == Ok(s.(pos := s.pos + |w| + 1, data := CreateRow(s.data, tid, n.id))))
            && (!(strict && !Truthy(tid)) && Marked(w) ==>
                  Grammar.Row(inp, strict, s, tableId) == Ok(s.(pos := s.pos + |w| + 1, data := DeleteRow(s.data, tid, n.id))))
  {
    var n := NormalizeId(w, s.scopeTable);
    var tid := RowTable(s.data, tableId, n.id);
    RowStart(inp, strict, s, tableId, w, ']', n, tid, s.(pos := s.pos + |w| + 1, data := RowEdit(s.data, tid, n)));
  }

  /** The rest of `id(col=val)]` once the id is read: the cell is stored and `]` ends the row. */
  lemma RowCellEnd(inp: string, strict: bool, s: St, tid: string, rid: string,
                   refCol: bool, col: string, refVal: bool, val: string, s2: St)
    requires s.pos <= |inp| && ':' in rid
    requires col != [] && Word(col, CellSeparators) && Word(val, [")"])
    requires At(inp, s.pos, CellText(refCol, col, refVal, val))
    requires At(inp, s.pos + |CellText(refCol, col, refVal, val)|, [']'])
    requires s2 == s.(pos := s.pos + |CellText(refCol, col, refVal, val)| + 1,
                      data := StoreCell(s.data, tid, rid, Ref(refCol, col), Ref(refVal, val)))
    ensures RowBody(inp, strict, s, tid, rid, Some("(")) == Ok(s2)
  {
    assert RowPass(inp, strict, s, tid, rid, "(") == Next((s2, Some("]"))) by {
      RowPassCell(inp, strict, s, tid, rid, refCol, col, refVal, val, ']');
    }
    RowNext(inp, strict, s, tid, rid, "(", s2, Some("]"));
  }

  /** The same, from the start of the row id `w`, whatever the row edit made of the store. */
  lemma RowCellAfterId(inp: string, strict: bool, s: St, w: string, tid: string, rid: string, d1: Data,
                       refCol: bool, col: string, refVal: bool, val: string)
    requires s.pos <= |inp| && ':' in rid
    requires col != [] && Word(col, CellSeparators) && Word(val, [")"])
    requires At(inp, s.pos + |w| + 1, CellText(refCol, col, refVal, val))
    requires At(inp, s.pos + |w| + 1 + |CellText(refCol, col, refVal, val)|, [']'])
    ensures RowBody(inp, strict, s.(pos := s.pos + |w| + 1, data := d1), tid, rid, Some("("))
            == Ok(s.(pos := s.pos + |w| + |CellText(refCol, col, refVal, val)| + 2,
                     data := StoreCell(d1, tid, rid, Ref(refCol, col), Ref(refVal, val))))
  {
    var s1 := s.(pos := s.pos + |w| + 1, data := d1);
    assert s1.pos == s.pos + |w| + 1;
    RowCellEnd(inp, strict, s1, tid, rid, refCol, col, refVal, val,
               s.(pos := s.pos + |w| + |CellText(refCol, col, refVal, val)| + 2,
                  data := StoreCell(d1, tid, rid, Ref(refCol, col), Ref(refVal, val))));
  }

  /**
   * `id(col=val)]`: the row is created (or removed) in its table and then
   * the cell is stored in it; with no table to hold it, strict mode fails.
   */
  lemma RowOneCell(inp: string, strict: bool, s: St, tableId: string, w: string,
                   refCol: bool, col: string, refVal: bool, val: string)
    requires s.pos <= |inp| && Valid(s.data)
    requires Word(w, RowTokens) && col != [] && Word(col, CellSeparators) && Word(val, [")"])
    requires At(inp, s.pos, w + ['('])
    requires At(inp, s.pos + |w| + 1, CellText(refCol, col, refVal, val))
    requires At(inp, s.pos + |w| + 1 + |CellText(refCol, col, refVal, val)|, [']'])
    ensures var n := NormalizeId(w, s.scopeTable);
            var tid := RowTable(s.data, tableId, n.id);
            && (strict && !Truthy(tid) ==> Grammar.Row(inp, strict, s, tableId) == Fail(OrphanedRow(n.id)))
            && (!(strict && !Truthy(tid)) ==>
                  Grammar.Row(inp, strict, s, tableId)
                    == Ok(s.(pos := s.pos + |w| + |CellText(refCol, col, refVal, val)| + 2,
                             data := StoreCell(RowEdit(s.data, tid, n), tid, n.id, Ref(refCol, col), Ref(refVal, val)))))
  {
    var n := NormalizeId(w, s.scopeTable);
    var tid := RowTable(s.data, tableId, n.id);
    var d1 := RowEdit(s.data, tid, n);
    RowStart(inp, strict, s, tableId, w, '(', n, tid, s.(pos := s.pos + |w| + 1, data := d1));
    if !(strict && !Truthy(tid)) {
      RowCellAfterId(inp, strict, s, w, tid, n.id, d1, refCol, col, refVal, val);
    }
  }
}
