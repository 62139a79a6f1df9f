/**
 * What the reader makes of the written forms of a cell, an alias and a
 * dictionary scope: each is read back as the parts it was written from.
 */
module Forms {
  import opened Base
  import opened Tokenizer
  import opened Ids
  import opened Codec
  import opened Resolver
  import opened Grammar
  import Store

  /** The input holds `t` from `pos` on. */
  ghost predicate At(inp: string, pos: nat, t: string) {
    pos + |t| <= |inp| && forall i :: 0 <= i < |t| ==> inp[pos + i] == t[i]
  }

  lemma AtSplit(inp: string, pos: nat, a: string, b: string)
    requires At(inp, pos, a + b)
    ensures At(inp, pos, a) && At(inp, pos + |a|, b)
  {
    forall i | 0 <= i < |a|
      ensures inp[pos + i] == a[i]
    {
      assert (a + b)[i] == a[i];
    }
    forall i | 0 <= i < |b|
      ensures inp[pos + |a| + i] == b[i]
    {
      assert (a + b)[|a| + i] == b[i];
    }
  }

  /** A word followed by its one-byte delimiter `c` is read as the token `c` and the word. */
  lemma ReadWordAt(inp: string, pos: nat, toks: seq<string>, w: string, c: char)
    requires "HEX" !in toks && SingleBytes(toks) && Word(w, toks) && [c] in toks
    requires At(inp, pos, w + [c])
    ensures ReadToken(inp, pos, toks) == Read(Some([c]), w, pos + |w| + 1)
  {
    AtSplit(inp, pos, w, [c]);
    assert inp[pos + |w| + 0] == [c][0];
    ReadTokenWord(inp, pos, toks, w, c);
  }

  /** A candidate byte at the cursor is read as that token with no text. */
  lemma ReadByteAt(inp: string, pos: nat, toks: seq<string>, c: char)
    requires [c] in toks && At(inp, pos, [c])
    ensures ReadToken(inp, pos, toks) == Read(Some([c]), "", pos + 1)
  {
    assert inp[pos + 0] == [c][0];
    ReadTokenAtCursor(inp, pos, toks);
  }

  /** `s`, marked as a dictionary reference by a leading `^` when `ref` holds. */
  function Ref(ref: bool, s: string): (r: string)
    ensures |r| == |s| + (if ref then 1 else 0)
  {
    if ref then "^" + s else s
  }

  /** The separator written before a value: `^` before a reference, `=` otherwise. */
  function Sep(ref: bool): char {
    if ref then '^' else '='
  }

  /** A cell as written, after its `(`: the column, the separator, the value and `)`. */
  function CellText(refCol: bool, col: string, refVal: bool, val: string): (t: string)
    ensures |t| == (if refCol then 1 else 0) + |col| + 1 + |val| + 1
  {
    Ref(refCol, col + [Sep(refVal)]) + (val + [')'])
  }

  /** The column part of `parseCell` on a written plain column and its separator. */
  lemma CellColumnPlain(inp: string, pos: nat, col: string, sep: char)
    requires col != [] && Word(col, CellSeparators) && [sep] in CellSeparators
    requires At(inp, pos, col + [sep])
    ensures CellColumn(inp, pos) == (Read(Some([sep]), col, pos + |col| + 1), col)
  {
    assert "HEX" !in CellSeparators && SingleBytes(CellSeparators);
    ReadWordAt(inp, pos, CellSeparators, col, sep);
  }

  /** The column part of `parseCell` on a written `^` column reference and its separator. */
  lemma CellColumnRef(inp: string, pos: nat, col: string, sep: char)
    requires Word(col, CellSeparators) && [sep] in CellSeparators
    requires At(inp, pos, "^" + (col + [sep]))
    ensures CellColumn(inp, pos) == (Read(Some([sep]), col, pos + |col| + 2), "^" + col)
  {
    assert "HEX" !in CellSeparators && SingleBytes(CellSeparators);
    AtSplit(inp, pos, "^", col + [sep]);
    assert "^" == [] + ['^'];
    ReadWordAt(inp, pos, CellSeparators, [], '^');
    ReadWordAt(inp, pos + 1, CellSeparators, col, sep);
  }

  /** The value part of `parseCell`, once the column part is known: a word up to `)`. */
  lemma ParseCellValue(inp: string, pos: nat, b: Read, col: string, val: string)
    requires pos <= |inp| && CellColumn(inp, pos) == (b, col)
    requires Word(val, [")"]) && At(inp, b.pos, val + [')'])
    ensures ParseCell(inp, pos) == Cell(col, if b.tok == Some("^") then "^" + val else val, b.pos + |val| + 1)
  {
    assert "HEX" !in [")"] && SingleBytes([")"]);
    ReadWordAt(inp, b.pos, [")"], val, ')');
  }

  /**
   * `parseCell` reads a written cell back: the column is a reference
   * exactly when it was written with `^`, and the value exactly when the
   * separator was `^`, each independently of the other.
   */
  lemma ParseCellText(inp: string, pos: nat, refCol: bool, col: string, refVal: bool, val: string)
    requires col != [] && Word(col, CellSeparators) && Word(val, [")"])
    requires At(inp, pos, CellText(refCol, col, refVal, val))
    ensures ParseCell(inp, pos) == Cell(Ref(refCol, col), Ref(refVal, val), pos + |CellText(refCol, col, refVal, val)|)
  {
    var column := Ref(refCol, col + [Sep(refVal)]);
    AtSplit(inp, pos, column, val + [')']);
    var b := Read(Some([Sep(refVal)]), col, pos + |column|);
    if refCol {
      CellColumnRef(inp, pos, col, Sep(refVal));
    } else {
      CellColumnPlain(inp, pos, col, Sep(refVal));
    }
    ParseCellValue(inp, pos, b, Ref(refCol, col), val);
    assert (b.tok == Some("^")) == refVal;
  }

  /** `readUntil(.., 'HEX')` on a hex digit at the cursor returns that digit at once. */
  lemma HexAtCursor(inp: string, pos: nat, d: char)
    requires pos < |inp| && inp[pos] == d && [d] in HexDigitTokens
    ensures ReadToken(inp, pos, ["HEX"]) == Read(Some([d]), "", pos + 1)
  {
    ReadTokenAtCursor(inp, pos, ["HEX"]);
  }

  /** The table id is the hex digit read first, then the id up to its delimiter. */
  lemma TableIdParts(inp: string, pos: nat, d: char, rest: string, c: char)
    requires pos < |inp| && ReadToken(inp, pos, ["HEX"]) == Read(Some([d]), "", pos + 1)
    requires Id(inp, pos + 1) == Read(Some([c]), rest, pos + |rest| + 2)
    ensures TableId(inp, pos).0 == NormalizeId([d] + rest, "c").id
    ensures TableId(inp, pos).1 == pos + |rest| + 2
  {
  }

  /**
   * `parseTable` after `{`: a written table id, a hex digit `d` and the rest
   * `rest` of the id, followed by a delimiter, is read as that id qualified
   * with the default scope `c`, and the cursor ends after the delimiter.
   */
  lemma TableIdText(inp: string, pos: nat, d: char, rest: string, c: char)
    requires [d] in HexDigitTokens && Word(rest, IdDelimiters) && [c] in IdDelimiters
    requires At(inp, pos, [d] + (rest + [c]))
    ensures TableId(inp, pos).0 == NormalizeId([d] + rest, "c").id
    ensures TableId(inp, pos).1 == pos + |rest| + 2
  {
    AtSplit(inp, pos, [d], rest + [c]);
    assert inp[pos + 0] == [d][0];
    HexAtCursor(inp, pos, d);
    assert "HEX" !in IdDelimiters && SingleBytes(IdDelimiters);
    ReadWordAt(inp, pos + 1, IdDelimiters, rest, c);
    TableIdParts(inp, pos, d, rest, c);
  }

  /** A table id led by a hex digit and with no `:` asks for creation and gets the scope `c`. */
  lemma PlainTableId(d: char, rest: string)
    requires [d] in HexDigitTokens && ':' !in rest
    ensures NormalizeId([d] + rest, "c").id == QualifyKey([d] + rest, "c")
    ensures Field1(QualifyKey([d] + rest, "c")) == "c"
  {
    var w := [d] + rest;
    assert d != '-' && d != ':';
    assert w[0] == d && !Marked(w);
    assert ':' !in w;
    Field1OfQualified(w, "c");
  }

  /**
   * The start of `parseTable` on a written table id with no scope part: the
   * table `id:c` exists afterwards, the table scope is `c`, and the cursor
   * ends after the delimiter.
   */
  lemma TableStartText(inp: string, s: St, d: char, rest: string, c: char)
    requires Store.Valid(s.data) && ':' !in rest
    requires [d] in HexDigitTokens && Word(rest, IdDelimiters) && [c] in IdDelimiters
    requires At(inp, s.pos, [d] + (rest + [c]))
    ensures var r := TableStart(inp, s);
            QualifyKey([d] + rest, "c") in r.data.tables && r.scopeTable == "c" && r.pos == s.pos + |rest| + 2
  {
    TableIdText(inp, s.pos, d, rest, c);
    PlainTableId(d, rest);
  }

  /** A pass of `parseMetadict` that goes on leaves the rest of the loop to the new state. */
  lemma MetadictNext(inp: string, strict: bool, s: St, s2: St)
    requires s.pos <= |inp| && MetadictPass(inp, strict, s) == Next(s2)
    ensures Metadict(inp, strict, s) == Metadict(inp, strict, s2)
  {
  }

  /** `>` at the cursor ends `parseMetadict`, leaving the state as it was. */
  lemma MetadictEnd(inp: string, strict: bool, s: St)
    requires s.pos <= |inp| && At(inp, s.pos, ['>'])
    ensures Metadict(inp, strict, s) == Ok(s.(pos := s.pos + 1))
  {
    ReadByteAt(inp, s.pos, ["(", ">"], '>');
    assert MetadictPass(inp, strict, s) == Done(Ok(s.(pos := s.pos + 1)));
  }

  /** One pass of `parseMetadict` on the cell `(a=X)`: the dictionary scope becomes X. */
  lemma MetadictPassScope(inp: string, strict: bool, s: St, x: string)
    requires s.pos <= |inp| && Word(x, [")"])
    requires At(inp, s.pos, ['(']) && At(inp, s.pos + 1, CellText(false, "a", false, x))
    ensures MetadictPass(inp, strict, s)
            == Next(s.(pos := s.pos + |x| + 4, scopeDict := x))
  {
    ReadByteAt(inp, s.pos, ["(", ">"], '(');
    var r := ReadToken(inp, s.pos, ["(", ">"]);
    assert Word("a", CellSeparators);
    ParseCellText(inp, r.pos, false, "a", false, x);
    var c := ParseCell(inp, r.pos);
    assert MetadictPass(inp, strict, s) == Next(s.(pos := c.pos, scopeDict := if c.col == "a" then c.slot else s.scopeDict));
  }

  /**
   * `parseMetadict` on `(a=X)>`: the dictionary scope becomes X and the
   * cursor ends after `>`; nothing else changes.
   */
  lemma MetadictScope(inp: string, strict: bool, s: St, x: string)
    requires s.pos <= |inp| && Word(x, [")"])
    requires At(inp, s.pos, ['(']) && At(inp, s.pos + 1, CellText(false, "a", false, x)) && At(inp, s.pos + |x| + 4, ['>'])
    ensures Metadict(inp, strict, s) == Ok(s.(pos := s.pos + |x| + 5, scopeDict := x))
  {
    MetadictPassScope(inp, strict, s, x);
    var s2 := s.(pos := s.pos + |x| + 4, scopeDict := x);
    MetadictNext(inp, strict, s, s2);
    MetadictEnd(inp, strict, s2);
  }

  /** An alias as written after its `(`: the key, `=`, the value and `)`. */
  function AliasText(key: string, val: string): (t: string)
    ensures |t| == |key| + |val| + 2
  {
    (key + ['=']) + (val + [')'])
  }

  /**
   * `parseAlias` on `key=val)`: the dictionary maps the key, qualified
   * with the dictionary scope unless it names one, to the raw value.
   */
  lemma ParseAliasText(inp: string, s: St, key: string, val: string)
    requires s.pos <= |inp| && Word(key, ["="]) && Word(val, [")"]) && At(inp, s.pos, AliasText(key, val))
    ensures ParseAlias(inp, s)
            == s.(pos := s.pos + |AliasText(key, val)|, dict := s.dict[QualifyKey(key, s.scopeDict) := val])
  {
    AtSplit(inp, s.pos, key + ['='], val + [')']);
    assert "HEX" !in ["="] && SingleBytes(["="]);
    ReadWordAt(inp, s.pos, ["="], key, '=');
    var a := ReadToken(inp, s.pos, ["="]);
    assert a.pos == s.pos + |key + ['=']|;
    assert "HEX" !in [")"] && SingleBytes([")"]);
    ReadWordAt(inp, a.pos, [")"], val, ')');
  }

  /** A pass of `parseDict` that goes on leaves the rest of the loop to the new state. */
  lemma DictNext(inp: string, strict: bool, s: St, s2: St)
    requires s.pos <= |inp| && DictPass(inp, strict, s) == Next(s2)
    ensures Dict(inp, strict, s) == Dict(inp, strict, s2)
  {
  }

  /** `>` at the cursor ends `parseDict` and resets the dictionary scope to `a`. */
  lemma DictEnd(inp: string, strict: bool, s: St)
    requires s.pos <= |inp| && At(inp, s.pos, ['>'])
    ensures Dict(inp, strict, s) == Ok(s.(pos := s.pos + 1, scopeDict := "a"))
  {
    ReadByteAt(inp, s.pos, DictTokens, '>');
    assert DictPass(inp, strict, s) == Done(Ok(s.(pos := s.pos + 1, scopeDict := "a")));
  }

  /** One pass of `parseDict` on an alias `(key=val)`: the alias is stored. */
  lemma DictPassAlias(inp: string, strict: bool, s: St, key: string, val: string)
    requires s.pos <= |inp| && Word(key, ["="]) && Word(val, [")"])
    requires At(inp, s.pos, ['(']) && At(inp, s.pos + 1, AliasText(key, val))
    ensures DictPass(inp, strict, s)
            == Next(s.(pos := s.pos + |key| + |val| + 3, dict := s.dict[QualifyKey(key, s.scopeDict) := val]))
  {
    ReadByteAt(inp, s.pos, DictTokens, '(');
    var r := ReadToken(inp, s.pos, DictTokens);
    var s1 := s.(pos := r.pos);
    assert DictPass(inp, strict, s) == Next(ParseAlias(inp, s1));
    ParseAliasText(inp, s1, key, val);
    assert s1.(pos := s1.pos + |AliasText(key, val)|, dict := s1.dict[QualifyKey(key, s1.scopeDict) := val])
           == s.(pos := s.pos + |key| + |val| + 3, dict := s.dict[QualifyKey(key, s.scopeDict) := val]);
  }

  /**
   * `parseDict` on `(key=val)>`: the alias is stored under its key,
   * qualified with the dictionary scope, and `>` resets the scope to `a`.
   */
  lemma DictAlias(inp: string, strict: bool, s: St, key: string, val: string)
    requires s.pos <= |inp| && Word(key, ["="]) && Word(val, [")"])
    requires At(inp, s.pos, ['(']) && At(inp, s.pos + 1, AliasText(key, val)) && At(inp, s.pos + |key| + |val| + 3, ['>'])
    ensures Dict(inp, strict, s)
            == Ok(s.(pos := s.pos + |key| + |val| + 4,
                     dict := s.dict[QualifyKey(key, s.scopeDict) := val], scopeDict := "a"))
  {
    DictPassAlias(inp, strict, s, key, val);
    var s2 := s.(pos := s.pos + |key| + |val| + 3, dict := s.dict[QualifyKey(key, s.scopeDict) := val]);
    DictNext(inp, strict, s, s2);
    DictEnd(inp, strict, s2);
  }

  /**
   * After `(key=val)>` in a dict, a `^` reference to the qualified key
   * resolves to the value, unescaped, when that value is PHP-truthy.
   */
  lemma AliasLookup(inp: string, strict: bool, s: St, key: string, val: string)
    requires s.pos <= |inp| && Word(key, ["="]) && Word(val, [")"]) && Truthy(val)
    requires At(inp, s.pos, ['(']) && At(inp, s.pos + 1, AliasText(key, val)) && At(inp, s.pos + |key| + |val| + 3, ['>'])
    ensures var o := Dict(inp, strict, s);
            o.Ok? && Lookup(o.st.dict, "^" + QualifyKey(key, s.scopeDict)) == Unescape(val)
  {
    DictAlias(inp, strict, s, key, val);
    LookupAfterAlias(s.dict, key, s.scopeDict, val);
  }

  /** One pass of `parseDict` on a metadict `<(a=X)>`: the dictionary scope becomes X. */
  lemma DictPassMetadict(inp: string, strict: bool, s: St, x: string)
    requires s.pos <= |inp| && Word(x, [")"])
    requires At(inp, s.pos, ['<']) && At(inp, s.pos + 1, ['('])
    requires At(inp, s.pos + 2, CellText(false, "a", false, x)) && At(inp, s.pos + |x| + 5, ['>'])
    ensures DictPass(inp, strict, s) == Next(s.(pos := s.pos + |x| + 6, scopeDict := x))
  {
    ReadByteAt(inp, s.pos, DictTokens, '<');
    var r := ReadToken(inp, s.pos, DictTokens);
    assert r.pos == s.pos + 1;
    var m := s.(pos := r.pos);
    assert m.pos + 1 == s.pos + 2 && m.pos + |x| + 4 == s.pos + |x| + 5;
    MetadictScope(inp, strict, m, x);
    assert m.(pos := m.pos + |x| + 5, scopeDict := x) == s.(pos := s.pos + |x| + 6, scopeDict := x);
  }

  /**
   * A metadict `<(a=X)>` inside `parseDict`: the rest of the dictionary is
   * read with X as its scope, so an alias after it (`DictAlias`) is stored
   * under a key qualified with X.
   */
  lemma DictMetadict(inp: string, strict: bool, s: St, x: string)
    requires s.pos <= |inp| && Word(x, [")"])
    requires At(inp, s.pos, ['<']) && At(inp, s.pos + 1, ['('])
    requires At(inp, s.pos + 2, CellText(false, "a", false, x)) && At(inp, s.pos + |x| + 5, ['>'])
    ensures Dict(inp, strict, s) == Dict(inp, strict, s.(pos := s.pos + |x| + 6, scopeDict := x))
  {
    DictPassMetadict(inp, strict, s, x);
    DictNext(inp, strict, s, s.(pos := s.pos + |x| + 6, scopeDict := x));
  }
}
