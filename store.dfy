/**
 * The store that `Mork` builds in `$data`: tables in insertion order, each a
 * map from row id to row, each row a map from column id to value; and the
 * row-level edits the parser applies to it.
 */
module Store {
  import opened Base
  import opened Ids

  type Row = map<string, string>
  type Table = map<string, Row>

  /**
   * PHP's ordered array of tables: `order` lists the table ids in insertion
   * order, `tables` holds their contents.
   */
  datatype Data = Data(order: seq<string>, tables: map<string, Table>)

  const Empty: Data := Data([], map[])

  ghost predicate Distinct(s: seq<string>) {
    forall i, j :: 0 <= i < j < |s| ==> s[i] != s[j]
  }

  /** The order lists each table exactly once. */
  ghost predicate Valid(d: Data) {
    Distinct(d.order) && forall k :: k in d.tables <==> k in d.order
  }

  /** Every cell has a scoped column id and a PHP-truthy value. */
  ghost predicate RowOk(row: Row) {
    forall c :: c in row ==> ':' in c && Truthy(row[c])
  }

  /** Every row has a scoped id and well-formed cells. */
  ghost predicate TableOk(t: Table) {
    forall x :: x in t ==> ':' in x && RowOk(t[x])
  }

  /** The invariant the parser keeps on its store. */
  ghost predicate WellFormed(d: Data) {
    Valid(d) && forall k :: k in d.tables ==> TableOk(d.tables[k])
  }

  /** `a` is an initial part of `b`. */
  ghost predicate Prefix(a: seq<string>, b: seq<string>) {
    |a| <= |b| && forall i :: 0 <= i < |a| ==> a[i] == b[i]
  }

  lemma EmptyWellFormed()
    ensures WellFormed(Empty)
  {
  }

  function TableOf(d: Data, tid: string): Table {
    if tid in d.tables then d.tables[tid] else map[]
  }

  /** PHP's `isset($data[tid][rid])`. */
  predicate HasRow(d: Data, tid: string, rid: string) {
    tid in d.tables && rid in d.tables[tid]
  }

  function RowOf(d: Data, tid: string, rid: string): Row {
    if HasRow(d, tid, rid) then d.tables[tid][rid] else map[]
  }

  /** Assignment `$data[tid] = t`: a new table id goes to the end of the order. */
  function PutTable(d: Data, tid: string, t: Table): (r: Data)
    ensures r.tables == d.tables[tid := t]
    ensures tid in d.tables ==> r.order == d.order
    ensures tid !in d.tables ==> r.order == d.order + [tid]
    ensures Valid(d) ==> Valid(r)
  {
    if tid in d.tables then Data(d.order, d.tables[tid := t])
    else Data(d.order + [tid], d.tables[tid := t])
  }

  /**
   * Only row `rid` of table `tid` may differ between `d` and `r`: the order
   * only grows, no table other than `tid` appears or changes, and in `tid`
   * every other row is kept as it was.
   */
  ghost predicate OnlyRowChanged(d: Data, r: Data, tid: string, rid: string) {
    Prefix(d.order, r.order)
    && (forall t :: t in d.tables ==> t in r.tables)
    && (forall t :: t in r.tables && t !in d.tables ==> t == tid)
    && (forall t :: t in d.tables && t != tid ==> r.tables[t] == d.tables[t])
    && (tid in r.tables ==>
          forall x :: x != rid ==>
            (x in r.tables[tid] <==> x in TableOf(d, tid))
            && (x in TableOf(d, tid) ==> r.tables[tid][x] == TableOf(d, tid)[x]))
  }

  /** Replacing one row of one table touches nothing else and keeps the invariant. */
  lemma PutRowFacts(d: Data, tid: string, rid: string, row: Row)
    ensures OnlyRowChanged(d, PutTable(d, tid, TableOf(d, tid)[rid := row]), tid, rid)
    ensures WellFormed(d) && ':' in rid && RowOk(row) ==> WellFormed(PutTable(d, tid, TableOf(d, tid)[rid := row]))
  {
    if WellFormed(d) && ':' in rid && RowOk(row) {
      assert TableOk(TableOf(d, tid)[rid := row]);
    }
  }

  /** Row creation `$data[tid][rid] = []` when the row is not set yet. */
  function CreateRow(d: Data, tid: string, rid: string): (r: Data)
    ensures HasRow(r, tid, rid)
    ensures HasRow(d, tid, rid) ==> r == d
    ensures !HasRow(d, tid, rid) ==> r.tables[tid][rid] == map[]
    ensures OnlyRowChanged(d, r, tid, rid)
    ensures Valid(d) ==> Valid(r)
    ensures WellFormed(d) && ':' in rid ==> WellFormed(r)
  {
    if HasRow(d, tid, rid) then d
    else
      PutRowFacts(d, tid, rid, map[]);
      PutTable(d, tid, TableOf(d, tid)[rid := map[]])
  }

  /** Row deletion `unset($data[tid][rid])` when the row is set. */
  function DeleteRow(d: Data, tid: string, rid: string): (r: Data)
    ensures !HasRow(r, tid, rid)
    ensures !HasRow(d, tid, rid) ==> r == d
    ensures HasRow(d, tid, rid) ==> r.order == d.order && r.tables == d.tables[tid := d.tables[tid] - {rid}]
    ensures OnlyRowChanged(d, r, tid, rid)
    ensures Valid(d) ==> Valid(r)
    ensures WellFormed(d) ==> WellFormed(r)
  {
    if HasRow(d, tid, rid) then PutTable(d, tid, d.tables[tid] - {rid}) else d
  }

  /**
   * Cell assignment `$data[tid][rid][col] = val`.  PHP creates the table and
   * the row when they are missing, so a deleted row comes back holding only
   * this cell.
   */
  function SetCell(d: Data, tid: string, rid: string, col: string, val: string): (r: Data)
    ensures HasRow(r, tid, rid) && r.tables[tid][rid] == RowOf(d, tid, rid)[col := val]
    ensures OnlyRowChanged(d, r, tid, rid)
    ensures Valid(d) ==> Valid(r)
    ensures WellFormed(d) && ':' in rid && ':' in col && Truthy(val) ==> WellFormed(r)
  {
    PutRowFacts(d, tid, rid, RowOf(d, tid, rid)[col := val]);
    assert WellFormed(d) ==> RowOk(RowOf(d, tid, rid));
    PutTable(d, tid, TableOf(d, tid)[rid := RowOf(d, tid, rid)[col := val]])
  }

  /** Whether a cell starting with `^` holds a dictionary reference. */
  predicate IsRef(s: string) {
    |s| > 0 && s[0] == '^'
  }

  /** The column key of a cell: `normalizeId(col, 'c')`, its creation status ignored. */
  function ColumnKey(col: string): (r: string)
    ensures ':' in r
    ensures Marked(col) ==> r == QualifyKey(col[1..], "c")
    ensures !Marked(col) ==> r == QualifyKey(col, "c")
  {
    NormalizeId(col, "c").id
  }

  /** The stored value of a cell: a `^` reference is qualified with the atom scope `a`. */
  function CellValue(slot: string): (r: string)
    ensures IsRef(slot) ==> ':' in r && r[0] == '^'
    ensures IsRef(slot) && ':' in slot ==> r == slot
    ensures !IsRef(slot) ==> r == slot
    ensures Truthy(slot) ==> Truthy(r)
  {
    if IsRef(slot) then
      var r := NormalizeId(slot, "a").id;
      assert r[0] == '^' by {
        if ':' !in slot {
          assert r[..|slot|] == slot;
        }
      }
      r
    else slot
  }

  /**
   * The cell branch of `parseRow`: a value is stored only when it is
   * PHP-truthy and a table id is known.
   */
  function StoreCell(d: Data, tid: string, rid: string, col: string, slot: string): (r: Data)
    ensures !(Truthy(slot) && Truthy(tid)) ==> r == d
    ensures Truthy(slot) && Truthy(tid) ==>
              HasRow(r, tid, rid) && r.tables[tid][rid] == RowOf(d, tid, rid)[ColumnKey(col) := CellValue(slot)]
              && OnlyRowChanged(d, r, tid, rid)
    ensures Valid(d) ==> Valid(r)
    ensures WellFormed(d) && ':' in rid ==> WellFormed(r)
  {
    if Truthy(slot) && Truthy(tid) then SetCell(d, tid, rid, ColumnKey(col), CellValue(slot)) else d
  }

  /**
   * The bare row id inside a table (`parseTable`'s default branch, for an
   * id that asks for creation): make the row if missing, then unset the key
   * made of the id's scope part.
   */
  function BareRow(d: Data, tid: string, id: string): (r: Data)
    requires ':' in id
    ensures HasRow(r, tid, id)
    ensures Prefix(d.order, r.order) && d.tables.Keys <= r.tables.Keys
    ensures Valid(d) ==> Valid(r)
    ensures WellFormed(d) ==> WellFormed(r)
  {
    Field1NotAnId(id, id, "");
    DeleteRow(CreateRow(d, tid, id), tid, Field1(id))
  }

  /**
   * On a well-formed store the unset in `BareRow` never finds a row, since
   * every row id holds a `:` and the scope part does not: the construct only
   * creates the row.
   */
  lemma BareRowOnlyCreates(d: Data, tid: string, id: string)
    requires WellFormed(d) && ':' in id
    ensures BareRow(d, tid, id) == CreateRow(d, tid, id)
  {
    var c := CreateRow(d, tid, id);
    assert WellFormed(c);
    assert ':' !in Field1(id);
    assert !HasRow(c, tid, Field1(id));
  }

  /** Table `t` exists and holds row `rid`. */
  predicate Holds(tables: map<string, Table>, t: string, rid: string) {
    t in tables && rid in tables[t]
  }

  /** Index of the last table in `order` that holds `rid`, or -1. */
  function LastHolding(order: seq<string>, tables: map<string, Table>, rid: string): (i: int)
    ensures -1 <= i < |order|
    ensures i >= 0 ==> Holds(tables, order[i], rid)
    ensures forall j :: i < j < |order| ==> !Holds(tables, order[j], rid)
  {
    if |order| == 0 then -1
    else if Holds(tables, order[|order| - 1], rid) then |order| - 1
    else LastHolding(order[..|order| - 1], tables, rid)
  }

  /** `t` holds row `rid`, and no table after it in insertion order does. */
  ghost predicate LastHolder(d: Data, rid: string, t: string) {
    exists i :: 0 <= i < |d.order| && d.order[i] == t && HasRow(d, t, rid)
                && forall j :: i < j < |d.order| ==> !HasRow(d, d.order[j], rid)
  }

  /**
   * The table `parseRow` falls back to when it is given none: the last table
   * in insertion order that holds the row, or `fallback` when none does.
   */
  function HoldingTable(d: Data, rid: string, fallback: string): (r: string)
    requires Valid(d)
    ensures r == fallback || HasRow(d, r, rid)
    ensures (exists t :: HasRow(d, t, rid)) ==> LastHolder(d, rid, r)
    ensures (forall t :: !HasRow(d, t, rid)) ==> r == fallback
  {
    var i := LastHolding(d.order, d.tables, rid);
    if i >= 0 then
      assert LastHolder(d, rid, d.order[i]) by {
        assert forall j :: i < j < |d.order| ==> !HasRow(d, d.order[j], rid) by {
          forall j | i < j < |d.order| ensures !HasRow(d, d.order[j], rid) {
            assert !Holds(d.tables, d.order[j], rid);
          }
        }
      }
      d.order[i]
    else
      assert forall t :: t in d.tables ==> !Holds(d.tables, t, rid) by {
        forall t | t in d.tables ensures !Holds(d.tables, t, rid) {
          assert t in d.order;
          var j :| 0 <= j < |d.order| && d.order[j] == t;
        }
      }
      fallback
  }
}
