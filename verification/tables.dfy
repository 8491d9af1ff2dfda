/** The parsed table (a pandas DataFrame as read_csv leaves it) and the
    sentinel replacement load_data applies to it. */
module Tables {
  import opened Wrappers

  /** One cell: read_csv gives integer or float columns, and NaN where a
      field is empty; pd.NA and NaN are both Missing here. */
  datatype Cell = Missing | Int(i: int) | Real(x: real)

  datatype Frame = Frame(columns: seq<string>, rows: seq<seq<Cell>>)

  /** Distinct column names (read_csv renames duplicates) and one cell per
      column in every row. */
  predicate WellFormed(f: Frame) {
    && (forall i, j :: 0 <= i < j < |f.columns| ==> f.columns[i] != f.columns[j])
    && (forall r :: 0 <= r < |f.rows| ==> |f.rows[r]| == |f.columns|)
  }

  type Table = f: Frame | WellFormed(f) witness Frame([], [])

  /** The code the data service writes for "no observation". pandas compares
      by value, so it matches both the integer and the float spelling. */
  function IsSentinel(c: Cell): (b: bool)
    ensures b <==> NumericValue(c) == Some(-999.0)
  {
    c == Int(-999) || c == Real(-999.0)
  }

  /** The number a cell holds, integer or float alike; a missing cell holds none. */
  function NumericValue(c: Cell): Option<real> {
    match c
    case Missing => None
    case Int(i) => Some(i as real)
    case Real(x) => Some(x)
  }

  function IndexOf(names: seq<string>, name: string): (r: Option<nat>)
    ensures r.Some? ==> r.value < |names| && names[r.value] == name
    ensures r.None? <==> name !in names
  {
    if |names| == 0 then None
    else if names[0] == name then Some(0)
    else match IndexOf(names[1..], name)
      case None => None
      case Some(k) => Some(k + 1)
  }

  /** df[name] for one column name; None where pandas raises KeyError. */
  function Column(t: Table, name: string): (r: Option<seq<Cell>>)
    ensures r.Some? <==> name in t.columns
    ensures r.Some? ==> |r.value| == |t.rows|
    ensures forall k :: 0 <= k < |t.columns| && t.columns[k] == name ==>
      r.Some? && forall i :: 0 <= i < |t.rows| ==> r.value[i] == t.rows[i][k]
  {
    match IndexOf(t.columns, name)
    case None => None
    case Some(k) => Some(seq(|t.rows|, i requires 0 <= i < |t.rows| => t.rows[i][k]))
  }

  function ScrubCell(c: Cell): Cell {
    if IsSentinel(c) then Missing else c
  }

  /** df.replace(-999, pd.NA): every sentinel cell, in every column, becomes
      missing; every other cell is left as it was. */
  function Scrub(t: Table): (r: Table)
    ensures r.columns == t.columns && |r.rows| == |t.rows|
    ensures forall i, k :: 0 <= i < |r.rows| && 0 <= k < |r.rows[i]| ==> !IsSentinel(r.rows[i][k])
    ensures forall i, k :: 0 <= i < |t.rows| && 0 <= k < |t.rows[i]| ==>
      (IsSentinel(t.rows[i][k]) ==> r.rows[i][k] == Missing)
      && (!IsSentinel(t.rows[i][k]) ==> r.rows[i][k] == t.rows[i][k])
  {
    Frame(t.columns, seq(|t.rows|, i requires 0 <= i < |t.rows| =>
      seq(|t.rows[i]|, k requires 0 <= k < |t.rows[i]| => ScrubCell(t.rows[i][k]))))
  }

  /** Replacing the sentinel a second time changes nothing. */
  lemma ScrubIdempotent(t: Table)
    ensures Scrub(Scrub(t)) == Scrub(t)
  {
    var r := Scrub(t);
    var rr := Scrub(r);
    forall i | 0 <= i < |r.rows| ensures rr.rows[i] == r.rows[i] {
    }
  }

  /** Reading a column of the scrubbed table is scrubbing the column read. */
  lemma ColumnOfScrub(t: Table, name: string)
    ensures Column(Scrub(t), name).Some? <==> Column(t, name).Some?
    ensures Column(t, name).Some? ==>
      var c, sc := Column(t, name).value, Column(Scrub(t), name).value;
      |sc| == |c| && forall i :: 0 <= i < |c| ==> sc[i] == ScrubCell(c[i])
  {
    if name in t.columns {
      var k := IndexOf(t.columns, name).value;
      assert Scrub(t).columns[k] == name;
    }
  }
}
