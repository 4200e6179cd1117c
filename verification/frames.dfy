/** The in-memory table the pipeline works on: cells that distinguish a
    missing value from an empty string, rows that remember their index label,
    and the boolean-mask filter every cleaning step is built from. */
module Frames {
  import opened Strings

  datatype Option<+T> = None | Some(value: T)

  /** One spreadsheet cell. Missing is the library's "not a number" marker
      (an empty Excel cell); Number is what numeric coercion leaves behind. */
  datatype Cell = Missing | Text(s: string) | Number(x: real)

  type Row = seq<Cell>

  /** A data row together with its index label. Labels are what the
      pandas index carries through filtering until the final reset. */
  datatype Rec = Rec(index: nat, cells: Row)

  /** A table with a promoted header; rows keep their labels. */
  datatype Frame = Frame(header: seq<string>, rows: seq<Rec>)

  /** The finished table: header plus plain rows, the index reset away. */
  datatype Table = Table(header: seq<string>, rows: seq<Row>)

  /** The failure kinds the pipeline raises. */
  datatype Error =
    | EmptyInput
    | NoDataAfterTrim
    | NoPhoneColumn
    | NoNameColumn
    | ColumnExists(column: string)
    | NoRowsToSplit

  datatype Result<+T> = Ok(value: T) | Err(error: Error)

  /** A cell as `astype(str)` renders it: a missing value becomes "nan".
      Numbers never reach a place where they are rendered. */
  function CellText(c: Cell): (r: string)
    requires !c.Number?
  {
    if c.Missing? then "nan" else c.s
  }

  /** Every cell holds text or nothing, as a spreadsheet read with dtype=str does. */
  predicate TextOnly(rows: seq<Row>) {
    forall i, j | 0 <= i < |rows| && 0 <= j < |rows[i]| :: !rows[i][j].Number?
  }

  /** Every record has a cell in column col. */
  predicate HasCol(rs: seq<Rec>, col: nat) {
    forall x <- rs :: col < |x.cells|
  }

  /** No value occurs twice. */
  predicate Distinct<T(==)>(s: seq<T>) {
    forall i, j | 0 <= i < j < |s| :: s[i] != s[j]
  }

  /** Labels strictly increase along the sequence: the rows are in their
      original relative order and no row appears twice. */
  predicate Ordered(rs: seq<Rec>) {
    forall i, j | 0 <= i < j < |rs| :: rs[i].index < rs[j].index
  }

  /** Boolean-mask selection `df[mask]`: the records for which keep holds,
      in their original order. */
  function Keep(rs: seq<Rec>, keep: Rec -> bool): (r: seq<Rec>)
    ensures |r| <= |rs|
    ensures forall x :: x in r <==> x in rs && keep(x)
    ensures Ordered(rs) ==> Ordered(r)
    decreases |rs|
  {
    if rs == [] then []
    else
      var tail := Keep(rs[1..], keep);
      assert Ordered(rs) ==> Ordered([rs[0]] + tail) by {
        if Ordered(rs) {
          OrderedCons(rs, tail);
        }
      }
      if keep(rs[0]) then [rs[0]] + tail else tail
  }

  /** Putting the head of an ordered sequence in front of an ordered
      selection from its tail keeps the order. */
  lemma OrderedCons(rs: seq<Rec>, tail: seq<Rec>)
    requires rs != [] && Ordered(rs) && Ordered(tail)
    requires forall x <- tail :: x in rs[1..]
    ensures Ordered([rs[0]] + tail)
  {
    forall x <- tail ensures rs[0].index < x.index {
      var j :| 0 <= j < |rs| - 1 && rs[1..][j] == x;
      assert rs[j + 1] == x;
    }
    var r := [rs[0]] + tail;
    forall i, j | 0 <= i < j < |r| ensures r[i].index < r[j].index {
      assert r[j] == tail[j - 1];
      assert r[j] in tail;
      if i > 0 { assert r[i] == tail[i - 1]; }
    }
  }

  /** The cell in column col, or Missing past the end of the record (never
      the case in a rectangular frame). */
  function At(x: Rec, col: nat): (r: Cell) {
    if col < |x.cells| then x.cells[col] else Missing
  }

  /** Replace the cell in column col of one record; the label and the other
      cells stay. */
  function Put(x: Rec, col: nat, v: Cell): (y: Rec)
    requires col < |x.cells|
    ensures y.index == x.index && |y.cells| == |x.cells|
    ensures At(y, col) == v
    ensures forall j | 0 <= j < |x.cells| && j != col :: y.cells[j] == x.cells[j]
  {
    Rec(x.index, x.cells[col := v])
  }

  /** A row-wise transformation applied to every record. */
  function MapRecs(rs: seq<Rec>, g: Rec -> Rec): (r: seq<Rec>)
    ensures |r| == |rs|
    ensures forall i | 0 <= i < |rs| :: r[i] == g(rs[i])
  {
    seq(|rs|, i requires 0 <= i < |rs| => g(rs[i]))
  }

  /** The cells of every record, labels dropped (`reset_index(drop=True)`). */
  function Cells(rs: seq<Rec>): (r: seq<Row>)
    ensures |r| == |rs|
    ensures forall i | 0 <= i < |rs| :: r[i] == rs[i].cells
  {
    seq(|rs|, i requires 0 <= i < |rs| => rs[i].cells)
  }

  /** Selection depends only on what the mask says about the records
      present. */
  lemma {:induction false} KeepExt(rs: seq<Rec>, a: Rec -> bool, b: Rec -> bool)
    requires forall x <- rs :: a(x) == b(x)
    ensures Keep(rs, a) == Keep(rs, b)
    decreases |rs|
  {
    if rs != [] {
      assert forall x <- rs[1..] :: x in rs;
      KeepExt(rs[1..], a, b);
    }
  }

  /** Two masks in a row are one mask asking both. */
  lemma {:induction false} KeepKeep(rs: seq<Rec>, a: Rec -> bool, b: Rec -> bool)
    ensures Keep(Keep(rs, a), b) == Keep(rs, x => a(x) && b(x))
    decreases |rs|
  {
    if rs != [] {
      KeepKeep(rs[1..], a, b);
      var tail := Keep(rs[1..], a);
      if a(rs[0]) {
        assert ([rs[0]] + tail)[1..] == tail;
      }
    }
  }

  /** Filtering transformed records is transforming the records whose
      transforms pass. */
  lemma {:induction false} KeepMap(rs: seq<Rec>, g: Rec -> Rec, m: Rec -> bool)
    ensures Keep(MapRecs(rs, g), m) == MapRecs(Keep(rs, x => m(g(x))), g)
    decreases |rs|
  {
    if rs != [] {
      KeepMap(rs[1..], g, m);
      assert MapRecs(rs, g)[1..] == MapRecs(rs[1..], g);
      var t := Keep(rs[1..], x => m(g(x)));
      assert MapRecs([rs[0]] + t, g) == [g(rs[0])] + MapRecs(t, g);
    }
  }

  /** Two transformations in a row are their composition. */
  lemma MapMap(rs: seq<Rec>, f: Rec -> Rec, g: Rec -> Rec)
    ensures MapRecs(MapRecs(rs, f), g) == MapRecs(rs, x => g(f(x)))
  {
  }

  /** A transformation depends only on what it does to the records present. */
  lemma MapExt(rs: seq<Rec>, f: Rec -> Rec, g: Rec -> Rec)
    requires forall x <- rs :: f(x) == g(x)
    ensures MapRecs(rs, f) == MapRecs(rs, g)
  {
    forall i | 0 <= i < |rs| ensures f(rs[i]) == g(rs[i]) {
      assert rs[i] in rs;
    }
  }

  /** A mask every record passes selects everything. */
  lemma {:induction false} KeepAll(rs: seq<Rec>, keep: Rec -> bool)
    requires forall x <- rs :: keep(x)
    ensures Keep(rs, keep) == rs
    decreases |rs|
  {
    if rs != [] {
      assert forall x <- rs[1..] :: x in rs;
      KeepAll(rs[1..], keep);
    }
  }

  /** Applying a mask twice is applying it once. */
  lemma {:induction false} KeepIdempotent(rs: seq<Rec>, keep: Rec -> bool)
    ensures Keep(Keep(rs, keep), keep) == Keep(rs, keep)
    decreases |rs|
  {
    if rs != [] {
      KeepIdempotent(rs[1..], keep);
      var tail := Keep(rs[1..], keep);
      if keep(rs[0]) {
        assert ([rs[0]] + tail)[1..] == tail;
      }
    }
  }
}
