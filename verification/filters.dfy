/** The optional row filters: distance (processing.py:119-122) and employee
    status (processing.py:124-140). */
module Filters {
  import opened Strings
  import opened Frames

  // ---------------------------------------------------------------------
  // Distance
  // ---------------------------------------------------------------------

  /** `pd.to_numeric(errors="coerce")` on one cell. The text-to-number
      parser is a parameter (None: the text is not a number); a missing cell
      stays missing and a number stays itself. */
  function ToNumeric(c: Cell, parse: string -> Option<real>): (r: Cell)
    ensures !r.Text?
    ensures c.Missing? ==> r.Missing?
  {
    match c
    case Missing => Missing
    case Number(_) => c
    case Text(s) =>
      match parse(s)
      case None => Missing
      case Some(v) => Number(v)
  }

  /** `df[miles_col] <= float(max_miles)`: a missing value compares false. */
  predicate Within(c: Cell, maxMiles: real) {
    c.Number? && c.x <= maxMiles
  }

  /** Coerce the distance cell of one record. */
  function CoerceIn(col: nat, parse: string -> Option<real>, x: Rec): (y: Rec)
    ensures y.index == x.index && |y.cells| == |x.cells|
    ensures forall j | 0 <= j < |x.cells| && j != col :: y.cells[j] == x.cells[j]
    ensures col < |x.cells| ==> At(y, col) == ToNumeric(x.cells[col], parse)
  {
    if col < |x.cells| then Put(x, col, ToNumeric(x.cells[col], parse)) else x
  }

  predicate WithinIn(col: nat, maxMiles: real, x: Rec) {
    Within(At(x, col), maxMiles)
  }

  /** The distance step: coerce the column, keep rows within range. */
  function DistanceFilter(rs: seq<Rec>, col: nat, maxMiles: real, parse: string -> Option<real>): (r: seq<Rec>)
    ensures |r| <= |rs|
  {
    Keep(MapRecs(rs, x => CoerceIn(col, parse, x)), x => WithinIn(col, maxMiles, x))
  }

  /** A text distance survives exactly when it parses to a number no greater
      than the limit; a missing distance never does. Nothing but the parse
      result matters. */
  lemma DistanceRule(c: Cell, parse: string -> Option<real>, maxMiles: real)
    requires !c.Number?
    ensures Within(ToNumeric(c, parse), maxMiles) <==>
      c.Text? && parse(c.s).Some? && parse(c.s).value <= maxMiles
  {
  }

  /** Raising the limit never drops a row that a lower limit kept. */
  lemma DistanceMonotone(rs: seq<Rec>, col: nat, lo: real, hi: real, parse: string -> Option<real>)
    requires lo <= hi
    ensures forall x <- DistanceFilter(rs, col, lo, parse) :: x in DistanceFilter(rs, col, hi, parse)
  {
  }

  // ---------------------------------------------------------------------
  // Status
  // ---------------------------------------------------------------------

  /** `set(s.lower() for s in status_whitelist)` */
  function LowerAll(wl: seq<string>): (r: set<string>) {
    set w <- wl :: Lower(w)
  }

  /** The status mask on the cell's text. An empty (or absent) whitelist
      lets everything through; otherwise the lower-cased text must be a
      lower-cased whitelist entry, compared without stripping. When the
      resigned box is ticked, a text that strips and lower-cases to
      "resigned" passes too. */
  predicate StatusAllowed(t: string, wl: seq<string>, includeResigned: bool) {
    (|wl| == 0 || Lower(t) in LowerAll(wl)) ||
    (includeResigned && Lower(Strip(t)) == "resigned")
  }

  /** The status mask on a cell; a missing status renders as "nan". The
      first conjunct never fails: the status column is never the coerced
      distance column. */
  predicate StatusCellAllowed(c: Cell, wl: seq<string>, includeResigned: bool) {
    !c.Number? && StatusAllowed(CellText(c), wl, includeResigned)
  }

  /** The status mask on a record. */
  predicate StatusIn(col: nat, wl: seq<string>, includeResigned: bool, x: Rec) {
    StatusCellAllowed(At(x, col), wl, includeResigned)
  }

  function StatusFilter(rs: seq<Rec>, col: nat, wl: seq<string>, includeResigned: bool): (r: seq<Rec>)
    ensures |r| <= |rs|
  {
    Keep(rs, x => StatusIn(col, wl, includeResigned, x))
  }

  /** The status rule stated without sets or stripping order: a status passes
      when the whitelist is empty, or some entry equals it ignoring case, or
      the box is ticked and the lower-cased status strips to "resigned". */
  lemma StatusRule(t: string, wl: seq<string>, includeResigned: bool)
    ensures StatusAllowed(t, wl, includeResigned) <==>
      |wl| == 0 || (exists w <- wl :: Lower(w) == Lower(t)) ||
      (includeResigned && Strip(Lower(t)) == "resigned")
  {
    StripLower(t);
  }

  /** The mask ignores case: two statuses equal up to case pass or fail
      together. */
  lemma StatusIgnoresCase(t: string, u: string, wl: seq<string>, includeResigned: bool)
    requires Lower(t) == Lower(u)
    ensures StatusAllowed(t, wl, includeResigned) == StatusAllowed(u, wl, includeResigned)
  {
    StripLower(t);
    StripLower(u);
  }

  /** Ticking the resigned box only adds rows. */
  lemma ResignedOnlyAdds(t: string, wl: seq<string>)
    ensures StatusAllowed(t, wl, false) ==> StatusAllowed(t, wl, true)
    ensures StatusAllowed(t, wl, true) && !StatusAllowed(t, wl, false) ==> Strip(Lower(t)) == "resigned"
  {
    StripLower(t);
  }

  /** Without a whitelist and without the box, the status filter keeps
      every row. */
  lemma NoWhitelistKeepsAll(rs: seq<Rec>, col: nat)
    requires forall x <- rs :: !At(x, col).Number?
    ensures StatusFilter(rs, col, [], false) == rs
  {
    KeepAll(rs, x => StatusIn(col, [], false, x));
  }

  /** Example: the whitelist ignores case. */
  lemma StatusExampleCase()
    ensures StatusAllowed("ACTIVE", ["Active"], false)
  {
    assert Lower("ACTIVE") == "active" == Lower("Active");
    assert "Active" in ["Active"];
  }

  /** Example: the whitelist does not ignore surrounding blanks. */
  lemma StatusExampleBlank()
    ensures !StatusAllowed(" Active", ["Active"], false)
  {
    assert Lower(" Active") == " active";
    assert LowerAll(["Active"]) == {"active"} by {
      assert Lower("Active") == "active";
    }
  }

  /** With the box ticked, any status reading "resigned" in any case and
      with any surrounding whitespace passes, whatever the whitelist. */
  lemma ResignedPadded(a: string, t: string, c: string, wl: seq<string>)
    requires AllSpace(a) && AllSpace(c) && Lower(t) == "resigned"
    ensures StatusAllowed(a + t + c, wl, true)
  {
    assert Lower(t)[0] == LowerChar(t[0]) && Lower(t)[|t| - 1] == LowerChar(t[|t| - 1]);
    StripPadded(a, t, c);
    StripTrimmed(t);
  }

  /** Example: a missing status is the text "nan". */
  lemma StatusExampleMissing()
    ensures StatusAllowed(CellText(Missing), ["NaN"], false)
  {
    assert Lower("nan") == "nan" == Lower("NaN");
    assert "NaN" in ["NaN"];
  }
}
