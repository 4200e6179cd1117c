/** An independent, row-at-a-time statement of what clean_and_filter
    (processing.py:65-159) returns: which spreadsheet rows survive, and what
    each output row holds. The staged frame operations of Pipeline are
    proved equal to it. */
module Reference {
  import opened Strings
  import opened Frames
  import opened Columns
  import opened Header
  import opened Phone
  import opened Dedup
  import opened Filters
  import opened Layout
  import opened Pipeline

  /** A record after the cell rewrites: the phone reduced to digits and,
      when there is a distance column, the distance made numeric. */
  function Rewritten(p: nat, miles: Option<nat>, parse: string -> Option<real>, x: Rec): (y: Rec)
    ensures y.index == x.index && |y.cells| == |x.cells|
  {
    var y := CleanPhoneIn(p, x);
    if miles.Some? then CoerceIn(miles.value, parse, y) else y
  }

  /** The row's raw phone cleans to a valid phone. */
  predicate PhonePasses(p: nat, x: Rec) {
    PhoneKept(p, CleanPhoneIn(p, x))
  }

  /** The name the duplicate check compares, read after phone cleaning. */
  function NameKey(p: nat, n: nat, x: Rec): (r: Cell) {
    At(CleanPhoneIn(p, x), n)
  }

  /** No earlier row with a valid phone has the same name. */
  predicate FirstOfName(rows: seq<Rec>, p: nat, n: nat, x: Rec) {
    forall y <- rows :: PhonePasses(p, y) && y.index < x.index ==> NameKey(p, n, y) != NameKey(p, n, x)
  }

  /** The distance, made numeric, is within the limit (or there is no
      distance column). */
  predicate DistancePasses(p: nat, miles: Option<nat>, maxMiles: real, parse: string -> Option<real>, x: Rec) {
    miles.None? || WithinIn(miles.value, maxMiles, Rewritten(p, miles, parse, x))
  }

  /** The status passes (or there is no status column). */
  predicate StatusPasses(p: nat, ro: Roles, crit: Criteria, parse: string -> Option<real>, x: Rec) {
    ro.status.None? ||
    StatusIn(ro.status.value, crit.whitelist, crit.includeResigned, Rewritten(p, ro.miles, parse, x))
  }

  /** A spreadsheet row reaches the output exactly when its phone is valid,
      it is the first such row of its name, and its distance and status
      pass. */
  predicate Survives(rows: seq<Rec>, ro: Roles, crit: Criteria, parse: string -> Option<real>, x: Rec) {
    ro.phone.Some? && ro.name.Some? &&
    var p, n := ro.phone.value, ro.name.value;
    PhonePasses(p, x) && FirstOfName(rows, p, n, x) &&
    DistancePasses(p, ro.miles, crit.maxMiles, parse, x) && StatusPasses(p, ro, crit, parse, x)
  }

  // ---------------------------------------------------------------------
  // The stages, one at a time
  // ---------------------------------------------------------------------

  /** Phone cleaning and the four phone masks keep the rows whose phone
      passes, rewritten. */
  lemma PhoneStage(rows: seq<Rec>, p: nat)
    ensures PhoneFilters(MapRecs(rows, x => CleanPhoneIn(p, x)), p) ==
      MapRecs(Keep(rows, x => PhonePasses(p, x)), x => CleanPhoneIn(p, x))
  {
    var g := x => CleanPhoneIn(p, x);
    var m := x => PhoneKept(p, x);
    PhoneFiltersAreOneMask(MapRecs(rows, g), p);
    KeepMap(rows, g, m);
    KeepExt(rows, x => m(g(x)), x => PhonePasses(p, x));
  }

  /** The rows kept after duplicate removal. */
  predicate UniquePasses(rows: seq<Rec>, p: nat, n: nat, x: Rec) {
    PhonePasses(p, x) && FirstOfName(rows, p, n, x)
  }

  /** Duplicate removal on the phone-filtered rows keeps the first row of
      every name among the rows whose phone passes. */
  lemma UniqueStage(rows: seq<Rec>, p: nat, n: nat)
    requires Ordered(rows)
    ensures DropDuplicates(MapRecs(Keep(rows, x => PhonePasses(p, x)), x => CleanPhoneIn(p, x)), x => At(x, n)) ==
      MapRecs(Keep(rows, x => UniquePasses(rows, p, n, x)), x => CleanPhoneIn(p, x))
  {
    var g := x => CleanPhoneIn(p, x);
    var pp := x => PhonePasses(p, x);
    var key := x => At(x, n);
    var k1 := Keep(rows, pp);
    var k := x => key(g(x));
    DropDuplicatesMap(k1, g, key);
    DropDuplicatesIsKeepFirst(k1, k);
    var first := x => FirstOfKey(k1, k, x);
    KeepKeep(rows, pp, first);
    forall x <- rows ensures (pp(x) && first(x)) == UniquePasses(rows, p, n, x) {
      if pp(x) {
        assert forall y :: y in k1 <==> y in rows && PhonePasses(p, y);
        assert forall y :: k(y) == NameKey(p, n, y);
      }
    }
    KeepExt(rows, x => pp(x) && first(x), x => UniquePasses(rows, p, n, x));
  }

  /** The rows kept after the distance filter. */
  predicate NearPasses(rows: seq<Rec>, p: nat, n: nat, miles: Option<nat>, maxMiles: real, parse: string -> Option<real>, x: Rec) {
    UniquePasses(rows, p, n, x) && DistancePasses(p, miles, maxMiles, parse, x)
  }

  /** The optional distance filter on the unique rows. */
  lemma NearStage(rows: seq<Rec>, p: nat, n: nat, miles: Option<nat>, maxMiles: real, parse: string -> Option<real>)
    ensures var unique := MapRecs(Keep(rows, x => UniquePasses(rows, p, n, x)), x => CleanPhoneIn(p, x));
      (if miles.Some? then DistanceFilter(unique, miles.value, maxMiles, parse) else unique) ==
      MapRecs(Keep(rows, x => NearPasses(rows, p, n, miles, maxMiles, parse, x)), x => Rewritten(p, miles, parse, x))
  {
    var g := x => CleanPhoneIn(p, x);
    var up := x => UniquePasses(rows, p, n, x);
    var k2 := Keep(rows, up);
    var t := x => Rewritten(p, miles, parse, x);
    var np := x => NearPasses(rows, p, n, miles, maxMiles, parse, x);
    if miles.Some? {
      var c := x => CoerceIn(miles.value, parse, x);
      var w := x => WithinIn(miles.value, maxMiles, x);
      var unique := MapRecs(k2, g);
      assert DistanceFilter(unique, miles.value, maxMiles, parse) == Keep(MapRecs(unique, c), w);
      var cg := x => c(g(x));
      MapMap(k2, g, c);
      assert MapRecs(unique, c) == MapRecs(k2, cg);
      MapExt(k2, cg, t);
      var wt := x => w(t(x));
      KeepMap(k2, t, w);
      assert Keep(MapRecs(k2, t), w) == MapRecs(Keep(k2, wt), t);
      KeepKeep(rows, up, wt);
      var both := x => up(x) && wt(x);
      assert Keep(k2, wt) == Keep(rows, both);
      KeepExt(rows, both, np);
    } else {
      KeepExt(rows, up, np);
      MapExt(k2, g, t);
    }
  }

  /** The optional status filter on the near rows gives the reference. */
  lemma StatusStage(rows: seq<Rec>, ro: Roles, crit: Criteria, parse: string -> Option<real>)
    requires ro.phone.Some? && ro.name.Some?
    ensures var p, n := ro.phone.value, ro.name.value;
      var near := MapRecs(Keep(rows, x => NearPasses(rows, p, n, ro.miles, crit.maxMiles, parse, x)), x => Rewritten(p, ro.miles, parse, x));
      (if ro.status.Some? then StatusFilter(near, ro.status.value, crit.whitelist, crit.includeResigned) else near) ==
      MapRecs(Keep(rows, x => Survives(rows, ro, crit, parse, x)), x => Rewritten(p, ro.miles, parse, x))
  {
    var p, n := ro.phone.value, ro.name.value;
    var np := x => NearPasses(rows, p, n, ro.miles, crit.maxMiles, parse, x);
    var k3 := Keep(rows, np);
    var t := x => Rewritten(p, ro.miles, parse, x);
    var sv := x => Survives(rows, ro, crit, parse, x);
    if ro.status.Some? {
      var s := x => StatusIn(ro.status.value, crit.whitelist, crit.includeResigned, x);
      var near := MapRecs(k3, t);
      assert StatusFilter(near, ro.status.value, crit.whitelist, crit.includeResigned) == Keep(near, s);
      var st := x => s(t(x));
      KeepMap(k3, t, s);
      assert Keep(near, s) == MapRecs(Keep(k3, st), t);
      KeepKeep(rows, np, st);
      var both := x => np(x) && st(x);
      assert Keep(k3, st) == Keep(rows, both);
      KeepExt(rows, both, sv);
    } else {
      KeepExt(rows, np, sv);
    }
  }

  /** Steps C to H are the reference selection followed by the cell
      rewrites: the staged frame operations keep exactly the surviving rows,
      in their order. */
  lemma FilteredIsReference(rows: seq<Rec>, ro: Roles, crit: Criteria, parse: string -> Option<real>)
    requires ro.phone.Some? && ro.name.Some? && Ordered(rows)
    ensures Filtered(rows, ro, crit, parse) ==
      MapRecs(Keep(rows, x => Survives(rows, ro, crit, parse, x)), x => Rewritten(ro.phone.value, ro.miles, parse, x))
  {
    var p, n := ro.phone.value, ro.name.value;
    PhoneStage(rows, p);
    UniqueStage(rows, p, n);
    NearStage(rows, p, n, ro.miles, crit.maxMiles, parse);
    StatusStage(rows, ro, crit, parse);
  }

  // ---------------------------------------------------------------------
  // The whole run
  // ---------------------------------------------------------------------

  /** The spreadsheet rows under the promoted header, labelled 1, 2, ... */
  function DataRows(raw: seq<Row>): (rs: seq<Rec>)
    requires |raw| > BannerRows
    ensures |rs| == |raw| - BannerRows - 1
  {
    seq(|raw| - BannerRows - 1, k requires 0 <= k < |raw| - BannerRows - 1 => Rec(k + 1, raw[BannerRows + 1 + k]))
  }

  /** The run gets past every check: there is data, a phone and a name
      column, and neither new column name is taken. */
  predicate Succeeds(raw: seq<Row>)
    requires TextOnly(raw)
  {
    Detected(raw) && FirstName !in PromotedHeader(raw) && LastName !in PromotedHeader(raw)
  }

  /** The output cell under column name c for a rewritten record y of a
      frame with header h and name column n: the two split halves under the
      new names, otherwise the record's own cell under that name. */
  function OutputCell(h: seq<string>, n: nat, y: Rec, c: string): (r: Cell) {
    if c == FirstName then NameParts(At(y, n)).first
    else if c == LastName then NameParts(At(y, n)).last
    else if c in h then At(y, IndexOf(h, c))
    else Missing
  }

  /** One output row: a cell for every name of the output header. */
  function OutputRow(h: seq<string>, n: nat, nh: seq<string>, y: Rec): (row: Row)
    ensures |row| == |nh|
  {
    seq(|nh|, j requires 0 <= j < |nh| => OutputCell(h, n, y, nh[j]))
  }

  /** The header after the two inserts and the reordering. */
  function OutputHeader(h: seq<string>, n: nat, roles: seq<Option<string>>): (nh: seq<string>)
    requires n < |h|
  {
    ColumnOrder(h[..n + 1] + [FirstName, LastName] + h[n + 1..], h[n], roles)
  }

  /** The output rows for rewritten records rs. */
  function LaidOut(h: seq<string>, n: nat, nh: seq<string>, rs: seq<Rec>): (out: seq<Row>)
    ensures |out| == |rs|
  {
    seq(|rs|, i requires 0 <= i < |rs| => OutputRow(h, n, nh, rs[i]))
  }

  /** The surviving rows, in their order. */
  function Survivors(rows: seq<Rec>, ro: Roles, crit: Criteria, parse: string -> Option<real>): (r: seq<Rec>)
    ensures forall x :: x in r <==> x in rows && Survives(rows, ro, crit, parse, x)
    ensures Ordered(rows) ==> Ordered(r)
  {
    Keep(rows, x => Survives(rows, ro, crit, parse, x))
  }

  /** What clean_and_filter returns for a promoted frame with header h,
      detected roles ro and data rows, stated row by row: the surviving rows
      in their order, each rewritten and laid out by column name. */
  function ReferenceTable(h: seq<string>, ro: Roles, rows: seq<Rec>, crit: Criteria, parse: string -> Option<real>): (t: Table)
    requires ro.phone.Some? && ro.name.Some? && ro.name.value < |h|
    ensures |t.rows| <= |rows|
  {
    var n := ro.name.value;
    var kept := Survivors(rows, ro, crit, parse);
    var nh := OutputHeader(h, n, RoleNames(h, ro));
    Table(nh, LaidOut(h, n, nh, MapRecs(kept, x => Rewritten(ro.phone.value, ro.miles, parse, x))))
  }

  /** Splitting the name into the record and selecting the cells by
      position gives the cells by name. */
  lemma SelectIsOutput(h: seq<string>, n: nat, y: Rec, nh: seq<string>)
    requires n < |h| && |y.cells| == |h| && Distinct(h) && FirstName !in h && LastName !in h
    requires forall c <- nh :: c in h[..n + 1] + [FirstName, LastName] + h[n + 1..]
    ensures var h2 := h[..n + 1] + [FirstName, LastName] + h[n + 1..];
      SelectCells(SplitInto(n, y), Positions(h2, nh)).cells == OutputRow(h, n, nh, y)
  {
    var h2 := h[..n + 1] + [FirstName, LastName] + h[n + 1..];
    var y2 := SplitInto(n, y);
    var pos := Positions(h2, nh);
    forall j | 0 <= j < |nh| ensures At(y2, pos[j]) == OutputCell(h, n, y, nh[j]) {
      var q, c := pos[j], nh[j];
      assert h2[q] == c;
      if q <= n {
        assert h2[q] == h[q];
        DistinctIndex(h, q, IndexOf(h, c));
      } else if q > n + 2 {
        assert h2[q] == h[q - 2];
        DistinctIndex(h, q - 2, IndexOf(h, c));
      }
    }
  }

  /** The split and the final layout lay every record out by column
      name. */
  lemma FinishLaysOut(h: seq<string>, n: nat, roles: seq<Option<string>>, rs: seq<Rec>)
    requires n < |h| && Distinct(h) && FirstName !in h && LastName !in h
    requires forall c <- roles :: c.Some? ==> c.value in h
    requires forall x <- rs :: |x.cells| == |h|
    ensures Finish(h, n, roles, rs, false) == Ok(Table(OutputHeader(h, n, roles), LaidOut(h, n, OutputHeader(h, n, roles), rs)))
  {
    var h2 := h[..n + 1] + [FirstName, LastName] + h[n + 1..];
    assert InsertNameColumns(h, n) == Ok(h2);
    var nh := OutputHeader(h, n, roles);
    assert forall c <- nh :: c in h2 by {
      InsertKeepsDistinct(h, n);
      ColumnOrderPermutes(h2, h[n], roles);
    }
    var pos := Positions(h2, nh);
    assert Finish(h, n, roles, rs, false) == Ok(Table(nh, Cells(MapRecs(rs, x => SelectCells(SplitInto(n, x), pos)))));
    SelectAll(h, n, nh, rs);
  }

  /** Every record laid out by position is the record laid out by name. */
  lemma SelectAll(h: seq<string>, n: nat, nh: seq<string>, rs: seq<Rec>)
    requires n < |h| && Distinct(h) && FirstName !in h && LastName !in h
    requires forall c <- nh :: c in h[..n + 1] + [FirstName, LastName] + h[n + 1..]
    requires forall x <- rs :: |x.cells| == |h|
    ensures var pos := Positions(h[..n + 1] + [FirstName, LastName] + h[n + 1..], nh);
      Cells(MapRecs(rs, x => SelectCells(SplitInto(n, x), pos))) == LaidOut(h, n, nh, rs)
  {
    var pos := Positions(h[..n + 1] + [FirstName, LastName] + h[n + 1..], nh);
    var out := Cells(MapRecs(rs, x => SelectCells(SplitInto(n, x), pos)));
    forall i | 0 <= i < |rs| ensures out[i] == OutputRow(h, n, nh, rs[i]) {
      assert rs[i] in rs;
      SelectIsOutput(h, n, rs[i], nh);
    }
    assert out == LaidOut(h, n, nh, rs);
  }

  /** Steps C to the end on a promoted frame give the reference table. */
  lemma FinishIsReference(h: seq<string>, ro: Roles, rows: seq<Rec>, crit: Criteria, parse: string -> Option<real>)
    requires ro.phone.Some? && ro.name.Some? && ro.name.value < |h|
    requires Distinct(h) && FirstName !in h && LastName !in h
    requires Ordered(rows) && forall x <- rows :: |x.cells| == |h|
    ensures Finish(h, ro.name.value, RoleNames(h, ro), Filtered(rows, ro, crit, parse), false) ==
      Ok(ReferenceTable(h, ro, rows, crit, parse))
  {
    FilteredIsReference(rows, ro, crit, parse);
    var rs := Filtered(rows, ro, crit, parse);
    assert forall x <- rs :: |x.cells| == |h| by {
      forall x <- rs ensures |x.cells| == |h| {
        var i :| 0 <= i < |rs| && rs[i] == x;
        var kept := Keep(rows, x => Survives(rows, ro, crit, parse, x));
        assert kept[i] in rows;
      }
    }
    RoleNamesInHeader(h, ro);
    FinishLaysOut(h, ro.name.value, RoleNames(h, ro), rs);
  }

  /** The promoted data rows are the labelled rows under the header. */
  lemma PromotedRows(raw: seq<Row>)
    requires Rectangular(raw) && TextOnly(raw) && |raw| > BannerRows && |raw[0]| > 0
    ensures PromoteHeader(raw).Ok? && PromoteHeader(raw).value.rows == DataRows(raw)
  {
    var f := PromoteHeader(raw).value;
    var d := DataRows(raw);
    forall k | 0 <= k < |d| ensures f.rows[k] == d[k] {
      assert f.rows[k] == Rec(k + 1, raw[BannerRows + 1 + k]);
    }
  }

  /** Steps A and B on a spreadsheet that gets past the checks: the
      promoted frame is the header over the labelled data rows. */
  lemma PreparedFrame(raw: seq<Row>)
    requires Admissible(raw) && Detected(raw)
    ensures var h := PromotedHeader(raw);
      Prepare(raw) == Ok(Prepared(Frame(h, DataRows(raw)), DetectColumns(h)))
  {
    PromotedRows(raw);
  }

  /** A run that gets past the checks returns the reference table. */
  lemma SucceedsIsReference(raw: seq<Row>, crit: Criteria, parse: string -> Option<real>)
    requires Admissible(raw) && Succeeds(raw)
    ensures var h := PromotedHeader(raw);
      CleanAndFilter(raw, crit, parse) == Ok(ReferenceTable(h, DetectColumns(h), DataRows(raw), crit, parse))
  {
    var h := PromotedHeader(raw);
    var f := PromoteHeader(raw).value;
    PreparedFrame(raw);
    FinishIsReference(h, DetectColumns(h), f.rows, crit, parse);
  }

  /** clean_and_filter succeeds exactly when it gets past every check, and
      then returns the reference table of the promoted frame. */
  lemma CleanAndFilterIsReference(raw: seq<Row>, crit: Criteria, parse: string -> Option<real>)
    requires Admissible(raw)
    ensures CleanAndFilter(raw, crit, parse).Ok? <==> Succeeds(raw)
    ensures Succeeds(raw) ==>
      var h := PromotedHeader(raw);
      CleanAndFilter(raw, crit, parse) == Ok(ReferenceTable(h, DetectColumns(h), DataRows(raw), crit, parse))
  {
    if Succeeds(raw) {
      SucceedsIsReference(raw, crit, parse);
    }
  }

  // ---------------------------------------------------------------------
  // What the output guarantees
  // ---------------------------------------------------------------------

  /** What a promoted frame that gets past every check satisfies. */
  predicate WellPromoted(h: seq<string>, ro: Roles, rows: seq<Rec>) {
    ro.phone.Some? && ro.name.Some? && ro.phone.value < |h| && ro.name.value < |h| &&
    (ro.miles.Some? ==> ro.miles.value < |h|) && (ro.status.Some? ==> ro.status.value < |h|) &&
    Distinct(h) && FirstName !in h && LastName !in h && MilesApart(ro) &&
    Ordered(rows) && forall x <- rows :: |x.cells| == |h|
  }

  lemma SucceedsWellPromoted(raw: seq<Row>)
    requires Admissible(raw) && Succeeds(raw)
    ensures var h := PromotedHeader(raw);
      WellPromoted(h, DetectColumns(h), DataRows(raw))
  {
    PromotedRows(raw);
  }

  /** The output header is the inserted header reordered: the name column
      and the two new columns; then, up to m, every found role with a
      non-empty name other than those, once each and in the order of the
      roles; then every other column of h, in its order in h. */
  lemma OutputHeaderShape(h: seq<string>, n: nat, roles: seq<Option<string>>)
    requires n < |h| && Distinct(h) && FirstName !in h && LastName !in h
    requires forall c <- roles :: c.Some? ==> c.value in h
    ensures var nh := OutputHeader(h, n, roles);
      Distinct(nh) && (forall c :: c in nh <==> c in h || c == FirstName || c == LastName) &&
      |nh| == |h| + 2 && nh[..3] == [h[n], FirstName, LastName]
    ensures var nh := OutputHeader(h, n, roles); var m := |KeyColumns(h[n], roles)|;
      3 <= m <= |nh| &&
      (forall c <- roles :: c.Some? && c.value != "" ==> c.value in nh[..m]) &&
      (forall k | 3 <= k < m :: nh[k] != "" && nh[k] !in [h[n], FirstName, LastName] && Some(nh[k]) in roles) &&
      (forall i, j | 3 <= i < j < m :: IndexOf(roles, Some(nh[i])) < IndexOf(roles, Some(nh[j]))) &&
      (forall c :: c in nh[m..] <==> c in h && c !in nh[..m]) &&
      InOrderOf(h, nh[m..])
  {
    OutputHeaderPermutes(h, n, roles);
    OutputHeaderSections(h, n, roles);
  }

  lemma OutputHeaderPermutes(h: seq<string>, n: nat, roles: seq<Option<string>>)
    requires n < |h| && Distinct(h) && FirstName !in h && LastName !in h
    requires forall c <- roles :: c.Some? ==> c.value in h
    ensures var nh := OutputHeader(h, n, roles);
      Distinct(nh) && (forall c :: c in nh <==> c in h || c == FirstName || c == LastName) &&
      |nh| == |h| + 2 && nh[..3] == [h[n], FirstName, LastName]
  {
    var h2 := h[..n + 1] + [FirstName, LastName] + h[n + 1..];
    assert InsertNameColumns(h, n) == Ok(h2);
    InsertKeepsDistinct(h, n);
    ColumnOrderIsPermutation(h2, h[n], roles);
    ColumnOrderSections(h2, h[n], roles, |KeyColumns(h[n], roles)|);
  }

  lemma OutputHeaderSections(h: seq<string>, n: nat, roles: seq<Option<string>>)
    requires n < |h| && Distinct(h) && FirstName !in h && LastName !in h
    ensures var nh := OutputHeader(h, n, roles); var m := |KeyColumns(h[n], roles)|;
      3 <= m <= |nh| &&
      (forall c <- roles :: c.Some? && c.value != "" ==> c.value in nh[..m]) &&
      (forall k | 3 <= k < m :: nh[k] != "" && nh[k] !in [h[n], FirstName, LastName] && Some(nh[k]) in roles) &&
      (forall i, j | 3 <= i < j < m :: IndexOf(roles, Some(nh[i])) < IndexOf(roles, Some(nh[j]))) &&
      (forall c :: c in nh[m..] <==> c in h && c !in nh[..m]) &&
      InOrderOf(h, nh[m..])
  {
    var h2 := h[..n + 1] + [FirstName, LastName] + h[n + 1..];
    assert Distinct(h2) && forall c :: c in h2 <==> c in h || c == FirstName || c == LastName by {
      assert InsertNameColumns(h, n) == Ok(h2);
      InsertKeepsDistinct(h, n);
    }
    var m := |KeyColumns(h[n], roles)|;
    ColumnOrderSections(h2, h[n], roles, m);
    var nh := OutputHeader(h, n, roles);
    assert nh[1] == FirstName && nh[2] == LastName by {
      assert nh[..3][1] == nh[1] && nh[..3][2] == nh[2];
    }
    InPrefix(nh, m, 1);
    InPrefix(nh, m, 2);
    assert InOrderOf(h, nh[m..]) by {
      InsertedOrder(h, n, nh[m..]);
    }
  }

  /** Inserting the two new columns after column n moves the columns past n
      two places to the right. */
  lemma InsertedIndex(h: seq<string>, n: nat, c: string)
    requires n < |h| && c in h && c != FirstName && c != LastName
    ensures var h2 := h[..n + 1] + [FirstName, LastName] + h[n + 1..];
      c in h2 && IndexOf(h2, c) == if IndexOf(h, c) <= n then IndexOf(h, c) else IndexOf(h, c) + 2
  {
    var h2 := h[..n + 1] + [FirstName, LastName] + h[n + 1..];
    var q := IndexOf(h, c);
    var q2 := if q <= n then q else q + 2;
    assert h2[q2] == c;
    IndexOfPrefix(h, c);
    forall m | 0 <= m < q2
      ensures h2[m] != c
    {
      if m <= n {
        assert h2[m] == h[m] == h[..q][m];
      } else if m >= n + 3 {
        assert h2[m] == h[m - 2] == h[..q][m - 2];
      }
    }
    assert c !in h2[..q2];
    IndexOfFirst(h2, c, q2);
  }

  /** Columns of h in their order in the inserted header are in their order
      in h. */
  lemma InsertedOrder(h: seq<string>, n: nat, r: seq<string>)
    requires n < |h|
    requires InOrderOf(h[..n + 1] + [FirstName, LastName] + h[n + 1..], r)
    requires forall c <- r :: c in h && c != FirstName && c != LastName
    ensures InOrderOf(h, r)
  {
    var h2 := h[..n + 1] + [FirstName, LastName] + h[n + 1..];
    forall i, j | 0 <= i < j < |r|
      ensures IndexOf(h, r[i]) < IndexOf(h, r[j])
    {
      assert r[i] in r && r[j] in r;
      InsertedIndex(h, n, r[i]);
      InsertedIndex(h, n, r[j]);
    }
  }

  /** The cell under an original column name is the record's cell there. */
  lemma CellUnder(h: seq<string>, n: nat, nh: seq<string>, y: Rec, k: nat)
    requires k < |h| && Distinct(h) && FirstName !in h && LastName !in h && h[k] in nh
    ensures OutputRow(h, n, nh, y)[IndexOf(nh, h[k])] == At(y, k)
  {
    DistinctIndex(h, k, IndexOf(h, h[k]));
  }

  /** The cell of an output row under column name c. */
  function Under(header: seq<string>, c: string, row: Row): (r: Cell) {
    if c in header && IndexOf(header, c) < |row| then row[IndexOf(header, c)] else Missing
  }

  /** The rewrites touch only the phone and the distance cells. */
  lemma RewrittenCell(p: nat, miles: Option<nat>, parse: string -> Option<real>, x: Rec, k: nat)
    requires k < |x.cells| && miles != Some(k)
    ensures At(Rewritten(p, miles, parse, x), k) == At(CleanPhoneIn(p, x), k)
  {
  }

  /** The cell of output row i under an original column name is the cell
      of the surviving record it comes from, rewritten. */
  lemma RowCell(h: seq<string>, ro: Roles, rows: seq<Rec>, crit: Criteria, parse: string -> Option<real>, i: nat, k: nat)
    requires WellPromoted(h, ro, rows) && k < |h|
    requires i < |ReferenceTable(h, ro, rows, crit, parse).rows|
    ensures var t := ReferenceTable(h, ro, rows, crit, parse);
      i < |Survivors(rows, ro, crit, parse)| &&
      var x := Survivors(rows, ro, crit, parse)[i];
      x in rows && Survives(rows, ro, crit, parse, x) && h[k] in t.header &&
      Under(t.header, h[k], t.rows[i]) == At(Rewritten(ro.phone.value, ro.miles, parse, x), k)
  {
    var t := ReferenceTable(h, ro, rows, crit, parse);
    var n := ro.name.value;
    var kept := Survivors(rows, ro, crit, parse);
    RoleNamesInHeader(h, ro);
    OutputHeaderPermutes(h, n, RoleNames(h, ro));
    var y := Rewritten(ro.phone.value, ro.miles, parse, kept[i]);
    assert kept[i] in kept;
    assert t.rows[i] == OutputRow(h, n, t.header, y);
    CellUnder(h, n, t.header, y, k);
  }

  /** No two output rows have the same name. */
  lemma OutputNamesDistinct(h: seq<string>, ro: Roles, rows: seq<Rec>, crit: Criteria, parse: string -> Option<real>)
    requires WellPromoted(h, ro, rows)
    ensures var t := ReferenceTable(h, ro, rows, crit, parse);
      var name := h[ro.name.value];
      forall i, j | 0 <= i < j < |t.rows| :: Under(t.header, name, t.rows[i]) != Under(t.header, name, t.rows[j])
  {
    var t := ReferenceTable(h, ro, rows, crit, parse);
    var p, n := ro.phone.value, ro.name.value;
    var kept := Survivors(rows, ro, crit, parse);
    forall i, j | 0 <= i < j < |t.rows| ensures Under(t.header, h[n], t.rows[i]) != Under(t.header, h[n], t.rows[j]) {
      RowCell(h, ro, rows, crit, parse, i, n);
      RowCell(h, ro, rows, crit, parse, j, n);
      var a, b := kept[i], kept[j];
      RewrittenCell(p, ro.miles, parse, a, n);
      RewrittenCell(p, ro.miles, parse, b, n);
      assert a.index < b.index;
      assert NameKey(p, n, a) != NameKey(p, n, b);
    }
  }

  /** The output starts with the name column and its two halves, and every
      row carries the split of its own name. */
  lemma OutputNamesSplit(h: seq<string>, ro: Roles, rows: seq<Rec>, crit: Criteria, parse: string -> Option<real>)
    requires WellPromoted(h, ro, rows)
    ensures var t := ReferenceTable(h, ro, rows, crit, parse);
      |t.header| >= 3 && t.header[..3] == [h[ro.name.value], FirstName, LastName] &&
      forall i | 0 <= i < |t.rows| :: |t.rows[i]| == |t.header| &&
        t.rows[i][1] == NameParts(t.rows[i][0]).first && t.rows[i][2] == NameParts(t.rows[i][0]).last
  {
    var t := ReferenceTable(h, ro, rows, crit, parse);
    var n := ro.name.value;
    var kept := Survivors(rows, ro, crit, parse);
    RoleNamesInHeader(h, ro);
    OutputHeaderPermutes(h, n, RoleNames(h, ro));
    assert t.header[..3] == [h[n], FirstName, LastName];
    forall i | 0 <= i < |t.rows| ensures |t.rows[i]| == |t.header| &&
      t.rows[i][1] == NameParts(t.rows[i][0]).first && t.rows[i][2] == NameParts(t.rows[i][0]).last
    {
      var y := Rewritten(ro.phone.value, ro.miles, parse, kept[i]);
      assert t.rows[i] == OutputRow(h, n, t.header, y);
      RowSplit(h, n, t.header, y);
    }
  }

  /** A row laid out under a header that starts with the name column and
      its halves holds the name and its split there. */
  lemma RowSplit(h: seq<string>, n: nat, nh: seq<string>, y: Rec)
    requires n < |h| && Distinct(h) && FirstName !in h && LastName !in h
    requires |nh| >= 3 && nh[..3] == [h[n], FirstName, LastName]
    ensures var row := OutputRow(h, n, nh, y);
      row[0] == At(y, n) && row[1] == NameParts(row[0]).first && row[2] == NameParts(row[0]).last
  {
    assert nh[0] == h[n] && nh[1] == FirstName && nh[2] == LastName;
    DistinctIndex(h, n, IndexOf(h, h[n]));
  }

  /** Every output phone is a valid cleaned phone of digits only (when the
      distance column is not the phone column, whose cells would be made
      numeric). */
  lemma OutputPhonesValid(h: seq<string>, ro: Roles, rows: seq<Rec>, crit: Criteria, parse: string -> Option<real>)
    requires WellPromoted(h, ro, rows) && ro.miles != ro.phone
    ensures var t := ReferenceTable(h, ro, rows, crit, parse);
      var phone := h[ro.phone.value];
      forall i | 0 <= i < |t.rows| ::
        Under(t.header, phone, t.rows[i]).Text? && PhoneValid(Under(t.header, phone, t.rows[i]).s) &&
        forall k | 0 <= k < |Under(t.header, phone, t.rows[i]).s| :: IsDigit(Under(t.header, phone, t.rows[i]).s[k])
  {
    var t := ReferenceTable(h, ro, rows, crit, parse);
    var p := ro.phone.value;
    var kept := Survivors(rows, ro, crit, parse);
    forall i | 0 <= i < |t.rows|
      ensures Under(t.header, h[p], t.rows[i]).Text? && PhoneValid(Under(t.header, h[p], t.rows[i]).s)
      ensures forall k | 0 <= k < |Under(t.header, h[p], t.rows[i]).s| :: IsDigit(Under(t.header, h[p], t.rows[i]).s[k])
    {
      RowCell(h, ro, rows, crit, parse, i, p);
      RewrittenCell(p, ro.miles, parse, kept[i], p);
      var x := kept[i];
      assert PhonePasses(p, x);
      assert !x.cells[p].Number?;
      assert At(CleanPhoneIn(p, x), p) == CleanPhone(x.cells[p]);
    }
  }

  /** Apart from the phone and the distance, an output row holds the cells
      of the spreadsheet row it comes from, each under its own column
      name. */
  lemma OutputOtherCellsKept(h: seq<string>, ro: Roles, rows: seq<Rec>, crit: Criteria, parse: string -> Option<real>, i: nat, k: nat)
    requires WellPromoted(h, ro, rows) && k < |h| && ro.phone != Some(k) && ro.miles != Some(k)
    requires i < |ReferenceTable(h, ro, rows, crit, parse).rows|
    ensures var t := ReferenceTable(h, ro, rows, crit, parse);
      i < |Survivors(rows, ro, crit, parse)| &&
      var x := Survivors(rows, ro, crit, parse)[i];
      x in rows && k < |x.cells| && Under(t.header, h[k], t.rows[i]) == x.cells[k]
  {
    RowCell(h, ro, rows, crit, parse, i, k);
    var x := Survivors(rows, ro, crit, parse)[i];
    RewrittenCell(ro.phone.value, ro.miles, parse, x, k);
  }

  /** Every output distance is a number within the limit. */
  lemma OutputDistancesWithin(h: seq<string>, ro: Roles, rows: seq<Rec>, crit: Criteria, parse: string -> Option<real>)
    requires WellPromoted(h, ro, rows) && ro.miles.Some?
    ensures var t := ReferenceTable(h, ro, rows, crit, parse);
      var miles := h[ro.miles.value];
      forall i | 0 <= i < |t.rows| :: Within(Under(t.header, miles, t.rows[i]), crit.maxMiles)
  {
    var t := ReferenceTable(h, ro, rows, crit, parse);
    var m := ro.miles.value;
    forall i | 0 <= i < |t.rows| ensures Within(Under(t.header, h[m], t.rows[i]), crit.maxMiles) {
      RowCell(h, ro, rows, crit, parse, i, m);
    }
  }

  /** Every output status passes the status rule. */
  lemma OutputStatusesAllowed(h: seq<string>, ro: Roles, rows: seq<Rec>, crit: Criteria, parse: string -> Option<real>)
    requires WellPromoted(h, ro, rows) && ro.status.Some?
    ensures var t := ReferenceTable(h, ro, rows, crit, parse);
      var status := h[ro.status.value];
      forall i | 0 <= i < |t.rows| ::
        StatusCellAllowed(Under(t.header, status, t.rows[i]), crit.whitelist, crit.includeResigned)
  {
    var t := ReferenceTable(h, ro, rows, crit, parse);
    var s := ro.status.value;
    forall i | 0 <= i < |t.rows| ensures StatusCellAllowed(Under(t.header, h[s], t.rows[i]), crit.whitelist, crit.includeResigned) {
      RowCell(h, ro, rows, crit, parse, i, s);
    }
  }

  /** The name guarantees read by position: the first three columns are
      the name and its two halves, and no name occurs twice. */
  predicate NamesByPosition(t: Table) {
    |t.header| >= 3 && t.header[1] == FirstName && t.header[2] == LastName &&
    (forall i | 0 <= i < |t.rows| :: |t.rows[i]| == |t.header| &&
      t.rows[i][1] == NameParts(t.rows[i][0]).first && t.rows[i][2] == NameParts(t.rows[i][0]).last) &&
    forall i, j | 0 <= i < j < |t.rows| :: t.rows[i][0] != t.rows[j][0]
  }

  lemma ReferenceNames(h: seq<string>, ro: Roles, rows: seq<Rec>, crit: Criteria, parse: string -> Option<real>)
    requires WellPromoted(h, ro, rows)
    ensures NamesByPosition(ReferenceTable(h, ro, rows, crit, parse))
  {
    OutputNamesSplit(h, ro, rows, crit, parse);
    OutputNamesDistinct(h, ro, rows, crit, parse);
    NamesFromUnder(ReferenceTable(h, ro, rows, crit, parse), h[ro.name.value]);
  }

  /** The name guarantees by column name give them by position once the
      name column comes first. */
  lemma NamesFromUnder(t: Table, name: string)
    requires |t.header| >= 3 && t.header[..3] == [name, FirstName, LastName]
    requires forall i | 0 <= i < |t.rows| ::
      |t.rows[i]| == |t.header| &&
      t.rows[i][1] == NameParts(t.rows[i][0]).first && t.rows[i][2] == NameParts(t.rows[i][0]).last
    requires forall i, j | 0 <= i < j < |t.rows| :: Under(t.header, name, t.rows[i]) != Under(t.header, name, t.rows[j])
    ensures NamesByPosition(t)
  {
    assert t.header[0] == name && t.header[1] == FirstName && t.header[2] == LastName by {
      assert t.header[..3][0] == t.header[0] && t.header[..3][1] == t.header[1] && t.header[..3][2] == t.header[2];
    }
    IndexOfHead(t.header);
    assert forall i | 0 <= i < |t.rows| :: Under(t.header, name, t.rows[i]) == t.rows[i][0];
  }

  /** On any spreadsheet: a successful run returns a table whose first three
      columns are the name and its two halves, and no name occurs twice. */
  lemma CleanAndFilterNames(raw: seq<Row>, crit: Criteria, parse: string -> Option<real>)
    requires Admissible(raw) && CleanAndFilter(raw, crit, parse).Ok?
    ensures NamesByPosition(CleanAndFilter(raw, crit, parse).value)
  {
    CleanAndFilterIsReference(raw, crit, parse);
    SucceedsWellPromoted(raw);
    var h := PromotedHeader(raw);
    ReferenceNames(h, DetectColumns(h), DataRows(raw), crit, parse);
  }

  // ---------------------------------------------------------------------
  // The empty result
  // ---------------------------------------------------------------------

  /** Steps A and B succeed and no data row survives. */
  predicate NoneSurvive(raw: seq<Row>, crit: Criteria, parse: string -> Option<real>)
    requires TextOnly(raw)
  {
    Detected(raw) &&
    var h := PromotedHeader(raw);
    Survivors(DataRows(raw), DetectColumns(h), crit, parse) == []
  }

  /** As written, the run fails on the name split exactly when it gets past
      the column checks and no row survives the filters, whether or not the
      new column names are taken. */
  lemma AsWrittenFailsWhenNoneSurvive(raw: seq<Row>, crit: Criteria, parse: string -> Option<real>)
    requires Admissible(raw)
    ensures CleanAndFilterAsWritten(raw, crit, parse) == Err(NoRowsToSplit) <==> NoneSurvive(raw, crit, parse)
  {
    if Detected(raw) {
      var h := PromotedHeader(raw);
      var ro := DetectColumns(h);
      AsWrittenIsFinish(raw, crit, parse);
      PromotedRows(raw);
      FilteredIsReference(DataRows(raw), ro, crit, parse);
    }
  }

  /** The as-written run on a spreadsheet past the column checks. */
  lemma AsWrittenIsFinish(raw: seq<Row>, crit: Criteria, parse: string -> Option<real>)
    requires Admissible(raw) && Detected(raw)
    ensures var h := PromotedHeader(raw);
      var ro := DetectColumns(h);
      ro.phone.Some? && ro.name.Some? && ro.name.value < |h| && Distinct(h) &&
      (forall c <- RoleNames(h, ro) :: c.Some? ==> c.value in h) &&
      CleanAndFilterAsWritten(raw, crit, parse) ==
        Finish(h, ro.name.value, RoleNames(h, ro), Filtered(DataRows(raw), ro, crit, parse), true)
  {
    var h := PromotedHeader(raw);
    PreparedFrame(raw);
    RoleNamesInHeader(h, DetectColumns(h));
  }

  /** Corrected, the same spreadsheet gives the output header over no rows
      (when the new column names are free). */
  lemma CorrectedReturnsEmptyTable(raw: seq<Row>, crit: Criteria, parse: string -> Option<real>)
    requires Admissible(raw) && NoneSurvive(raw, crit, parse)
    ensures FirstName !in PromotedHeader(raw) && LastName !in PromotedHeader(raw) ==>
      var h := PromotedHeader(raw);
      var ro := DetectColumns(h);
      CleanAndFilter(raw, crit, parse) == Ok(Table(OutputHeader(h, ro.name.value, RoleNames(h, ro)), []))
    ensures CleanAndFilter(raw, crit, parse) != Err(NoRowsToSplit)
  {
    CleanAndFilterIsReference(raw, crit, parse);
  }
}
