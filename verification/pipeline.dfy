/** The whole cleaning run (clean_and_filter, processing.py:65-159): header
    promotion, column detection, phone cleaning and filtering, duplicate
    removal, the optional distance and status filters, the name split and
    the final column order. */
module Pipeline {
  import opened Strings
  import opened Frames
  import opened Columns
  import opened Header
  import opened Phone
  import opened Dedup
  import opened Filters
  import opened Layout

  /** The caller's choices: the distance limit, the status whitelist (empty
      for none) and the resigned checkbox. */
  datatype Criteria = Criteria(maxMiles: real, whitelist: seq<string>, includeResigned: bool)

  /** The detected columns, as positions in the promoted header. */
  datatype Roles = Roles(name: Option<nat>, phone: Option<nat>, miles: Option<nat>, status: Option<nat>)

  /** Step B: each role is the first column some pattern of its list
      matches. */
  function DetectColumns(h: seq<string>): (r: Roles) {
    Roles(FindCol(h, NamePatterns), FindCol(h, PhonePatterns),
          FindCol(h, MilesPatterns), FindCol(h, StatusPatterns))
  }

  /** The coerced distance column is neither the name nor the status column,
      so no number is ever rendered back to text. */
  predicate MilesApart(ro: Roles) {
    ro.miles.Some? ==> ro.miles != ro.name && ro.miles != ro.status
  }

  /** What the model assumes of the spreadsheet read: every row as wide as
      the first, every cell text or missing, and a promoted header whose names
      are all different and whose distance column plays no other role. */
  predicate Admissible(raw: seq<Row>) {
    Rectangular(raw) && TextOnly(raw) &&
    (|raw| > BannerRows && |raw[0]| > 0 ==>
      var h := HeaderNames(raw[BannerRows]);
      Distinct(h) && MilesApart(DetectColumns(h)))
  }

  /** The rows that survive steps C to H, in their order, with their labels. */
  function Filtered(rows: seq<Rec>, ro: Roles, crit: Criteria, parse: string -> Option<real>): (r: seq<Rec>)
    requires ro.phone.Some? && ro.name.Some?
    ensures |r| <= |rows|
  {
    var phone, name := ro.phone.value, ro.name.value;
    var cleaned := MapRecs(rows, x => CleanPhoneIn(phone, x));
    var phoned := PhoneFilters(cleaned, phone);
    var unique := DropDuplicates(phoned, x => At(x, name));
    var near := if ro.miles.Some? then DistanceFilter(unique, ro.miles.value, crit.maxMiles, parse) else unique;
    if ro.status.Some? then StatusFilter(near, ro.status.value, crit.whitelist, crit.includeResigned) else near
  }

  /** The name of a found column. */
  function NameOf(h: seq<string>, col: Option<nat>): (r: Option<string>) {
    if col.Some? && col.value < |h| then Some(h[col.value]) else None
  }

  /** The phone, distance and status columns by name, in that order. */
  function RoleNames(h: seq<string>, ro: Roles): (r: seq<Option<string>>) {
    [NameOf(h, ro.phone), NameOf(h, ro.miles), NameOf(h, ro.status)]
  }

  /** Step I and the final layout. The flag selects the source as written,
      in which an empty frame makes the name split fail. */
  function Finish(h: seq<string>, n: nat, roles: seq<Option<string>>, rs: seq<Rec>, asWritten: bool): (r: Result<Table>)
    requires n < |h| && Distinct(h)
    requires forall c <- roles :: c.Some? ==> c.value in h
    ensures asWritten && rs == [] ==> r == Err(NoRowsToSplit)
    ensures !(asWritten && rs == []) ==>
      (r == Err(ColumnExists(FirstName)) <==> FirstName in h) &&
      (r == Err(ColumnExists(LastName)) <==> FirstName !in h && LastName in h) &&
      (r.Err? ==> r.error.ColumnExists?)
    ensures r.Ok? ==> |r.value.rows| == |rs| && forall row <- r.value.rows :: |row| == |r.value.header|
  {
    if asWritten && rs == [] then Err(NoRowsToSplit)
    else
      match InsertNameColumns(h, n)
      case Err(e) => Err(e)
      case Ok(h2) =>
        InsertKeepsDistinct(h, n);
        assert h[n] in h && h2[n] == h[n];
        ColumnOrderPermutes(h2, h[n], roles);
        var nh := ColumnOrder(h2, h[n], roles);
        var pos := Positions(h2, nh);
        Ok(Table(nh, Cells(MapRecs(rs, x => SelectCells(SplitInto(n, x), pos)))))
  }

  /** The promoted header of an admissible spreadsheet with data. */
  function PromotedHeader(raw: seq<Row>): (r: seq<string>)
    requires TextOnly(raw) && |raw| > BannerRows
  {
    HeaderNames(raw[BannerRows])
  }

  /** A promoted frame with its detected columns. */
  datatype Prepared = Prepared(frame: Frame, roles: Roles)

  /** Steps A and B with the two column checks of steps C and F (both
      depend only on the header, and the phone check comes first). */
  function Prepare(raw: seq<Row>): (r: Result<Prepared>)
    requires Admissible(raw)
    ensures r == Err(EmptyInput) <==> |raw| == 0 || |raw[0]| == 0
    ensures r == Err(NoDataAfterTrim) <==> 0 < |raw| <= BannerRows && |raw[0]| > 0
    ensures r == Err(NoPhoneColumn) <==>
      |raw| > BannerRows && |raw[0]| > 0 && FindCol(PromotedHeader(raw), PhonePatterns).None?
    ensures r == Err(NoNameColumn) <==>
      |raw| > BannerRows && |raw[0]| > 0 && FindCol(PromotedHeader(raw), PhonePatterns).Some? &&
      FindCol(PromotedHeader(raw), NamePatterns).None?
    ensures r.Err? ==> r.error in {EmptyInput, NoDataAfterTrim, NoPhoneColumn, NoNameColumn}
    ensures r.Ok? <==> Detected(raw)
    ensures r.Ok? ==>
      r.value.frame == PromoteHeader(raw).value && r.value.frame.header == PromotedHeader(raw) &&
      r.value.roles == DetectColumns(PromotedHeader(raw)) &&
      r.value.roles.phone.Some? && r.value.roles.name.Some? && r.value.roles.name.value < |PromotedHeader(raw)| &&
      Distinct(PromotedHeader(raw)) && MilesApart(r.value.roles)
  {
    match PromoteHeader(raw)
    case Err(e) => Err(e)
    case Ok(f) =>
      var ro := DetectColumns(f.header);
      if ro.phone.None? then Err(NoPhoneColumn)
      else if ro.name.None? then Err(NoNameColumn)
      else Ok(Prepared(f, ro))
  }

  /** The run, as written or corrected. */
  function Run(raw: seq<Row>, crit: Criteria, parse: string -> Option<real>, asWritten: bool): (r: Result<Table>)
    requires Admissible(raw)
  {
    match Prepare(raw)
    case Err(e) => Err(e)
    case Ok(p) =>
      var h, ro := p.frame.header, p.roles;
      RoleNamesInHeader(h, ro);
      Finish(h, ro.name.value, RoleNames(h, ro), Filtered(p.frame.rows, ro, crit, parse), asWritten)
  }

  lemma RoleNamesInHeader(h: seq<string>, ro: Roles)
    ensures forall c <- RoleNames(h, ro) :: c.Some? ==> c.value in h
  {
  }

  /** The header checks pass: there is data, and both a phone and a name
      column. */
  predicate Detected(raw: seq<Row>)
    requires TextOnly(raw)
  {
    |raw| > BannerRows && |raw[0]| > 0 &&
    FindCol(PromotedHeader(raw), PhonePatterns).Some? &&
    FindCol(PromotedHeader(raw), NamePatterns).Some?
  }

  /** clean_and_filter with the empty-result failure corrected (see
      CleanAndFilterAsWritten): every error and the condition raising it,
      and the shape of the table returned. */
  function CleanAndFilter(raw: seq<Row>, crit: Criteria, parse: string -> Option<real>): (r: Result<Table>)
    requires Admissible(raw)
    ensures r == Err(EmptyInput) <==> |raw| == 0 || |raw[0]| == 0
    ensures r == Err(NoDataAfterTrim) <==> 0 < |raw| <= BannerRows && |raw[0]| > 0
    ensures r == Err(NoPhoneColumn) <==>
      |raw| > BannerRows && |raw[0]| > 0 && FindCol(PromotedHeader(raw), PhonePatterns).None?
    ensures r == Err(NoNameColumn) <==>
      |raw| > BannerRows && |raw[0]| > 0 && FindCol(PromotedHeader(raw), PhonePatterns).Some? &&
      FindCol(PromotedHeader(raw), NamePatterns).None?
    ensures r == Err(ColumnExists(FirstName)) <==> Detected(raw) && FirstName in PromotedHeader(raw)
    ensures r == Err(ColumnExists(LastName)) <==>
      Detected(raw) && FirstName !in PromotedHeader(raw) && LastName in PromotedHeader(raw)
    ensures r != Err(NoRowsToSplit)
    ensures r.Ok? ==> Detected(raw) && |r.value.rows| <= |raw| - BannerRows - 1
    ensures r.Ok? ==> forall row <- r.value.rows :: |row| == |r.value.header|
  {
    Run(raw, crit, parse, false)
  }

  /** clean_and_filter as written: when no row survives the filters, the
      name split of an empty column yields no "First Name" column to insert
      and the run fails. Otherwise it is the corrected run. */
  function CleanAndFilterAsWritten(raw: seq<Row>, crit: Criteria, parse: string -> Option<real>): (r: Result<Table>)
    requires Admissible(raw)
    ensures r != Err(NoRowsToSplit) ==> r == CleanAndFilter(raw, crit, parse)
    ensures r == Err(NoRowsToSplit) ==> (Detected(raw) &&
      (CleanAndFilter(raw, crit, parse).Ok? ==> CleanAndFilter(raw, crit, parse).value.rows == []))
    ensures CleanAndFilter(raw, crit, parse).Ok? && CleanAndFilter(raw, crit, parse).value.rows == [] ==>
      r == Err(NoRowsToSplit)
  {
    Run(raw, crit, parse, true)
  }
}
