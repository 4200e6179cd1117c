/** Header promotion (_promote_header_and_drop_first_three,
    processing.py:18-42): drop the three banner rows, promote the next row to
    column names, normalise the names. */
module Header {
  import opened Strings
  import opened Frames

  /** Number of report-banner rows above the real header. */
  const BannerRows: nat := 3

  /** All rows have the width of the first: a data frame is rectangular. */
  predicate Rectangular(raw: seq<Row>) {
    forall i | 0 <= i < |raw| :: |raw[i]| == |raw[0]|
  }

  /** Every row of the frame has one cell per column. */
  predicate FitsHeader(f: Frame) {
    forall x <- f.rows :: |x.cells| == |f.header|
  }

  /** One header cell as a column name: a missing cell becomes "", text is
      trimmed and every whitespace run becomes a single space. The result is
      the canonical spelling of the cell's words. */
  function NormalizeName(c: Cell): (r: string)
    requires !c.Number?
    ensures Canonical(r)
    ensures c.Text? ==> Words(r) == Words(c.s)
    ensures c.Missing? ==> r == ""
  {
    if c.Missing? then ""
    else
      var t := Strip(c.s);
      var u := CollapseWhitespace(t);
      StripTrimmed(u);
      WordsStrip(c.s);
      CollapseKeepsWords(t);
      Strip(u)
  }

  /** Normalising an already normalised name changes nothing. */
  lemma NormalizeNameIdempotent(c: Cell)
    requires !c.Number?
    ensures NormalizeName(Text(NormalizeName(c))) == NormalizeName(c)
  {
    var r := NormalizeName(c);
    assert Strip(r) == r by {
      StripTrimmed(r);
    }
    assert CollapseWhitespace(r) == r by {
      CollapseSingleSpaced(r);
    }
    assert NormalizeName(Text(r)) == Strip(CollapseWhitespace(Strip(r)));
  }

  /** The column names made from the promoted row: one per cell, each
      trimmed and single-spaced with the words of its cell, and "" for a
      missing cell. */
  function HeaderNames(row: Row): (h: seq<string>)
    requires forall j | 0 <= j < |row| :: !row[j].Number?
    ensures |h| == |row|
    ensures forall j | 0 <= j < |h| ::
      Canonical(h[j]) && (row[j].Text? ==> Words(h[j]) == Words(row[j].s)) && (row[j].Missing? ==> h[j] == "")
  {
    seq(|row|, j requires 0 <= j < |row| => NormalizeName(row[j]))
  }

  /** Header promotion. An empty frame (no rows, or no columns) is an error;
      so is a frame with nothing after the three banner rows. Otherwise row 4
      becomes the header and rows 5 onward are the data, labelled 1, 2, ...
      as in the source's re-indexed frame. */
  function PromoteHeader(raw: seq<Row>): (r: Result<Frame>)
    requires Rectangular(raw) && TextOnly(raw)
    ensures r == Err(EmptyInput) <==> |raw| == 0 || |raw[0]| == 0
    ensures r == Err(NoDataAfterTrim) <==> 0 < |raw| <= BannerRows && |raw[0]| > 0
    ensures r.Err? ==> r.error == EmptyInput || r.error == NoDataAfterTrim
    ensures r.Ok? ==>
      |raw| > BannerRows &&
      r.value.header == HeaderNames(raw[BannerRows]) &&
      |r.value.rows| == |raw| - BannerRows - 1 &&
      (forall k | 0 <= k < |r.value.rows| :: r.value.rows[k] == Rec(k + 1, raw[BannerRows + 1 + k])) &&
      FitsHeader(r.value) && Ordered(r.value.rows)
  {
    if |raw| == 0 || |raw[0]| == 0 then Err(EmptyInput)
    else if |raw| <= BannerRows then Err(NoDataAfterTrim)
    else
      var trimmed := raw[BannerRows..];
      var header := HeaderNames(trimmed[0]);
      var data := trimmed[1..];
      Ok(Frame(header, seq(|data|, k requires 0 <= k < |data| => Rec(k + 1, data[k]))))
  }
}
