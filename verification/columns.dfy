/** Column resolution: find the first column, in table order, whose name a
    case-insensitive pattern search accepts (find_col, processing.py:7-16).
    The patterns are the fixed ones of processing.py:95-98, written out as
    data instead of regular-expression text. */
module Columns {
  import opened Strings
  import opened Frames

  /** A regular expression of the shape the pipeline uses: lower-case words
      separated by `\s*`, optionally enclosed in `\b ... \b`. */
  datatype Pattern = Pattern(words: seq<string>, bounded: bool)

  /** At least one word, every word a non-empty run of lower-case letters. */
  predicate WellFormed(p: Pattern) {
    |p.words| > 0 &&
    forall w <- p.words :: |w| > 0 && forall c <- w :: 'a' <= c <= 'z'
  }

  /** `\bemployee\s*name\b`, `\bname\b` */
  const NamePatterns: seq<Pattern> :=
    [Pattern(["employee", "name"], true), Pattern(["name"], true)]

  /** `\bphone\b`, `\bmobile\b`, `\bcell\b` */
  const PhonePatterns: seq<Pattern> :=
    [Pattern(["phone"], true), Pattern(["mobile"], true), Pattern(["cell"], true)]

  /** `miles\s*from\s*location`, `\bdistance\b`, `\bmiles\b`, `\bmi\b` */
  const MilesPatterns: seq<Pattern> :=
    [Pattern(["miles", "from", "location"], false), Pattern(["distance"], true),
     Pattern(["miles"], true), Pattern(["mi"], true)]

  /** `\bemployee\s*status\b`, `\bstatus\b` */
  const StatusPatterns: seq<Pattern> :=
    [Pattern(["employee", "status"], true), Pattern(["status"], true)]

  /** The `\s*` between two words: skip every whitespace character from i.
      Skipping all of them is the only choice that can succeed, because the
      next word starts with a letter. */
  function SkipSpaces(s: string, i: nat): (j: nat)
    requires i <= |s|
    ensures i <= j <= |s|
    ensures AllSpace(s[i..j]) && (j < |s| ==> !IsSpace(s[j]))
    decreases |s| - i
  {
    if i < |s| && IsSpace(s[i]) then SkipSpaces(s, i + 1) else i
  }

  /** Where the words occur from position i on, separated by whitespace runs,
      the position just after the last word. */
  function MatchWords(s: string, i: nat, words: seq<string>): (r: Option<nat>)
    requires i <= |s|
    ensures r.Some? ==> i <= r.value <= |s|
    ensures r.Some? && words != [] ==> i + |words[0]| <= r.value && s[i..i + |words[0]|] == words[0]
    decreases |words|
  {
    if words == [] then Some(i)
    else if i + |words[0]| <= |s| && s[i..i + |words[0]|] == words[0] then
      var j := i + |words[0]|;
      if |words| == 1 then Some(j) else MatchWords(s, SkipSpaces(s, j), words[1..])
    else None
  }

  /** The pattern matches the lower-cased text s at position i. A `\b`
      before the first letter needs a non-word character (or the start)
      before it; a `\b` after the last letter needs one (or the end) after. */
  predicate MatchesAt(p: Pattern, s: string, i: nat)
    requires i <= |s|
  {
    match MatchWords(s, i, p.words)
    case None => false
    case Some(e) =>
      !p.bounded || ((i == 0 || !IsWordChar(s[i - 1])) && (e == |s| || !IsWordChar(s[e])))
  }

  /** Some position at or after i where the pattern matches. */
  predicate SearchFrom(p: Pattern, s: string, i: nat)
    requires i <= |s|
    decreases |s| - i
  {
    MatchesAt(p, s, i) || (i < |s| && SearchFrom(p, s, i + 1))
  }

  /** `re.search(pattern, name, re.IGNORECASE)` succeeds. */
  predicate Matches(p: Pattern, name: string) {
    SearchFrom(p, Lower(name), 0)
  }

  /** Some pattern of the list matches the name. */
  predicate AnyMatch(patterns: seq<Pattern>, name: string) {
    exists p <- patterns :: Matches(p, name)
  }

  /** The inner loop of find_col: the patterns tried in order on one name. */
  function TryPatterns(patterns: seq<Pattern>, name: string): (hit: bool)
    ensures hit <==> AnyMatch(patterns, name)
    decreases |patterns|
  {
    if patterns == [] then false
    else if Matches(patterns[0], name) then true
    else
      assert forall p <- patterns :: p == patterns[0] || p in patterns[1..];
      TryPatterns(patterns[1..], name)
  }

  /** The outer loop of find_col from column i on. */
  function FindFrom(header: seq<string>, patterns: seq<Pattern>, i: nat): (r: Option<nat>)
    requires i <= |header|
    ensures r.None? <==> forall j | i <= j < |header| :: !AnyMatch(patterns, header[j])
    ensures r.Some? ==>
      i <= r.value < |header| && AnyMatch(patterns, header[r.value]) &&
      forall j | i <= j < r.value :: !AnyMatch(patterns, header[j])
    decreases |header| - i
  {
    if i == |header| then None
    else if TryPatterns(patterns, header[i]) then Some(i)
    else FindFrom(header, patterns, i + 1)
  }

  /** find_col: the position of the first column whose name some pattern
      matches, or None when no column matches any pattern. */
  function FindCol(header: seq<string>, patterns: seq<Pattern>): (r: Option<nat>)
    ensures r.None? <==> forall j | 0 <= j < |header| :: !AnyMatch(patterns, header[j])
    ensures r.Some? ==>
      r.value < |header| && AnyMatch(patterns, header[r.value]) &&
      forall j | 0 <= j < r.value :: !AnyMatch(patterns, header[j])
  {
    FindFrom(header, patterns, 0)
  }

  /** Column order beats pattern order: a column matched only by a
      low-priority pattern still wins over a later column matched by the
      first pattern. */
  lemma ColumnOrderBeatsPatternOrder(header: seq<string>, patterns: seq<Pattern>, i: nat, j: nat, a: nat, b: nat)
    requires i < j < |header| && a < b < |patterns|
    requires Matches(patterns[b], header[i]) && Matches(patterns[a], header[j])
    ensures FindCol(header, patterns).Some?
    ensures FindCol(header, patterns).value <= i < j
  {
    assert AnyMatch(patterns, header[i]);
  }

  /** A well-formed pattern matches only at a place where its first word fits. */
  lemma {:induction false} SearchNonEmpty(p: Pattern, s: string, i: nat)
    requires WellFormed(p) && i <= |s| && SearchFrom(p, s, i)
    ensures |s| > 0
    decreases |s| - i
  {
    if MatchesAt(p, s, i) {
      var e := MatchWords(s, i, p.words);
      assert p.words[0] in p.words;
      assert i + |p.words[0]| <= e.value <= |s|;
    } else {
      SearchNonEmpty(p, s, i + 1);
    }
  }

  /** A name some well-formed pattern matches is never empty, so a found
      column always has a truthy name. */
  lemma MatchedNameNonEmpty(patterns: seq<Pattern>, name: string)
    requires forall p <- patterns :: WellFormed(p)
    requires AnyMatch(patterns, name)
    ensures name != ""
  {
    var p :| p in patterns && Matches(p, name);
    SearchNonEmpty(p, Lower(name), 0);
  }

  lemma PatternTablesWellFormed()
    ensures forall p <- NamePatterns :: WellFormed(p)
    ensures forall p <- PhonePatterns :: WellFormed(p)
    ensures forall p <- MilesPatterns :: WellFormed(p)
    ensures forall p <- StatusPatterns :: WellFormed(p)
  {
  }
}
