/** A concrete spreadsheet on which clean_and_filter as written fails while
    the corrected run returns an empty table: three banner rows, the header
    "name | phone", and no data below it. */
module Findings {
  import opened Strings
  import opened Frames
  import opened Columns
  import opened Header
  import opened Layout
  import opened Pipeline
  import opened Reference

  const Banner: Row := [Missing, Missing]
  const EmptySheet: seq<Row> := [Banner, Banner, Banner, [Text("name"), Text("phone")]]

  /** The run on the empty sheet: as written it fails on the name split,
      corrected it returns the header over no rows. */
  lemma EmptySheetShowsFinding(crit: Criteria, parse: string -> Option<real>)
    ensures Admissible(EmptySheet)
    ensures CleanAndFilterAsWritten(EmptySheet, crit, parse) == Err(NoRowsToSplit)
    ensures CleanAndFilter(EmptySheet, crit, parse) == Ok(Table(["name", FirstName, LastName, "phone"], []))
  {
    SheetFacts();
    var h := PromotedHeader(EmptySheet);
    assert Survivors(DataRows(EmptySheet), DetectColumns(h), crit, parse) == [];
    AsWrittenFailsWhenNoneSurvive(EmptySheet, crit, parse);
    CorrectedReturnsEmptyTable(EmptySheet, crit, parse);
    SheetLayout();
  }

  /** Steps A and B on the sheet: header "name", "phone"; name in column
      0, phone in column 1, no distance or status column. */
  lemma SheetFacts()
    ensures Admissible(EmptySheet) && Succeeds(EmptySheet)
    ensures PromotedHeader(EmptySheet) == ["name", "phone"]
    ensures DetectColumns(["name", "phone"]) == Roles(Some(0), Some(1), None, None)
  {
    SheetShape();
    SheetHeader();
    SheetRoles();
    SheetAdmissible();
    SheetSucceeds();
  }

  lemma SheetAdmissible()
    ensures Admissible(EmptySheet)
  {
    SheetShape();
    SheetHeader();
    SheetRoles();
    assert Distinct(["name", "phone"]);
  }

  lemma SheetSucceeds()
    ensures TextOnly(EmptySheet) && Succeeds(EmptySheet)
  {
    SheetShape();
    SheetHeader();
    var h := PromotedHeader(EmptySheet);
    assert h == ["name", "phone"];
    SheetNameColumn();
    SheetPhoneColumn();
    assert FindCol(h, PhonePatterns).Some? && FindCol(h, NamePatterns).Some?;
    assert Detected(EmptySheet);
    NewNamesFree();
  }

  /** The two new column names differ from the sheet's by length alone. */
  lemma NewNamesFree()
    ensures FirstName !in ["name", "phone"] && LastName !in ["name", "phone"]
  {
    assert |FirstName| == 10 && |LastName| == 9;
  }

  lemma SheetShape()
    ensures Rectangular(EmptySheet) && TextOnly(EmptySheet)
    ensures |EmptySheet| == BannerRows + 1 && |EmptySheet[0]| == 2
  {
  }

  lemma SheetRoles()
    ensures DetectColumns(["name", "phone"]) == Roles(Some(0), Some(1), None, None)
  {
    SheetNameColumn();
    SheetPhoneColumn();
    NameNoMiles();
    NameNoStatus();
    PhoneNoMiles();
    PhoneNoStatus();
  }

  lemma SheetNameColumn()
    ensures FindCol(["name", "phone"], NamePatterns) == Some(0)
  {
    NameMatches();
    assert NamePatterns[1] in NamePatterns;
  }

  lemma SheetPhoneColumn()
    ensures FindCol(["name", "phone"], PhonePatterns) == Some(1)
  {
    PhoneMatches();
    NameNoPhone();
    assert PhonePatterns[0] in PhonePatterns;
  }

  /** The output header for the sheet. */
  lemma SheetLayout()
    ensures OutputHeader(["name", "phone"], 0, RoleNames(["name", "phone"], Roles(Some(0), Some(1), None, None))) ==
      ["name", FirstName, LastName, "phone"]
  {
    var h := ["name", "phone"];
    var roles := [Some("phone"), None, None];
    assert RoleNames(h, Roles(Some(0), Some(1), None, None)) == roles;
    var h2 := ["name", FirstName, LastName, "phone"];
    assert h[..1] + [FirstName, LastName] + h[1..] == h2;
    var o := [h[0], FirstName, LastName];
    assert "phone" !in o;
    assert AppendRoles(o, roles) == AppendRoles(o + ["phone"], roles[1..]);
    assert AppendRoles(o + ["phone"], roles[1..]) == o + ["phone"];
    assert KeyColumns(h[0], roles) == h2;
    RemainingCovered(h2, h2);
  }

  /** Nothing remains of a header already listed in full. */
  lemma RemainingCovered(h: seq<string>, o: seq<string>)
    requires forall c <- h :: c in o
    ensures Remaining(h, o) == []
  {
    if Remaining(h, o) != [] {
      assert Remaining(h, o)[0] in Remaining(h, o);
    }
  }

  lemma LowerWord(s: string)
    requires forall k | 0 <= k < |s| :: 'a' <= s[k] <= 'z'
    ensures Lower(s) == s && NormalizeName(Text(s)) == s
  {
    assert NoSpace(s);
    assert SingleSpaced(s);
    StripTrimmed(s);
    CollapseSingleSpaced(s);
  }

  lemma NameWord()
    ensures Lower("name") == "name" && NormalizeName(Text("name")) == "name"
  {
    LowerWord("name");
  }

  lemma PhoneWord()
    ensures Lower("phone") == "phone" && NormalizeName(Text("phone")) == "phone"
  {
    LowerWord("phone");
  }

  /** The letters that the phone, distance and status patterns begin with
      and the two header words lack. */
  lemma NameLetters()
    ensures 'c' !in "name" && 'd' !in "name" && 'i' !in "name" && 'o' !in "name" && 'p' !in "name" && 's' !in "name"
  {
  }

  lemma PhoneLetters()
    ensures 'd' !in "phone" && 'm' !in "phone" && 's' !in "phone"
  {
  }

  lemma SheetHeader()
    ensures PromotedHeader(EmptySheet) == ["name", "phone"]
  {
    assert EmptySheet[BannerRows] == [Text("name"), Text("phone")];
    HeaderWords();
  }

  lemma HeaderWords()
    ensures HeaderNames([Text("name"), Text("phone")]) == ["name", "phone"]
  {
    NameWord();
    PhoneWord();
    HeaderPair("name", "phone");
  }

  /** A two-cell header row of names that normalise to themselves. */
  lemma HeaderPair(a: string, b: string)
    requires NormalizeName(Text(a)) == a && NormalizeName(Text(b)) == b
    ensures HeaderNames([Text(a), Text(b)]) == [a, b]
  {
    var g := HeaderNames([Text(a), Text(b)]);
    assert |g| == 2 && g[0] == a && g[1] == b;
  }

  lemma NameMatches()
    ensures Matches(Pattern(["name"], true), "name")
  {
    NameWord();
    assert MatchWords("name", 0, ["name"]) == Some(4);
    assert MatchesAt(Pattern(["name"], true), "name", 0);
  }

  lemma PhoneMatches()
    ensures Matches(Pattern(["phone"], true), "phone")
  {
    PhoneWord();
    assert MatchWords("phone", 0, ["phone"]) == Some(5);
    assert MatchesAt(Pattern(["phone"], true), "phone", 0);
  }

  lemma NameNoPhone()
    ensures !AnyMatch(PhonePatterns, "name")
  {
    NameWord();
    NameLetters();
    NoPhoneWord("name");
  }

  /** No phone pattern matches a lower-case word without "p", "o" or "c". */
  lemma NoPhoneWord(s: string)
    requires Lower(s) == s && 'p' !in s && 'o' !in s && 'c' !in s
    ensures !AnyMatch(PhonePatterns, s)
  {
    LetterRulesOut(PhonePatterns[0], s, 'p', 0);
    LetterRulesOut(PhonePatterns[1], s, 'o', 1);
    LetterRulesOut(PhonePatterns[2], s, 'c', 0);
  }

  /** A pattern whose first word has a letter the lower-case text lacks
      does not match it. */
  lemma LetterRulesOut(p: Pattern, name: string, c: char, k: nat)
    requires Lower(name) == name && |p.words| > 0 && k < |p.words[0]| && p.words[0][k] == c && c !in name
    ensures !Matches(p, name)
  {
    MissingLetter(p, name, c, 0);
  }

  /** A pattern whose first word has a letter the text lacks matches
      nowhere in it. */
  lemma {:induction false} MissingLetter(p: Pattern, s: string, c: char, i: nat)
    requires |p.words| > 0 && c in p.words[0] && c !in s && i <= |s|
    ensures !SearchFrom(p, s, i)
    decreases |s| - i
  {
    var w := p.words[0];
    if i + |w| <= |s| {
      assert forall x <- s[i..i + |w|] :: x in s;
      assert s[i..i + |w|] != w;
    }
    assert MatchWords(s, i, p.words).None?;
    if i < |s| {
      MissingLetter(p, s, c, i + 1);
    }
  }

  /** No distance pattern matches a lower-case word without a "d" that
      lacks an "m" or an "i". */
  lemma NoMilesWord(s: string)
    requires Lower(s) == s && 'd' !in s && ('m' !in s || 'i' !in s)
    ensures !AnyMatch(MilesPatterns, s)
  {
    var c, k := if 'm' !in s then 'm' else 'i', if 'm' !in s then 0 else 1;
    LetterRulesOut(MilesPatterns[0], s, c, k);
    LetterRulesOut(MilesPatterns[1], s, 'd', 0);
    LetterRulesOut(MilesPatterns[2], s, c, k);
    LetterRulesOut(MilesPatterns[3], s, c, k);
  }

  /** No status pattern matches a lower-case word without an "s" that lacks
      an "m" or a "p". */
  lemma NoStatusWord(s: string)
    requires Lower(s) == s && 's' !in s && ('m' !in s || 'p' !in s)
    ensures !AnyMatch(StatusPatterns, s)
  {
    var c, k := if 'm' !in s then 'm' else 'p', if 'm' !in s then 1 else 2;
    LetterRulesOut(StatusPatterns[0], s, c, k);
    LetterRulesOut(StatusPatterns[1], s, 's', 0);
  }

  lemma NameNoMiles()
    ensures !AnyMatch(MilesPatterns, "name")
  {
    NameWord();
    NameLetters();
    NoMilesWord("name");
  }

  lemma NameNoStatus()
    ensures !AnyMatch(StatusPatterns, "name")
  {
    NameWord();
    NameLetters();
    NoStatusWord("name");
  }

  lemma PhoneNoMiles()
    ensures !AnyMatch(MilesPatterns, "phone")
  {
    PhoneWord();
    PhoneLetters();
    NoMilesWord("phone");
  }

  lemma PhoneNoStatus()
    ensures !AnyMatch(StatusPatterns, "phone")
  {
    PhoneWord();
    PhoneLetters();
    NoStatusWord("phone");
  }
}
