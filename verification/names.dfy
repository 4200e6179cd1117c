/** Name splitting (_split_name_to_first_last, processing.py:44-63):
    "Last, First Middle" when the name has a comma, otherwise the first and
    last whitespace-separated tokens. */
module Names {
  import opened Strings
  import opened Frames

  datatype NamePair = NamePair(first: Cell, last: Cell)

  /** Split one name cell (the pair's shape is stated by SplitNameShape and
      its value by the rule lemmas below). */
  function SplitName(full: Cell): (r: NamePair)
    requires !full.Number?
    ensures full.Missing? <==> r.first.Missing?
    ensures full.Missing? <==> r.last.Missing?
  {
    if full.Missing? then NamePair(Missing, Missing)
    else
      var s := Strip(full.s);
      if s == [] then NamePair(Text(""), Text(""))
      else if ',' in s then SplitAtComma(s)
      else SplitAtSpaces(s)
  }

  /** The "Last, First Middle" rule: `s.split(",", 1)`, both parts stripped;
      the first name is the first word of the second part, if any. */
  function SplitAtComma(s: string): (r: NamePair)
    requires ',' in s
  {
    var i := IndexOf(s, ',');
    var last := Strip(s[..i]);
    var rest := Strip(s[i + 1..]);
    var first := if rest == [] then "" else FirstWord(rest);
    NamePair(Text(first), Text(last))
  }

  /** The "First Middle Last" fallback: one word is a first name alone,
      otherwise the first and the last word. */
  function SplitAtSpaces(s: string): (r: NamePair)
    requires !AllSpace(s)
  {
    var parts := Words(s);
    WordsBlank(s);
    var last := if |parts| == 1 then "" else parts[|parts| - 1];
    NamePair(Text(parts[0]), Text(last))
  }

  /** `rest.split()[0]` on a non-blank string. */
  function FirstWord(s: string): (r: string)
    requires !AllSpace(s)
  {
    WordsBlank(s);
    Words(s)[0]
  }

  /** The first whitespace-separated word of s, or "" when there is none. */
  function FirstWordOr(s: string): (r: string) {
    if Words(s) == [] then "" else Words(s)[0]
  }

  /** The comma rule stated on the raw cell: whatever whitespace surrounds
      it, a name `last,rest` (no comma in last) splits into the first word
      of rest and the trimmed last part. */
  lemma SplitNameCommaRule(last: string, rest: string)
    requires ',' !in last
    ensures SplitName(Text(last + [','] + rest)) == NamePair(Text(FirstWordOr(rest)), Text(Strip(last)))
  {
    var t := last + [','] + rest;
    var j, k := CommaInStrip(last, rest);
    var a, b := last[j..], rest[..k];
    assert SplitName(Text(t)) == SplitAtComma(a + [','] + b) by {
      StripBlank(t);
    }
    assert ',' !in a;
    SplitAtCommaParts(a, b);
    StripAfterBlank(last, j);
    FirstWordOfPadded(rest, k);
  }

  /** SplitAtComma on text whose first comma follows a. */
  lemma SplitAtCommaParts(a: string, b: string)
    requires ',' !in a
    ensures SplitAtComma(a + [','] + b) ==
      NamePair(Text(if Strip(b) == [] then [] else FirstWord(Strip(b))), Text(Strip(a)))
  {
    var u := a + [','] + b;
    var i := |a|;
    assert u[..i] == a && u[i + 1..] == b;
    IndexOfFirst(u, ',', i);
  }

  /** Where the comma of `last,rest` sits in its stripped form: after the
      part of last that survives the strip, and followed by the part of rest
      that survives it. */
  lemma CommaInStrip(last: string, rest: string) returns (j: nat, k: nat)
    requires ',' !in last
    ensures j <= |last| && k <= |rest|
    ensures AllSpace(last[..j]) && AllSpace(rest[k..])
    ensures Strip(last + [','] + rest) == last[j..] + [','] + rest[..k]
  {
    var t := last + [','] + rest;
    var L := |last|;
    var i := StripSlice(t);
    var e := i + |Strip(t)|;
    assert t[L] == ',';
    InsideBlankEnds(t, i, e, L);
    j, k := i, e - L - 1;
    CommaSlices(last, rest, j, k);
  }

  /** A non-space character lies between a blank prefix and a blank suffix. */
  lemma InsideBlankEnds(t: string, i: nat, e: nat, m: nat)
    requires i <= e <= |t| && m < |t| && !IsSpace(t[m])
    requires AllSpace(t[..i]) && AllSpace(t[e..])
    ensures i <= m < e
  {
    assert forall n | 0 <= n < i :: t[..i][n] == t[n];
    assert forall n | e <= n < |t| :: t[e..][n - e] == t[n];
  }

  /** The pieces of `last,rest` around its comma. */
  lemma CommaSlices(last: string, rest: string, j: nat, k: nat)
    requires j <= |last| && k <= |rest|
    ensures (last + [','] + rest)[..j] == last[..j]
    ensures (last + [','] + rest)[|last| + 1 + k..] == rest[k..]
    ensures (last + [','] + rest)[j..|last| + 1 + k] == last[j..] + [','] + rest[..k]
  {
  }

  /** Taking the first word after a strip, guarded against blank text, is
      FirstWordOr of the text with any blank tail. */
  lemma FirstWordOfPadded(s: string, k: nat)
    requires k <= |s| && AllSpace(s[k..])
    ensures (if Strip(s[..k]) == [] then [] else FirstWord(Strip(s[..k]))) == FirstWordOr(s)
  {
    var r := s[..k];
    assert Words(s) == Words(r) by {
      SplitAt(s, k);
      WordsBlank(s[k..]);
      WordsAppend(r, s[k..]);
    }
    WordsStrip(r);
    StripBlank(r);
    WordsBlank(r);
  }

  /** The fallback rule stated on the raw cell: a non-blank name without a
      comma gives its first word and, when there are several, its last. */
  lemma SplitNameSpaceRule(s: string)
    requires ',' !in s && !AllSpace(s)
    ensures Words(s) != []
    ensures SplitName(Text(s)) == NamePair(Text(Words(s)[0]),
      Text(if |Words(s)| == 1 then "" else Words(s)[|Words(s)| - 1]))
  {
    WordsBlank(s);
    var t := Strip(s);
    assert t != [] && ',' !in t && Words(t) == Words(s) by {
      StripBlank(s);
      NoCommaInStrip(s);
      WordsStrip(s);
    }
    assert SplitName(Text(s)) == SplitAtSpaces(t);
  }

  /** A single name part: non-empty, no whitespace, no comma. */
  predicate IsToken(w: string) {
    w != [] && NoSpace(w) && ',' !in w
  }

  /** Round trip of the "First Middle Last" form: writing a first and a
      last name around any whitespace-delimited middle part and splitting
      the result gives the two names back. */
  lemma SplitFirstMiddleLast(first: string, gap: string, last: string)
    requires IsToken(first) && IsToken(last)
    requires gap != [] && IsSpace(gap[0]) && IsSpace(gap[|gap| - 1]) && ',' !in gap
    ensures SplitName(Text(first + gap + last)) == NamePair(Text(first), Text(last))
  {
    var s := first + gap + last;
    assert s == first + (gap + last);
    assert (gap + last)[0] == gap[0];
    WordsAppend(first, gap + last);
    WordsAppend(gap, last);
    WordsOfToken(first);
    WordsOfToken(last);
    var ws := Words(s);
    assert ws == [first] + Words(gap) + [last];
    assert |ws| >= 2 && ws[0] == first && ws[|ws| - 1] == last;
    assert !AllSpace(s) by {
      assert s[0] == first[0];
    }
    SplitNameSpaceRule(s);
  }

  /** Round trip of the "Last, First Middle" form: a trimmed last name (which
      may contain spaces), a comma, a space and a first name, optionally
      followed by more words, splits back into the two names. */
  lemma SplitLastCommaFirst(last: string, first: string, more: string)
    requires last != [] && !IsSpace(last[0]) && !IsSpace(last[|last| - 1]) && ',' !in last
    requires first != [] && NoSpace(first)
    requires more == [] || IsSpace(more[0])
    ensures SplitName(Text(last + ", " + first + more)) == NamePair(Text(first), Text(last))
  {
    var rest := " " + first + more;
    assert last + ", " + first + more == last + [','] + rest;
    SplitNameCommaRule(last, rest);
    WordsAfterSpace(first, more);
    StripTrimmed(last);
  }

  /** The words of " first more", more starting with whitespace. */
  lemma WordsAfterSpace(first: string, more: string)
    requires first != [] && NoSpace(first)
    requires more == [] || IsSpace(more[0])
    ensures Words(" " + first + more) == [first] + Words(more)
  {
    assert " " + first + more == " " + (first + more);
    WordsAppend(" ", first + more);
    assert Words(" ") == [] by {
      assert " "[1..] == [];
    }
    WordsAppend(first, more);
    WordsOfToken(first);
  }

  /** Example: "Smith, John Michael" gives John / Smith. */
  lemma SplitNameExampleComma()
    ensures SplitName(Text("Smith, John Michael")) == NamePair(Text("John"), Text("Smith"))
  {
    assert "Smith, John Michael" == "Smith" + ", " + "John" + " Michael";
    SplitLastCommaFirst("Smith", "John", " Michael");
  }

  /** Example: "John Michael Smith" gives John / Smith. */
  lemma SplitNameExampleSpaces()
    ensures SplitName(Text("John Michael Smith")) == NamePair(Text("John"), Text("Smith"))
  {
    assert "John Michael Smith" == "John" + " Michael " + "Smith";
    SplitFirstMiddleLast("John", " Michael ", "Smith");
  }

  /** A single token is a first name alone, with an empty last name. */
  lemma SplitOneToken(w: string)
    requires IsToken(w)
    ensures SplitName(Text(w)) == NamePair(Text(w), Text(""))
  {
    WordsOfToken(w);
    assert !AllSpace(w) by {
      assert !IsSpace(w[0]);
    }
    SplitNameSpaceRule(w);
  }

  /** Example: "Prince" is a first name alone. */
  lemma SplitNameExampleOneWord()
    ensures SplitName(Text("Prince")) == NamePair(Text("Prince"), Text(""))
  {
    assert IsToken("Prince");
    SplitOneToken("Prince");
  }

  /** Examples: a blank name gives two empty names; a missing name gives two
      missing names. */
  lemma SplitNameExamplesBlank()
    ensures SplitName(Text("   ")) == NamePair(Text(""), Text(""))
    ensures SplitName(Missing) == NamePair(Missing, Missing)
  {
    assert AllSpace("   ");
    StripBlank("   ");
  }

  /** What any text name splits into: a first name with no whitespace and a
      trimmed last name with no comma; a blank name gives two empty names. */
  lemma SplitNameShape(s: string)
    ensures SplitName(Text(s)).first.Text? && SplitName(Text(s)).last.Text?
    ensures NoSpace(SplitName(Text(s)).first.s)
    ensures Strip(SplitName(Text(s)).last.s) == SplitName(Text(s)).last.s
    ensures ',' !in SplitName(Text(s)).last.s
    ensures AllSpace(s) ==> SplitName(Text(s)) == NamePair(Text(""), Text(""))
  {
    var t := Strip(s);
    StripBlank(s);
    if t != [] {
      if ',' in t {
        CommaShape(t);
      } else {
        SpacesShape(t);
      }
    }
  }

  /** The comma rule's shape: a word or nothing, and a trimmed comma-free part. */
  lemma CommaShape(t: string)
    requires ',' in t
    ensures NoSpace(SplitAtComma(t).first.s)
    ensures Strip(SplitAtComma(t).last.s) == SplitAtComma(t).last.s
    ensures ',' !in SplitAtComma(t).last.s
  {
    CommaFirst(t);
    CommaLast(t);
  }

  lemma CommaFirst(t: string)
    requires ',' in t
    ensures NoSpace(SplitAtComma(t).first.s)
  {
    var u := t[IndexOf(t, ',') + 1..];
    var b := Strip(u);
    var f := if b == [] then [] else FirstWord(b);
    assert NoSpace(f) by {
      StripStripped(u);
      FirstWordOfRest(b);
    }
    assert SplitAtComma(t).first.s == f;
  }

  lemma CommaLast(t: string)
    requires ',' in t
    ensures Strip(SplitAtComma(t).last.s) == SplitAtComma(t).last.s
    ensures ',' !in SplitAtComma(t).last.s
  {
    var i := IndexOf(t, ',');
    var a := Strip(t[..i]);
    assert SplitAtComma(t).last.s == a;
    StripStripped(t[..i]);
    IndexOfPrefix(t, ',');
    NoCommaInStrip(t[..i]);
  }

  /** The first word of a stripped part, or "", has no whitespace. */
  lemma FirstWordOfRest(rest: string)
    requires Strip(rest) == rest
    ensures NoSpace(if rest == [] then [] else FirstWord(rest))
  {
    if rest != [] {
      assert !IsSpace(rest[0]);
      WordsBlank(rest);
      WordsAreTokens(rest);
      assert Words(rest)[0] in Words(rest);
    }
  }

  /** The fallback rule's shape: two words or a word and nothing. */
  lemma SpacesShape(t: string)
    requires ',' !in t && !AllSpace(t)
    ensures NoSpace(SplitAtSpaces(t).first.s)
    ensures Strip(SplitAtSpaces(t).last.s) == SplitAtSpaces(t).last.s
    ensures ',' !in SplitAtSpaces(t).last.s
  {
    WordsBlank(t);
    WordsAreTokens(t);
    WordsInherit(t, ',');
    var ws := Words(t);
    assert ws[0] in ws && ws[|ws| - 1] in ws;
    StripTrimmed(ws[|ws| - 1]);
  }

  /** Stripping cannot introduce a character. */
  lemma NoCommaInStrip(s: string)
    ensures ',' !in s ==> ',' !in Strip(s)
  {
    var i := StripSlice(s);
    assert Strip(s) == s[i..i + |Strip(s)|];
  }

  /** Every word is made of characters of the string, so a character the
      string lacks is in none of its words. */
  lemma {:induction false} WordsInherit(s: string, ch: char)
    requires ch !in s
    ensures forall w <- Words(s) :: ch !in w
    decreases |s|
  {
    if s != [] {
      var x := s[1..];
      var wx := Words(x);
      assert ch !in x;
      WordsInherit(x, ch);
      if !IsSpace(s[0]) && |s| > 1 && !IsSpace(s[1]) {
        assert wx[0] in wx;
        assert forall v <- wx[1..] :: v in wx;
      }
    }
  }
}
