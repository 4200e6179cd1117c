/** Character classes and the handful of Python string operations the cleaning
    pipeline relies on: strip, split on whitespace, whitespace collapsing,
    digit extraction and lower-casing. Everything is restricted to the ASCII
    range; see README for what that leaves out. */
module Strings {

  /** Python's str.isspace (and the regex class \s) on ASCII: space, the
      controls \t \n \v \f \r, and the separators 0x1C..0x1F. */
  predicate IsSpace(c: char) {
    c == ' ' || ('\t' <= c <= '\r') || ('\U{1C}' <= c <= '\U{1F}')
  }

  predicate IsDigit(c: char) {
    '0' <= c <= '9'
  }

  /** The regex class \w on ASCII. */
  predicate IsWordChar(c: char) {
    ('a' <= c <= 'z') || ('A' <= c <= 'Z') || IsDigit(c) || c == '_'
  }

  function LowerChar(c: char): (r: char) {
    if 'A' <= c <= 'Z' then (c as int - 'A' as int + 'a' as int) as char else c
  }

  /** str.lower() on ASCII letters. */
  function Lower(s: string): (r: string) {
    seq(|s|, k requires 0 <= k < |s| => LowerChar(s[k]))
  }

  predicate AllSpace(s: string) {
    forall k | 0 <= k < |s| :: IsSpace(s[k])
  }

  predicate NoSpace(s: string) {
    forall k | 0 <= k < |s| :: !IsSpace(s[k])
  }

  /** Every whitespace character is a plain space and no two are adjacent. */
  predicate SingleSpaced(s: string) {
    forall k | 0 <= k < |s| :: IsSpace(s[k]) ==> s[k] == ' ' && (k + 1 < |s| ==> !IsSpace(s[k + 1]))
  }

  /** The shape of a normalised column name: single-spaced, no whitespace at
      either end. */
  predicate Canonical(s: string) {
    SingleSpaced(s) && (s != [] ==> !IsSpace(s[0]) && !IsSpace(s[|s| - 1]))
  }

  /** Number of whitespace characters at the start of s. */
  function Lead(s: string): (n: nat)
    ensures n <= |s|
    ensures n < |s| ==> !IsSpace(s[n])
    ensures s != [] && IsSpace(s[0]) ==> n > 0
    decreases |s|
  {
    if s != [] && IsSpace(s[0]) then 1 + Lead(s[1..]) else 0
  }

  /** Length of s once its trailing whitespace is removed. */
  function Kept(s: string): (n: nat)
    ensures n <= |s|
    ensures n > 0 ==> !IsSpace(s[n - 1])
    decreases |s|
  {
    if s != [] && IsSpace(s[|s| - 1]) then Kept(s[..|s| - 1]) else |s|
  }

  /** str.lstrip(): s without its leading whitespace. */
  function StripStart(s: string): (r: string) {
    s[Lead(s)..]
  }

  /** str.rstrip(): s without its trailing whitespace. */
  function StripEnd(s: string): (r: string) {
    s[..Kept(s)]
  }

  /** The characters lstrip counts are all whitespace. */
  lemma {:induction false} LeadSpaces(s: string)
    ensures AllSpace(s[..Lead(s)])
    decreases |s|
  {
    if s != [] && IsSpace(s[0]) {
      var t := s[1..];
      LeadSpaces(t);
      var n := Lead(s);
      forall k | 0 <= k < n ensures IsSpace(s[k]) {
        if k > 0 { assert s[k] == t[..n - 1][k - 1]; }
      }
    }
  }

  /** The characters rstrip drops are all whitespace. */
  lemma {:induction false} KeptSpaces(s: string)
    ensures AllSpace(s[Kept(s)..])
    decreases |s|
  {
    if s != [] && IsSpace(s[|s| - 1]) {
      var t := s[..|s| - 1];
      KeptSpaces(t);
      var n := Kept(s);
      forall k | n <= k < |s| ensures IsSpace(s[k]) {
        if k < |s| - 1 { assert s[k] == t[n..][k - n]; }
      }
    }
  }

  /** What lstrip drops is a whitespace-only prefix. */
  lemma StripStartSplit(s: string)
    ensures s == s[..|s| - |StripStart(s)|] + StripStart(s)
    ensures AllSpace(s[..|s| - |StripStart(s)|])
  {
    LeadSpaces(s);
  }

  lemma StripStartBlank(s: string)
    ensures StripStart(s) == [] ==> AllSpace(s)
  {
    LeadSpaces(s);
  }

  /** What rstrip drops is a whitespace-only suffix. */
  lemma StripEndSplit(s: string)
    ensures AllSpace(s[|StripEnd(s)|..])
  {
    KeptSpaces(s);
  }

  /** str.strip(): s without its leading and trailing whitespace. */
  function Strip(s: string): (r: string)
    ensures r != [] ==> !IsSpace(r[0]) && !IsSpace(r[|r| - 1])
  {
    var t := StripStart(s);
    assert t != [] ==> t[0] == s[Lead(s)];
    StripEnd(t)
  }

  /** Strip cuts a whitespace-only prefix and suffix off s and keeps the rest. */
  lemma StripSlice(s: string) returns (i: nat)
    ensures i + |Strip(s)| <= |s|
    ensures Strip(s) == s[i..i + |Strip(s)|]
    ensures AllSpace(s[..i]) && AllSpace(s[i + |Strip(s)|..])
  {
    var t := StripStart(s);
    i := Lead(s);
    var n := Kept(t);
    LeadSpaces(s);
    KeptSpaces(t);
    assert t[n..] == s[i + n..];
  }

  /** Strip leaves nothing exactly when s is blank. */
  lemma StripBlank(s: string)
    ensures Strip(s) == [] <==> AllSpace(s)
  {
    var i := StripSlice(s);
    var r := Strip(s);
    if r == [] {
      assert s == s[..i] + s[i..];
      assert s[i..] == s[i + |r|..];
    } else {
      assert s[i] == r[0];
    }
  }

  /** str.split() with no separator: the maximal runs of non-whitespace
      characters, in order. Built from the right: a non-space character
      either starts a new word or is prepended to the first word of the
      rest. */
  function Words(s: string): (ws: seq<string>)
    ensures s != [] && !IsSpace(s[0]) ==> ws != []
    decreases |s|
  {
    if s == [] then []
    else
      var ws := Words(s[1..]);
      if IsSpace(s[0]) then ws
      else if |s| == 1 || IsSpace(s[1]) then [[s[0]]] + ws
      else [[s[0]] + ws[0]] + ws[1..]
  }

  /** re.sub(r"\s+", " ", s): every maximal whitespace run becomes one space. */
  function CollapseWhitespace(s: string): (r: string)
    ensures r == [] <==> s == []
    ensures r != [] ==> (IsSpace(r[0]) <==> IsSpace(s[0]))
    ensures r != [] ==> (IsSpace(r[|r| - 1]) <==> IsSpace(s[|s| - 1]))
    ensures SingleSpaced(r)
    decreases |s|
  {
    if s == [] then []
    else if IsSpace(s[0]) then
      var t := StripStart(s);
      var c := CollapseWhitespace(t);
      var r := [' '] + c;
      StripStartBlank(s);
      assert t != [] ==> t[|t| - 1] == s[|s| - 1] by {
        StripStartSplit(s);
      }
      SingleSpacedCons(' ', c);
      r
    else
      var c := CollapseWhitespace(s[1..]);
      SingleSpacedCons(s[0], c);
      [s[0]] + c
  }

  /** Putting a character in front of a single-spaced string keeps it
      single-spaced, unless both that character and the first are spaces. */
  lemma SingleSpacedCons(ch: char, c: string)
    requires SingleSpaced(c)
    requires IsSpace(ch) ==> ch == ' ' && (c == [] || !IsSpace(c[0]))
    ensures SingleSpaced([ch] + c)
  {
    var r := [ch] + c;
    forall k | 0 <= k < |r| && IsSpace(r[k])
      ensures r[k] == ' ' && (k + 1 < |r| ==> !IsSpace(r[k + 1]))
    {
      if k > 0 {
        assert r[k] == c[k - 1];
        if k + 1 < |r| { assert r[k + 1] == c[k]; }
      } else if k + 1 < |r| {
        assert r[1] == c[0];
      }
    }
  }

  /** re.sub(r"\D+", "", s): the decimal digits of s, in their order. */
  function Digits(s: string): (r: string)
    ensures |r| <= |s|
    ensures forall k | 0 <= k < |r| :: IsDigit(r[k])
    ensures (forall k | 0 <= k < |s| :: IsDigit(s[k])) ==> r == s
    decreases |s|
  {
    if s == [] then []
    else (if IsDigit(s[0]) then [s[0]] else []) + Digits(s[1..])
  }

  /** Index of the first occurrence of x, which must occur (`str.index`,
      `list.index`). */
  function IndexOf<T(==)>(s: seq<T>, x: T): (i: nat)
    requires x in s
    ensures i < |s| && s[i] == x
  {
    if s[0] == x then 0 else 1 + IndexOf(s[1..], x)
  }

  /** r lists elements of s in the order of their first occurrence in s. */
  predicate InOrderOf<T(==)>(s: seq<T>, r: seq<T>) {
    (forall x <- r :: x in s) &&
    forall i, j | 0 <= i < j < |r| :: IndexOf(s, r[i]) < IndexOf(s, r[j])
  }

  /** An element before m is in the prefix of length m. */
  lemma InPrefix<T>(s: seq<T>, m: nat, k: nat)
    requires k < m <= |s|
    ensures s[k] in s[..m]
  {
    assert s[..m][k] == s[k];
  }

  /** The first element sits at position 0. */
  lemma IndexOfHead<T>(s: seq<T>)
    requires s != []
    ensures s[0] in s && IndexOf(s, s[0]) == 0
  {
  }

  /** Nothing before the position IndexOf finds equals x. */
  lemma {:induction false} IndexOfPrefix<T>(s: seq<T>, x: T)
    requires x in s
    ensures x !in s[..IndexOf(s, x)]
    decreases |s|
  {
    if s[0] != x {
      assert x in s[1..];
      IndexOfPrefix(s[1..], x);
      assert s[..IndexOf(s, x)] == [s[0]] + s[1..][..IndexOf(s[1..], x)];
    }
  }

  /** IndexOf finds the first occurrence. */
  lemma IndexOfFirst<T>(s: seq<T>, x: T, i: nat)
    requires i < |s| && s[i] == x && x !in s[..i]
    ensures IndexOf(s, x) == i
  {
    var k := IndexOf(s, x);
    IndexOfPrefix(s, x);
    assert forall m | 0 <= m < i :: s[..i][m] == s[m];
    assert forall m | 0 <= m < k :: s[..k][m] == s[m];
  }

  // ---------------------------------------------------------------------
  // Lemmas about Words, Strip, CollapseWhitespace and Digits
  // ---------------------------------------------------------------------

  /** Splitting a string that has no word straddling the cut point. */
  lemma {:induction false} WordsAppend(a: string, b: string)
    requires a == [] || b == [] || IsSpace(a[|a| - 1]) || IsSpace(b[0])
    ensures Words(a + b) == Words(a) + Words(b)
    decreases |a|
  {
    if a == [] {
      assert a + b == b;
    } else {
      var x := a[1..];
      var ab := a + b;
      assert ab[1..] == x + b;
      assert Words(x + b) == Words(x) + Words(b) by {
        assert x == [] || x[|x| - 1] == a[|a| - 1];
        WordsAppend(x, b);
      }
      if IsSpace(a[0]) {
      } else if x == [] {
        assert |ab| == 1 || ab[1] == b[0];
        assert Words(a) == [[a[0]]] by {
          assert Words(x) == [];
        }
      } else if IsSpace(x[0]) {
        assert ab[1] == x[0];
        ConsBreak([a[0]], Words(x), Words(b));
      } else {
        assert ab[1] == x[0];
        ConsJoin([a[0]], Words(x), Words(b));
      }
    }
  }

  /** Concatenation regrouped after a first element. */
  lemma ConsBreak<T>(w: T, x: seq<T>, y: seq<T>)
    ensures [w] + (x + y) == ([w] + x) + y
  {
  }

  /** Extending the first word of a list commutes with appending more words. */
  lemma ConsJoin(w: string, x: seq<string>, y: seq<string>)
    requires x != []
    ensures [w + (x + y)[0]] + (x + y)[1..] == ([w + x[0]] + x[1..]) + y
  {
    assert (x + y)[0] == x[0];
    assert (x + y)[1..] == x[1..] + y;
  }
  /** A blank string has no words, and only a blank string has none. */
  lemma {:induction false} WordsBlank(s: string)
    ensures Words(s) == [] <==> AllSpace(s)
    decreases |s|
  {
    if s != [] && IsSpace(s[0]) {
      WordsBlank(s[1..]);
      if AllSpace(s[1..]) {
        assert forall k | 1 <= k < |s| :: s[k] == s[1..][k - 1];
      }
    }
  }

  /** Every word is non-empty and free of whitespace. */
  lemma {:induction false} WordsAreTokens(s: string)
    ensures forall w <- Words(s) :: w != [] && NoSpace(w)
    decreases |s|
  {
    if s != [] {
      var x := s[1..];
      var wx := Words(x);
      WordsAreTokens(x);
      if !IsSpace(s[0]) && |s| > 1 && !IsSpace(s[1]) {
        assert wx[0] in wx;
        var w := [s[0]] + wx[0];
        assert forall k | 1 <= k < |w| :: w[k] == wx[0][k - 1];
        assert forall v <- wx[1..] :: v in wx;
      }
    }
  }

  /** A non-empty run without whitespace is one word. */
  lemma {:induction false} WordsOfToken(t: string)
    requires t != [] && NoSpace(t)
    ensures Words(t) == [t]
    decreases |t|
  {
    var x := t[1..];
    if x == [] {
      assert Words(x) == [];
      assert t == [t[0]];
    } else {
      assert NoSpace(x) by {
        assert forall k | 0 <= k < |x| :: x[k] == t[k + 1];
      }
      WordsOfToken(x);
      assert !IsSpace(t[1]);
      assert Words(x)[0] == x && Words(x)[1..] == [];
      assert t == [t[0]] + x;
    }
  }

  /** Stripping never changes the words of a string. */
  lemma WordsStrip(s: string)
    ensures Words(Strip(s)) == Words(s)
  {
    var r := Strip(s);
    var i := StripSlice(s);
    var a, b := s[..i], s[i + |r|..];
    assert s == a + (r + b);
    assert Words(r + b) == Words(r) by {
      WordsBlank(b);
      WordsAppend(r, b);
    }
    assert Words(a + (r + b)) == Words(r + b) by {
      WordsBlank(a);
      WordsAppend(a, r + b);
    }
  }

  lemma WordsStripStart(s: string)
    ensures Words(StripStart(s)) == Words(s)
  {
    var t := StripStart(s);
    var a := s[..|s| - |t|];
    StripStartSplit(s);
    WordsBlank(a);
    WordsAppend(a, t);
  }

  /** Prepending a non-space character either starts a new word or extends the
      first one. */
  lemma WordsCons(c: char, y: string)
    requires !IsSpace(c)
    ensures y == [] || IsSpace(y[0]) ==> Words([c] + y) == [[c]] + Words(y)
    ensures y != [] && !IsSpace(y[0]) ==>
      Words(y) != [] && Words([c] + y) == [[c] + Words(y)[0]] + Words(y)[1..]
  {
    assert ([c] + y)[1..] == y;
  }

  /** Collapsing whitespace runs keeps the words. */
  lemma {:induction false} CollapseKeepsWords(s: string)
    ensures Words(CollapseWhitespace(s)) == Words(s)
    decreases |s|
  {
    if s == [] {
    } else if IsSpace(s[0]) {
      var t := StripStart(s);
      var c := CollapseWhitespace(t);
      assert CollapseWhitespace(s) == " " + c;
      assert Words(" " + c) == Words(c) by {
        assert (" " + c)[1..] == c;
      }
      assert Words(c) == Words(t) by {
        CollapseKeepsWords(t);
      }
      assert Words(t) == Words(s) by {
        WordsStripStart(s);
      }
    } else {
      var x := s[1..];
      var y := CollapseWhitespace(x);
      assert CollapseWhitespace(s) == [s[0]] + y;
      assert s == [s[0]] + x;
      assert Words(y) == Words(x) by {
        CollapseKeepsWords(x);
      }
      assert Words([s[0]] + y) == Words([s[0]] + x) by {
        WordsCons(s[0], y);
        WordsCons(s[0], x);
      }
    }
  }

  /** A blank prefix does not survive lstrip. */
  lemma {:induction false} LeadBlankPrefix(a: string, b: string)
    requires AllSpace(a)
    ensures Lead(a + b) == |a| + Lead(b)
    decreases |a|
  {
    if a == [] {
      assert a + b == b;
    } else {
      assert (a + b)[1..] == a[1..] + b;
      assert (a + b)[0] == a[0];
      LeadBlankPrefix(a[1..], b);
    }
  }

  lemma StripStartBlankPrefix(a: string, b: string)
    requires AllSpace(a)
    ensures StripStart(a + b) == StripStart(b)
  {
    LeadBlankPrefix(a, b);
    assert (a + b)[|a| + Lead(b)..] == b[Lead(b)..];
  }

  /** A blank suffix does not survive rstrip. */
  lemma {:induction false} KeptBlankSuffix(a: string, b: string)
    requires AllSpace(b)
    ensures Kept(a + b) == Kept(a)
    decreases |b|
  {
    if b == [] {
      assert a + b == a;
    } else {
      var c := b[..|b| - 1];
      assert (a + b)[..|a + b| - 1] == a + c;
      assert (a + b)[|a + b| - 1] == b[|b| - 1];
      KeptBlankSuffix(a, c);
    }
  }

  lemma StripEndBlankSuffix(a: string, b: string)
    requires AllSpace(b)
    ensures StripEnd(a + b) == StripEnd(a)
  {
    KeptBlankSuffix(a, b);
    assert (a + b)[..Kept(a)] == a[..Kept(a)];
  }

  /** Blank text in front does not change the strip. */
  lemma StripBlankPrefix(a: string, b: string)
    requires AllSpace(a)
    ensures Strip(a + b) == Strip(b)
  {
    StripStartBlankPrefix(a, b);
  }

  /** Strip after dropping a blank prefix by position. */
  lemma StripAfterBlank(s: string, j: nat)
    requires j <= |s| && AllSpace(s[..j])
    ensures Strip(s[j..]) == Strip(s)
  {
    SplitAt(s, j);
    StripBlankPrefix(s[..j], s[j..]);
  }

  /** A sequence is its prefix followed by its suffix. */
  lemma SplitAt<T>(s: seq<T>, i: nat)
    requires i <= |s|
    ensures s == s[..i] + s[i..]
  {
  }

  /** Blank padding on either side does not change the strip. */
  lemma StripPadded(a: string, b: string, c: string)
    requires AllSpace(a) && AllSpace(c)
    ensures Strip(a + b + c) == Strip(b)
  {
    assert a + b + c == a + (b + c);
    StripStartBlankPrefix(a, b + c);
    var t := StripStart(b);
    var p := b[..|b| - |t|];
    assert b + c == p + (t + c) && AllSpace(p) by {
      StripStartSplit(b);
    }
    StripStartBlankPrefix(p, t + c);
    if t != [] {
      assert (t + c)[0] == t[0];
      assert StripStart(t + c) == t + c;
      StripEndBlankSuffix(t, c);
    } else {
      assert t + c == c;
      StripStartOfBlank(c);
    }
  }

  lemma StripStartOfBlank(s: string)
    requires AllSpace(s)
    ensures StripStart(s) == []
  {
    assert s == s + [];
    LeadBlankPrefix(s, []);
  }

  /** A string without leading or trailing whitespace is its own strip. */
  lemma StripTrimmed(s: string)
    requires s != [] ==> !IsSpace(s[0]) && !IsSpace(s[|s| - 1])
    ensures Strip(s) == s
  {
  }

  /** Stripping twice is stripping once. */
  lemma StripStripped(s: string)
    ensures Strip(Strip(s)) == Strip(s)
  {
    StripTrimmed(Strip(s));
  }

  lemma SingleSpacedTail(s: string)
    requires s != [] && SingleSpaced(s)
    ensures SingleSpaced(s[1..])
    ensures IsSpace(s[0]) ==> s[0] == ' ' && (s[1..] == [] || !IsSpace(s[1..][0]))
  {
    var x := s[1..];
    forall k | 0 <= k < |x| && IsSpace(x[k])
      ensures x[k] == ' ' && (k + 1 < |x| ==> !IsSpace(x[k + 1]))
    {
      assert x[k] == s[k + 1];
      if k + 1 < |x| { assert x[k + 1] == s[k + 2]; }
    }
  }

  /** Collapsing a single-spaced string changes nothing. */
  lemma {:induction false} CollapseSingleSpaced(s: string)
    requires SingleSpaced(s)
    ensures CollapseWhitespace(s) == s
    decreases |s|
  {
    if s != [] {
      var x := s[1..];
      SingleSpacedTail(s);
      CollapseSingleSpaced(x);
      if IsSpace(s[0]) {
        assert StripStart(s) == x by {
          assert Lead(x) == 0;
        }
        assert s == [' '] + x;
      } else {
        assert s == [s[0]] + x;
      }
    }
  }

  /** Digit extraction distributes over concatenation: it deletes the
      non-digits and keeps the digits in order. */
  lemma {:induction false} DigitsAppend(a: string, b: string)
    ensures Digits(a + b) == Digits(a) + Digits(b)
    decreases |a|
  {
    if a == [] {
      assert a + b == b;
    } else {
      assert (a + b)[1..] == a[1..] + b;
      DigitsAppend(a[1..], b);
    }
  }

  /** Extracting digits twice is the same as once. */
  lemma DigitsIdempotent(s: string)
    ensures Digits(Digits(s)) == Digits(s)
  {
  }

  /** Lower-casing never touches whitespace, so it commutes with strip. */
  lemma StripLower(s: string)
    ensures Strip(Lower(s)) == Lower(Strip(s))
  {
    LeadLower(s);
    var t := s[Lead(s)..];
    assert Lower(s)[Lead(s)..] == Lower(t);
    KeptLower(t);
    assert Lower(t)[..Kept(t)] == Lower(t[..Kept(t)]);
  }

  lemma {:induction false} LeadLower(s: string)
    ensures Lead(Lower(s)) == Lead(s)
    decreases |s|
  {
    if s != [] {
      assert Lower(s)[1..] == Lower(s[1..]);
      LeadLower(s[1..]);
    }
  }

  lemma {:induction false} KeptLower(s: string)
    ensures Kept(Lower(s)) == Kept(s)
    decreases |s|
  {
    if s != [] {
      assert Lower(s)[..|s| - 1] == Lower(s[..|s| - 1]);
      KeptLower(s[..|s| - 1]);
    }
  }
}
