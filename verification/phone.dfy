/** Phone cleaning and the phone filters (processing.py:100-112): the phone
    column is reduced to its digits, then rows whose phone is missing, empty,
    all zeros or starting with "1" are dropped. */
module Phone {
  import opened Strings
  import opened Frames

  /** `astype(str).str.replace(r"\D+", "", regex=True)` on one cell. A missing
      cell is rendered "nan" first, which has no digits. */
  function CleanPhone(c: Cell): (r: Cell)
    requires !c.Number?
    ensures r.Text? && forall k | 0 <= k < |r.s| :: IsDigit(r.s[k])
    ensures c.Missing? ==> r == Text("")
    ensures c.Text? ==> |r.s| <= |c.s|
  {
    var r := Text(Digits(CellText(c)));
    assert c.Missing? ==> Digits(CellText(c)) == [] by {
      if c.Missing? {
        assert "nan"[1..] == "an" && "an"[1..] == "n" && "n"[1..] == [];
      }
    }
    r
  }

  predicate AllZeros(p: string) {
    forall k | 0 <= k < |p| :: p[k] == '0'
  }

  /** `str.replace(r"^0+$", "", regex=True)`: a string made only of zeros
      (at least one) vanishes, any other string stays. */
  function DropZeroRun(p: string): (r: string)
    ensures r == [] <==> p == [] || AllZeros(p)
    ensures r != [] ==> r == p
  {
    if p != [] && AllZeros(p) then "" else p
  }

  /** The four masks of the source, on the cleaned cell; `.str` operations
      on a missing value give a missing value, which no comparison keeps. */
  predicate NotMissing(c: Cell) {
    !c.Missing?
  }

  predicate NonEmpty(c: Cell) {
    c.Text? && |c.s| > 0
  }

  predicate NotZeros(c: Cell) {
    c.Text? && |DropZeroRun(c.s)| > 0
  }

  predicate NoLeadingOne(c: Cell) {
    c.Text? && !(|c.s| > 0 && c.s[0] == '1')
  }

  /** A cleaned phone that survives all four masks. */
  predicate PhoneValid(p: string) {
    |p| > 0 && |DropZeroRun(p)| > 0 && p[0] != '1'
  }

  // ---------------------------------------------------------------------
  // The step on records
  // ---------------------------------------------------------------------

  /** Clean the phone cell of one record. The guard never fails on a frame
      read as text: numbers only appear after distance coercion, which comes
      later. */
  function CleanPhoneIn(col: nat, x: Rec): (y: Rec)
    ensures y.index == x.index && |y.cells| == |x.cells|
    ensures forall j | 0 <= j < |x.cells| && j != col :: y.cells[j] == x.cells[j]
    ensures col < |x.cells| && !x.cells[col].Number? ==> At(y, col) == CleanPhone(x.cells[col])
  {
    if col < |x.cells| && !x.cells[col].Number? then Put(x, col, CleanPhone(x.cells[col])) else x
  }

  /** The four masks one after the other, as the source applies them. */
  function PhoneFilters(rs: seq<Rec>, col: nat): (r: seq<Rec>)
    ensures |r| <= |rs|
  {
    var d1 := Keep(rs, x => NotMissing(At(x, col)));
    var d2 := Keep(d1, x => NonEmpty(At(x, col)));
    var d3 := Keep(d2, x => NotZeros(At(x, col)));
    Keep(d3, x => NoLeadingOne(At(x, col)))
  }

  /** Whether a record's phone cell holds a valid cleaned phone. */
  predicate PhoneKept(col: nat, x: Rec) {
    At(x, col).Text? && PhoneValid(At(x, col).s)
  }

  /** The four masks in a row are the single mask PhoneKept. */
  lemma PhoneFiltersAreOneMask(rs: seq<Rec>, col: nat)
    ensures PhoneFilters(rs, col) == Keep(rs, x => PhoneKept(col, x))
  {
    var m1 := x => NotMissing(At(x, col));
    var m2 := x => NonEmpty(At(x, col));
    var m3 := x => NotZeros(At(x, col));
    var m4 := x => NoLeadingOne(At(x, col));
    var m12 := x => m1(x) && m2(x);
    var m123 := x => m12(x) && m3(x);
    var m1234 := x => m123(x) && m4(x);
    KeepKeep(rs, m1, m2);
    KeepKeep(rs, m12, m3);
    KeepKeep(rs, m123, m4);
    KeepExt(rs, m1234, x => PhoneKept(col, x));
  }

  // ---------------------------------------------------------------------
  // Which raw phones survive, stated on the raw text
  // ---------------------------------------------------------------------

  /** Some digit of s other than 0. */
  predicate HasNonZeroDigit(s: string) {
    exists c <- s :: IsDigit(c) && c != '0'
  }

  /** The first digit of s is a 1. */
  predicate FirstDigitIsOne(s: string) {
    exists k | 0 <= k < |s| :: s[k] == '1' && forall m | 0 <= m < k :: !IsDigit(s[m])
  }

  /** A raw phone text survives exactly when it has a digit other than 0
      and its first digit is not 1: punctuation, spaces and letters never
      matter. */
  lemma PhoneRule(s: string)
    ensures PhoneValid(Digits(s)) <==> HasNonZeroDigit(s) && !FirstDigitIsOne(s)
  {
    DigitsMembers(s);
    var p := Digits(s);
    if p != [] && !AllZeros(p) {
      var k :| 0 <= k < |p| && p[k] != '0';
      assert p[k] in p;
    }
    if HasNonZeroDigit(s) {
      var c :| c in p && c != '0';
      var k :| 0 <= k < |p| && p[k] == c;
    }
    DigitsHead(s);
  }

  /** Digit extraction keeps exactly the digits. */
  lemma {:induction false} DigitsMembers(s: string)
    ensures forall c :: c in Digits(s) <==> c in s && IsDigit(c)
    decreases |s|
  {
    if s != [] {
      DigitsMembers(s[1..]);
      assert forall c :: c in s <==> c == s[0] || c in s[1..];
    }
  }

  /** The first digit kept is the first digit of the text. */
  lemma {:induction false} DigitsHead(s: string)
    ensures (Digits(s) != [] && Digits(s)[0] == '1') <==> FirstDigitIsOne(s)
    decreases |s|
  {
    if s != [] {
      var t := s[1..];
      DigitsHead(t);
      if IsDigit(s[0]) {
        assert Digits(s)[0] == s[0];
        if FirstDigitIsOne(s) {
          var k :| 0 <= k < |s| && s[k] == '1' && forall m | 0 <= m < k :: !IsDigit(s[m]);
          assert k == 0;
        }
      } else {
        assert Digits(s) == Digits(t);
        if FirstDigitIsOne(t) {
          var k :| 0 <= k < |t| && t[k] == '1' && forall m | 0 <= m < k :: !IsDigit(t[m]);
          assert s[k + 1] == '1';
          assert forall m | 0 <= m < k + 1 :: !IsDigit(s[m]) by {
            assert forall m | 1 <= m < k + 1 :: s[m] == t[m - 1];
          }
        }
        if FirstDigitIsOne(s) {
          var k :| 0 <= k < |s| && s[k] == '1' && forall m | 0 <= m < k :: !IsDigit(s[m]);
          assert k > 0 && t[k - 1] == '1';
          assert forall m | 0 <= m < k - 1 :: !IsDigit(t[m]) by {
            assert forall m | 0 <= m < k - 1 :: t[m] == s[m + 1];
          }
        }
      }
    }
  }

  /** Cleaning a cleaned phone changes nothing. */
  lemma CleanPhoneIdempotent(c: Cell)
    requires !c.Number?
    ensures CleanPhone(CleanPhone(c)) == CleanPhone(c)
  {
    DigitsIdempotent(CellText(c));
  }

  /** A missing phone never survives. */
  lemma MissingPhoneDropped()
    ensures !PhoneValid(CleanPhone(Missing).s)
  {
  }

  /** Examples on raw text: a formatted local number survives, a number with
      a leading country code 1 and a zero-filled number do not. */
  lemma PhoneExampleLocal()
    ensures PhoneValid(Digits("(55) 12"))
  {
    assert Digits("(55) 12") == "5512";
    assert !AllZeros("5512") by {
      assert "5512"[0] == '5';
    }
  }

  lemma PhoneExampleCountryCode()
    ensures !PhoneValid(Digits("1-800"))
  {
  }

  lemma PhoneExampleZeros()
    ensures !PhoneValid(Digits("00-00"))
  {
  }
}
