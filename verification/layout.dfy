/** The output layout (processing.py:142-158): "First Name" and "Last Name"
    are inserted right after the name column, then the name column, the two
    new columns and the found phone, distance and status columns are moved to
    the front, the rest following in their order. */
module Layout {
  import opened Strings
  import opened Frames
  import opened Names

  const FirstName: string := "First Name"
  const LastName: string := "Last Name"

  /** The header after the two `df.insert` calls at position n + 1. Each
      insert refuses a name the frame already has; the second sees the
      first's column. */
  function InsertNameColumns(h: seq<string>, n: nat): (r: Result<seq<string>>)
    requires n < |h|
    ensures r == Err(ColumnExists(FirstName)) <==> FirstName in h
    ensures r == Err(ColumnExists(LastName)) <==> FirstName !in h && LastName in h
    ensures r.Err? ==> r.error.ColumnExists?
    ensures r.Ok? ==> |r.value| == |h| + 2 && r.value[n + 1] == FirstName && r.value[n + 2] == LastName
    ensures r.Ok? ==> (forall j | 0 <= j <= n :: r.value[j] == h[j]) && (forall j | n < j < |h| :: r.value[j + 2] == h[j])
  {
    if FirstName in h then Err(ColumnExists(FirstName))
    else if LastName in h + [FirstName] then Err(ColumnExists(LastName))
    else Ok(h[..n + 1] + [FirstName, LastName] + h[n + 1..])
  }

  /** Inserting two new names keeps a header free of repeats. */
  lemma InsertKeepsDistinct(h: seq<string>, n: nat)
    requires n < |h| && Distinct(h)
    requires InsertNameColumns(h, n).Ok?
    ensures Distinct(InsertNameColumns(h, n).value)
    ensures forall c :: c in InsertNameColumns(h, n).value <==> c in h || c == FirstName || c == LastName
  {
    var g := InsertNameColumns(h, n).value;
    assert g == h[..n + 1] + [FirstName, LastName] + h[n + 1..];
    assert forall j | 0 <= j < |g| :: (j <= n && g[j] == h[j]) || j == n + 1 || j == n + 2 || (j > n + 2 && g[j] == h[j - 2]);
    forall c | c in h ensures c in g {
      var j :| 0 <= j < |h| && h[j] == c;
      if j <= n { assert g[j] == c; } else { assert g[j + 2] == c; }
    }
  }

  /** The split of one name cell; the name column never holds a number, so
      the first branch is never taken. */
  function NameParts(c: Cell): (r: NamePair) {
    if c.Number? then NamePair(Missing, Missing) else SplitName(c)
  }

  /** The row side of the two inserts: the split name goes right after the
      name cell. */
  function SplitInto(n: nat, x: Rec): (y: Rec)
    ensures y.index == x.index
    ensures n < |x.cells| ==> (
      |y.cells| == |x.cells| + 2 &&
      y.cells[n + 1] == NameParts(x.cells[n]).first && y.cells[n + 2] == NameParts(x.cells[n]).last &&
      (forall j | 0 <= j <= n :: y.cells[j] == x.cells[j]) &&
      (forall j | n < j < |x.cells| :: y.cells[j + 2] == x.cells[j]))
  {
    if n < |x.cells| then
      var p := NameParts(x.cells[n]);
      Rec(x.index, x.cells[..n + 1] + [p.first, p.last] + x.cells[n + 1..])
    else x
  }

  // ---------------------------------------------------------------------
  // Column order
  // ---------------------------------------------------------------------

  /** One pass of the loop: a found column with a non-empty name not listed
      yet is appended. */
  function AppendRole(o: seq<string>, c: Option<string>): (r: seq<string>)
    ensures r == o || (c.Some? && c.value != "" && c.value !in o && r == o + [c.value])
    ensures c.Some? && c.value != "" ==> c.value in r
  {
    if c.Some? && c.value != "" && c.value !in o then o + [c.value] else o
  }

  /** The loop over the phone, distance and status columns. */
  function AppendRoles(o: seq<string>, roles: seq<Option<string>>): (r: seq<string>)
    ensures |o| <= |r| && r[..|o|] == o
    ensures forall c <- r :: c in o || Some(c) in roles
    ensures Distinct(o) ==> Distinct(r)
    decreases |roles|
  {
    if roles == [] then o
    else
      var o' := AppendRole(o, roles[0]);
      assert forall d <- o' :: d in o || d == roles[0].value;
      assert forall x <- roles[1..] :: x in roles;
      AppendRoles(o', roles[1..])
  }

  /** Every found role with a non-empty name ends up listed; what is
      appended is such a role not listed before, and the appended names
      follow the order of the roles. */
  lemma AppendRolesOrder(o: seq<string>, roles: seq<Option<string>>)
    ensures var r := AppendRoles(o, roles);
      (forall c <- roles :: c.Some? && c.value != "" ==> c.value in r) &&
      (forall k | |o| <= k < |r| :: r[k] != "" && r[k] !in o && Some(r[k]) in roles) &&
      (forall i, j | |o| <= i < j < |r| :: IndexOf(roles, Some(r[i])) < IndexOf(roles, Some(r[j])))
  {
    AppendRolesComplete(o, roles);
    AppendRolesAppended(o, roles);
    AppendRolesSorted(o, roles);
  }

  lemma {:induction false} AppendRolesComplete(o: seq<string>, roles: seq<Option<string>>)
    ensures forall c <- roles :: c.Some? && c.value != "" ==> c.value in AppendRoles(o, roles)
    decreases |roles|
  {
    if roles != [] {
      var o' := AppendRole(o, roles[0]);
      var r := AppendRoles(o', roles[1..]);
      assert AppendRoles(o, roles) == r;
      AppendRolesComplete(o', roles[1..]);
      assert r[..|o'|] == o';
      forall x <- roles
        ensures x.Some? && x.value != "" ==> x.value in r
      {
        if x != roles[0] {
          assert x in roles[1..];
        } else if x.Some? && x.value != "" {
          assert x.value in o';
        }
      }
    }
  }

  lemma {:induction false} AppendRolesAppended(o: seq<string>, roles: seq<Option<string>>)
    ensures forall k | |o| <= k < |AppendRoles(o, roles)| ::
      AppendRoles(o, roles)[k] != "" && AppendRoles(o, roles)[k] !in o && Some(AppendRoles(o, roles)[k]) in roles
    decreases |roles|
  {
    if roles != [] {
      var o' := AppendRole(o, roles[0]);
      var r := AppendRoles(o', roles[1..]);
      assert AppendRoles(o, roles) == r;
      AppendRolesAppended(o', roles[1..]);
      assert r[..|o'|] == o';
      forall k | |o| <= k < |r|
        ensures r[k] != "" && r[k] !in o && Some(r[k]) in roles
      {
        if k < |o'| {
          assert r[k] == o'[k] == roles[0].value;
        } else {
          assert Some(r[k]) in roles[1..];
        }
      }
    }
  }

  lemma {:induction false} AppendRolesSorted(o: seq<string>, roles: seq<Option<string>>)
    ensures forall k | |o| <= k < |AppendRoles(o, roles)| :: Some(AppendRoles(o, roles)[k]) in roles
    ensures forall i, j | |o| <= i < j < |AppendRoles(o, roles)| ::
      IndexOf(roles, Some(AppendRoles(o, roles)[i])) < IndexOf(roles, Some(AppendRoles(o, roles)[j]))
    decreases |roles|
  {
    if roles != [] {
      var o' := AppendRole(o, roles[0]);
      var r := AppendRoles(o', roles[1..]);
      assert AppendRoles(o, roles) == r;
      AppendRolesAppended(o, roles);
      AppendRolesAppended(o', roles[1..]);
      AppendRolesSorted(o', roles[1..]);
      assert r[..|o'|] == o';
      forall k | |o'| <= k < |r|
        ensures Some(r[k]) in roles[1..] && IndexOf(roles, Some(r[k])) == 1 + IndexOf(roles[1..], Some(r[k]))
      {
        assert r[k] !in o';
        assert Some(r[k]) != roles[0];
      }
      IndexOfHead(roles);
      forall i, j | |o| <= i < j < |r|
        ensures IndexOf(roles, Some(r[i])) < IndexOf(roles, Some(r[j]))
      {
        if i < |o'| {
          assert Some(r[i]) == roles[0] by {
            assert r[i] == o'[i];
          }
        }
      }
    }
  }

  /** `ordered`: the name column, the two new columns, then the roles. */
  function KeyColumns(name: string, roles: seq<Option<string>>): (o: seq<string>)
    ensures |o| >= 3 && o[..3] == [name, FirstName, LastName]
  {
    AppendRoles([name, FirstName, LastName], roles)
  }

  /** `remaining`: the columns of h not in o, in their order in h. */
  function Remaining(h: seq<string>, o: seq<string>): (r: seq<string>)
    ensures forall c :: c in r <==> c in h && c !in o
    ensures Distinct(h) ==> Distinct(r)
    decreases |h|
  {
    if h == [] then []
    else
      assert forall c :: c in h <==> c == h[0] || c in h[1..];
      var rest := Remaining(h[1..], o);
      if h[0] in o then rest else [h[0]] + rest
  }

  /** The remaining columns keep their relative order in h. */
  lemma {:induction false} RemainingOrder(h: seq<string>, o: seq<string>)
    requires Distinct(h)
    ensures InOrderOf(h, Remaining(h, o))
    decreases |h|
  {
    if h != [] {
      var rest := Remaining(h[1..], o);
      assert Distinct(h[1..]);
      RemainingOrder(h[1..], o);
      RemainingShift(h, o);
      OrderShift(h, rest);
      if h[0] in o {
        assert Remaining(h, o) == rest;
      } else {
        OrderCons(h, rest);
        assert Remaining(h, o) == [h[0]] + rest;
      }
    }
  }

  /** Columns ordered by position in the tail of h stay ordered by position
      in h. */
  lemma OrderShift<T>(h: seq<T>, rest: seq<T>)
    requires h != [] && InOrderOf(h[1..], rest)
    requires forall c <- rest :: c in h && IndexOf(h, c) == 1 + IndexOf(h[1..], c)
    ensures InOrderOf(h, rest) && forall k | 0 <= k < |rest| :: IndexOf(h, rest[k]) > 0
  {
    forall i, j | 0 <= i < j < |rest|
      ensures IndexOf(h, rest[i]) < IndexOf(h, rest[j])
    {
      assert rest[i] in rest && rest[j] in rest;
    }
  }

  /** The first column of h goes before columns ordered by position in h
      that are not at position 0. */
  lemma OrderCons<T>(h: seq<T>, rest: seq<T>)
    requires h != [] && InOrderOf(h, rest)
    requires forall k | 0 <= k < |rest| :: IndexOf(h, rest[k]) > 0
    ensures InOrderOf(h, [h[0]] + rest)
  {
    var r := [h[0]] + rest;
    IndexOfHead(h);
    forall c <- r
      ensures c in h
    {
    }
    forall i, j | 0 <= i < j < |r|
      ensures IndexOf(h, r[i]) < IndexOf(h, r[j])
    {
      if i > 0 {
        assert r[i] == rest[i - 1] && r[j] == rest[j - 1];
      } else {
        assert IndexOf(h, r[j]) > 0 by {
          assert r[j] == rest[j - 1];
        }
      }
    }
  }

  /** Past the first column of a distinct header, positions in h are one
      more than in its tail. */
  lemma RemainingShift(h: seq<string>, o: seq<string>)
    requires h != [] && Distinct(h)
    ensures forall c <- Remaining(h[1..], o) ::
      c in h && c in h[1..] && IndexOf(h, c) == 1 + IndexOf(h[1..], c)
  {
    forall c <- Remaining(h[1..], o)
      ensures c in h[1..] && c != h[0]
    {
      var m :| 0 <= m < |h[1..]| && h[1..][m] == c;
      assert h[m + 1] == c;
    }
  }

  /** The final column order, `ordered + remaining`. */
  function ColumnOrder(h: seq<string>, name: string, roles: seq<Option<string>>): (nh: seq<string>) {
    var o := KeyColumns(name, roles);
    o + Remaining(h, o)
  }

  /** The sections of the final order: the name column and the two new
      columns; then, up to m, every found role with a non-empty name that is
      not one of those three, once each and in the order of the roles; then
      every other column of h, in its order in h. */
  lemma ColumnOrderSections(h: seq<string>, name: string, roles: seq<Option<string>>, m: nat)
    requires m == |KeyColumns(name, roles)|
    ensures var nh := ColumnOrder(h, name, roles);
      3 <= m <= |nh| && nh[..3] == [name, FirstName, LastName] &&
      (forall c <- roles :: c.Some? && c.value != "" ==> c.value in nh[..m]) &&
      (forall k | 3 <= k < m :: nh[k] != "" && nh[k] !in [name, FirstName, LastName] && Some(nh[k]) in roles) &&
      (forall i, j | 3 <= i < j < m :: IndexOf(roles, Some(nh[i])) < IndexOf(roles, Some(nh[j]))) &&
      (forall c :: c in nh[m..] <==> c in h && c !in nh[..m]) &&
      (Distinct(h) ==> InOrderOf(h, nh[m..]))
  {
    var o := KeyColumns(name, roles);
    var nh := o + Remaining(h, o);
    AppendRolesOrder([name, FirstName, LastName], roles);
    assert nh[..m] == o && nh[m..] == Remaining(h, o);
    if Distinct(h) {
      RemainingOrder(h, o);
    }
  }

  /** The final order is a permutation of the inserted header laid out as
      ColumnOrderSections describes. */
  lemma ColumnOrderPermutes(h: seq<string>, name: string, roles: seq<Option<string>>)
    requires Distinct(h) && name in h && FirstName in h && LastName in h
    requires name != FirstName && name != LastName
    requires forall r <- roles :: r.Some? ==> r.value in h
    ensures var nh := ColumnOrder(h, name, roles);
      Distinct(nh) && |nh| == |h| && (forall c :: c in nh <==> c in h) && nh[..3] == [name, FirstName, LastName]
    ensures var nh := ColumnOrder(h, name, roles); var m := |KeyColumns(name, roles)|;
      3 <= m <= |nh| &&
      (forall c <- roles :: c.Some? && c.value != "" ==> c.value in nh[..m]) &&
      (forall k | 3 <= k < m :: nh[k] != "" && nh[k] !in [name, FirstName, LastName] && Some(nh[k]) in roles) &&
      (forall i, j | 3 <= i < j < m :: IndexOf(roles, Some(nh[i])) < IndexOf(roles, Some(nh[j]))) &&
      (forall c :: c in nh[m..] <==> c in h && c !in nh[..m]) &&
      InOrderOf(h, nh[m..])
  {
    ColumnOrderIsPermutation(h, name, roles);
    ColumnOrderSections(h, name, roles, |KeyColumns(name, roles)|);
  }

  lemma ColumnOrderIsPermutation(h: seq<string>, name: string, roles: seq<Option<string>>)
    requires Distinct(h) && name in h && FirstName in h && LastName in h
    requires name != FirstName && name != LastName
    requires forall r <- roles :: r.Some? ==> r.value in h
    ensures var nh := ColumnOrder(h, name, roles);
      Distinct(nh) && |nh| == |h| && (forall c :: c in nh <==> c in h)
  {
    var o := KeyColumns(name, roles);
    var rest := Remaining(h, o);
    var nh := o + rest;
    assert Distinct([name, FirstName, LastName]);
    assert forall c <- o :: c in h by {
      forall c <- o ensures c in h {
        if Some(c) in roles {
          assert Some(c).value in h;
        }
      }
    }
    assert Distinct(nh) by {
      forall i, j | 0 <= i < j < |nh| ensures nh[i] != nh[j] {
        if j >= |o| {
          assert nh[j] == rest[j - |o|] && nh[j] !in o;
          if i < |o| { assert nh[i] == o[i]; }
          else { assert nh[i] == rest[i - |o|]; }
        } else {
          assert nh[i] == o[i] && nh[j] == o[j];
        }
      }
    }
    assert forall c :: c in nh <==> c in h;
    DistinctSameLength(nh, h);
  }

  /** Two repeat-free sequences with the same values have the same length. */
  lemma DistinctSameLength<T>(a: seq<T>, b: seq<T>)
    requires Distinct(a) && Distinct(b)
    requires forall c :: c in a <==> c in b
    ensures |a| == |b|
  {
    DistinctCard(a);
    DistinctCard(b);
    assert (set c | c in a) == (set c | c in b);
  }

  lemma {:induction false} DistinctCard<T>(s: seq<T>)
    requires Distinct(s)
    ensures |set c | c in s| == |s|
    decreases |s|
  {
    if s != [] {
      var t := s[1..];
      assert Distinct(t);
      DistinctCard(t);
      assert s[0] !in t;
      assert (set c | c in s) == (set c | c in t) + {s[0]};
    }
  }

  /** For each output column, the position of its name in the inserted
      header: `df[ordered + remaining]` selects by name. */
  function Positions(h: seq<string>, nh: seq<string>): (pos: seq<nat>)
    requires forall c <- nh :: c in h
    ensures |pos| == |nh|
    ensures forall j | 0 <= j < |nh| :: pos[j] < |h| && h[pos[j]] == nh[j]
  {
    seq(|nh|, j requires 0 <= j < |nh| => IndexOf(h, nh[j]))
  }

  /** The cells of one record in the selected order. */
  function SelectCells(x: Rec, pos: seq<nat>): (y: Rec)
    ensures y.index == x.index && |y.cells| == |pos|
  {
    Rec(x.index, seq(|pos|, j requires 0 <= j < |pos| => At(x, pos[j])))
  }

  /** Reordering moves every cell with its column name: the cell under name
      c after the move is the cell under c before it. */
  lemma CellsFollowNames(x: Rec, h: seq<string>, nh: seq<string>)
    requires |x.cells| == |h| && Distinct(h) && Distinct(nh)
    requires forall c :: c in nh <==> c in h
    ensures forall c <- h ::
      SelectCells(x, Positions(h, nh)).cells[IndexOf(nh, c)] == x.cells[IndexOf(h, c)]
  {
    var pos := Positions(h, nh);
    forall c <- h ensures SelectCells(x, pos).cells[IndexOf(nh, c)] == x.cells[IndexOf(h, c)] {
      var j := IndexOf(nh, c);
      assert h[pos[j]] == c;
      DistinctIndex(h, pos[j], IndexOf(h, c));
    }
  }

  /** In a repeat-free sequence a value sits at one position only. */
  lemma DistinctIndex<T>(s: seq<T>, i: nat, j: nat)
    requires Distinct(s) && i < |s| && j < |s| && s[i] == s[j]
    ensures i == j
  {
  }
}
