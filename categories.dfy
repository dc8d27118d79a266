/** The category service over the `categories` table.

    The table is one in-memory sequence of every user's rows, in the order
    they were inserted, which stands for `created_at` order. The signed-in
    user is a parameter: `None` when nobody is signed in. */
module Categories {
  import opened Wrappers
  import opened Text
  import opened NoteTypes

  const NotAuthenticated := "User not authenticated"

  // ---------------------------------------------------------------------
  // Selecting rows
  // ---------------------------------------------------------------------

  /** The rows `keep` accepts, in their order. */
  function Filter(rows: seq<Category>, keep: Category -> bool): (r: seq<Category>)
    ensures |r| <= |rows|
    ensures forall c :: c in r <==> c in rows && keep(c)
    decreases |rows|
  {
    if rows == [] then []
    else (if keep(rows[0]) then [rows[0]] else []) + Filter(rows[1..], keep)
  }

  lemma {:induction false} FilterAppend(a: seq<Category>, b: seq<Category>, keep: Category -> bool)
    ensures Filter(a + b, keep) == Filter(a, keep) + Filter(b, keep)
    decreases |a|
  {
    if a == [] {
      assert a + b == b;
    } else {
      assert (a + b)[0] == a[0];
      assert (a + b)[1..] == a[1..] + b;
      FilterAppend(a[1..], b, keep);
    }
  }

  /** Filters that agree on every row select the same rows. */
  lemma {:induction false} FilterAgree(rows: seq<Category>, keep: Category -> bool, keep': Category -> bool)
    requires forall c :: c in rows ==> keep(c) == keep'(c)
    ensures Filter(rows, keep) == Filter(rows, keep')
    decreases |rows|
  {
    if rows != [] {
      FilterAgree(rows[1..], keep, keep');
    }
  }

  /** A filter that accepts every row keeps them all. */
  lemma {:induction false} FilterAll(rows: seq<Category>, keep: Category -> bool)
    requires forall c :: c in rows ==> keep(c)
    ensures Filter(rows, keep) == rows
    decreases |rows|
  {
    if rows != [] {
      FilterAll(rows[1..], keep);
    }
  }

  /** A filter that accepts no row selects nothing. */
  lemma {:induction false} FilterNone(rows: seq<Category>, keep: Category -> bool)
    requires forall c :: c in rows ==> !keep(c)
    ensures Filter(rows, keep) == []
    decreases |rows|
  {
    if rows != [] {
      FilterNone(rows[1..], keep);
    }
  }

  /** Two filters can be applied in either order. */
  lemma {:induction false} FilterCommute(rows: seq<Category>, keep: Category -> bool, keep': Category -> bool)
    ensures Filter(Filter(rows, keep), keep') == Filter(Filter(rows, keep'), keep)
    decreases |rows|
  {
    if rows != [] {
      var head := if keep(rows[0]) then [rows[0]] else [];
      var head' := if keep'(rows[0]) then [rows[0]] else [];
      FilterAppend(head, Filter(rows[1..], keep), keep');
      FilterAppend(head', Filter(rows[1..], keep'), keep);
      FilterCommute(rows[1..], keep, keep');
    }
  }

  /** No two rows share an id, as the table's primary key guarantees. */
  ghost predicate UniqueIds(rows: seq<Category>) {
    forall i, j :: 0 <= i < |rows| && 0 <= j < |rows| && rows[i].id == rows[j].id ==> i == j
  }

  lemma {:induction false} FilterUnique(rows: seq<Category>, keep: Category -> bool)
    requires UniqueIds(rows)
    ensures UniqueIds(Filter(rows, keep))
    decreases |rows|
  {
    if rows != [] {
      var rest := Filter(rows[1..], keep);
      FilterUnique(rows[1..], keep);
      assert forall c :: c in rest ==> c.id != rows[0].id by {
        forall c | c in rest ensures c.id != rows[0].id {
          var j :| 0 <= j < |rows[1..]| && rows[1..][j] == c;
          assert rows[j + 1] == c;
        }
      }
      if keep(rows[0]) {
        var r := [rows[0]] + rest;
        forall i, j | 0 <= i < |r| && 0 <= j < |r| && r[i].id == r[j].id ensures i == j {
          if i > 0 && j > 0 {
            assert r[i] == rest[i - 1] && r[j] == rest[j - 1];
          }
        }
      }
    }
  }

  /** Rows of `user` (the `.eq('user_id', user.id)` filter). */
  function OfUser(user: UserId): Category -> bool {
    (c: Category) => c.userId == user
  }

  /** Rows whose id is not in `ids` (the complement of `.in('id', ids)`). */
  function NotListed(ids: seq<CategoryId>): Category -> bool {
    (c: Category) => c.id !in ids
  }

  /** Rows other than the one with id `id` owned by `user`. */
  function NotThisRow(id: CategoryId, user: UserId): Category -> bool {
    (c: Category) => !(c.id == id && c.userId == user)
  }

  /** Rows whose name equals `name` ignoring case (the `ilike` filter). */
  function NamedLike(name: string): Category -> bool {
    (c: Category) => Lower(c.name) == Lower(name)
  }

  /** The rows of `user`, in table order. */
  function OwnedBy(rows: seq<Category>, user: UserId): seq<Category> {
    Filter(rows, OfUser(user))
  }

  /** The rows whose id is not listed in `ids`. */
  function WithoutIds(rows: seq<Category>, ids: seq<CategoryId>): seq<Category> {
    Filter(rows, NotListed(ids))
  }

  /** The rows other than the one with id `id` owned by `user`. */
  function WithoutRow(rows: seq<Category>, id: CategoryId, user: UserId): seq<Category> {
    Filter(rows, NotThisRow(id, user))
  }

  // ---------------------------------------------------------------------
  // Duplicate names
  // ---------------------------------------------------------------------

  /** The lower-cased names of `cats`. */
  function LowerNames(cats: seq<Category>): set<string>
    decreases |cats|
  {
    if cats == [] then {} else LowerNames(cats[..|cats| - 1]) + {Lower(cats[|cats| - 1].name)}
  }

  lemma {:induction false} LowerNamesIff(cats: seq<Category>, x: string)
    ensures x in LowerNames(cats) <==> exists j :: 0 <= j < |cats| && Lower(cats[j].name) == x
    decreases |cats|
  {
    if cats != [] {
      var init := cats[..|cats| - 1];
      LowerNamesIff(init, x);
      assert forall j :: 0 <= j < |init| ==> init[j] == cats[j];
    }
  }

  /** Some row before row `i` has the same name, ignoring case. */
  ghost predicate SeenBefore(cats: seq<Category>, i: int)
    requires 0 <= i < |cats|
  {
    exists j :: 0 <= j < i && Lower(cats[j].name) == Lower(cats[i].name)
  }

  /** No two rows have the same name, ignoring case. */
  ghost predicate DistinctNames(cats: seq<Category>) {
    forall i, j :: 0 <= i < j < |cats| ==> Lower(cats[i].name) != Lower(cats[j].name)
  }

  /** The ids the cleanup pass marks, in order: each row whose lower-cased
      name an earlier row already had. */
  function DuplicateIds(cats: seq<Category>): seq<CategoryId>
    decreases |cats|
  {
    if cats == [] then []
    else
      var init, last := cats[..|cats| - 1], cats[|cats| - 1];
      DuplicateIds(init) + (if Lower(last.name) in LowerNames(init) then [last.id] else [])
  }

  /** The rows the cleanup pass keeps, in order: the first row of each
      lower-cased name. */
  function Survivors(cats: seq<Category>): seq<Category>
    decreases |cats|
  {
    if cats == [] then []
    else
      var init, last := cats[..|cats| - 1], cats[|cats| - 1];
      Survivors(init) + (if Lower(last.name) in LowerNames(init) then [] else [last])
  }

  /** The loop of `cleanupDuplicateCategories`: remembers each lower-cased
      name the first time it appears and collects the ids of the later rows
      with a name already seen. */
  method FindDuplicates(cats: seq<Category>) returns (duplicateIds: seq<CategoryId>)
    ensures duplicateIds == DuplicateIds(cats)
  {
    var seen: map<string, CategoryId> := map[];
    duplicateIds := [];
    var i := 0;
    while i < |cats|
      invariant 0 <= i <= |cats|
      invariant seen.Keys == LowerNames(cats[..i])
      invariant duplicateIds == DuplicateIds(cats[..i])
    {
      var lowerName := Lower(cats[i].name);
      if lowerName in seen {
        duplicateIds := duplicateIds + [cats[i].id];
      } else {
        seen := seen[lowerName := cats[i].id];
      }
      assert cats[..i + 1][..i] == cats[..i];
      i := i + 1;
    }
    assert cats[..|cats|] == cats;
  }

  lemma {:induction false} DuplicateIdsFrom(cats: seq<Category>, id: CategoryId)
    requires id in DuplicateIds(cats)
    ensures exists j :: 0 <= j < |cats| && cats[j].id == id
    decreases |cats|
  {
    var init := cats[..|cats| - 1];
    if id in DuplicateIds(init) {
      DuplicateIdsFrom(init, id);
      var j :| 0 <= j < |init| && init[j].id == id;
      assert cats[j] == init[j];
    }
  }

  /** With unique ids, a row's id is marked exactly when an earlier row has
      the same name ignoring case. */
  lemma {:induction false} DuplicateIdsIff(cats: seq<Category>, i: int)
    requires UniqueIds(cats) && 0 <= i < |cats|
    ensures cats[i].id in DuplicateIds(cats) <==> SeenBefore(cats, i)
    decreases |cats|
  {
    var n := |cats| - 1;
    var init, last := cats[..n], cats[n];
    assert forall j :: 0 <= j < n ==> init[j] == cats[j];
    assert UniqueIds(init);
    var tail := if Lower(last.name) in LowerNames(init) then [last.id] else [];
    if i < n {
      DuplicateIdsIff(init, i);
      assert cats[i].id != last.id;
      assert SeenBefore(cats, i) == SeenBefore(init, i);
    } else {
      LowerNamesIff(init, Lower(last.name));
      if last.id in DuplicateIds(init) {
        DuplicateIdsFrom(init, last.id);
      }
    }
  }

  /** The survivors keep every lower-cased name of the input. */
  lemma {:induction false} SurvivorsCoverNames(cats: seq<Category>)
    ensures LowerNames(Survivors(cats)) == LowerNames(cats)
    decreases |cats|
  {
    if cats != [] {
      var n := |cats| - 1;
      var init, last := cats[..n], cats[n];
      SurvivorsCoverNames(init);
      var s := Survivors(init);
      assert LowerNames(cats) == LowerNames(init) + {Lower(last.name)};
      if Lower(last.name) !in LowerNames(init) {
        var t := s + [last];
        assert Survivors(cats) == t;
        assert t[..|t| - 1] == s && t[|t| - 1] == last;
        assert LowerNames(t) == LowerNames(s) + {Lower(last.name)};
      } else {
        assert Survivors(cats) == s;
      }
    }
  }

  /** No two survivors share a lower-cased name. */
  lemma {:induction false} SurvivorsDistinct(cats: seq<Category>)
    ensures DistinctNames(Survivors(cats))
    decreases |cats|
  {
    if cats != [] {
      var n := |cats| - 1;
      var init, last := cats[..n], cats[n];
      SurvivorsDistinct(init);
      SurvivorsCoverNames(init);
      var s := Survivors(init);
      if Lower(last.name) !in LowerNames(init) {
        LowerNamesIff(s, Lower(last.name));
        var r := s + [last];
        forall i, j | 0 <= i < j < |r| ensures Lower(r[i].name) != Lower(r[j].name) {
          if j == |s| {
            assert r[i] == s[i];
          } else {
            assert r[i] == s[i] && r[j] == s[j];
          }
        }
      }
    }
  }

  /** With unique ids, a row survives exactly when no earlier row has its
      name: the earliest row of each name is the one kept. */
  lemma {:induction false} SurvivorsIff(cats: seq<Category>, i: int)
    requires UniqueIds(cats) && 0 <= i < |cats|
    ensures cats[i] in Survivors(cats) <==> !SeenBefore(cats, i)
    decreases |cats|
  {
    var n := |cats| - 1;
    var init, last := cats[..n], cats[n];
    assert forall j :: 0 <= j < n ==> init[j] == cats[j];
    assert UniqueIds(init);
    SurvivorsInInput(init);
    if i < n {
      SurvivorsIff(init, i);
      assert SeenBefore(cats, i) == SeenBefore(init, i);
      assert cats[i] != last;
    } else {
      LowerNamesIff(init, Lower(last.name));
    }
  }

  lemma {:induction false} SurvivorsInInput(cats: seq<Category>)
    ensures forall c :: c in Survivors(cats) ==> c in cats
    decreases |cats|
  {
    if cats != [] {
      var init := cats[..|cats| - 1];
      SurvivorsInInput(init);
      assert forall c :: c in init ==> c in cats;
    }
  }

  /** With unique ids, the last row's id belongs to no earlier row, so it
      is not among the earlier rows' marked ids either. */
  lemma LastIdFresh(cats: seq<Category>)
    requires UniqueIds(cats) && cats != []
    ensures var init, last := cats[..|cats| - 1], cats[|cats| - 1];
            && (forall c :: c in init ==> c.id != last.id)
            && last.id !in DuplicateIds(init)
            && UniqueIds(init)
  {
    var n := |cats| - 1;
    var init, last := cats[..n], cats[n];
    assert forall j :: 0 <= j < n ==> init[j] == cats[j];
    if last.id in DuplicateIds(init) {
      DuplicateIdsFrom(init, last.id);
    }
  }

  /** Deleting the marked ids leaves exactly the survivors, and the two
      together account for every row. */
  lemma {:induction false} DuplicatesPartition(cats: seq<Category>)
    requires UniqueIds(cats)
    ensures WithoutIds(cats, DuplicateIds(cats)) == Survivors(cats)
    ensures |Survivors(cats)| + |DuplicateIds(cats)| == |cats|
    decreases |cats|
  {
    if cats != [] {
      var n := |cats| - 1;
      var init, last := cats[..n], cats[n];
      LastIdFresh(cats);
      DuplicatesPartition(init);
      var d := DuplicateIds(init);
      var tail := if Lower(last.name) in LowerNames(init) then [last.id] else [];
      assert DuplicateIds(cats) == d + tail;
      assert cats == init + [last];
      FilterAppend(init, [last], NotListed(d + tail));
      FilterAgree(init, NotListed(d + tail), NotListed(d));
      assert Filter([last], NotListed(d + tail)) == if tail == [] then [last] else [];
    }
  }

  /** Cleaning up twice finds nothing the second time. */
  lemma {:induction false} CleanupIdempotent(cats: seq<Category>)
    ensures DuplicateIds(Survivors(cats)) == []
    decreases |cats|
  {
    if cats != [] {
      var n := |cats| - 1;
      var init, last := cats[..n], cats[n];
      CleanupIdempotent(init);
      SurvivorsCoverNames(init);
      var s := Survivors(init);
      if Lower(last.name) !in LowerNames(init) {
        var t := s + [last];
        assert Survivors(cats) == t;
        assert t[..|t| - 1] == s && t[|t| - 1] == last;
        assert DuplicateIds(t) == DuplicateIds(s);
      } else {
        assert Survivors(cats) == s;
      }
    }
  }

  // ---------------------------------------------------------------------
  // Looking a name up
  // ---------------------------------------------------------------------

  /** The rows whose name equals `name` ignoring case (the `ilike` filter). */
  function NameMatches(rows: seq<Category>, name: string): seq<Category> {
    Filter(rows, NamedLike(name))
  }

  /** Two different rows both have `name`, ignoring case. */
  predicate TwoMatching(rows: seq<Category>, name: string) {
    exists i, j :: 0 <= i < j < |rows| && Lower(rows[i].name) == Lower(name)
                                        && Lower(rows[j].name) == Lower(name)
  }

  /** At least two rows are selected by the name filter exactly when two
      different rows have the name. */
  lemma {:induction false} TwoMatchingIff(rows: seq<Category>, name: string)
    ensures |NameMatches(rows, name)| >= 2 <==> TwoMatching(rows, name)
    decreases |rows|
  {
    if rows != [] {
      var t := rows[1..];
      TwoMatchingIff(t, name);
      assert NameMatches(rows, name)
             == (if NamedLike(name)(rows[0]) then [rows[0]] else []) + NameMatches(t, name);
      if Lower(rows[0].name) == Lower(name) {
        HeadMatchTwo(rows, name);
      } else {
        if TwoMatching(t, name) {
          var i, j :| 0 <= i < j < |t| && Lower(t[i].name) == Lower(name) && Lower(t[j].name) == Lower(name);
          assert rows[i + 1] == t[i] && rows[j + 1] == t[j];
        }
        if TwoMatching(rows, name) {
          var i, j :| 0 <= i < j < |rows| && Lower(rows[i].name) == Lower(name)
                      && Lower(rows[j].name) == Lower(name);
          assert rows[i] == t[i - 1] && rows[j] == t[j - 1];
        }
      }
    }
  }

  /** When the first row has the name, a second matching row exists exactly
      when the rest of the rows contain a match. */
  lemma HeadMatchTwo(rows: seq<Category>, name: string)
    requires rows != [] && Lower(rows[0].name) == Lower(name)
    ensures TwoMatching(rows, name) <==> NameMatches(rows[1..], name) != []
  {
    var t := rows[1..];
    if NameMatches(t, name) != [] {
      FirstNameMatch(t, name);
      var j :| 0 <= j < |t| && t[j] == NameMatches(t, name)[0]
               && forall k :: 0 <= k < j ==> Lower(t[k].name) != Lower(name);
      assert t[j] in NameMatches(t, name);
      assert rows[j + 1] == t[j];
    }
    if TwoMatching(rows, name) {
      var i, j :| 0 <= i < j < |rows| && Lower(rows[i].name) == Lower(name)
                  && Lower(rows[j].name) == Lower(name);
      assert rows[j] == t[j - 1] && rows[j] in NameMatches(t, name);
    }
  }

  /** The existing-row check as written: `.single()` yields a row only when
      exactly one row matches; with none or several it yields nothing. */
  function ExistingAsWritten(rows: seq<Category>, name: string): (r: Option<Category>)
    ensures r.Some? ==> r.value in rows && Lower(r.value.name) == Lower(name)
    ensures r.None? <==> (forall c :: c in rows ==> Lower(c.name) != Lower(name))
                         || TwoMatching(rows, name)
  {
    var m := NameMatches(rows, name);
    TwoMatchingIff(rows, name);
    if |m| == 1 then
      assert m[0] in m;
      Some(m[0])
    else
      assert |m| == 0 ==> forall c :: c in rows ==> !NamedLike(name)(c);
      None
  }

  /** The existing-row check as intended: the first row whose name matches,
      whenever there is one. */
  function Existing(rows: seq<Category>, name: string): (r: Option<Category>)
    ensures r.Some? ==> r.value in rows && Lower(r.value.name) == Lower(name)
    ensures r.Some? ==> exists i :: 0 <= i < |rows| && rows[i] == r.value
                                    && forall k :: 0 <= k < i ==> Lower(rows[k].name) != Lower(name)
    ensures r.None? <==> forall c :: c in rows ==> Lower(c.name) != Lower(name)
  {
    var m := NameMatches(rows, name);
    if |m| >= 1 then
      FirstNameMatch(rows, name);
      Some(m[0])
    else None
  }

  /** The first row the name filter selects is the earliest row that has
      the name: no row before it matches. */
  lemma {:induction false} FirstNameMatch(rows: seq<Category>, name: string)
    requires NameMatches(rows, name) != []
    ensures exists i :: 0 <= i < |rows| && rows[i] == NameMatches(rows, name)[0]
                        && forall k :: 0 <= k < i ==> Lower(rows[k].name) != Lower(name)
    decreases |rows|
  {
    var m := NameMatches(rows, name);
    assert m[0] in m;
    assert rows != [];
    assert m == (if NamedLike(name)(rows[0]) then [rows[0]] else []) + NameMatches(rows[1..], name);
    if Lower(rows[0].name) == Lower(name) {
      assert rows[0] == m[0];
    } else {
      var rest := rows[1..];
      FirstNameMatch(rest, name);
      var j :| 0 <= j < |rest| && rest[j] == NameMatches(rest, name)[0]
               && forall k :: 0 <= k < j ==> Lower(rest[k].name) != Lower(name);
      assert rows[j + 1] == m[0];
      forall k | 0 <= k < j + 1 ensures Lower(rows[k].name) != Lower(name) {
        if k > 0 {
          assert rows[k] == rest[k - 1];
        }
      }
    }
  }

  /** Two rows named "Work" and "work" defeat the check as written, so that
      a third "WORK" would be inserted, while the intended check finds the
      first of them. */
  lemma ExistingAsWrittenMissesDuplicates()
    ensures var rows := [Category(0, "Work", "#FF5733", "u"), Category(1, "work", "#33FF57", "u")];
            ExistingAsWritten(rows, "WORK") == None && Existing(rows, "WORK") == Some(rows[0])
  {
    var rows := [Category(0, "Work", "#FF5733", "u"), Category(1, "work", "#33FF57", "u")];
    assert Lower("Work") == Lower("WORK") == Lower("work") == "work";
    assert rows[1..][1..] == [];
    assert NameMatches(rows, "WORK") == rows;
  }

  /** While no name is duplicated, the two checks agree. */
  lemma ExistingAgrees(rows: seq<Category>, name: string)
    requires DistinctNames(rows)
    ensures ExistingAsWritten(rows, name) == Existing(rows, name)
  {
    var m := NameMatches(rows, name);
    if |m| >= 2 {
      var a, b := m[0], m[1];
      assert a in rows && b in rows;
      var i :| 0 <= i < |rows| && rows[i] == a;
      var j :| 0 <= j < |rows| && rows[j] == b;
      NameMatchesUnique(rows, name);
    }
  }

  /** While no name is duplicated, at most one row matches a name. */
  lemma {:induction false} NameMatchesUnique(rows: seq<Category>, name: string)
    requires DistinctNames(rows)
    ensures |NameMatches(rows, name)| <= 1
    decreases |rows|
  {
    if rows != [] {
      assert DistinctNames(rows[1..]) by {
        forall i, j | 0 <= i < j < |rows[1..]|
          ensures Lower(rows[1..][i].name) != Lower(rows[1..][j].name)
        {
          assert rows[1..][i] == rows[i + 1] && rows[1..][j] == rows[j + 1];
        }
      }
      NameMatchesUnique(rows[1..], name);
      if Lower(rows[0].name) == Lower(name) {
        forall c | c in rows[1..] ensures !NamedLike(name)(c) {
          var j :| 0 <= j < |rows[1..]| && rows[1..][j] == c;
          assert rows[j + 1] == c;
        }
        FilterNone(rows[1..], NamedLike(name));
      }
    }
  }

  /** The default categories, tagged with `user` and numbered from `base`. */
  function Defaults(base: CategoryId, user: UserId): (r: seq<Category>)
    ensures |r| == |DefaultCategories|
    ensures forall i :: 0 <= i < |r| ==>
              r[i] == Category(base + i, DefaultCategories[i].name, DefaultCategories[i].color, user)
  {
    seq(|DefaultCategories|, i requires 0 <= i < |DefaultCategories| =>
      Category(base + i, DefaultCategories[i].name, DefaultCategories[i].color, user))
  }

  /** The default names are distinct ignoring case: seeding them creates no
      duplicate. */
  lemma DefaultsDistinct(base: CategoryId, user: UserId)
    ensures DistinctNames(Defaults(base, user))
  {
    var r := Defaults(base, user);
    forall i, j | 0 <= i < j < |r| ensures Lower(r[i].name) != Lower(r[j].name) {
      var a, b := DefaultCategories[i].name, DefaultCategories[j].name;
      assert r[i].name == a && r[j].name == b;
      // The first two letters, ignoring case, already tell the names apart.
      assert LowerChar(a[0]) != LowerChar(b[0]) || LowerChar(a[1]) != LowerChar(b[1]);
    }
  }

  // ---------------------------------------------------------------------
  // The table
  // ---------------------------------------------------------------------

  class CategoryTable {
    /** Every user's rows, oldest first. */
    var rows: seq<Category>
    /** The id the database gives the next row it inserts. */
    var nextId: CategoryId

    ghost predicate Valid()
      reads this
    {
      && UniqueIds(rows)
      && forall i :: 0 <= i < |rows| ==> rows[i].id < nextId
    }

    constructor ()
      ensures Valid() && rows == [] && nextId == 0
    {
      rows := [];
      nextId := 0;
    }

    /** `getAllCategories`: the user's rows. */
    method GetAllCategories(user: Option<UserId>) returns (r: Result<seq<Category>, string>)
      ensures user.None? ==> r == Failure(NotAuthenticated)
      ensures user.Some? ==> r.Success?
                             && forall c :: c in r.value <==> c in rows && c.userId == user.value
    {
      if user.None? {
        return Failure(NotAuthenticated);
      }
      return Success(OwnedBy(rows, user.value));
    }

    /** Appends `fresh` rows numbered from `nextId`. */
    method Append(added: seq<Category>)
      requires Valid()
      requires forall i :: 0 <= i < |added| ==> added[i].id == nextId + i
      modifies this
      ensures Valid()
      ensures rows == old(rows) + added && nextId == old(nextId) + |added|
    {
      rows := rows + added;
      nextId := nextId + |added|;
    }

    /** `createCategory`: the user's row with the same name ignoring case, if
        there is one, and otherwise a new row made of the input and the
        user's id. */
    method CreateCategory(user: Option<UserId>, input: CreateCategoryInput)
      returns (r: Result<Category, string>)
      requires Valid()
      modifies this
      ensures Valid()
      ensures user.None? ==> r == Failure(NotAuthenticated) && rows == old(rows) && nextId == old(nextId)
      ensures user.Some? ==>
        match Existing(OwnedBy(old(rows), user.value), input.name)
        case Some(existing) => r == Success(existing) && rows == old(rows) && nextId == old(nextId)
        case None =>
          && r == Success(Category(old(nextId), input.name, input.color, user.value))
          && rows == old(rows) + [r.value]
          && nextId == old(nextId) + 1
      ensures user.Some? && DistinctNames(OwnedBy(old(rows), user.value))
              ==> DistinctNames(OwnedBy(rows, user.value))
    {
      if user.None? {
        return Failure(NotAuthenticated);
      }
      var owner := user.value;
      var existing := Existing(OwnedBy(rows, owner), input.name);
      if existing.Some? {
        return Success(existing.value);
      }
      var row := Category(nextId, input.name, input.color, owner);
      ghost var before := rows;
      Append([row]);
      r := Success(row);
      FilterAppend(before, [row], OfUser(owner));
      var mine := OwnedBy(before, owner);
      assert OwnedBy(rows, owner) == mine + [row];
      if DistinctNames(mine) {
        AppendUnseenName(mine, row);
      }
    }

    /** `initializeDefaultCategories`: seeds the default categories for a
        user who has none; a user with any category is left alone. */
    method InitializeDefaultCategories(user: Option<UserId>) returns (r: Outcome<string>)
      requires Valid()
      modifies this
      ensures Valid()
      ensures user.None? ==> r == Fail(NotAuthenticated) && rows == old(rows) && nextId == old(nextId)
      ensures user.Some? ==> r == Pass
      ensures user.Some? && OwnedBy(old(rows), user.value) != [] ==>
                rows == old(rows) && nextId == old(nextId)
      ensures user.Some? && OwnedBy(old(rows), user.value) == [] ==>
                rows == old(rows) + Defaults(old(nextId), user.value)
                && nextId == old(nextId) + |DefaultCategories|
                && OwnedBy(rows, user.value) == Defaults(old(nextId), user.value)
    {
      if user.None? {
        return Fail(NotAuthenticated);
      }
      var owner := user.value;
      if OwnedBy(rows, owner) != [] {
        return Pass;
      }
      ghost var before := rows;
      var seeded := Defaults(nextId, owner);
      Append(seeded);
      FilterAppend(before, seeded, OfUser(owner));
      FilterAll(seeded, OfUser(owner));
      assert OwnedBy(before, owner) + seeded == seeded;
      r := Pass;
    }

    /** `deleteCategory`: removes the row with this id only if it belongs to
        the user; every other row stays, in order. */
    method DeleteCategory(user: Option<UserId>, id: CategoryId) returns (r: Outcome<string>)
      requires Valid()
      modifies this
      ensures Valid() && nextId == old(nextId)
      ensures user.None? ==> r == Fail(NotAuthenticated) && rows == old(rows)
      ensures user.Some? ==> r == Pass && rows == WithoutRow(old(rows), id, user.value)
      ensures user.Some? ==> forall c :: c in rows <==> c in old(rows) && !(c.id == id && c.userId == user.value)
      ensures user.Some? ==> forall other :: other != user.value ==> OwnedBy(rows, other) == OwnedBy(old(rows), other)
    {
      if user.None? {
        return Fail(NotAuthenticated);
      }
      var owner := user.value;
      ghost var before := rows;
      FilterUnique(rows, NotThisRow(id, owner));
      rows := WithoutRow(rows, id, owner);
      forall other | other != owner
        ensures OwnedBy(rows, other) == OwnedBy(before, other)
      {
        FilterCommute(before, NotThisRow(id, owner), OfUser(other));
        FilterAll(OwnedBy(before, other), NotThisRow(id, owner));
      }
      assert forall i :: 0 <= i < |rows| ==> rows[i] in before;
      r := Pass;
    }

    /** `cleanupDuplicateCategories`: over the user's rows, oldest first,
        deletes every row whose lower-cased name an older row already has.
        The user's rows are then the survivors, all names distinct; other
        users' rows are untouched. */
    method CleanupDuplicateCategories(user: Option<UserId>)
      returns (r: Outcome<string>, deleted: seq<CategoryId>)
      requires Valid()
      modifies this
      ensures Valid() && nextId == old(nextId)
      ensures user.None? ==> r == Fail(NotAuthenticated) && deleted == [] && rows == old(rows)
      ensures user.Some? ==>
        && r == Pass
        && deleted == DuplicateIds(OwnedBy(old(rows), user.value))
        && rows == (if deleted == [] then old(rows) else WithoutIds(old(rows), deleted))
      ensures user.Some? ==>
        && OwnedBy(rows, user.value) == Survivors(OwnedBy(old(rows), user.value))
        && DistinctNames(OwnedBy(rows, user.value))
      ensures user.Some? ==> forall other :: other != user.value ==> OwnedBy(rows, other) == OwnedBy(old(rows), other)
    {
      if user.None? {
        return Fail(NotAuthenticated), [];
      }
      var owner := user.value;
      var categories := OwnedBy(rows, owner);
      deleted := FindDuplicates(categories);
      ghost var before := rows;
      if |deleted| > 0 {
        FilterUnique(rows, NotListed(deleted));
        rows := WithoutIds(rows, deleted);
        assert forall i :: 0 <= i < |rows| ==> rows[i] in before;
      }
      WithoutNoIds(before);
      CleanupOwnerRows(before, owner);
      forall other | other != owner
        ensures OwnedBy(rows, other) == OwnedBy(before, other)
      {
        CleanupOthersRows(before, owner, other);
      }
      r := Pass;
    }
  }

  /** A row whose name no row has yet keeps the names distinct. */
  lemma AppendUnseenName(rows: seq<Category>, row: Category)
    requires DistinctNames(rows)
    requires forall c :: c in rows ==> Lower(c.name) != Lower(row.name)
    ensures DistinctNames(rows + [row])
  {
    var all := rows + [row];
    forall i, j | 0 <= i < j < |all| ensures Lower(all[i].name) != Lower(all[j].name) {
      assert all[i] == rows[i] && all[i] in rows;
    }
  }

  /** Deleting nothing leaves the table as it is. */
  lemma WithoutNoIds(rows: seq<Category>)
    ensures WithoutIds(rows, []) == rows
  {
    FilterAll(rows, NotListed([]));
  }

  /** After deleting the ids the cleanup marks for `owner`, the owner's rows
      are the survivors of the owner's rows, with distinct names. */
  lemma CleanupOwnerRows(rows: seq<Category>, owner: UserId)
    requires UniqueIds(rows)
    ensures var mine := OwnedBy(rows, owner);
            var after := WithoutIds(rows, DuplicateIds(mine));
            OwnedBy(after, owner) == Survivors(mine) && DistinctNames(OwnedBy(after, owner))
  {
    var mine := OwnedBy(rows, owner);
    var d := DuplicateIds(mine);
    FilterUnique(rows, OfUser(owner));
    DuplicatesPartition(mine);
    SurvivorsDistinct(mine);
    FilterCommute(rows, NotListed(d), OfUser(owner));
  }

  /** The ids the cleanup marks for `owner` belong to the owner's rows, so
      deleting them leaves every other user's rows as they were. */
  lemma CleanupOthersRows(rows: seq<Category>, owner: UserId, other: UserId)
    requires UniqueIds(rows) && other != owner
    ensures var d := DuplicateIds(OwnedBy(rows, owner));
            OwnedBy(WithoutIds(rows, d), other) == OwnedBy(rows, other)
  {
    var mine := OwnedBy(rows, owner);
    var d := DuplicateIds(mine);
    FilterCommute(rows, NotListed(d), OfUser(other));
    forall id | id in d ensures exists m :: m in rows && m.userId == owner && m.id == id {
      DuplicateIdsFrom(mine, id);
      var j :| 0 <= j < |mine| && mine[j].id == id;
      assert mine[j] in mine;
    }
    assert forall a, b :: a in rows && b in rows && a.id == b.id ==> a == b by {
      forall a, b | a in rows && b in rows && a.id == b.id ensures a == b {
        var i :| 0 <= i < |rows| && rows[i] == a;
        var j :| 0 <= j < |rows| && rows[j] == b;
      }
    }
    FilterAll(OwnedBy(rows, other), NotListed(d));
  }
}
