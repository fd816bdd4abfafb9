/**
 * The query-set steps the delivery app applies to the location table:
 * `filter`, `order_by`, `distinct(field)` and `first`, each a function
 * from a sequence of records to a sequence of records (or to an optional
 * record, for `first`).
 */
module QuerySet {
  import opened Wrappers
  import opened Models

  /** `filter(...)`: the records satisfying `p`; no record is added or dropped otherwise. */
  function Filter(s: seq<Location>, p: Location -> bool): (r: seq<Location>)
    ensures |r| <= |s|
    ensures forall l :: multiset(r)[l] == if p(l) then multiset(s)[l] else 0
    ensures forall l :: l in r <==> l in s && p(l)
  {
    if s == [] then []
    else
      assert s == [s[0]] + s[1..];
      if p(s[0]) then [s[0]] + Filter(s[1..], p) else Filter(s[1..], p)
  }

  /** Some record of `s` belongs to user `u`. */
  predicate HasUser(s: seq<Location>, u: UserId) {
    exists l :: l in s && l.user == u
  }

  /** One `order_by` field: `'user'` ascending or `'-created_at'` (newest first). */
  datatype OrderKey = UserAsc | CreatedAtDesc

  /** The value compared for key `k`; a descending key compares the negated value. */
  function KeyOf(k: OrderKey, l: Location): int {
    match k
    case UserAsc => l.user
    case CreatedAtDesc => -l.createdAt
  }

  /** `a` may come before `b` under the lexicographic order of `keys`. */
  predicate Precedes(keys: seq<OrderKey>, a: Location, b: Location)
    decreases |keys|
  {
    || keys == []
    || KeyOf(keys[0], a) < KeyOf(keys[0], b)
    || (KeyOf(keys[0], a) == KeyOf(keys[0], b) && Precedes(keys[1..], a, b))
  }

  lemma {:induction false} PrecedesTotal(keys: seq<OrderKey>, a: Location, b: Location)
    ensures Precedes(keys, a, b) || Precedes(keys, b, a)
    decreases |keys|
  {
    if keys != [] && KeyOf(keys[0], a) == KeyOf(keys[0], b) {
      PrecedesTotal(keys[1..], a, b);
    }
  }

  lemma {:induction false} PrecedesTransitive(keys: seq<OrderKey>, a: Location, b: Location, c: Location)
    requires Precedes(keys, a, b) && Precedes(keys, b, c)
    ensures Precedes(keys, a, c)
    decreases |keys|
  {
    if keys != [] && KeyOf(keys[0], a) == KeyOf(keys[0], b) == KeyOf(keys[0], c) {
      PrecedesTransitive(keys[1..], a, b, c);
    }
  }

  /** `order_by('user', '-created_at')` spelled out. */
  lemma ByUserThenNewest(a: Location, b: Location)
    ensures Precedes([UserAsc, CreatedAtDesc], a, b)
        <==> a.user < b.user || (a.user == b.user && a.createdAt >= b.createdAt)
  {
    assert [UserAsc, CreatedAtDesc][1..] == [CreatedAtDesc];
    assert [CreatedAtDesc][1..] == [];
  }

  /** `order_by('-created_at')` spelled out. */
  lemma ByNewest(a: Location, b: Location)
    ensures Precedes([CreatedAtDesc], a, b) <==> a.createdAt >= b.createdAt
  {
    assert [CreatedAtDesc][1..] == [];
  }

  ghost predicate Sorted(keys: seq<OrderKey>, s: seq<Location>) {
    forall i, j :: 0 <= i < j < |s| ==> Precedes(keys, s[i], s[j])
  }

  /** `a` may come before every record of `s`. */
  ghost predicate PrecedesAll(keys: seq<OrderKey>, a: Location, s: seq<Location>) {
    forall y :: y in s ==> Precedes(keys, a, y)
  }

  lemma SortedCons(keys: seq<OrderKey>, a: Location, t: seq<Location>)
    requires PrecedesAll(keys, a, t) && Sorted(keys, t)
    ensures Sorted(keys, [a] + t)
  {
    forall i, j | 0 <= i < j < |[a] + t| ensures Precedes(keys, ([a] + t)[i], ([a] + t)[j]) {
      if i == 0 {
        assert ([a] + t)[j] == t[j - 1];
      } else {
        assert ([a] + t)[i] == t[i - 1] && ([a] + t)[j] == t[j - 1];
      }
    }
  }

  /** Inserts `x` before the first element it precedes. */
  function Insert(keys: seq<OrderKey>, x: Location, s: seq<Location>): (r: seq<Location>)
    requires Sorted(keys, s)
    ensures Sorted(keys, r)
    ensures multiset(r) == multiset(s) + multiset{x}
  {
    if s == [] then [x]
    else if Precedes(keys, x, s[0]) then
      InsertFront(keys, x, s);
      [x] + s
    else
      SortedTail(keys, s);
      var t := Insert(keys, x, s[1..]);
      InsertBehind(keys, x, s, t);
      [s[0]] + t
  }

  lemma SortedTail(keys: seq<OrderKey>, s: seq<Location>)
    requires s != [] && Sorted(keys, s)
    ensures Sorted(keys, s[1..]) && PrecedesAll(keys, s[0], s[1..])
  {
  }

  lemma InsertFront(keys: seq<OrderKey>, x: Location, s: seq<Location>)
    requires s != [] && Sorted(keys, s) && Precedes(keys, x, s[0])
    ensures Sorted(keys, [x] + s)
  {
    forall y | y in s ensures Precedes(keys, x, y) {
      var k :| 0 <= k < |s| && s[k] == y;
      if k > 0 { PrecedesTransitive(keys, x, s[0], y); }
    }
    SortedCons(keys, x, s);
  }

  lemma InsertBehind(keys: seq<OrderKey>, x: Location, s: seq<Location>, t: seq<Location>)
    requires s != [] && Sorted(keys, s) && !Precedes(keys, x, s[0])
    requires Sorted(keys, t) && multiset(t) == multiset(s[1..]) + multiset{x}
    ensures Sorted(keys, [s[0]] + t)
    ensures multiset([s[0]] + t) == multiset(s) + multiset{x}
  {
    PrecedesTotal(keys, x, s[0]);
    SortedTail(keys, s);
    forall y | y in t ensures Precedes(keys, s[0], y) {
      assert y in multiset(t);
      if y != x {
        assert y in multiset(s[1..]);
      }
    }
    SortedCons(keys, s[0], t);
    assert s == [s[0]] + s[1..];
  }

  /** `order_by(*keys)`: the same records, rearranged into the order of `keys`.
      Records equal under `keys` keep their input order (the database leaves it open). */
  function OrderBy(keys: seq<OrderKey>, s: seq<Location>): (r: seq<Location>)
    ensures Sorted(keys, r)
    ensures multiset(r) == multiset(s)
    ensures forall l :: l in r <==> l in s
  {
    if s == [] then []
    else
      assert s == [s[0]] + s[1..];
      var r := Insert(keys, s[0], OrderBy(keys, s[1..]));
      assert forall l :: l in r <==> l in s by {
        forall l ensures l in r <==> l in s {
          assert l in r <==> l in multiset(r);
          assert l in s <==> l in multiset(s);
        }
      }
      r
  }

  /** The record `m` occurs in `s` before any other record of its user. */
  ghost predicate FirstOfUser(s: seq<Location>, m: Location) {
    exists i :: 0 <= i < |s| && s[i] == m && forall j :: 0 <= j < i ==> s[j].user != m.user
  }

  /** `distinct('user')` (PostgreSQL `DISTINCT ON (user)`): the first record of each
      user, in the order of `s`. */
  function DistinctOnUser(s: seq<Location>): (r: seq<Location>)
    ensures forall m :: m in r ==> m in s && FirstOfUser(s, m)
    ensures forall i, j :: 0 <= i < j < |r| ==> r[i].user != r[j].user
    ensures forall u :: HasUser(s, u) ==> HasUser(r, u)
  {
    if s == [] then []
    else
      var init, last := s[..|s| - 1], s[|s| - 1];
      var t := DistinctOnUser(init);
      ExtendByLast(s);
      if HasUser(init, last.user) then t
      else
        LastIsFirstOfUser(s);
        assert last in t + [last];
        t + [last]
  }

  /** Appending a record keeps every first-of-user record and adds at most its user. */
  lemma ExtendByLast(s: seq<Location>)
    requires s != []
    ensures forall m :: FirstOfUser(s[..|s| - 1], m) ==> m in s && FirstOfUser(s, m)
    ensures forall u :: HasUser(s, u) ==> HasUser(s[..|s| - 1], u) || u == s[|s| - 1].user
  {
    var init, last := s[..|s| - 1], s[|s| - 1];
    forall m | FirstOfUser(init, m) ensures m in s && FirstOfUser(s, m) {
      var i :| 0 <= i < |init| && init[i] == m && forall j :: 0 <= j < i ==> init[j].user != m.user;
      assert s[i] == m && forall j :: 0 <= j < i ==> s[j].user != m.user;
    }
    forall u | HasUser(s, u) ensures HasUser(init, u) || u == last.user {
      var l :| l in s && l.user == u;
      var k :| 0 <= k < |s| && s[k] == l;
      if k < |s| - 1 { assert init[k] == l; }
    }
  }

  /** A last record whose user occurs nowhere before it is the first of its user. */
  lemma LastIsFirstOfUser(s: seq<Location>)
    requires s != [] && !HasUser(s[..|s| - 1], s[|s| - 1].user)
    ensures s[|s| - 1] in s && FirstOfUser(s, s[|s| - 1])
  {
    forall j | 0 <= j < |s| - 1 ensures s[j].user != s[|s| - 1].user {
      assert s[j] in s[..|s| - 1];
    }
  }

  /** `distinct('user')` keeps a sort order of its input: sorted in, sorted out. */
  lemma {:induction false} DistinctOnUserSorted(keys: seq<OrderKey>, s: seq<Location>)
    requires Sorted(keys, s)
    ensures Sorted(keys, DistinctOnUser(s))
  {
    if s != [] {
      var init, last := s[..|s| - 1], s[|s| - 1];
      DistinctOnUserSorted(keys, init);
      var t := DistinctOnUser(init);
      forall m | m in t ensures Precedes(keys, m, last) {
        var i :| 0 <= i < |init| && init[i] == m;
        assert s[i] == m;
      }
    }
  }

  /** `first()`: the first record, or `None` for an empty query set. */
  function First(s: seq<Location>): Option<Location>
  {
    if s == [] then None else Some(s[0])
  }

  /** On an ordered query set, `first()` is a record of the set that may come before
      every record of it: the least record under the ordering. */
  lemma {:induction false} FirstIsLeading(keys: seq<OrderKey>, s: seq<Location>)
    requires Sorted(keys, s)
    ensures First(s).Some? ==> First(s).value in s && PrecedesAll(keys, First(s).value, s)
  {
    if s != [] {
      forall y | y in s ensures Precedes(keys, s[0], y) {
        var k :| 0 <= k < |s| && s[k] == y;
        if k == 0 { PrecedesTotal(keys, y, y); }
      }
    }
  }
}
