/**
 * Travel-time estimate, latest-location lookup and nearest-driver selection
 * (delivery/services/utils.py). The haversine distance is a parameter `dist`
 * of the selection: nothing below depends on how it is computed.
 */
module Utils {
  import opened Wrappers
  import opened Models
  import opened QuerySet

  // ---------------------------------------------------------------------
  // Travel time
  // ---------------------------------------------------------------------

  /** Average speed assumed by the estimate, in km/h. */
  const AvgSpeedKmh: real := 30.0

  /** Python's `int(x)` on a float: truncation toward zero. */
  function Trunc(x: real): (n: int)
    ensures x >= 0.0 ==> n as real <= x < n as real + 1.0
    ensures x < 0.0 ==> n as real - 1.0 < x <= n as real
  {
    if x >= 0.0 then x.Floor else -((-x).Floor)
  }

  function Max(a: int, b: int): int {
    if a >= b then a else b
  }

  /** `estimated_time`: whole minutes to cover `distanceKm` at 30 km/h, never less than one. */
  function EstimatedTime(distanceKm: real): (minutes: int)
    ensures minutes >= 1
    ensures distanceKm < 1.0 ==> minutes == 1
    ensures distanceKm >= 0.5 ==> minutes as real <= 2.0 * distanceKm < minutes as real + 1.0
  {
    var timeHours := distanceKm / AvgSpeedKmh;
    var timeMinutes := Trunc(timeHours * 60.0);
    Max(timeMinutes, 1)
  }

  /** The estimate is `max(floor(2 * d), 1)`: truncating and flooring agree once clamped. */
  lemma EstimatedTimeClosedForm(d: real)
    ensures EstimatedTime(d) == Max((2.0 * d).Floor, 1)
  {
    assert d / AvgSpeedKmh * 60.0 == 2.0 * d;
  }

  /** A longer distance never gives a shorter estimate. */
  lemma EstimatedTimeMonotone(d1: real, d2: real)
    requires d1 <= d2
    ensures EstimatedTime(d1) <= EstimatedTime(d2)
  {
    EstimatedTimeClosedForm(d1);
    EstimatedTimeClosedForm(d2);
  }

  /** A zero distance reports one minute; 2.3 km reports four. */
  lemma EstimatedTimeExamples()
    ensures EstimatedTime(0.0) == 1
    ensures EstimatedTime(2.3) == 4
  {
    EstimatedTimeClosedForm(2.3);
    assert (2.0 * 2.3).Floor == 4;
  }

  // ---------------------------------------------------------------------
  // Latest location of one user
  // ---------------------------------------------------------------------

  /** `get_latest_user_location`: the user's records, newest first, then the first one. */
  function LatestUserLocation(store: seq<Location>, user: UserId): (r: Option<Location>)
    ensures r.None? <==> !HasUser(store, user)
    ensures r.Some? ==> r.value in store && r.value.user == user
    ensures r.Some? ==> forall l :: l in store && l.user == user ==> l.createdAt <= r.value.createdAt
  {
    var own := Filter(store, (l: Location) => l.user == user);
    var newestFirst := OrderBy([CreatedAtDesc], own);
    var r := First(newestFirst);
    FirstIsLeading([CreatedAtDesc], newestFirst);
    assert r.Some? ==> forall l :: l in store && l.user == user ==> l.createdAt <= r.value.createdAt by {
      if r.Some? {
        forall l | l in store && l.user == user ensures l.createdAt <= r.value.createdAt {
          ByNewest(r.value, l);
        }
      }
    }
    r
  }

  // ---------------------------------------------------------------------
  // Nearest driver
  // ---------------------------------------------------------------------

  /** The order `order_by('user', '-created_at')`. */
  const UserThenNewest: seq<OrderKey> := [UserAsc, CreatedAtDesc]

  /** The driver query of `nearest_driver`: drivers' records, ordered by user and
      newest first, one record per user. */
  function LatestDriverLocations(store: seq<Location>, users: map<UserId, User>): (r: seq<Location>)
    ensures forall c :: c in r ==> c in store && IsDriverId(users, c.user)
    ensures forall c, l :: c in r && l in store && l.user == c.user ==> l.createdAt <= c.createdAt
    ensures forall i, j :: 0 <= i < j < |r| ==> r[i].user < r[j].user
    ensures forall l :: l in store && IsDriverId(users, l.user) ==> HasUser(r, l.user)
  {
    var drivers := Filter(store, (l: Location) => IsDriverId(users, l.user));
    var ordered := OrderBy(UserThenNewest, drivers);
    DistinctByUserAscending(ordered);
    DistinctByUserNewest(ordered);
    assert forall l :: l in store && IsDriverId(users, l.user) ==> HasUser(ordered, l.user) by {
      forall l | l in store && IsDriverId(users, l.user) ensures HasUser(ordered, l.user) {
        assert l in ordered;
      }
    }
    DistinctOnUser(ordered)
  }

  /** Once ordered by user, `distinct('user')` lists each user once, in ascending order. */
  lemma DistinctByUserAscending(ordered: seq<Location>)
    requires Sorted(UserThenNewest, ordered)
    ensures forall i, j :: 0 <= i < j < |DistinctOnUser(ordered)| ==>
      DistinctOnUser(ordered)[i].user < DistinctOnUser(ordered)[j].user
  {
    var r := DistinctOnUser(ordered);
    DistinctOnUserSorted(UserThenNewest, ordered);
    forall i, j | 0 <= i < j < |r| ensures r[i].user < r[j].user {
      ByUserThenNewest(r[i], r[j]);
    }
  }

  /** Once ordered by user and newest first, the record `distinct('user')` keeps for a
      user is at least as recent as any record of that user. */
  lemma DistinctByUserNewest(ordered: seq<Location>)
    requires Sorted(UserThenNewest, ordered)
    ensures forall c, l :: c in DistinctOnUser(ordered) && l in ordered && l.user == c.user ==>
      l.createdAt <= c.createdAt
  {
    forall c, l | c in DistinctOnUser(ordered) && l in ordered && l.user == c.user
      ensures l.createdAt <= c.createdAt
    {
      var i :| 0 <= i < |ordered| && ordered[i] == c && forall j :: 0 <= j < i ==> ordered[j].user != c.user;
      var k :| 0 <= k < |ordered| && ordered[k] == l;
      if k != i {
        assert i < k;
        ByUserThenNewest(c, l);
      }
    }
  }

  /** Python's `min(s, key=key)`: the index of the first element of least key.
      It scans left to right and replaces the best so far only on a strictly smaller key. */
  function FirstMinIndex<T>(s: seq<T>, key: T -> real): (k: nat)
    requires |s| > 0
    ensures k < |s|
    ensures forall j :: 0 <= j < |s| ==> key(s[k]) <= key(s[j])
    ensures forall j :: 0 <= j < k ==> key(s[k]) < key(s[j])
  {
    if |s| == 1 then 0
    else
      var best := FirstMinIndex(s[..|s| - 1], key);
      if key(s[|s| - 1]) < key(s[best]) then |s| - 1 else best
  }

  /** The haversine distance, abstracted: `(pickupLat, pickupLon, lat, lon) -> km`. */
  type Distance = (real, real, real, real) -> real

  /** The dictionary returned by `nearest_driver`. */
  datatype DriverMatch = DriverMatch(user: UserId, latitude: real, longitude: real, distance: real)

  /** The distance from the pickup point to the record `c`. */
  function DistanceTo(dist: Distance, pickupLat: real, pickupLon: real, c: Location): real {
    dist(pickupLat, pickupLon, c.latitude, c.longitude)
  }

  /** `nearest_driver`: among the drivers' latest records, the one nearest the pickup point,
      the one of least user id on a tie; `None` when no driver has a record. */
  function NearestDriver(store: seq<Location>, users: map<UserId, User>,
                         pickupLat: real, pickupLon: real, dist: Distance): (r: Option<DriverMatch>)
    ensures r.None? <==> forall l :: l in store ==> !IsDriverId(users, l.user)
    ensures r.Some? ==> IsDriverId(users, r.value.user)
    ensures r.Some? ==>
      exists c :: c in LatestDriverLocations(store, users) &&
        r.value == DriverMatch(c.user, c.latitude, c.longitude, DistanceTo(dist, pickupLat, pickupLon, c))
    ensures r.Some? ==>
      forall c :: c in LatestDriverLocations(store, users) ==>
        r.value.distance <= DistanceTo(dist, pickupLat, pickupLon, c)
    ensures r.Some? ==>
      forall c :: c in LatestDriverLocations(store, users) && DistanceTo(dist, pickupLat, pickupLon, c) == r.value.distance ==>
        r.value.user <= c.user
  {
    var drivers := LatestDriverLocations(store, users);
    if drivers == [] then
      assert forall l :: l in store ==> !IsDriverId(users, l.user) by {
        forall l | l in store ensures !IsDriverId(users, l.user) {
          assert !HasUser(drivers, l.user);
        }
      }
      None
    else
      var key := (l: Location) => dist(pickupLat, pickupLon, l.latitude, l.longitude);
      var k := FirstMinIndex(drivers, key);
      var selected := drivers[k];
      var distanceToDriver := dist(pickupLat, pickupLon, selected.latitude, selected.longitude);
      var r := DriverMatch(selected.user, selected.latitude, selected.longitude, distanceToDriver);
      FirstMinLeastUser(drivers, key);
      assert drivers[0] in store;
      Some(r)
  }

  /** With users listed in ascending order, the first element of least key is the one
      of least user among those of least key. */
  lemma FirstMinLeastUser(s: seq<Location>, key: Location -> real)
    requires |s| > 0
    requires forall i, j :: 0 <= i < j < |s| ==> s[i].user < s[j].user
    ensures forall c :: c in s && key(c) == key(s[FirstMinIndex(s, key)]) ==> s[FirstMinIndex(s, key)].user <= c.user
  {
    var k := FirstMinIndex(s, key);
    forall c | c in s && key(c) == key(s[k]) ensures s[k].user <= c.user {
      var j :| 0 <= j < |s| && s[j] == c;
      if j != k {
        assert s[k].user < s[j].user;
      }
    }
  }

  /** The record the driver query keeps for each driver is as recent as the one
      `get_latest_user_location` returns for that driver. */
  lemma DriverRecordIsLatestLocation(store: seq<Location>, users: map<UserId, User>)
    ensures forall c :: c in LatestDriverLocations(store, users) ==>
      && LatestUserLocation(store, c.user).Some?
      && LatestUserLocation(store, c.user).value.createdAt == c.createdAt
  {
    forall c | c in LatestDriverLocations(store, users)
      ensures LatestUserLocation(store, c.user).Some?
      ensures LatestUserLocation(store, c.user).value.createdAt == c.createdAt
    {
      assert HasUser(store, c.user);
    }
  }

  /** A store holding a customer's record, a driver's older and newer records, and a
      second driver's record, in any order. The newer record is 2.3 km from the pickup
      point and the second driver 5.0 km; the older record would be nearer still. The first
      driver is chosen from the newer record (and `EstimatedTimeExamples` gives four minutes
      for that distance). */
  lemma NearestDriverScenario(store: seq<Location>, customer: Location, oldA: Location, newA: Location,
                              b: Location, users: map<UserId, User>, pickupLat: real, pickupLon: real,
                              dist: Distance)
    requires forall l :: l in store ==> l == customer || l == oldA || l == newA || l == b
    requires newA in store && b in store
    requires !IsDriverId(users, customer.user)
    requires IsDriverId(users, newA.user) && oldA.user == newA.user && oldA.createdAt < newA.createdAt
    requires IsDriverId(users, b.user) && b.user != newA.user
    requires DistanceTo(dist, pickupLat, pickupLon, oldA) == 1.0
    requires DistanceTo(dist, pickupLat, pickupLon, newA) == 2.3
    requires DistanceTo(dist, pickupLat, pickupLon, b) == 5.0
    ensures NearestDriver(store, users, pickupLat, pickupLon, dist)
      == Some(DriverMatch(newA.user, newA.latitude, newA.longitude, 2.3))
  {
    var candidates := LatestDriverLocations(store, users);
    ScenarioCandidates(store, customer, oldA, newA, b, users);
    var r := NearestDriver(store, users, pickupLat, pickupLon, dist);
    assert r.Some? by {
      assert newA in store && IsDriverId(users, newA.user);
    }
    var m :| m in candidates
      && r.value == DriverMatch(m.user, m.latitude, m.longitude, DistanceTo(dist, pickupLat, pickupLon, m));
    assert m == newA || m == b;
    assert DistanceTo(dist, pickupLat, pickupLon, m) <= DistanceTo(dist, pickupLat, pickupLon, newA);
    assert m != b;
    assert r.value == DriverMatch(newA.user, newA.latitude, newA.longitude, 2.3);
  }

  /** The candidates of the scenario above: the newer record of the first driver, and
      possibly the second driver's record. */
  lemma ScenarioCandidates(store: seq<Location>, customer: Location, oldA: Location, newA: Location,
                           b: Location, users: map<UserId, User>)
    requires forall l :: l in store ==> l == customer || l == oldA || l == newA || l == b
    requires newA in store
    requires !IsDriverId(users, customer.user)
    requires IsDriverId(users, newA.user) && oldA.user == newA.user && oldA.createdAt < newA.createdAt
    requires b.user != newA.user
    ensures newA in LatestDriverLocations(store, users)
    ensures forall c :: c in LatestDriverLocations(store, users) ==> c == newA || c == b
  {
    var candidates := LatestDriverLocations(store, users);
    assert HasUser(candidates, newA.user);
    var c :| c in candidates && c.user == newA.user;
    assert newA.createdAt <= c.createdAt;
    assert c != oldA && c != customer && c != b;
    forall c | c in candidates ensures c == newA || c == b {
      assert c != customer;
      if c.user == newA.user {
        assert newA.createdAt <= c.createdAt;
      }
    }
  }
}
