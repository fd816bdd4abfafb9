# Delivery dispatch: matching and registration, modelled in Dafny

This project models the matching and validation layer of a delivery-dispatch
web service (Django). A customer's pickup point is matched to the nearest
driver. Drivers report positions as location records, and the service's code
only appends them (`LocationSerializer.create`, the fake-data seeding command),
so a driver's current position is their most recent record. A travel-time estimate is derived from the distance. Users register as
customers or drivers, and a driver must give a licence plate.

The modules follow the source files:

- `Models.dfy`: the `User` and `Location` records of `delivery/services/models.py`.
  Ids are natural numbers standing for UUIDs. Timestamps are integers. Coordinates are reals.
- `QuerySet.dfy`: the query-set steps the service applies to the location table.
  Each one is a function on sequences of records: `filter`, `order_by` over a
  list of keys (`'user'`, `'-created_at'`), PostgreSQL `DISTINCT ON (user)` and `first()`.
- `Utils.dfy`: `estimated_time`, `get_latest_user_location` and
  `nearest_driver` from `delivery/services/utils.py`, plus Python's `min(..., key=...)`.
  The haversine distance is a parameter `dist` of the selection, so the
  argmin and its tie-break are proved for every distance function.
- `Serializers.dfy`: `UserSerializer.create` is a method of a `UserStore` class
  whose user map it updates. `LocationSerializer.get_user_location` is a filter.
- `Wrappers.dfy`: `Option` (Python `None`) and `Result` (a raised validation error).

`estimated_time` truncates with Python's `int(...)`, and the model keeps the
truncation. `Utils.EstimatedTimeClosedForm` proves that this equals flooring once the
result is clamped to 1: the estimate is `max(floor(2·d), 1)` for every real `d`.

None of views.py, serializers.py or utils.py gives the `ServiceRequest` record
(delivery/services/models.py:21-31) a flow. No view uses `ServiceRequestSerializer`,
whose `create` is a pass-through insert (see "Left out"), and nothing closes a request.

## Model

| member | source | states |
|---|---|---|
| `Utils.EstimatedTime` | delivery/services/utils.py:20-26 | The result is at least 1 minute. It is 1 for any distance under 1 km. From 0.5 km on, it is the whole number of minutes at 30 km/h, rounded down. |
| `Utils.Trunc` | delivery/services/utils.py:24 | Python's `int()` on a number rounds toward zero: below `x` by less than 1 for `x ≥ 0`, above `x` by less than 1 for `x < 0`. |
| `Utils.EstimatedTimeClosedForm` | delivery/services/utils.py:22-26 | For every real `d`, the estimate is `max(floor(2·d), 1)`. So truncating and flooring agree once clamped, negative distances included. |
| `Utils.EstimatedTimeMonotone` | delivery/services/utils.py:23-26 | The estimate never decreases as the distance grows. |
| `Utils.EstimatedTimeExamples` | delivery/services/utils.py:22-26 | A distance of 0 gives 1 minute. A distance of 2.3 km gives 4 minutes. |
| `Utils.LatestUserLocation` | delivery/services/utils.py:62-69 | Returns `None` exactly when the user has no location record. Otherwise it returns one of the user's own records, at least as recent as every other record of that user. |
| `Utils.LatestDriverLocations` | delivery/services/utils.py:32-37 | The candidate records are drawn from the store and belong to drivers. Each is at least as recent as every record of its driver. They are listed in strictly ascending user order, so there is one per driver. Every driver with a record is represented. |
| `Utils.DistinctByUserAscending` | delivery/services/utils.py:35-36 | After ordering by `('user', '-created_at')`, `distinct('user')` lists users strictly ascending. |
| `Utils.DistinctByUserNewest` | delivery/services/utils.py:35-36 | After ordering by `('user', '-created_at')`, the record `distinct('user')` keeps for a user is the newest (or tied newest) record of that user. |
| `Utils.FirstMinIndex` | delivery/services/utils.py:42-48 | Models Python's `min` with a key. The chosen element has a key no larger than any other element's key. Every element before it has a strictly larger key, so it is the first minimal element. |
| `Utils.FirstMinLeastUser` | delivery/services/utils.py:35-48 | When candidates are listed by ascending user, `min` breaks distance ties in favour of the least user id. |
| `Utils.NearestDriver` | delivery/services/utils.py:28-60 | Returns `None` exactly when no location record belongs to a driver. Otherwise the returned user is a driver. The returned user, latitude and longitude come from one candidate record, and the returned distance is `dist` from the pickup point to that record. No candidate is nearer. Among equally near candidates, the returned user has the least id. |
| `Utils.DriverRecordIsLatestLocation` | delivery/services/utils.py:32-69 | For every driver candidate, `get_latest_user_location` finds a record for that driver, and it is exactly as recent as the candidate. |
| `Utils.ScenarioCandidates` | delivery/services/utils.py:32-37 | Take a store holding a customer's record, a driver's older and newer records and a second driver's record. The candidates include the newer record. They hold nothing but it and the second driver's record: neither the customer's record nor the older record is ever considered. |
| `Utils.NearestDriverScenario` | delivery/services/utils.py:28-60 | In that store, let the newer record be 2.3 km from the pickup point and the second driver 5.0 km, with the older record nearer than both. The first driver is returned with the newer record's coordinates and a distance of 2.3. |
| `QuerySet.Filter` | delivery/services/utils.py:33-34 | `filter` keeps exactly the records that satisfy the condition, each as many times as it occurs. Nothing is added. |
| `QuerySet.PrecedesTotal` | delivery/services/utils.py:35 | Any two records are comparable under an `order_by` key list. |
| `QuerySet.PrecedesTransitive` | delivery/services/utils.py:35 | The `order_by` comparison is transitive. |
| `QuerySet.ByUserThenNewest` | delivery/services/utils.py:35 | `order_by('user', '-created_at')` puts a record first when its user id is smaller, or when it has the same user and is at least as recent. |
| `QuerySet.ByNewest` | delivery/services/utils.py:67 | `order_by('-created_at')` puts the more recent record first. |
| `QuerySet.OrderBy` | delivery/services/utils.py:35 | `order_by` returns a permutation of its input, sorted under the key list. |
| `QuerySet.DistinctOnUser` | delivery/services/utils.py:36 | `distinct('user')` keeps, for each user, the record that comes before every other record of that user. The kept users are pairwise distinct, and every user in the input is kept. |
| `QuerySet.DistinctOnUserSorted` | delivery/services/utils.py:35-36 | A sort order of its input is kept: if the input is sorted under a key list, so is the output of `distinct('user')`. |
| `QuerySet.FirstIsLeading` | delivery/services/utils.py:67-68 | On a query set sorted under a key list, `first()` (when it finds a record) returns a record of the set that may come before every record of it under that ordering. |
| `Serializers.UserStore.Create` | delivery/services/serializers.py:14-32 | Rejects a registration exactly when it asks for a driver and the plate is missing or empty. On rejection the store is unchanged. A missing `is_driver` counts as false, so a non-driver is never rejected over the plate. On success it inserts one new user under a fresh id and nothing else. The user's username is the input username after the user manager's normalization (a parameter), and its driver flag equals the input. A driver carries the supplied plate; a non-driver keeps the default empty plate. It keeps the invariant that every registered driver has a non-empty plate. |
| `Serializers.GetUserLocation` | delivery/services/serializers.py:46-50 | Returns every location record of the user, each as many times as it is stored, and no record of anyone else. |

## Left out

- `haversine_distance` (great-circle trigonometry on floats) is a parameter `dist` of `NearestDriver`. Nothing is assumed or proved about it, not even symmetry or `dist(p, p) = 0`.
- Floating point: distances, coordinates and the estimate's arithmetic are exact reals. `d / 30 * 60` is exactly `2·d` here, while in binary floating point it can round down across a whole minute.
- The database: primary keys come from a counter (`UserStore.nextId`) rather than `uuid4`, and `created_at` is given in each record rather than set on insert. `save()` is an assignment to the user map.
- Ordering of ties: SQL leaves the order of rows with equal `(user, created_at)` open. The model's `order_by` is one fixed insertion sort, and the contracts speak only of "a most recent record", never of which one among ties.
- User ids are compared as numbers. The database orders UUIDs byte-wise, which is another total order with the same consequences.
- `Serializers.UserStore.Create` takes the username normalization that `create_user` applies (Unicode NFKC) as a parameter and proves nothing about it. It does not model password hashing (`create_user`), or the uniqueness of usernames that Django's user model enforces through the database and the serializer's field validation.
- `LocationSerializer.create` and `ServiceRequestSerializer.create` insert their validated data unchanged and hold no logic. The `ServiceRequest` record is not used by any modelled operation.
- `Utils.NearestDriver` reads one snapshot of the store for both `drivers.exists()` and `min(drivers, ...)`. In the source these are two separate database queries. A record inserted between them is not considered by the model. The `ValueError` that `min` raises on an empty sequence, when every driver location is deleted between the two queries, is not modelled either.
- Service requests: beyond that pass-through insert, nothing in views.py, serializers.py or utils.py creates, assigns or closes them, so there is nothing more to model.
- HTTP views, URL routing, the registration test and the fake-data seeding command are outside the model.
