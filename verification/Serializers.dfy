/**
 * Registration of users and the per-user location listing
 * (delivery/services/serializers.py).
 */
module Serializers {
  import opened Wrappers
  import opened Models
  import opened QuerySet

  /** The validated fields of a registration; an absent or null field is `None`. */
  datatype RegistrationData = RegistrationData(
    username: string,
    password: string,
    isDriver: Option<bool>,
    plate: Option<string>)

  datatype ValidationError = PlateRequiredForDrivers

  /** `validated_data.get('is_driver', False)`. */
  function RequestedDriver(data: RegistrationData): bool {
    data.isDriver.GetOr(false)
  }

  /** `not plate or plate == ""`: no plate, or the empty one. */
  predicate PlateMissing(plate: Option<string>) {
    plate.None? || plate.value == ""
  }

  /** The user table, as far as registration touches it. `nextId` stands for the
      source of fresh primary keys. */
  class UserStore {
    var users: map<UserId, User>
    var nextId: UserId

    /** Keys are ids below `nextId`, and every driver created here carries a plate. */
    ghost predicate Valid()
      reads this
    {
      && (forall id :: id in users ==> id < nextId && users[id].id == id)
      && (forall id :: id in users && users[id].isDriver ==> !PlateMissing(users[id].plate))
    }

    constructor ()
      ensures Valid() && users == map[] && nextId == 0
    {
      users := map[];
      nextId := 0;
    }

    /** `UserSerializer.create`: rejects a driver without a plate; otherwise inserts a user
        with the default plate and, for a driver, then stores the supplied plate.
        `normalizeUsername` is the user manager's username normalization (Unicode NFKC),
        which `create_user` applies before storing; it is a parameter because nothing
        here depends on how it is computed. */
    method Create(data: RegistrationData, normalizeUsername: string -> string)
      returns (r: Result<User, ValidationError>)
      requires Valid()
      modifies this
      ensures Valid()
      ensures r.Failure? <==> RequestedDriver(data) && PlateMissing(data.plate)
      ensures r.Failure? ==> users == old(users) && nextId == old(nextId)
      ensures r.Success? ==>
        && r.value.id == old(nextId) && r.value.id !in old(users)
        && users == old(users)[r.value.id := r.value] && nextId == old(nextId) + 1
      ensures r.Success? ==>
        && r.value.username == normalizeUsername(data.username)
        && r.value.isDriver == RequestedDriver(data)
        && r.value.plate == (if r.value.isDriver then data.plate else Some(DefaultPlate))
    {
      var isDriver := RequestedDriver(data);
      var plate := data.plate;
      if isDriver && PlateMissing(plate) {
        return Failure(PlateRequiredForDrivers);
      }
      var user := User(nextId, normalizeUsername(data.username), isDriver, Some(DefaultPlate));
      users := users[user.id := user];
      nextId := nextId + 1;
      if isDriver {
        user := user.(plate := plate);
        users := users[user.id := user];
      }
      r := Success(user);
    }
  }

  /** `LocationSerializer.get_user_location`: every location record of `user`, and no other. */
  function GetUserLocation(store: seq<Location>, user: UserId): (r: seq<Location>)
    ensures forall l :: multiset(r)[l] == if l.user == user then multiset(store)[l] else 0
  {
    Filter(store, (l: Location) => l.user == user)
  }

  /** What a caller of the store can conclude from `Create`'s contract alone: the
      registration of delivery/services/tests.py, then drivers with and without a plate,
      and a registration that leaves out `is_driver`. The test's username is plain ASCII,
      which normalization leaves unchanged. */
  method RegistrationExamples(normalizeUsername: string -> string)
    requires normalizeUsername("testuser") == "testuser"
  {
    var store := new UserStore();
    var customer := store.Create(RegistrationData("testuser", "password123", Some(false), None), normalizeUsername);
    assert customer.Success? && customer.value.username == "testuser" && !customer.value.isDriver;
    var noPlate := store.Create(RegistrationData("rider", "secret", Some(true), Some("")), normalizeUsername);
    assert noPlate.Failure?;
    var driver := store.Create(RegistrationData("rider", "secret", Some(true), Some("ABC123")), normalizeUsername);
    assert driver.Success? && driver.value.isDriver && driver.value.plate == Some("ABC123");
    assert store.users[driver.value.id] == driver.value;
    var walker := store.Create(RegistrationData("walker", "secret", None, Some("XYZ987")), normalizeUsername);
    assert walker.Success? && !walker.value.isDriver && walker.value.plate == Some(DefaultPlate);
  }
}
