/**
 * The records of the delivery app's database (delivery/services/models.py).
 * Identifiers are natural numbers standing for UUIDs, timestamps are integers
 * and coordinates are reals.
 */
module Models {
  import opened Wrappers

  type UserId = nat
  type LocationId = nat
  type Timestamp = int

  /** A user account; `plate` is a nullable column whose default is the empty string. */
  datatype User = User(id: UserId, username: string, isDriver: bool, plate: Option<string>)

  /** The default of the `plate` column. */
  const DefaultPlate: string := ""

  /** One reported position of a user; the service only ever appends records. */
  datatype Location = Location(
    id: LocationId,
    user: UserId,
    address: string,
    latitude: real,
    longitude: real,
    createdAt: Timestamp)

  /** The join `user__is_driver=True`: the referenced user exists and is a driver. */
  predicate IsDriverId(users: map<UserId, User>, id: UserId) {
    id in users && users[id].isDriver
  }
}
