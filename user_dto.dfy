/** The data transfer object exchanged with callers, and its mapping to and from User. */
module Dto {
  import opened Wrappers
  import opened Dates
  import opened Entity

  datatype UserDto = UserDto(
    id: Option<int>,
    email: Option<string>,
    firstName: Option<string>,
    lastName: Option<string>,
    birthDate: Option<Date>,
    address: Option<string>,
    phoneNumber: Option<string>)

  /** UserDto.toEntity: a User carrying the same seven values; null stays null. */
  function ToEntity(d: UserDto): (u: User)
    ensures u.id == d.id && u.email == d.email
    ensures u.firstName == d.firstName && u.lastName == d.lastName
    ensures u.birthDate == d.birthDate
    ensures u.address == d.address && u.phoneNumber == d.phoneNumber
  {
    User(d.id, d.email, d.firstName, d.lastName, d.birthDate, d.address, d.phoneNumber)
  }

  /** UserDto.fromEntity: a UserDto carrying the same seven values. */
  function FromEntity(u: User): (d: UserDto)
    ensures d.id == u.id && d.email == u.email
    ensures d.firstName == u.firstName && d.lastName == u.lastName
    ensures d.birthDate == u.birthDate
    ensures d.address == u.address && d.phoneNumber == u.phoneNumber
  {
    UserDto(u.id, u.email, u.firstName, u.lastName, u.birthDate, u.address, u.phoneNumber)
  }

  /** A DTO survives the trip to an entity and back (field-wise equality). */
  lemma DtoRoundTrip(d: UserDto)
    ensures FromEntity(ToEntity(d)) == d
  {
  }

  /** An entity survives the trip to a DTO and back. */
  lemma EntityRoundTrip(u: User)
    ensures ToEntity(FromEntity(u)) == u
  {
  }

  /** Hence fromEntity loses nothing: distinct users have distinct views. */
  lemma FromEntityInjective(u: User, v: User)
    requires FromEntity(u) == FromEntity(v)
    ensures u == v
  {
  }

  /** The stream map of the service's list queries: one view per user, in order. */
  function FromEntities(users: seq<User>): (r: seq<UserDto>)
    ensures |r| == |users|
    ensures forall i :: 0 <= i < |users| ==> r[i] == FromEntity(users[i])
  {
    if users == [] then [] else [FromEntity(users[0])] + FromEntities(users[1..])
  }
}
