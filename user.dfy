/** The stored user record.  Every field is a nullable Java reference, hence an Option. */
module Entity {
  import opened Wrappers
  import opened Dates

  datatype User = User(
    id: Option<int>,
    email: Option<string>,
    firstName: Option<string>,
    lastName: Option<string>,
    birthDate: Option<Date>,
    address: Option<string>,
    phoneNumber: Option<string>)
}
