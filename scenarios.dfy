/**
 * Client runs of the service, stated only in terms of its contracts: two
 * registrations, a delete and the lookups after it, and the test fixtures.
 */
module Scenarios {
  import opened Wrappers
  import opened Dates
  import opened Entity
  import opened Dto
  import opened Storage
  import opened Messages
  import opened Service

  /** A draft registering an adult born on the given date. */
  function MarkBohn(birthDate: Date): UserDto
  {
    UserDto(None, Some("mark@gmail.com"), Some("Mark"), Some("Bohn"), Some(birthDate),
            Some("str. Street"), Some("1234"))
  }

  /**
   * Two registrations get ids 1 and 2; after deleting 1, looking it up or
   * deleting it again fails, and the full list holds user 2 alone.
   */
  method RegistrationScenario(today: Date)
    returns (first: Result<UserDto>, second: Result<UserDto>, afterDelete: Result<UserDto>,
             secondDelete: Result<()>, remaining: seq<UserDto>)
    ensures first.Ok? && first.value.id == Some(1)
    ensures second.Ok? && second.value.id == Some(2)
    ensures afterDelete == NotFound(NotFoundMessage(1))
    ensures secondDelete == NotFound(NotFoundMessage(1))
    ensures |remaining| == 1 && remaining[0].id == Some(2)
  {
    var storage := new UserDefaultStorage();
    var service := new UserServiceImpl(storage);
    var draft := MarkBohn(MinusYears(today, 20));
    FixtureAges(today);
    first := service.Save(draft, today);
    second := service.Save(draft, today);
    var deleted := service.Delete(1);
    assert storage.users.Keys == {2};
    afterDelete := service.GetById(1);
    secondDelete := service.Delete(1);
    remaining := service.GetAll();
    assert remaining[0].id.value in storage.users;
  }

  /** An underage registration fails and the list stays empty. */
  method UnderageScenario(today: Date) returns (saved: Result<UserDto>, all: seq<UserDto>)
    ensures saved == Underage(UnderageMessage)
    ensures all == []
  {
    var storage := new UserDefaultStorage();
    var service := new UserServiceImpl(storage);
    FixtureAges(today);
    saved := service.Save(MarkBohn(MinusYears(today, 17)), today);
    all := service.GetAll();
  }

  /**
   * A user stored directly with a birth date 16 years back can still have its
   * phone number changed: the age rule only looks at a supplied birth date.
   */
  method SeededUnderageUpdateScenario(today: Date) returns (updated: Result<UserDto>)
    ensures updated.Ok? && updated.value.phoneNumber == Some("999")
    ensures updated.Ok? && updated.value.birthDate == Some(MinusYears(today, 16))
  {
    var storage := new UserDefaultStorage();
    var seeded := storage.Save(ToEntity(MarkBohn(MinusYears(today, 16))));
    var service := new UserServiceImpl(storage);
    var draft := UserDto(None, None, None, None, None, None, Some("999"));
    updated := service.Update(1, draft, today);
  }

  /**
   * The update fixture: a draft with a new first name and phone number changes
   * exactly those two fields of the persisted user.
   */
  lemma UpdateFixture(today: Date)
    ensures
      var persisted := ToEntity(MarkBohn(MinusYears(today, 20))).(id := Some(1));
      var draft := UserDto(None, None, Some("Markiyan"), None, None, None, Some("12345"));
      Merge(persisted, ToEntity(draft).(id := Some(1))) ==
        persisted.(firstName := Some("Markiyan"), phoneNumber := Some("12345"))
  {
  }

  /**
   * The range fixture: of users born 40 and 30 years ago, only the second lies
   * strictly between 35 years ago and today.
   */
  lemma RangeFixture(today: Date, lisa: User, alex: User)
    requires lisa.birthDate == Some(MinusYears(today, 40))
    requires alex.birthDate == Some(MinusYears(today, 30))
    ensures FilterByBirthDateRange([lisa, alex], MinusYears(today, 35), today) == [FromEntity(alex)]
  {
  }
}
