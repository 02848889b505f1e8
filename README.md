# User registry: a verified model

This project models the core of a small user-registration REST service: the
in-memory user store (`UserDefaultStorage`), the service rules in front of it
(`UserServiceImpl`) and the mapping between the transfer object and the stored
entity (`UserDto.toEntity` / `fromEntity`).

- **Store** (`user_default_storage.dfy`, module `Storage`): a class holding
  `users: map<int, User>` and the counter `nextId`, plus a ghost set `issued` of
  every id ever handed out. `Valid()` says the issued ids are exactly `1..nextId`
  and every stored user sits under its own id. `save` takes the next counter
  value; `delete` never lowers the counter, so a deleted id is never handed out
  again. `update` is a field-by-field merge (`Merge`): a non-null draft field
  overwrites, a null one keeps the stored value, and id and email never change.
- **Service** (`user_service.dfy`, module `Service`): a class over the store.
  Each command checks first and writes second: on update and delete the id
  must exist, and on save (and on update when a birth date is supplied) the birth
  date must not lie strictly after today minus 18 years. A failure is a
  `NotFound(msg)` or `Underage(msg)` result and leaves the store unchanged. The
  queries are pure functions of a snapshot of the store: `FromEntities` (stream
  map) and `FilterByBirthDateRange` (stream filter, both bounds exclusive).
  The service also keeps the invariant that every stored user has a birth date.
  Save needs the birth date, update never clears it, and the range query
  dereferences it.
- **Dates** (`dates.dfy`): the part of `java.time.LocalDate` in use: ISO
  proleptic leap years, `isAfter`/`isBefore`, and `minusYears`, which moves
  February 29 back to February 28 in a common year. `AgeInYears` is an
  independent definition of age in whole years. The lemma
  `AfterMinusYearsIffYounger` proves that the source's test, "born after today
  minus n years", means exactly "younger than n years".
- **DTO** (`user_dto.dfy`): both mappings copy the seven fields, and the two
  round trips hold.
- **Messages** (`messages.dfy`): the exception messages. The not-found message
  prints the id as `Long.toString` does; it is proved injective, so the message
  identifies the id.
- **Scenarios** (`scenarios.dfy`): client runs proved from the contracts alone.
  Two registrations get ids 1 and 2; deleting 1 makes lookups and a second
  delete of 1 fail; the list then holds user 2 alone. An underage registration
  leaves the list empty. A user seeded straight into the store with an underage
  birth date can still have its phone number changed. The update and range
  fixtures of the test utilities are also proved.

"Today" (`LocalDate.now()` in the source) is a parameter of every operation that
needs it. Nullable Java references are `Option` values.

## Model

| member | source | states |
|---|---|---|
| `Dto.ToEntity` | src/main/java/ua/mykola/UserRESTfulAPI/rest/dto/UserDto.java:55-65 | the entity carries the DTO's seven values unchanged, null staying null |
| `Dto.FromEntity` | src/main/java/ua/mykola/UserRESTfulAPI/rest/dto/UserDto.java:67-77 | the DTO carries the entity's seven values unchanged |
| `Dto.DtoRoundTrip` | src/main/java/ua/mykola/UserRESTfulAPI/rest/dto/UserDto.java:55-77 | fromEntity(toEntity(d)) == d field-wise |
| `Dto.EntityRoundTrip` | src/main/java/ua/mykola/UserRESTfulAPI/rest/dto/UserDto.java:55-77 | toEntity(fromEntity(u)) == u field-wise |
| `Dto.FromEntityInjective` | src/main/java/ua/mykola/UserRESTfulAPI/rest/dto/UserDto.java:67-77 | distinct users have distinct views |
| `Dto.FromEntities` | src/main/java/ua/mykola/UserRESTfulAPI/service/UserServiceImpl.java:45-47 | the stream map yields one view per user, same length, same order |
| `Dates.MinusYears` | src/main/java/ua/mykola/UserRESTfulAPI/service/UserServiceImpl.java:122 | same month, year lowered by n, a valid date stays valid, and the day is kept except Feb 29 becomes Feb 28 in a common year |
| `Dates.BeforeIrreflexive` | src/main/java/ua/mykola/UserRESTfulAPI/service/UserServiceImpl.java:75-76 | no date is before or after itself |
| `Dates.BeforeTransitive` | src/main/java/ua/mykola/UserRESTfulAPI/service/UserServiceImpl.java:75-76 | isBefore is transitive |
| `Dates.BeforeTotal` | src/main/java/ua/mykola/UserRESTfulAPI/service/UserServiceImpl.java:75-76 | any two dates are equal or ordered |
| `Dates.MinusMoreYearsIsEarlier` | src/main/java/ua/mykola/UserRESTfulAPI/service/UserServiceImpl.java:122 | subtracting more years gives a strictly earlier date |
| `Dates.AfterMinusYearsIffYounger` | src/main/java/ua/mykola/UserRESTfulAPI/service/UserServiceImpl.java:121-126 | born strictly after today minus n years exactly when the whole-year age is below n, leap days included |
| `Storage.Merge` | src/main/java/ua/mykola/UserRESTfulAPI/dao/UserDefaultStorage.java:51-73 | id and email stay the stored ones; each of the five other fields takes the draft value when non-null and keeps the stored value otherwise |
| `Storage.MergeEmptyDraft` | src/main/java/ua/mykola/UserRESTfulAPI/dao/UserDefaultStorage.java:54-72 | a draft with no mergeable field leaves the user unchanged |
| `Storage.MergeIdempotent` | src/main/java/ua/mykola/UserRESTfulAPI/dao/UserDefaultStorage.java:54-72 | applying the same draft twice equals applying it once |
| `Storage.MergeSuccessive` | src/main/java/ua/mykola/UserRESTfulAPI/dao/UserDefaultStorage.java:54-72 | two updates equal one update with the later draft laid over the earlier |
| `Storage.MergeNeverClears` | src/main/java/ua/mykola/UserRESTfulAPI/dao/UserDefaultStorage.java:54-72 | a stored non-null field never becomes null |
| `Storage.UserDefaultStorage.constructor` | src/main/java/ua/mykola/UserRESTfulAPI/dao/UserDefaultStorage.java:18-19 | an empty store with counter 0 satisfying the invariant |
| `Storage.UserDefaultStorage.GetAll` | src/main/java/ua/mykola/UserRESTfulAPI/dao/UserDefaultStorage.java:22-24 | every stored user exactly once, each the user under its own id, length equal to the map size, order unspecified |
| `Storage.UserDefaultStorage.Save` | src/main/java/ua/mykola/UserRESTfulAPI/dao/UserDefaultStorage.java:27-32 | counter goes up by exactly 1, the new id was never issued before, the user is stored under it with that id, nothing else changes |
| `Storage.UserDefaultStorage.GetById` | src/main/java/ua/mykola/UserRESTfulAPI/dao/UserDefaultStorage.java:35-37 | Some(u) exactly when the id is a key holding u, None otherwise |
| `Storage.UserDefaultStorage.IsExist` | src/main/java/ua/mykola/UserRESTfulAPI/dao/UserDefaultStorage.java:40-42 | key membership, agreeing with getById |
| `Storage.UserDefaultStorage.Delete` | src/main/java/ua/mykola/UserRESTfulAPI/dao/UserDefaultStorage.java:45-47 | only that key is removed, an absent id is a no-op, counter and issued ids unchanged |
| `Storage.UserDefaultStorage.Update` | src/main/java/ua/mykola/UserRESTfulAPI/dao/UserDefaultStorage.java:50-74 | requires the id present; the entry becomes the merge of stored user and draft, keys, other entries and counter unchanged |
| `Messages.DecimalRoundTrip` | src/main/java/ua/mykola/UserRESTfulAPI/service/UserServiceImpl.java:137 | reading back the printed digits of a number gives the number |
| `Messages.LongToStringInjective` | src/main/java/ua/mykola/UserRESTfulAPI/service/UserServiceImpl.java:137 | different ids print differently, negative ones included |
| `Messages.NotFoundMessage` | src/main/java/ua/mykola/UserRESTfulAPI/service/UserServiceImpl.java:60 | the message is "User by id:", the printed id, " was not found" |
| `Messages.NotFoundMessageInjective` | src/main/java/ua/mykola/UserRESTfulAPI/service/UserServiceImpl.java:137 | equal not-found messages come from equal ids |
| `Messages.NotFoundMessageForIdOne` | src/test/java/ua/mykola/UserRESTfulAPI/service/UserServiceImplTest.java:45 | the message for id 1 is the one the tests expect |
| `Service.IsUnderagePerson` | src/main/java/ua/mykola/UserRESTfulAPI/service/UserServiceImpl.java:121-126 | fails with the underage message exactly when the birth date is strictly after today minus 18 years |
| `Service.UnderageMeansYoungerThan18` | src/main/java/ua/mykola/UserRESTfulAPI/service/UserServiceImpl.java:121-126 | the rule rejects exactly those younger than 18 whole years |
| `Service.EighteenthBirthdayAccepted` | src/main/java/ua/mykola/UserRESTfulAPI/service/UserServiceImpl.java:122-123 | the boundary date today minus 18 years is accepted |
| `Service.FixtureAges` | src/test/java/ua/mykola/UserRESTfulAPI/testEntities/UserUtil.java:10-47 | born 17 years ago is rejected, 20 years ago accepted |
| `Service.FilterByBirthDateRange` | src/main/java/ua/mykola/UserRESTfulAPI/service/UserServiceImpl.java:73-78 | the filter never yields more views than there are input users |
| `Service.FilterExact` | src/main/java/ua/mykola/UserRESTfulAPI/service/UserServiceImpl.java:73-78 | every result is the view of an input user strictly inside the range, and each in-range user's view appears as often as the user occurs in the input |
| `Service.BoundsExcluded` | src/main/java/ua/mykola/UserRESTfulAPI/service/UserServiceImpl.java:75-76 | both bounds are exclusive: a user born exactly on `from` or on `to` is not in range |
| `Service.FilterConcat` | src/main/java/ua/mykola/UserRESTfulAPI/service/UserServiceImpl.java:73-78 | the filter keeps the input order: filtering a concatenation concatenates the filtered parts |
| `Service.RangeQueryOverStore` | src/main/java/ua/mykola/UserRESTfulAPI/service/UserServiceImpl.java:72-79 | over a store snapshot, every result is the view of a stored user inside the range, and each stored user's view appears once if its birth date is strictly between the bounds and not at all otherwise |
| `Service.UserServiceImpl.constructor` | src/main/java/ua/mykola/UserRESTfulAPI/service/UserServiceImpl.java:19-21 | the service wraps the given store and starts valid |
| `Service.UserServiceImpl.IsUserExist` | src/main/java/ua/mykola/UserRESTfulAPI/service/UserServiceImpl.java:135-139 | fails with the not-found message exactly when the id is absent |
| `Service.UserServiceImpl.Save` | src/main/java/ua/mykola/UserRESTfulAPI/service/UserServiceImpl.java:31-35 | underage: Underage result and the store unchanged; otherwise one store save, a fresh id, and the draft returned with that id |
| `Service.UserServiceImpl.GetAll` | src/main/java/ua/mykola/UserRESTfulAPI/service/UserServiceImpl.java:43-48 | one view per stored user: as many views as users, each the view of the user under its id, every user's view present, none repeated |
| `Service.UserServiceImpl.GetById` | src/main/java/ua/mykola/UserRESTfulAPI/service/UserServiceImpl.java:58-62 | the view of the stored user, or NotFound carrying the id's message when absent |
| `Service.UserServiceImpl.GetByBirthDateRange` | src/main/java/ua/mykola/UserRESTfulAPI/service/UserServiceImpl.java:72-79 | the range filter of the store's getAll list, in that order: the view of each stored user born strictly between the bounds, once, and nothing else |
| `Service.UserServiceImpl.Update` | src/main/java/ua/mykola/UserRESTfulAPI/service/UserServiceImpl.java:91-100 | absent id: NotFound, unchanged; supplied underage birth date: Underage, unchanged; otherwise the merge of the supplied fields under that id and its view returned |
| `Service.UserServiceImpl.Delete` | src/main/java/ua/mykola/UserRESTfulAPI/service/UserServiceImpl.java:109-112 | absent id: NotFound, unchanged; otherwise exactly that id removed |
| `Scenarios.RegistrationScenario` | src/main/java/ua/mykola/UserRESTfulAPI/dao/UserDefaultStorage.java:27-47 | ids 1 then 2; after delete(1) lookup and a second delete fail; the list holds user 2 alone |
| `Scenarios.UnderageScenario` | src/test/java/ua/mykola/UserRESTfulAPI/service/UserServiceImplTest.java:63-75 | an underage registration fails and nothing is stored |
| `Scenarios.SeededUnderageUpdateScenario` | src/main/java/ua/mykola/UserRESTfulAPI/service/UserServiceImpl.java:93-95 | without a supplied birth date the age rule is skipped, even for a stored underage user |
| `Scenarios.UpdateFixture` | src/test/java/ua/mykola/UserRESTfulAPI/testEntities/UserUtil.java:48-67 | the update fixture changes exactly first name and phone number |
| `Scenarios.RangeFixture` | src/test/java/ua/mykola/UserRESTfulAPI/service/UserServiceImplTest.java:172-189 | from users born 40 and 30 years ago, only the latter lies between 35 years ago and today |

## Left out

- HTTP routing, status codes, response bodies and the joining of validation messages (`UserController`, `AdviceController`, `ErrorMessage`): transport, outside the core.
- The Jakarta validation annotations on `UserDto`: run by a library outside the model; drafts are taken as already syntactically valid. Since `@Past` admits a null birth date, `Service.UserServiceImpl.Save` carries the source's own demand for a non-null birth date as a precondition (it is dereferenced at `UserServiceImpl.java:123`).
- `LocalDate.now()`: the clock is replaced by a `today` parameter.
- Thread safety of `AtomicLong` and the unsynchronised `HashMap`: the model is sequential and `nextId` is a plain integer.
- Storage.UserDefaultStorage.Save: ids are unbounded integers; the wrap-around of the 64-bit counter after 2^63 - 1 saves is not modelled.
- Dates.MinusYears: the `LocalDate` year range (±999,999,999) and the exception `minusYears` throws beyond it are not modelled.
- Java object aliasing: the source's `save`, `getById` and `getAll` hand out the stored mutable objects, and `update` mutates the found object in place; the model stores values and replaces the map entry.
- `Storage.UserDefaultStorage.GetAll` visits ids in ascending order, one of the orders a `HashMap` may produce; its contract promises no order.
- Service.UserServiceImpl.constructor: the service invariant demands that every stored user has a birth date, so a store seeded directly with a null birth date is outside the model; on such a store the source's getAll, getById, update and delete still work, and only getByBirthDateRange fails with a NullPointerException (`UserServiceImpl.java:75`).
- Lombok `toString`, the builders and `hashCode`; the exception classes are the `Result` variants carrying their messages.
