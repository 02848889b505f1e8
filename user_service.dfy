/**
 * UserServiceImpl: the business rules in front of the store.  Every check runs
 * before any write, and a failed check leaves the store as it was.  The current
 * date, which the source reads from the clock, is a parameter.
 */
module Service {
  import opened Wrappers
  import opened Dates
  import opened Entity
  import opened Dto
  import opened Storage
  import opened Messages

  /** The outcome of a service call: a value, or the exception the source throws. */
  datatype Result<T> = Ok(value: T) | NotFound(msg: string) | Underage(msg: string)

  /** The minimum age, in whole years, for a registered user. */
  const MinimumAge: int := 18

  /**
   * isUnderagePerson: fails exactly when the birth date lies strictly after
   * today minus 18 years.
   */
  function IsUnderagePerson(birthDate: Date, today: Date): (r: Result<()>)
    ensures r.Ok? || r == Underage(UnderageMessage)
    ensures r.Underage? <==> IsAfter(birthDate, MinusYears(today, MinimumAge))
  {
    var minPossibleDate := MinusYears(today, MinimumAge);
    if IsAfter(birthDate, minPossibleDate) then Underage(UnderageMessage) else Ok(())
  }

  /** The age rule is "younger than 18 whole years", leap days included. */
  lemma UnderageMeansYoungerThan18(birthDate: Date, today: Date)
    requires IsValid(birthDate) && IsValid(today)
    ensures IsUnderagePerson(birthDate, today).Underage? <==> AgeInYears(birthDate, today) < 18
  {
  }

  /** The boundary is inclusive: someone turning 18 today is accepted. */
  lemma EighteenthBirthdayAccepted(today: Date)
    ensures IsUnderagePerson(MinusYears(today, 18), today).Ok?
  {
  }

  /** The test fixtures: born 17 years ago is rejected, 20 years ago accepted. */
  lemma FixtureAges(today: Date)
    ensures IsUnderagePerson(MinusYears(today, 17), today) == Underage(UnderageMessage)
    ensures IsUnderagePerson(MinusYears(today, 20), today).Ok?
  {
  }

  /** The filter of getByBirthDateRange: both bounds are exclusive. */
  predicate InBirthDateRange(user: User, from: Date, to: Date)
  {
    user.birthDate.Some? && IsAfter(user.birthDate.value, from) && IsBefore(user.birthDate.value, to)
  }

  /** Both bounds are exclusive: a user born on either bound is not in range. */
  lemma BoundsExcluded(user: User, from: Date, to: Date)
    requires user.birthDate == Some(from) || user.birthDate == Some(to)
    ensures !InBirthDateRange(user, from, to)
  {
    BeforeIrreflexive(user.birthDate.value);
  }

  /**
   * The stream filter and map of getByBirthDateRange over a list of users.  Each
   * user's birth date is dereferenced, so none may be null.
   */
  function FilterByBirthDateRange(users: seq<User>, from: Date, to: Date): (r: seq<UserDto>)
    requires forall i :: 0 <= i < |users| ==> users[i].birthDate.Some?
    ensures |r| <= |users|
    decreases |users|
  {
    if users == [] then []
    else
      var rest := FilterByBirthDateRange(users[1..], from, to);
      if InBirthDateRange(users[0], from, to) then [FromEntity(users[0])] + rest else rest
  }

  /**
   * The filter holds the view of every user in range as often as the user occurs
   * in the input, and nothing else.
   */
  lemma {:induction false} FilterExact(users: seq<User>, from: Date, to: Date)
    requires forall i :: 0 <= i < |users| ==> users[i].birthDate.Some?
    ensures var r := FilterByBirthDateRange(users, from, to);
      forall u :: multiset(r)[FromEntity(u)] ==
        (if InBirthDateRange(u, from, to) then multiset(users)[u] else 0)
    ensures var r := FilterByBirthDateRange(users, from, to);
      forall d :: d in r ==> ToEntity(d) in users && InBirthDateRange(ToEntity(d), from, to)
    decreases |users|
  {
    var r := FilterByBirthDateRange(users, from, to);
    if users != [] {
      FilterExact(users[1..], from, to);
      assert users == [users[0]] + users[1..];
      forall d | d in r ensures ToEntity(d) in users && InBirthDateRange(ToEntity(d), from, to) {
        DtoRoundTrip(d);
        assert multiset(r)[FromEntity(ToEntity(d))] > 0;
      }
    }
  }

  /** The filter keeps the input order: filtering a concatenation concatenates the filtered parts. */
  lemma {:induction false} FilterConcat(a: seq<User>, b: seq<User>, from: Date, to: Date)
    requires forall i :: 0 <= i < |a| ==> a[i].birthDate.Some?
    requires forall i :: 0 <= i < |b| ==> b[i].birthDate.Some?
    ensures forall i :: 0 <= i < |a + b| ==> (a + b)[i].birthDate.Some?
    ensures FilterByBirthDateRange(a + b, from, to) ==
      FilterByBirthDateRange(a, from, to) + FilterByBirthDateRange(b, from, to)
    decreases |a|
  {
    if a == [] {
      assert a + b == b;
    } else {
      assert (a + b)[0] == a[0] && (a + b)[1..] == a[1..] + b;
      FilterConcat(a[1..], b, from, to);
      FilterStep(a + b, from, to);
      FilterStep(a, from, to);
    }
  }

  /** One step of the filter: the head's view, if in range, before the filtered tail. */
  lemma FilterStep(users: seq<User>, from: Date, to: Date)
    requires users != []
    requires forall i :: 0 <= i < |users| ==> users[i].birthDate.Some?
    ensures FilterByBirthDateRange(users, from, to) ==
      (if InBirthDateRange(users[0], from, to) then [FromEntity(users[0])] else []) +
      FilterByBirthDateRange(users[1..], from, to)
  {
  }

  /** Every stored user has a birth date: save demands one and update never clears it. */
  ghost predicate BirthDatesPresent(users: map<int, User>)
  {
    forall k :: k in users ==> users[k].birthDate.Some?
  }

  /** `view` is the view of the user the store holds under the view's own id. */
  ghost predicate IsViewOfStored(view: UserDto, users: map<int, User>)
  {
    view.id.Some? && view.id.value in users && view == FromEntity(users[view.id.value])
  }

  /** In a list without repetitions every element occurs exactly once. */
  lemma {:induction false} OccursOnce(s: seq<User>, x: User)
    requires forall i, j :: 0 <= i < j < |s| ==> s[i] != s[j]
    requires x in s
    ensures multiset(s)[x] == 1
    decreases |s|
  {
    assert s == [s[0]] + s[1..];
    if s[0] == x {
      forall i | 0 <= i < |s[1..]| ensures s[1..][i] != x {
        assert s[1..][i] == s[i + 1];
      }
      assert x !in s[1..];
    } else {
      forall i, j | 0 <= i < j < |s[1..]| ensures s[1..][i] != s[1..][j] {
        assert s[1..][i] == s[i + 1] && s[1..][j] == s[j + 1];
      }
      OccursOnce(s[1..], x);
    }
  }

  /**
   * Applied to a snapshot of the store, the range query returns views of stored
   * users inside the range only, and the view of each stored user inside the
   * range exactly once.
   */
  lemma RangeQueryOverStore(snapshot: seq<User>, users: map<int, User>, from: Date, to: Date)
    requires Enumerates(snapshot, users)
    requires forall i :: 0 <= i < |snapshot| ==> snapshot[i].birthDate.Some?
    ensures var r := FilterByBirthDateRange(snapshot, from, to);
      forall i :: 0 <= i < |r| ==>
        IsViewOfStored(r[i], users) && InBirthDateRange(ToEntity(r[i]), from, to)
    ensures var r := FilterByBirthDateRange(snapshot, from, to);
      forall k :: k in users ==>
        multiset(r)[FromEntity(users[k])] == (if InBirthDateRange(users[k], from, to) then 1 else 0)
  {
    var r := FilterByBirthDateRange(snapshot, from, to);
    FilterExact(snapshot, from, to);
    forall i | 0 <= i < |r|
      ensures IsViewOfStored(r[i], users) && InBirthDateRange(ToEntity(r[i]), from, to)
    {
      assert r[i] in r;
      var j :| 0 <= j < |snapshot| && snapshot[j] == ToEntity(r[i]);
      DtoRoundTrip(r[i]);
    }
    forall k | k in users
      ensures multiset(r)[FromEntity(users[k])] == (if InBirthDateRange(users[k], from, to) then 1 else 0)
    {
      OccursOnce(snapshot, users[k]);
    }
  }

  class UserServiceImpl {
    const userStorage: UserDefaultStorage

    ghost predicate Valid()
      reads this, userStorage
    {
      userStorage.Valid() && BirthDatesPresent(userStorage.users)
    }

    constructor (userStorage: UserDefaultStorage)
      requires userStorage.Valid() && BirthDatesPresent(userStorage.users)
      ensures this.userStorage == userStorage
      ensures Valid()
    {
      this.userStorage := userStorage;
    }

    /** isUserExist: fails with the not-found message exactly when the id is absent. */
    function IsUserExist(id: int): (r: Result<()>)
      reads userStorage
      ensures r.Ok? <==> id in userStorage.users
      ensures !r.Ok? ==> r == NotFound(NotFoundMessage(id))
    {
      if !userStorage.IsExist(id) then NotFound(NotFoundMessage(id)) else Ok(())
    }

    /**
     * save: an underage birth date is refused before anything is written;
     * otherwise the store saves the user once, and the caller gets back its own
     * draft with the new id filled in.
     */
    method Save(userDto: UserDto, today: Date) returns (r: Result<UserDto>)
      requires Valid()
      requires userDto.birthDate.Some?
      modifies userStorage
      ensures Valid()
      ensures IsUnderagePerson(userDto.birthDate.value, today).Underage? ==>
        r == Underage(UnderageMessage) &&
        userStorage.users == old(userStorage.users) &&
        userStorage.nextId == old(userStorage.nextId) &&
        userStorage.issued == old(userStorage.issued)
      ensures IsUnderagePerson(userDto.birthDate.value, today).Ok? ==>
        userStorage.nextId == old(userStorage.nextId) + 1 &&
        userStorage.nextId !in old(userStorage.issued) &&
        userStorage.issued == old(userStorage.issued) + {userStorage.nextId} &&
        userStorage.users ==
          old(userStorage.users)[userStorage.nextId := ToEntity(userDto).(id := Some(userStorage.nextId))] &&
        r == Ok(userDto.(id := Some(userStorage.nextId)))
    {
      var check := IsUnderagePerson(userDto.birthDate.value, today);
      if check.Underage? {
        return Underage(check.msg);
      }
      var savedUser := userStorage.Save(ToEntity(userDto));
      r := Ok(FromEntity(savedUser));
    }

    /** getAll: the view of every stored user, each exactly once, in no promised order. */
    method GetAll() returns (r: seq<UserDto>)
      requires Valid()
      ensures |r| == |userStorage.users|
      ensures forall i :: 0 <= i < |r| ==> IsViewOfStored(r[i], userStorage.users)
      ensures forall k :: k in userStorage.users ==> FromEntity(userStorage.users[k]) in r
      ensures forall i, j :: 0 <= i < j < |r| ==> r[i] != r[j]
    {
      var obtainedUsers := userStorage.GetAll();
      r := FromEntities(obtainedUsers);
      forall k | k in userStorage.users ensures FromEntity(userStorage.users[k]) in r {
        var j :| 0 <= j < |obtainedUsers| && obtainedUsers[j] == userStorage.users[k];
        assert r[j] == FromEntity(userStorage.users[k]);
      }
    }

    /** getById: the view of the stored user, or the not-found message carrying the id. */
    function GetById(id: int): (r: Result<UserDto>)
      reads userStorage
      ensures r.Ok? <==> id in userStorage.users
      ensures r.Ok? ==> r.value == FromEntity(userStorage.users[id])
      ensures !r.Ok? ==> r == NotFound(NotFoundMessage(id))
    {
      match userStorage.GetById(id)
      case Some(foundUser) => Ok(FromEntity(foundUser))
      case None => NotFound(NotFoundMessage(id))
    }

    /**
     * getByBirthDateRange: the range filter applied to the store's getAll list
     * (`snapshot`), hence the view of each stored user born strictly between the
     * bounds, once, and nothing else.
     */
    method GetByBirthDateRange(from: Date, to: Date) returns (r: seq<UserDto>, ghost snapshot: seq<User>)
      requires Valid()
      ensures Enumerates(snapshot, userStorage.users)
      ensures forall i :: 0 <= i < |snapshot| ==> snapshot[i].birthDate.Some?
      ensures r == FilterByBirthDateRange(snapshot, from, to)
      ensures forall i :: 0 <= i < |r| ==>
        IsViewOfStored(r[i], userStorage.users) && InBirthDateRange(ToEntity(r[i]), from, to)
      ensures forall k :: k in userStorage.users ==>
        multiset(r)[FromEntity(userStorage.users[k])] ==
          (if InBirthDateRange(userStorage.users[k], from, to) then 1 else 0)
    {
      var all := userStorage.GetAll();
      assert BirthDatesPresent(userStorage.users);
      forall i | 0 <= i < |all| ensures all[i].birthDate.Some? {
        var k := all[i].id.value;
        assert userStorage.users[k] == all[i];
      }
      snapshot := all;
      r := FilterByBirthDateRange(all, from, to);
      RangeQueryOverStore(all, userStorage.users, from, to);
    }

    /**
     * update: an absent id fails first, then a supplied birth date is checked
     * for age (an omitted one is not); only then are the supplied fields merged
     * into the stored user.
     */
    method Update(id: int, userDto: UserDto, today: Date) returns (r: Result<UserDto>)
      requires Valid()
      modifies userStorage
      ensures Valid()
      ensures userStorage.nextId == old(userStorage.nextId) && userStorage.issued == old(userStorage.issued)
      ensures id !in old(userStorage.users) ==>
        r == NotFound(NotFoundMessage(id)) && userStorage.users == old(userStorage.users)
      ensures id in old(userStorage.users) && userDto.birthDate.Some? &&
              IsUnderagePerson(userDto.birthDate.value, today).Underage? ==>
        r == Underage(UnderageMessage) && userStorage.users == old(userStorage.users)
      ensures id in old(userStorage.users) &&
              (userDto.birthDate.None? || IsUnderagePerson(userDto.birthDate.value, today).Ok?) ==>
        var merged := Merge(old(userStorage.users)[id], ToEntity(userDto).(id := Some(id)));
        userStorage.users == old(userStorage.users)[id := merged] && r == Ok(FromEntity(merged))
    {
      var found := IsUserExist(id);
      if found.NotFound? {
        return NotFound(found.msg);
      }
      if userDto.birthDate.Some? {
        var check := IsUnderagePerson(userDto.birthDate.value, today);
        if check.Underage? {
          return Underage(check.msg);
        }
      }
      var updatedUser := ToEntity(userDto).(id := Some(id));
      updatedUser := userStorage.Update(updatedUser);
      r := Ok(FromEntity(updatedUser));
    }

    /** delete: an absent id fails and changes nothing; otherwise that user is gone. */
    method Delete(id: int) returns (r: Result<()>)
      requires Valid()
      modifies userStorage
      ensures Valid()
      ensures userStorage.nextId == old(userStorage.nextId) && userStorage.issued == old(userStorage.issued)
      ensures id !in old(userStorage.users) ==>
        r == NotFound(NotFoundMessage(id)) && userStorage.users == old(userStorage.users)
      ensures id in old(userStorage.users) ==>
        r == Ok(()) && userStorage.users == old(userStorage.users) - {id}
    {
      var found := IsUserExist(id);
      if found.NotFound? {
        return NotFound(found.msg);
      }
      userStorage.Delete(id);
      r := Ok(());
    }
  }
}
