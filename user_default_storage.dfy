/**
 * UserDefaultStorage: the in-memory user registry.  A map from id to user and a
 * counter from which every new id is drawn.
 */
module Storage {
  import opened Wrappers
  import opened Dates
  import opened Entity

  /** One field of a merge: a supplied (non-null) draft value wins, an omitted one keeps the stored value. */
  predicate MergedField<T(==)>(stored: Option<T>, draft: Option<T>, merged: Option<T>)
  {
    (draft.Some? ==> merged == draft) && (draft.None? ==> merged == stored)
  }

  /**
   * The update merge: each non-null draft field among first name, last name,
   * address, phone number and birth date overwrites the stored one.  Id and
   * email always stay those of the stored user (the email is assigned to itself).
   */
  function Merge(stored: User, draft: User): (r: User)
    ensures r.id == stored.id && r.email == stored.email
    ensures MergedField(stored.firstName, draft.firstName, r.firstName)
    ensures MergedField(stored.lastName, draft.lastName, r.lastName)
    ensures MergedField(stored.address, draft.address, r.address)
    ensures MergedField(stored.phoneNumber, draft.phoneNumber, r.phoneNumber)
    ensures MergedField(stored.birthDate, draft.birthDate, r.birthDate)
  {
    var firstName := if draft.firstName != None then draft.firstName else stored.firstName;
    var lastName := if draft.lastName != None then draft.lastName else stored.lastName;
    var address := if draft.address != None then draft.address else stored.address;
    var phoneNumber := if draft.phoneNumber != None then draft.phoneNumber else stored.phoneNumber;
    var birthDate := if draft.birthDate != None then draft.birthDate else stored.birthDate;
    User(stored.id, stored.email, firstName, lastName, birthDate, address, phoneNumber)
  }

  /** A draft that supplies none of the mergeable fields changes nothing. */
  lemma MergeEmptyDraft(stored: User, draft: User)
    requires draft.firstName == None && draft.lastName == None && draft.address == None
    requires draft.phoneNumber == None && draft.birthDate == None
    ensures Merge(stored, draft) == stored
  {
  }

  /** Applying the same draft twice is the same as applying it once. */
  lemma MergeIdempotent(stored: User, draft: User)
    ensures Merge(Merge(stored, draft), draft) == Merge(stored, draft)
  {
  }

  /** Two successive updates equal one update with the later draft laid over the earlier one. */
  lemma MergeSuccessive(stored: User, first: User, second: User)
    ensures Merge(Merge(stored, first), second) == Merge(stored, Merge(first, second))
  {
  }

  /** A merge never clears a field: there is no way to set a stored value back to null. */
  lemma MergeNeverClears(stored: User, draft: User)
    ensures stored.firstName.Some? ==> Merge(stored, draft).firstName.Some?
    ensures stored.lastName.Some? ==> Merge(stored, draft).lastName.Some?
    ensures stored.address.Some? ==> Merge(stored, draft).address.Some?
    ensures stored.phoneNumber.Some? ==> Merge(stored, draft).phoneNumber.Some?
    ensures stored.birthDate.Some? ==> Merge(stored, draft).birthDate.Some?
  {
  }

  /**
   * `all` lists the stored users, each exactly once, in some order: the contract
   * of `new ArrayList<>(users.values())`, whose order a HashMap leaves
   * unspecified.  Each element is the user stored under its own id.
   */
  ghost predicate Enumerates(all: seq<User>, users: map<int, User>)
  {
    |all| == |users| &&
    (forall i :: 0 <= i < |all| ==>
      all[i].id.Some? && all[i].id.value in users && users[all[i].id.value] == all[i]) &&
    (forall k :: k in users ==> users[k] in all) &&
    (forall i, j :: 0 <= i < j < |all| ==> all[i] != all[j])
  }

  class UserDefaultStorage {
    /** The last id handed out (AtomicLong starting at 0). */
    var nextId: int
    var users: map<int, User>
    /** Every id ever handed out, including those of deleted users. */
    ghost var issued: set<int>

    /** Ids are 1..nextId, each stored user is keyed by its own id. */
    ghost predicate Valid()
      reads this
    {
      nextId >= 0 &&
      (forall k :: k in issued ==> 1 <= k <= nextId) &&
      (forall k :: 1 <= k <= nextId ==> k in issued) &&
      (forall k :: k in users ==> k in issued && users[k].id == Some(k))
    }

    constructor ()
      ensures Valid()
      ensures nextId == 0 && users == map[] && issued == {}
    {
      nextId := 0;
      users := map[];
      issued := {};
    }

    /**
     * getAll: a fresh list of the stored users.  The ids are visited in
     * ascending order, which is one of the orders a HashMap may produce; the
     * contract promises no order at all.
     */
    method GetAll() returns (all: seq<User>)
      requires Valid()
      ensures Enumerates(all, users)
    {
      all := [];
      ghost var seen: set<int> := {};
      for id := 1 to nextId + 1
        invariant forall k :: k in seen <==> k in users && k < id
        invariant |all| == |seen|
        invariant forall i :: 0 <= i < |all| ==>
          all[i].id.Some? && all[i].id.value in seen && all[i].id.value in users &&
          users[all[i].id.value] == all[i]
        invariant forall k :: k in seen ==> users[k] in all
        invariant forall i, j :: 0 <= i < j < |all| ==> all[i] != all[j]
      {
        if id in users {
          all := all + [users[id]];
          seen := seen + {id};
        }
      }
      forall k | k in users ensures k in seen {
        assert k in issued;
      }
      forall k | k in seen ensures k in users.Keys { }
      assert seen == users.Keys;
    }

    /** save: the user gets the next id and is stored under it. */
    method Save(user: User) returns (saved: User)
      requires Valid()
      modifies this
      ensures Valid()
      ensures nextId == old(nextId) + 1
      ensures saved == user.(id := Some(nextId))
      ensures nextId !in old(issued) && issued == old(issued) + {nextId}
      ensures users == old(users)[nextId := saved]
    {
      nextId := nextId + 1;
      saved := user.(id := Some(nextId));
      users := users[nextId := saved];
      issued := issued + {nextId};
    }

    /** getById: the stored user, or None when the id is absent. */
    function GetById(id: int): (r: Option<User>)
      reads this
      ensures r.Some? <==> id in users
      ensures r.Some? ==> r.value == users[id]
    {
      if id in users then Some(users[id]) else None
    }

    /** isExist: membership, in agreement with getById. */
    function IsExist(id: int): (b: bool)
      reads this
      ensures b <==> id in users
      ensures b <==> GetById(id).Some?
    {
      id in users
    }

    /** delete: removal of one key; an absent id is a no-op. */
    method Delete(id: int)
      requires Valid()
      modifies this
      ensures Valid()
      ensures users == old(users) - {id}
      ensures id !in old(users) ==> users == old(users)
      ensures nextId == old(nextId) && issued == old(issued)
    {
      users := users - {id};
    }

    /**
     * update: merges the draft into the user stored under the draft's id.  The
     * lookup result is dereferenced, so that id must be present.
     */
    method Update(updatedUser: User) returns (merged: User)
      requires Valid()
      requires updatedUser.id.Some? && updatedUser.id.value in users
      modifies this
      ensures Valid()
      ensures merged == Merge(old(users)[updatedUser.id.value], updatedUser)
      ensures users == old(users)[updatedUser.id.value := merged]
      ensures users.Keys == old(users).Keys
      ensures nextId == old(nextId) && issued == old(issued)
    {
      var id := updatedUser.id.value;
      merged := Merge(users[id], updatedUser);
      users := users[id := merged];
    }
  }
}
