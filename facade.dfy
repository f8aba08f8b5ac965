/**
 * The validated entry points of main.py: add and update check every field,
 * in a fixed order, before they touch a collection; delete passes straight
 * through; search turns the collection's placeholder record into None.
 */
module Facade {
  import opened Wrappers
  import opened Dicts
  import opened Validators
  import opened Users
  import opened UserStatus

  /** `init_user_collection`. */
  method InitUserCollection() returns (collection: UserCollection)
    ensures fresh(collection) && collection.Valid()
    ensures collection.database.entries == map[]
  {
    collection := new UserCollection();
  }

  /** `init_status_collection`. */
  method InitStatusCollection() returns (collection: UserStatusCollection)
    ensures fresh(collection) && collection.Valid()
    ensures collection.database.entries == map[]
  {
    collection := new UserStatusCollection();
  }

  /**
   * `add_user`: true exactly when all four fields are valid and the id is
   * new; an invalid field leaves the collection untouched.
   */
  method AddUser(userId: string, email: string, userName: string, userLastName: string,
                 collection: UserCollection) returns (ok: bool)
    requires collection.Valid()
    modifies collection
    ensures collection.Valid()
    ensures ok <==> ValidateUserInputs(userId, email, userName, userLastName)
                    && userId !in old(collection.database.entries)
    ensures !ValidateUserInputs(userId, email, userName, userLastName) ==>
      collection.database == old(collection.database)
    ensures ValidateUserInputs(userId, email, userName, userLastName) ==>
      collection.database == old(collection.database).Add(userId, User(userId, email, userName, userLastName))
  {
    if !ValidateUserInputs(userId, email, userName, userLastName) {
      return false;
    }
    ok := collection.AddUser(userId, email, userName, userLastName);
  }

  /**
   * `update_user`: true exactly when all four fields are valid and the id
   * is stored; then the email and names are overwritten in place.
   */
  method UpdateUser(userId: string, email: string, userName: string, userLastName: string,
                    collection: UserCollection) returns (ok: bool)
    requires collection.Valid()
    modifies collection
    ensures collection.Valid()
    ensures ok <==> ValidateUserInputs(userId, email, userName, userLastName)
                    && userId in old(collection.database.entries)
    ensures !ok ==> collection.database == old(collection.database)
    ensures ok ==> collection.database.keys == old(collection.database.keys)
    ensures ok ==> (collection.database.entries ==
                    old(collection.database.entries)[userId := User(userId, email, userName, userLastName)])
  {
    if !ValidateUserInputs(userId, email, userName, userLastName) {
      return false;
    }
    ok := collection.ModifyUser(userId, email, userName, userLastName);
  }

  /** `delete_user`: no validation, the collection's answer. */
  method DeleteUser(userId: string, collection: UserCollection) returns (ok: bool)
    requires collection.Valid()
    modifies collection
    ensures collection.Valid()
    ensures ok <==> userId in old(collection.database.entries)
    ensures !ok ==> collection.database == old(collection.database)
    ensures ok ==> collection.database == old(collection.database).Remove(userId)
  {
    ok := collection.DeleteUser(userId);
  }

  /**
   * `search_user` as written: it keeps the collection's answer only when
   * the record's user_id is truthy, which the placeholder's None is not, and
   * neither is an empty id.
   */
  function SearchUser(userId: string, collection: UserCollection): (r: Option<User>)
    reads collection
    requires collection.Valid()
    ensures r.Some? <==> userId in collection.database.entries && userId != ""
    ensures r.Some? ==> r.value == collection.database.entries[userId]
  {
    var result := collection.SearchUser(userId);
    if result.Some? && result.value.userId != "" then result else None
  }

  /**
   * `search_user` as its documentation describes it: the stored user when
   * the id is present, None otherwise. It tells the placeholder apart from
   * a stored record by the placeholder's missing id rather than by the id's
   * truth value.
   */
  function SearchUserCorrected(userId: string, collection: UserCollection): (r: Option<User>)
    reads collection
    requires collection.Valid()
    ensures r.Some? <==> userId in collection.database.entries
    ensures r.Some? ==> r.value == collection.database.entries[userId] && r.value.userId == userId
  {
    collection.SearchUser(userId)
  }

  /**
   * An empty user id passes `validate_user_id` (`int('')` raises), so
   * `add_user` stores it, and then `search_user` answers None for it.
   */
  method EmptyUserIdIsLost() returns (added: bool, found: Option<User>, foundCorrected: Option<User>)
    ensures added
    ensures found == None
    ensures foundCorrected == Some(User("", "a@b.co", "Ann", "Lee"))
  {
    EmptyIdAccepted();
    var collection := InitUserCollection();
    added := AddUser("", "a@b.co", "Ann", "Lee", collection);
    found := SearchUser("", collection);
    foundCorrected := SearchUserCorrected("", collection);
  }

  lemma EmptyIdAccepted()
    ensures ValidateUserInputs("", "a@b.co", "Ann", "Lee")
  {
    EmptyUserIdValid();
    ShortEmailValid();
    NamesValid();
  }

  lemma NamesValid()
    ensures ValidateName("Ann") && ValidateName("Lee")
  {
  }

  lemma ShortEmailValid()
    ensures ValidateEmail("a@b.co")
  {
    EmailAccepted("a@b.co", 1, 1);
  }

  /** `int('')` raises, and '' holds no space, so '' is a valid user id. */
  lemma EmptyUserIdValid()
    ensures ValidateUserId("")
  {
    assert Strip("") == "";
  }

  /**
   * `add_status(user_id, status_id, status_text, ...)`: note the user id
   * first. True exactly when the status id and user id are valid and the
   * status id is new.
   */
  method AddStatus(userId: string, statusId: string, statusText: string,
                   collection: UserStatusCollection) returns (ok: bool)
    requires collection.Valid()
    modifies collection
    ensures collection.Valid()
    ensures ok <==> ValidateStatusInputs(statusId, userId, statusText)
                    && statusId !in old(collection.database.entries)
    ensures !ValidateStatusInputs(statusId, userId, statusText) ==>
      collection.database == old(collection.database)
    ensures ValidateStatusInputs(statusId, userId, statusText) ==>
      collection.database == old(collection.database).Add(statusId, Status(statusId, userId, statusText))
  {
    if !ValidateStatusInputs(statusId, userId, statusText) {
      return false;
    }
    ok := collection.AddStatus(statusId, userId, statusText);
  }

  /**
   * `update_status(status_id, user_id, status_text, ...)`: the status id
   * first. True exactly when both ids are valid and the status id is
   * stored; then its user id and text are overwritten in place.
   */
  method UpdateStatus(statusId: string, userId: string, statusText: string,
                      collection: UserStatusCollection) returns (ok: bool)
    requires collection.Valid()
    modifies collection
    ensures collection.Valid()
    ensures ok <==> ValidateStatusInputs(statusId, userId, statusText)
                    && statusId in old(collection.database.entries)
    ensures !ok ==> collection.database == old(collection.database)
    ensures ok ==> collection.database.keys == old(collection.database.keys)
    ensures ok ==> (collection.database.entries ==
                    old(collection.database.entries)[statusId := Status(statusId, userId, statusText)])
  {
    if !ValidateStatusInputs(statusId, userId, statusText) {
      return false;
    }
    ok := collection.ModifyStatus(statusId, userId, statusText);
  }

  /** `delete_status`: no validation, the collection's answer. */
  method DeleteStatus(statusId: string, collection: UserStatusCollection) returns (ok: bool)
    requires collection.Valid()
    modifies collection
    ensures collection.Valid()
    ensures ok <==> statusId in old(collection.database.entries)
    ensures !ok ==> collection.database == old(collection.database)
    ensures ok ==> collection.database == old(collection.database).Remove(statusId)
  {
    ok := collection.DeleteStatus(statusId);
  }

  /**
   * `search_status`: the stored message when its status_id is truthy, None
   * for the placeholder. A valid status id is never empty (see
   * `ValidStatusIdNotEmpty`), so for messages added through this facade the
   * answer is None exactly when the id is absent.
   */
  function SearchStatus(statusId: string, collection: UserStatusCollection): (r: Option<Status>)
    reads collection
    requires collection.Valid()
    ensures r.Some? <==> statusId in collection.database.entries && statusId != ""
    ensures r.Some? ==> r.value == collection.database.entries[statusId]
  {
    var result := collection.SearchStatus(statusId);
    if result.Some? && result.value.statusId != "" then result else None
  }

  /** A status id that passes `validate_status_id` is truthy. */
  lemma ValidStatusIdNotEmpty(statusId: string)
    requires ValidateStatusId(statusId)
    ensures statusId != ""
  {
  }
}
