/**
 * The user accounts (users.py): the `Users` record and `UserCollection`, a
 * dict from user id to record that add, modify and delete change in place.
 */
module Users {
  import opened Wrappers
  import opened Dicts

  /** One account, the four attributes of a `Users` object. */
  datatype User = User(userId: string, email: string, userName: string, userLastName: string)

  /** A well-formed database: every record is filed under its own user id. */
  ghost predicate KeyedByUserId(db: Dict<User>) {
    && db.Valid()
    && forall k :: k in db.entries ==> db.entries[k].userId == k
  }

  class UserCollection {
    /** `self.database`. */
    var database: Dict<User>

    ghost predicate Valid()
      reads this
    {
      KeyedByUserId(database)
    }

    /** A new collection holds no users. */
    constructor ()
      ensures Valid()
      ensures database.entries == map[] && database.keys == []
    {
      database := EmptyDict();
    }

    /**
     * Stores a new account. A taken id is refused and leaves every record,
     * including the one under that id, as it was; a fresh id is appended with
     * exactly the given fields and nothing else changes.
     */
    method AddUser(userId: string, email: string, userName: string, userLastName: string)
      returns (ok: bool)
      requires Valid()
      modifies this
      ensures Valid()
      ensures ok <==> userId !in old(database.entries)
      ensures database == old(database).Add(userId, User(userId, email, userName, userLastName))
      ensures ok ==> database.entries[userId] == User(userId, email, userName, userLastName)
    {
      if userId in database.entries {
        return false;
      }
      database := database.Put(userId, User(userId, email, userName, userLastName));
      return true;
    }

    /**
     * Overwrites the email and both names of an existing account; its id, its
     * place in the order and every other record stay as they were. An unknown
     * id is refused with no change.
     */
    method ModifyUser(userId: string, email: string, userName: string, userLastName: string)
      returns (ok: bool)
      requires Valid()
      modifies this
      ensures Valid()
      ensures ok <==> userId in old(database.entries)
      ensures !ok ==> database == old(database)
      ensures ok ==> database.keys == old(database.keys)
      ensures ok ==> database.entries == old(database.entries)[userId := User(userId, email, userName, userLastName)]
    {
      if userId !in database.entries {
        return false;
      }
      var user := database.entries[userId];
      database := database.Put(userId, user.(email := email, userName := userName, userLastName := userLastName));
      return true;
    }

    /**
     * Removes an existing account and nothing else; an unknown id is refused
     * with no change. Afterwards the id is absent, so deleting it again fails.
     */
    method DeleteUser(userId: string) returns (ok: bool)
      requires Valid()
      modifies this
      ensures Valid()
      ensures ok <==> userId in old(database.entries)
      ensures !ok ==> database == old(database)
      ensures ok ==> database == old(database).Remove(userId)
      ensures userId !in database.entries
    {
      if userId !in database.entries {
        return false;
      }
      database := database.Remove(userId);
      return true;
    }

    /**
     * Looks an id up without changing anything. None stands for the
     * placeholder `Users(None, None, None, None)` returned for an unknown id.
     */
    function SearchUser(userId: string): (r: Option<User>)
      reads this
      requires Valid()
      ensures r.Some? <==> userId in database.entries
      ensures r.Some? ==> r.value == database.entries[userId] && r.value.userId == userId
    {
      if userId !in database.entries then None else Some(database.entries[userId])
    }
  }
}
