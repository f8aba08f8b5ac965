/**
 * The status messages (user_status.py): the `UserStatus` record and
 * `UserStatusCollection`, a dict from status id to record that add, modify
 * and delete change in place.
 */
module UserStatus {
  import opened Wrappers
  import opened Dicts

  /** One message, the three attributes of a `UserStatus` object. */
  datatype Status = Status(statusId: string, userId: string, statusText: string)

  /** A well-formed database: every record is filed under its own status id. */
  ghost predicate KeyedByStatusId(db: Dict<Status>) {
    && db.Valid()
    && forall k :: k in db.entries ==> db.entries[k].statusId == k
  }

  class UserStatusCollection {
    /** `self.database`. */
    var database: Dict<Status>

    ghost predicate Valid()
      reads this
    {
      KeyedByStatusId(database)
    }

    /** A new collection holds no messages. */
    constructor ()
      ensures Valid()
      ensures database.entries == map[] && database.keys == []
    {
      database := EmptyDict();
    }

    /**
     * Stores a new message under statusId, whatever user id it names (no
     * check that the user exists). A taken status id is refused and the stored
     * message keeps its user id and text.
     */
    method AddStatus(statusId: string, userId: string, statusText: string) returns (ok: bool)
      requires Valid()
      modifies this
      ensures Valid()
      ensures ok <==> statusId !in old(database.entries)
      ensures database == old(database).Add(statusId, Status(statusId, userId, statusText))
      ensures ok ==> database.entries[statusId] == Status(statusId, userId, statusText)
    {
      if statusId in database.entries {
        return false;
      }
      database := database.Put(statusId, Status(statusId, userId, statusText));
      return true;
    }

    /**
     * Overwrites the user id and text of an existing message; its status id,
     * its place in the order and every other message stay as they were. An
     * unknown status id is refused with no change.
     */
    method ModifyStatus(statusId: string, userId: string, statusText: string) returns (ok: bool)
      requires Valid()
      modifies this
      ensures Valid()
      ensures ok <==> statusId in old(database.entries)
      ensures !ok ==> database == old(database)
      ensures ok ==> database.keys == old(database.keys)
      ensures ok ==> database.entries == old(database.entries)[statusId := Status(statusId, userId, statusText)]
    {
      if statusId !in database.entries {
        return false;
      }
      var status := database.entries[statusId];
      database := database.Put(statusId, status.(userId := userId, statusText := statusText));
      return true;
    }

    /**
     * Removes an existing message and nothing else; an unknown status id is
     * refused with no change.
     */
    method DeleteStatus(statusId: string) returns (ok: bool)
      requires Valid()
      modifies this
      ensures Valid()
      ensures ok <==> statusId in old(database.entries)
      ensures !ok ==> database == old(database)
      ensures ok ==> database == old(database).Remove(statusId)
      ensures statusId !in database.entries
    {
      if statusId !in database.entries {
        return false;
      }
      database := database.Remove(statusId);
      return true;
    }

    /**
     * Looks a status id up without changing anything. None stands for the
     * placeholder `UserStatus(None, None, None)` returned for an unknown id.
     */
    function SearchStatus(statusId: string): (r: Option<Status>)
      reads this
      requires Valid()
      ensures r.Some? <==> statusId in database.entries
      ensures r.Some? ==> r.value == database.entries[statusId] && r.value.statusId == statusId
    {
      if statusId !in database.entries then None else Some(database.entries[statusId])
    }
  }
}
