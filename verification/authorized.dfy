/**
  The bot's authorized-user control table (`get_authorized_users`,
  `add_authorized_user`, `remove_authorized_user`): a set of chat ids,
  each recorded with the admin who added it. The chat id is the primary key.
 */
module AuthorizedUsers {

  /** The control table: chat id to the id of the admin who added it. */
  datatype Table = Table(addedBy: map<int, int>)

  /** The empty table `initialize_database` creates. */
  const Empty := Table(map[])

  /** `get_authorized_users`: the set of authorized chat ids, one per row. */
  function Authorized(t: Table): (r: set<int>)
    ensures forall u :: u in r <==> u in t.addedBy
    ensures |r| == |t.addedBy|
  {
    t.addedBy.Keys
  }

  /**
    `add_authorized_user`: inserts the id and answers true, or, when the id
    is already present (a primary-key violation), answers false and leaves
    the table as it was.
   */
  function Add(t: Table, user: int, admin: int): (r: (bool, Table))
    ensures r.0 <==> user !in Authorized(t)
    ensures Authorized(r.1) == Authorized(t) + {user}
    ensures !r.0 ==> r.1 == t
    ensures r.0 ==> r.1.addedBy[user] == admin
    ensures forall u :: u in t.addedBy ==> u in r.1.addedBy && r.1.addedBy[u] == t.addedBy[u]
  {
    if user in t.addedBy then (false, t)
    else (true, Table(t.addedBy[user := admin]))
  }

  /**
    `remove_authorized_user`: deletes the id's row and answers whether a row
    was deleted; every other row is kept.
   */
  function Remove(t: Table, user: int): (r: (bool, Table))
    ensures r.0 <==> user in Authorized(t)
    ensures Authorized(r.1) == Authorized(t) - {user}
    ensures forall u :: u in r.1.addedBy ==> u in t.addedBy && r.1.addedBy[u] == t.addedBy[u]
  {
    (user in t.addedBy, Table(t.addedBy - {user}))
  }

  /** Adding the same id twice answers true then false, and the id is authorized once. */
  lemma AddTwice(t: Table, user: int, admin1: int, admin2: int)
    requires user !in Authorized(t)
    ensures var (ok1, t1) := Add(t, user, admin1);
      var (ok2, t2) := Add(t1, user, admin2);
      ok1 && !ok2 && t2 == t1 && Authorized(t2) == Authorized(t) + {user}
  {
  }

  /** Removing an absent id answers false and changes nothing. */
  lemma RemoveAbsent(t: Table, user: int)
    requires user !in Authorized(t)
    ensures Remove(t, user) == (false, t)
  {
    assert t.addedBy - {user} == t.addedBy;
  }

  /** Adding a new id and removing it again restores the table. */
  lemma AddThenRemove(t: Table, user: int, admin: int)
    requires user !in Authorized(t)
    ensures Remove(Add(t, user, admin).1, user) == (true, t)
  {
    assert t.addedBy[user := admin] - {user} == t.addedBy;
  }

  /** Removing an id and adding it back with the same admin restores the table. */
  lemma RemoveThenAdd(t: Table, user: int)
    requires user in Authorized(t)
    ensures Add(Remove(t, user).1, user, t.addedBy[user]) == (true, t)
  {
    assert (t.addedBy - {user})[user := t.addedBy[user]] == t.addedBy;
  }
}
