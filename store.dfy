/**
 * The database the server works on: the users, password_entries and sessions tables, and the
 * two changes the account model makes to them in place: `touch` (app/models/user.rb:36-40) and
 * destroying a user with its dependent rows (app/models/user.rb:3-4).
 */
module Store {
  import opened Wrappers
  import Tables
  import opened Accounts
  import opened Entries

  predicate HasUser(users: UserTable, id: UserId) {
    exists k :: 0 <= k < |users| && users[k].id == id
  }

  function EntryId(e: Entry): nat {
    e.id
  }

  function UserIdOf(u: User): UserId {
    u.id
  }

  function UserEmail(u: User): string {
    u.email
  }

  class Database {
    var users: UserTable
    var entries: seq<Entry>
    var sessions: seq<Session>
    /** The next id the entries table assigns. */
    var nextEntryId: nat

    /** Unique keys, and every entry and session belongs to an existing user. */
    ghost predicate Valid()
      reads this
    {
      && IdsUnique(users)
      && EmailsUnique(users)
      && Tables.DistinctBy(entries, EntryId)
      && (forall i :: 0 <= i < |entries| ==> entries[i].id < nextEntryId)
      && (forall i :: 0 <= i < |entries| ==> HasUser(users, entries[i].owner))
      && (forall i :: 0 <= i < |sessions| ==> HasUser(users, sessions[i].userId))
    }

    constructor ()
      ensures Valid()
      ensures users == [] && entries == [] && sessions == [] && nextEntryId == 0
    {
      users, entries, sessions, nextEntryId := [], [], [], 0;
    }

    /** `invalidate_api_token!`: touch the user's row; nothing else changes. */
    method InvalidateApiToken(id: UserId, now: int)
      requires Valid()
      modifies this
      ensures Valid()
      ensures users == Touched(old(users), id, now)
      ensures entries == old(entries) && sessions == old(sessions) && nextEntryId == old(nextEntryId)
    {
      var before := users;
      users := Touched(users, id, now);
      forall o | HasUser(before, o) ensures HasUser(users, o) {
        var k :| 0 <= k < |before| && before[k].id == o;
        assert users[k].id == o;
      }
    }

    /** `destroy` on a user: the user's row goes, and so do all of its entries and sessions. */
    method DestroyUser(id: UserId)
      requires Valid()
      modifies this
      ensures Valid()
      ensures users == Tables.Filter(old(users), (u: User) => u.id != id)
      ensures entries == Tables.Filter(old(entries), (e: Entry) => e.owner != id)
      ensures sessions == Tables.Filter(old(sessions), (s: Session) => s.userId != id)
      ensures nextEntryId == old(nextEntryId)
      ensures !HasUser(users, id)
      ensures forall e :: e in entries <==> e in old(entries) && e.owner != id
      ensures forall s :: s in sessions <==> s in old(sessions) && s.userId != id
    {
      DeleteKeepsTablesConsistent(users, entries, sessions, nextEntryId, id);
      users := Tables.Filter(users, (u: User) => u.id != id);
      entries := Tables.Filter(entries, (e: Entry) => e.owner != id);
      sessions := Tables.Filter(sessions, (s: Session) => s.userId != id);
    }
  }

  /** Deleting a user with its entries and sessions keeps every key unique and every row owned. */
  lemma DeleteKeepsTablesConsistent(users: UserTable, entries: seq<Entry>, sessions: seq<Session>, next: nat, id: UserId)
    requires IdsUnique(users) && EmailsUnique(users)
    requires Tables.DistinctBy(entries, EntryId)
    requires forall i :: 0 <= i < |entries| ==> entries[i].id < next
    requires forall i :: 0 <= i < |entries| ==> HasUser(users, entries[i].owner)
    requires forall i :: 0 <= i < |sessions| ==> HasUser(users, sessions[i].userId)
    ensures var us := Tables.Filter(users, (u: User) => u.id != id);
      var es := Tables.Filter(entries, (e: Entry) => e.owner != id);
      var ss := Tables.Filter(sessions, (s: Session) => s.userId != id);
      && IdsUnique(us) && EmailsUnique(us)
      && Tables.DistinctBy(es, EntryId)
      && (forall i :: 0 <= i < |es| ==> es[i].id < next)
      && (forall i :: 0 <= i < |es| ==> HasUser(us, es[i].owner))
      && (forall i :: 0 <= i < |ss| ==> HasUser(us, ss[i].userId))
      && !HasUser(us, id)
  {
    var us := Tables.Filter(users, (u: User) => u.id != id);
    var es := Tables.Filter(entries, (e: Entry) => e.owner != id);
    var ss := Tables.Filter(sessions, (s: Session) => s.userId != id);
    DeleteUserKeepsKeys(users, id);
    DeleteUserKeepsOthers(users, id);
    DeleteOwnedKeepsIds(entries, id, next);
    DeleteSessionsKeepsOwners(sessions, users, id);
    forall i | 0 <= i < |es| ensures es[i].id < next && HasUser(us, es[i].owner) {
      assert es[i] in es;
    }
    forall i | 0 <= i < |ss| ensures HasUser(us, ss[i].userId) {
      assert ss[i] in ss;
    }
  }

  lemma DeleteUserKeepsKeys(t: UserTable, id: UserId)
    requires IdsUnique(t) && EmailsUnique(t)
    ensures IdsUnique(Tables.Filter(t, (u: User) => u.id != id))
    ensures EmailsUnique(Tables.Filter(t, (u: User) => u.id != id))
  {
    assert Tables.DistinctBy(t, UserIdOf) && Tables.DistinctBy(t, UserEmail);
    Tables.FilterKeepsDistinct(t, (u: User) => u.id != id, UserIdOf);
    Tables.FilterKeepsDistinct(t, (u: User) => u.id != id, UserEmail);
  }

  lemma DeleteUserKeepsOthers(t: UserTable, id: UserId)
    ensures forall o :: HasUser(t, o) && o != id ==> HasUser(Tables.Filter(t, (u: User) => u.id != id), o)
    ensures !HasUser(Tables.Filter(t, (u: User) => u.id != id), id)
  {
    var r := Tables.Filter(t, (u: User) => u.id != id);
    forall o | HasUser(t, o) && o != id ensures HasUser(r, o) {
      var k :| 0 <= k < |t| && t[k].id == o;
      assert t[k] in r;
      var j :| 0 <= j < |r| && r[j] == t[k];
    }
    forall k | 0 <= k < |r| ensures r[k].id != id {
      assert r[k] in r;
    }
  }

  lemma DeleteOwnedKeepsIds(es: seq<Entry>, id: UserId, next: nat)
    requires Tables.DistinctBy(es, EntryId)
    requires forall i :: 0 <= i < |es| ==> es[i].id < next
    ensures Tables.DistinctBy(Tables.Filter(es, (e: Entry) => e.owner != id), EntryId)
    ensures forall e :: e in Tables.Filter(es, (e: Entry) => e.owner != id) ==> e.id < next && e in es
  {
    Tables.FilterKeepsDistinct(es, (e: Entry) => e.owner != id, EntryId);
  }

  lemma DeleteSessionsKeepsOwners(ss: seq<Session>, t: UserTable, id: UserId)
    requires forall i :: 0 <= i < |ss| ==> HasUser(t, ss[i].userId)
    ensures forall s :: s in Tables.Filter(ss, (s: Session) => s.userId != id) ==>
      HasUser(t, s.userId) && s.userId != id
  {
  }
}
