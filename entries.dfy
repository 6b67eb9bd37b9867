/**
 * The password entry record and the owner-scoped queries every controller is built on:
 * `user.password_entries` (the owner's rows), its `order(created_at: :desc)` and `find(id)`.
 */
module Entries {
  import opened Wrappers
  import Tables
  import opened Accounts

  /**
   * A row of password_entries. Every text column may be NULL. `password` is the value the
   * owner reads: the column's encryption is transparent to the application.
   */
  datatype Entry = Entry(id: nat, owner: UserId, title: Option<string>, username: Option<string>,
                         password: Option<string>, url: Option<string>, createdAt: int, updatedAt: int)

  /** A row of sessions (web sign-in), owned by a user. */
  datatype Session = Session(id: nat, userId: UserId)

  /** `user.password_entries`: the rows the user owns, in table order. */
  function OwnedBy(entries: seq<Entry>, owner: UserId): (r: seq<Entry>)
    ensures forall e :: e in r <==> e in entries && e.owner == owner
    ensures Tables.IsSubsequence(r, entries)
  {
    Tables.FilterIsSubsequence(entries, (e: Entry) => e.owner == owner);
    Tables.Filter(entries, (e: Entry) => e.owner == owner)
  }

  function CreatedAt(e: Entry): int {
    e.createdAt
  }

  /** `user.password_entries.order(created_at: :desc)`. */
  function OwnedNewestFirst(entries: seq<Entry>, owner: UserId): (r: seq<Entry>)
    ensures multiset(r) == multiset(OwnedBy(entries, owner))
    ensures forall i, j :: 0 <= i < j < |r| ==> r[i].createdAt >= r[j].createdAt
    ensures forall e :: e in r <==> e in entries && e.owner == owner
  {
    var r := Tables.SortDesc(OwnedBy(entries, owner), CreatedAt);
    Tables.SortDescCorrect(OwnedBy(entries, owner), CreatedAt);
    assert forall e :: e in r <==> e in multiset(r);
    r
  }

  /** `user.password_entries.find(id)`: the row with that id if the user owns it. */
  function FindOwned(entries: seq<Entry>, owner: UserId, id: nat): (r: Option<Entry>)
    ensures r.Some? ==> r.value in entries && r.value.owner == owner && r.value.id == id
    ensures r.None? <==> forall e :: e in entries ==> !(e.owner == owner && e.id == id)
  {
    Tables.FindFirst(entries, (e: Entry) => e.owner == owner && e.id == id)
  }

  /** Whether the entries table holds a row with this id, whoever owns it. */
  predicate IdTaken(entries: seq<Entry>, id: nat) {
    exists e :: e in entries && e.id == id
  }

  /**
   * An id that exists but belongs to another user is not found, exactly like an id that
   * does not exist: the lookup never reveals another user's row.
   */
  lemma ForeignIdLikeMissing(entries: seq<Entry>, owner: UserId, other: UserId, id: nat)
    requires forall e :: e in entries && e.id == id ==> e.owner == other
    requires other != owner
    ensures FindOwned(entries, owner, id) == None
    ensures FindOwned(entries, owner, id) == FindOwned(Tables.Filter(entries, (e: Entry) => e.id != id), owner, id)
  {
    var rest := Tables.Filter(entries, (e: Entry) => e.id != id);
    assert forall e :: e in rest ==> e.id != id;
  }
}
