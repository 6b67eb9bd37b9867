/**
 * The signed-in web pages for credentials (app/controllers/credentials_controller.rb): owner-scoped
 * listing, and create, update and destroy, which change the entries table in place. `Current.user`
 * is the signed-in user the session layer provides. The validations `PasswordEntry` runs on save
 * are not part of this model: they are a parameter `saves`, true when the row would be accepted.
 */
module WebCredentials {
  import opened Wrappers
  import Tables
  import opened Accounts
  import opened Entries
  import opened Store

  /** The four columns a form may set; None is a key the form did not send. */
  datatype Fields = Fields(title: Option<string>, username: Option<string>, password: Option<string>, url: Option<string>)

  /**
   * `@credential`: a record built for the form and not saved, a row of the table, or a row of the
   * table whose attributes were assigned by a form but whose save was rejected.
   */
  datatype Credential = Unsaved(owner: UserId, fields: Fields) | Saved(entry: Entry) | Edited(entry: Entry)

  datatype View = IndexView | NewView | EditView

  datatype WebResponse =
    | Page(view: View, status: nat)
    | Redirect(notice: string)
    | NotFound
    | BadRequest

  const PermittedKeys: set<string> := {"title", "username", "password", "url"}

  function Param(m: map<string, string>, key: string): Option<string> {
    if key in m then Some(m[key]) else None
  }

  /** `permit(:title, :username, :password, :url)`: every other key is dropped. */
  function Permit(m: map<string, string>): (r: Fields)
    ensures r.title.Some? <==> "title" in m
    ensures r.username.Some? <==> "username" in m
    ensures r.password.Some? <==> "password" in m
    ensures r.url.Some? <==> "url" in m
    ensures r.title.Some? ==> r.title.value == m["title"]
    ensures r.username.Some? ==> r.username.value == m["username"]
    ensures r.password.Some? ==> r.password.value == m["password"]
    ensures r.url.Some? ==> r.url.value == m["url"]
  {
    Fields(Param(m, "title"), Param(m, "username"), Param(m, "password"), Param(m, "url"))
  }

  /**
   * `credential_params`: `require(:password_entry)` rejects a missing or empty parameter (answered
   * with 400 Bad Request); otherwise the permitted columns.
   */
  function CredentialParams(submitted: Option<map<string, string>>): (f: Option<Fields>)
    ensures f.None? <==> submitted.None? || submitted.value == map[]
  {
    match submitted
    case None => None
    case Some(m) => if m == map[] then None else Some(Permit(m))
  }

  /** The row `create` inserts: the next id, owned by the signed-in user, both timestamps now. */
  function NewRow(id: nat, owner: UserId, f: Fields, now: int): (r: Entry)
    ensures r.id == id && r.owner == owner && r.createdAt == now && r.updatedAt == now
    ensures Assign(r, f) == r
    ensures r.title.Some? ==> f.title.Some?
    ensures r.username.Some? ==> f.username.Some?
    ensures r.password.Some? ==> f.password.Some?
    ensures r.url.Some? ==> f.url.Some?
  {
    Entry(id, owner, f.title, f.username, f.password, f.url, now, now)
  }

  /** Assigning the permitted columns the form sent; the others keep their values. */
  function Assign(e: Entry, f: Fields): Entry {
    e.(title := if f.title.Some? then f.title else e.title,
       username := if f.username.Some? then f.username else e.username,
       password := if f.password.Some? then f.password else e.password,
       url := if f.url.Some? then f.url else e.url)
  }

  /** `update`: the assigned row, with `updated_at` moved to now only if a column changed. */
  function Updated(e: Entry, f: Fields, now: int): (u: Entry)
    ensures u.id == e.id && u.owner == e.owner && u.createdAt == e.createdAt
    ensures Assign(u, f) == u
    ensures f.title.None? ==> u.title == e.title
    ensures f.username.None? ==> u.username == e.username
    ensures f.password.None? ==> u.password == e.password
    ensures f.url.None? ==> u.url == e.url
    ensures u == e <==> Assign(e, f) == e
    ensures u != e ==> u.updatedAt == now
  {
    var a := Assign(e, f);
    if a == e then e else a.(updatedAt := now)
  }

  /** The table with the row of that id replaced. */
  function ReplaceRow(entries: seq<Entry>, id: nat, row: Entry): (r: seq<Entry>)
    ensures |r| == |entries|
  {
    seq(|entries|, i requires 0 <= i < |entries| => if entries[i].id == id then row else entries[i])
  }

  /** The table without the row of that id. */
  function RemoveRow(entries: seq<Entry>, id: nat): seq<Entry> {
    Tables.Filter(entries, (e: Entry) => e.id != id)
  }

  class CredentialsController {
    const db: Database
    /** `Current.user`: the signed-in user. */
    const currentUser: UserId
    /** `@credentials`, the index page's rows. */
    var credentials: seq<Entry>
    /** `@credential`, the record the form or the action works on. */
    var credential: Option<Credential>

    ghost predicate Valid()
      reads this, db
    {
      db.Valid() && HasUser(db.users, currentUser)
    }

    constructor (db: Database, currentUser: UserId)
      ensures this.db == db && this.currentUser == currentUser
      ensures credentials == [] && credential == None
    {
      this.db := db;
      this.currentUser := currentUser;
      credentials := [];
      credential := None;
    }

    /** `index`: the signed-in user's rows, newest first. */
    method Index() returns (r: WebResponse)
      modifies this
      ensures credentials == OwnedNewestFirst(db.entries, currentUser)
      ensures credential == old(credential)
      ensures r == Page(IndexView, 200)
    {
      credentials := OwnedNewestFirst(db.entries, currentUser);
      r := Page(IndexView, 200);
    }

    /** `new`: an empty record owned by the signed-in user. */
    method New() returns (r: WebResponse)
      modifies this
      ensures credential == Some(Unsaved(currentUser, Fields(None, None, None, None)))
      ensures credentials == old(credentials)
      ensures r == Page(NewView, 200)
    {
      credential := Some(Unsaved(currentUser, Fields(None, None, None, None)));
      r := Page(NewView, 200);
    }

    /** `set_credential`: the id is looked up among the signed-in user's rows only. */
    method SetCredential(id: nat)
      modifies this
      ensures credential == (match FindOwned(db.entries, currentUser, id)
                             case None => None case Some(e) => Some(Saved(e)))
      ensures credentials == old(credentials)
    {
      match FindOwned(db.entries, currentUser, id)
      case None => credential := None;
      case Some(e) => credential := Some(Saved(e));
    }

    /** `edit`: the form for one of the user's rows; a foreign or missing id is 404. */
    method Edit(id: nat) returns (r: WebResponse)
      modifies this
      ensures r == (if FindOwned(db.entries, currentUser, id).None? then NotFound else Page(EditView, 200))
      ensures credential == (match FindOwned(db.entries, currentUser, id)
                             case None => None case Some(e) => Some(Saved(e)))
      ensures credentials == old(credentials)
    {
      SetCredential(id);
      if credential.None? {
        r := NotFound;
      } else {
        r := Page(EditView, 200);
      }
    }

    /**
     * `create`: a row owned by the signed-in user, from the permitted columns only. A rejected
     * save renders the form with 422 and leaves the table as it was.
     */
    method Create(submitted: Option<map<string, string>>, now: int, saves: Entry -> bool) returns (r: WebResponse)
      requires Valid()
      modifies this, db
      ensures Valid()
      ensures db.users == old(db.users) && db.sessions == old(db.sessions)
      ensures match CredentialParams(submitted)
        case None =>
          r == BadRequest && db.entries == old(db.entries) && db.nextEntryId == old(db.nextEntryId)
        case Some(f) =>
          var row := NewRow(old(db.nextEntryId), currentUser, f, now);
          if saves(row) then
            && r == Redirect("Credential saved successfully.")
            && db.entries == old(db.entries) + [row]
            && db.nextEntryId == old(db.nextEntryId) + 1
            && credential == Some(Saved(row))
          else
            && r == Page(NewView, 422)
            && db.entries == old(db.entries) && db.nextEntryId == old(db.nextEntryId)
            && credential == Some(Unsaved(currentUser, f))
    {
      match CredentialParams(submitted)
      case None =>
        r := BadRequest;
      case Some(f) =>
        var row := NewRow(db.nextEntryId, currentUser, f, now);
        if saves(row) {
          AppendFreshKeepsValid(db.entries, db.nextEntryId, row);
          db.entries := db.entries + [row];
          db.nextEntryId := db.nextEntryId + 1;
          credential := Some(Saved(row));
          r := Redirect("Credential saved successfully.");
        } else {
          credential := Some(Unsaved(currentUser, f));
          r := Page(NewView, 422);
        }
    }

    /**
     * `update`: the user's row with that id gets the permitted columns; no other row changes.
     * A foreign or missing id is 404 and a rejected save is 422, both with the table unchanged;
     * after a rejected save the form shows the assigned but unsaved record.
     */
    method Update(id: nat, submitted: Option<map<string, string>>, now: int, saves: Entry -> bool) returns (r: WebResponse)
      requires Valid()
      modifies this, db
      ensures Valid()
      ensures db.users == old(db.users) && db.sessions == old(db.sessions) && db.nextEntryId == old(db.nextEntryId)
      ensures credentials == old(credentials)
      ensures match FindOwned(old(db.entries), currentUser, id)
        case None => r == NotFound && db.entries == old(db.entries) && credential == None
        case Some(e) =>
          match CredentialParams(submitted)
          case None => r == BadRequest && db.entries == old(db.entries) && credential == Some(Saved(e))
          case Some(f) =>
            if saves(Updated(e, f, now)) then
              && r == Redirect("Credential updated.")
              && db.entries == ReplaceRow(old(db.entries), id, Updated(e, f, now))
              && credential == Some(Saved(Updated(e, f, now)))
            else
              && r == Page(EditView, 422) && db.entries == old(db.entries)
              && credential == Some(Edited(Assign(e, f)))
    {
      SetCredential(id);
      if credential.None? {
        r := NotFound;
        return;
      }
      var e := credential.value.entry;
      match CredentialParams(submitted)
      case None =>
        r := BadRequest;
      case Some(f) =>
        var row := Updated(e, f, now);
        if saves(row) {
          ReplaceKeepsValid(db.entries, e, f, now, db.nextEntryId, db.users);
          db.entries := ReplaceRow(db.entries, id, row);
          credential := Some(Saved(row));
          r := Redirect("Credential updated.");
        } else {
          credential := Some(Edited(Assign(e, f)));
          r := Page(EditView, 422);
        }
    }

    /** `destroy`: the user's row with that id goes; a foreign or missing id is 404 and nothing changes. */
    method Destroy(id: nat) returns (r: WebResponse)
      requires Valid()
      modifies this, db
      ensures Valid()
      ensures db.users == old(db.users) && db.sessions == old(db.sessions) && db.nextEntryId == old(db.nextEntryId)
      ensures match FindOwned(old(db.entries), currentUser, id)
        case None => r == NotFound && db.entries == old(db.entries) && credential == None
        case Some(e) =>
          r == Redirect("Credential deleted.") && db.entries == RemoveRow(old(db.entries), id) && credential == Some(Saved(e))
    {
      SetCredential(id);
      if credential.None? {
        r := NotFound;
        return;
      }
      RemoveKeepsValid(db.entries, id, db.nextEntryId, db.users);
      db.entries := RemoveRow(db.entries, id);
      r := Redirect("Credential deleted.");
    }
  }

  // ---------------------------------------------------------------- lemmas

  /** Appending a row under the next id keeps the table's keys and owners valid. */
  lemma AppendFreshKeepsValid(entries: seq<Entry>, next: nat, row: Entry)
    requires Tables.DistinctBy(entries, EntryId)
    requires forall i :: 0 <= i < |entries| ==> entries[i].id < next
    requires row.id == next
    ensures Tables.DistinctBy(entries + [row], EntryId)
    ensures forall i :: 0 <= i < |entries + [row]| ==> (entries + [row])[i].id < next + 1
  {
    var s := entries + [row];
    forall i, j | 0 <= i < j < |s| ensures EntryId(s[i]) != EntryId(s[j]) {
      if j == |entries| {
        assert s[i] == entries[i];
      } else {
        assert s[i] == entries[i] && s[j] == entries[j];
      }
    }
  }

  /** Replacing the row of id `e.id` by its update keeps ids unique, bounded and owned by users. */
  lemma ReplaceKeepsValid(entries: seq<Entry>, e: Entry, f: Fields, now: int, next: nat, users: UserTable)
    requires e in entries
    requires Tables.DistinctBy(entries, EntryId)
    requires forall i :: 0 <= i < |entries| ==> entries[i].id < next
    requires forall i :: 0 <= i < |entries| ==> HasUser(users, entries[i].owner)
    ensures var r := ReplaceRow(entries, e.id, Updated(e, f, now));
      && Tables.DistinctBy(r, EntryId)
      && (forall i :: 0 <= i < |r| ==> r[i].id < next)
      && (forall i :: 0 <= i < |r| ==> HasUser(users, r[i].owner))
  {
    var r := ReplaceRow(entries, e.id, Updated(e, f, now));
    var k :| 0 <= k < |entries| && entries[k] == e;
    assert HasUser(users, e.owner);
    forall i | 0 <= i < |r| ensures r[i].id == entries[i].id && HasUser(users, r[i].owner) {
    }
  }

  /** Removing a row keeps ids unique, bounded and owned by users. */
  lemma RemoveKeepsValid(entries: seq<Entry>, id: nat, next: nat, users: UserTable)
    requires Tables.DistinctBy(entries, EntryId)
    requires forall i :: 0 <= i < |entries| ==> entries[i].id < next
    requires forall i :: 0 <= i < |entries| ==> HasUser(users, entries[i].owner)
    ensures var r := RemoveRow(entries, id);
      && Tables.DistinctBy(r, EntryId)
      && (forall i :: 0 <= i < |r| ==> r[i].id < next)
      && (forall i :: 0 <= i < |r| ==> HasUser(users, r[i].owner))
  {
    var r := RemoveRow(entries, id);
    Tables.FilterKeepsDistinct(entries, (e: Entry) => e.id != id, EntryId);
    forall i | 0 <= i < |r| ensures r[i].id < next && HasUser(users, r[i].owner) {
      assert r[i] in entries;
    }
  }

  /** The form's other keys never reach the row: only the four permitted ones are read. */
  lemma PermitReadsOnlyWhitelist(m: map<string, string>, m': map<string, string>)
    requires forall k :: k in PermittedKeys ==> Param(m, k) == Param(m', k)
    ensures Permit(m) == Permit(m')
  {
    assert Param(m, "title") == Param(m', "title");
    assert Param(m, "username") == Param(m', "username");
    assert Param(m, "password") == Param(m', "password");
    assert Param(m, "url") == Param(m', "url");
  }

  /** A created row belongs to the signed-in user, whatever owner key the form sends. */
  lemma CreatedRowBelongsToCaller(m: map<string, string>, id: nat, owner: UserId, now: int, forged: string)
    ensures NewRow(id, owner, Permit(m["user_id" := forged]), now) == NewRow(id, owner, Permit(m), now)
    ensures NewRow(id, owner, Permit(m), now).owner == owner
  {
    PermitReadsOnlyWhitelist(m["user_id" := forged], m);
  }

  /**
   * `update` keeps the row's id, owner and creation time; a column the form did not send keeps
   * its value, one it sent takes the sent value; the row is untouched when nothing changed, and
   * otherwise `updated_at` is now.
   */
  lemma UpdateChangesOnlyPermitted(e: Entry, f: Fields, now: int)
    ensures var u := Updated(e, f, now);
      && u.id == e.id && u.owner == e.owner && u.createdAt == e.createdAt
      && u.title == (if f.title.Some? then f.title else e.title)
      && u.username == (if f.username.Some? then f.username else e.username)
      && u.password == (if f.password.Some? then f.password else e.password)
      && u.url == (if f.url.Some? then f.url else e.url)
      && (Assign(e, f) == e ==> u == e)
      && (Assign(e, f) != e ==> u.updatedAt == now)
      && (f == Fields(None, None, None, None) ==> u == e)
  {
  }

  /** `update` leaves every row but the target as it was, in place. */
  lemma ReplaceTouchesOnlyTarget(entries: seq<Entry>, id: nat, row: Entry)
    ensures var r := ReplaceRow(entries, id, row);
      forall i :: 0 <= i < |entries| ==> (entries[i].id != id ==> r[i] == entries[i]) && (entries[i].id == id ==> r[i] == row)
  {
  }

  /** `destroy` removes exactly the target row: one copy of it, and nothing else. */
  lemma {:induction false} RemoveRowExactlyTarget(entries: seq<Entry>, e: Entry)
    requires Tables.DistinctBy(entries, EntryId)
    requires e in entries
    ensures multiset(RemoveRow(entries, e.id)) + multiset{e} == multiset(entries)
    ensures |RemoveRow(entries, e.id)| == |entries| - 1
    decreases |entries|
  {
    assert entries == [entries[0]] + entries[1..];
    if entries[0] == e {
      forall i | 0 <= i < |entries[1..]| ensures entries[1..][i].id != e.id {
        assert EntryId(entries[0]) != EntryId(entries[i + 1]);
      }
      Tables.FilterAll(entries[1..], (x: Entry) => x.id != e.id);
    } else {
      var k :| 0 <= k < |entries| && entries[k] == e;
      assert EntryId(entries[0]) != EntryId(entries[k]);
      assert e in entries[1..];
      RemoveRowExactlyTarget(entries[1..], e);
    }
    assert |multiset(RemoveRow(entries, e.id))| + 1 == |multiset(entries)|;
  }

}
