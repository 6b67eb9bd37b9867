/**
 * The credential queries of the extension's API (app/controllers/api/v1/credentials_controller.rb).
 * Every action starts from `current_user.password_entries`. The SQL `LIKE '%q%'` patterns are
 * modelled as substring containment, and a NULL column never matches.
 */
module ApiCredentials {
  import opened Wrappers
  import opened Text
  import Tables
  import opened Accounts
  import opened Entries
  import opened Http
  import opened ApiBase

  /** `credential_json`: exactly seven keys, the password in plain text. */
  function CredentialJsonOf(e: Entry): (j: CredentialJson)
    ensures EntryOfJson(j, e.owner) == e
  {
    CredentialJson(e.id, e.title, e.username, e.password, e.url, e.createdAt, e.updatedAt)
  }

  /** The row a credential object describes, given the owner it leaves out. */
  function EntryOfJson(j: CredentialJson, owner: UserId): Entry {
    Entry(j.id, owner, j.title, j.username, j.password, j.url, j.createdAt, j.updatedAt)
  }

  /** `credentials.map { |c| credential_json(c) }`. */
  function JsonList(rows: seq<Entry>): (r: seq<CredentialJson>)
    ensures |r| == |rows|
    ensures forall i :: 0 <= i < |rows| ==> r[i] == CredentialJsonOf(rows[i])
  {
    seq(|rows|, i requires 0 <= i < |rows| => CredentialJsonOf(rows[i]))
  }

  function ListResponse(rows: seq<Entry>): Response {
    Response(200, CredentialsBody(JsonList(rows)))
  }

  const CredentialNotFound := Response(404, ErrorBody("Credential not found"))

  /** `index`: all of the user's entries, newest first. */
  function Index(user: User, entries: seq<Entry>): (r: Response)
    ensures r.status == StatusOk && r.body.CredentialsBody? && OnlyOwnRows(r.body, entries, user.id)
  {
    JsonListOwn(OwnedNewestFirst(entries, user.id), entries, user.id);
    ListResponse(OwnedNewestFirst(entries, user.id))
  }

  /** `show`: the user's entry with that id, or 404 when the user owns no such entry. */
  function Show(user: User, entries: seq<Entry>, id: nat): (r: Response)
    ensures r.status == StatusOk <==> exists e :: e in entries && e.owner == user.id && e.id == id
    ensures r.status != StatusOk ==> r == CredentialNotFound
    ensures r.status == StatusOk ==>
      r.body.CredentialBody? && EntryOfJson(r.body.credential, user.id) in entries && r.body.credential.id == id
  {
    match FindOwned(entries, user.id, id)
    case None => CredentialNotFound
    case Some(e) => Response(200, CredentialBody(CredentialJsonOf(e)))
  }

  /** `LOWER(column) LIKE '%pattern%'` for an already lower-cased pattern; NULL never matches. */
  predicate ColumnLike(column: Option<string>, pattern: string) {
    column.Some? && Contains(Lower(column.value), pattern)
  }

  /** The search condition: the query in the title, the username or the url. */
  predicate SearchHit(e: Entry, query: string) {
    ColumnLike(e.title, query) || ColumnLike(e.username, query) || ColumnLike(e.url, query)
  }

  /** `params[:q].to_s.downcase`. */
  function SearchQuery(q: Option<string>): (r: string)
    ensures q.None? ==> r == ""
    ensures q.Some? ==> |r| == |q.value| && Lower(r) == Lower(q.value)
    ensures forall i :: 0 <= i < |r| ==> !IsUpperChar(r[i])
    ensures q.Some? && (forall i :: 0 <= i < |q.value| ==> !IsUpperChar(q.value[i])) ==> r == q.value
  {
    match q
    case None => ""
    case Some(s) => LowerIdempotent(s); LowerNoUpperIff(s); Lower(s)
  }

  /** The rows `search` returns, in table order. */
  function SearchRows(entries: seq<Entry>, owner: UserId, q: Option<string>): (r: seq<Entry>)
    ensures Tables.IsSubsequence(r, OwnedBy(entries, owner))
  {
    var query := SearchQuery(q);
    Tables.FilterIsSubsequence(OwnedBy(entries, owner), (e: Entry) => SearchHit(e, query));
    Tables.Filter(OwnedBy(entries, owner), (e: Entry) => SearchHit(e, query))
  }

  /** `search`. */
  function Search(user: User, entries: seq<Entry>, q: Option<string>): (r: Response)
    ensures r.status == StatusOk && r.body.CredentialsBody? && OnlyOwnRows(r.body, entries, user.id)
  {
    SubsequenceMembers(SearchRows(entries, user.id, q), OwnedBy(entries, user.id));
    JsonListOwn(SearchRows(entries, user.id, q), entries, user.id);
    ListResponse(SearchRows(entries, user.id, q))
  }

  /** What `URI.parse` makes of a string: an error, or a URI whose host may be nil. */
  datatype UriParse = InvalidUri | ParsedUri(host: Option<string>)

  /** `extract_domain`: the parsed host when there is one, otherwise the input unchanged. */
  function ExtractDomain(url: string, parse: string -> UriParse): (d: string)
    ensures parse(url).ParsedUri? && parse(url).host.Some? ==> d == parse(url).host.value
    ensures parse(url).InvalidUri? || parse(url).host.None? ==> d == url
  {
    match parse(url)
    case InvalidUri => url
    case ParsedUri(host) => match host case None => url case Some(h) => h
  }

  /** The rows `for_url` returns, in table order. */
  function ForUrlRows(entries: seq<Entry>, owner: UserId, url: Option<string>, parse: string -> UriParse): (r: seq<Entry>)
    ensures Tables.IsSubsequence(r, OwnedBy(entries, owner))
    ensures url.None? || IsBlank(url.value) ==> r == []
  {
    var text := match url case None => "" case Some(s) => s;
    if IsBlank(text) then []
    else
      var domain := Lower(ExtractDomain(text, parse));
      Tables.FilterIsSubsequence(OwnedBy(entries, owner), (e: Entry) => ColumnLike(e.url, domain));
      Tables.Filter(OwnedBy(entries, owner), (e: Entry) => ColumnLike(e.url, domain))
  }

  /** `for_url`. */
  function ForUrl(user: User, entries: seq<Entry>, url: Option<string>, parse: string -> UriParse): (r: Response)
    ensures r.status == StatusOk && r.body.CredentialsBody? && OnlyOwnRows(r.body, entries, user.id)
    ensures url.None? || IsBlank(url.value) ==> r.body.credentials == []
  {
    SubsequenceMembers(ForUrlRows(entries, user.id, url, parse), OwnedBy(entries, user.id));
    JsonListOwn(ForUrlRows(entries, user.id, url, parse), entries, user.id);
    ListResponse(ForUrlRows(entries, user.id, url, parse))
  }

  // ---------------------------------------------------------------- dispatch

  datatype Action = IndexAction | ShowAction(id: nat) | SearchAction(q: Option<string>) | ForUrlAction(url: Option<string>)

  /** Run one action as `current_user`. */
  function Perform(action: Action, user: User, entries: seq<Entry>, parse: string -> UriParse): (r: Response)
    ensures r.status == StatusOk || r == CredentialNotFound
    ensures r.status == StatusNotFound <==> action.ShowAction? && FindOwned(entries, user.id, action.id).None?
    ensures OnlyOwnRows(r.body, entries, user.id)
  {
    match action
    case IndexAction => Index(user, entries)
    case ShowAction(id) => Show(user, entries, id)
    case SearchAction(q) => Search(user, entries, q)
    case ForUrlAction(url) => ForUrl(user, entries, url, parse)
  }

  /** A request: the token gate first; the action runs only if the gate lets it through. */
  function Handle(authorization: Option<string>, action: Action, users: UserTable, entries: seq<Entry>,
                  now: int, codec: Codec, parse: string -> UriParse): (r: Response)
    ensures r.status == StatusUnauthorized <==> Gate(authorization, users, now, codec).Halt?
    ensures Gate(authorization, users, now, codec).Halt? ==> r == RenderUnauthorized()
    ensures Gate(authorization, users, now, codec).Pass? ==>
      r == Perform(action, Gate(authorization, users, now, codec).user, entries, parse) &&
      OnlyOwnRows(r.body, entries, Gate(authorization, users, now, codec).user.id)
  {
    match Gate(authorization, users, now, codec)
    case Halt(r) => r
    case Pass(u) => Perform(action, u, entries, parse)
  }

  /** Every credential object in the body describes a row of the table that `owner` owns. */
  predicate OnlyOwnRows(body: Body, entries: seq<Entry>, owner: UserId) {
    && (body.CredentialsBody? ==>
          forall j :: j in body.credentials ==> EntryOfJson(j, owner) in entries)
    && (body.CredentialBody? ==> EntryOfJson(body.credential, owner) in entries)
  }

  /** One request on the API, as the controller runs it: the before-action, then the action. */
  method Serve(request: ApiRequest, action: Action, users: UserTable, entries: seq<Entry>,
               now: int, codec: Codec, parse: string -> UriParse) returns (r: Response)
    requires request.rendered == None && request.currentUser == None
    modifies request
    ensures r == Handle(request.authorization, action, users, entries, now, codec, parse)
  {
    request.AuthenticateToken(users, now, codec);
    if request.rendered.Some? {
      r := request.rendered.value;
    } else {
      r := Perform(action, request.currentUser.value, entries, parse);
    }
  }

  // ---------------------------------------------------------------- lemmas

  lemma JsonListOwn(rows: seq<Entry>, entries: seq<Entry>, owner: UserId)
    requires forall e :: e in rows ==> e in entries && e.owner == owner
    ensures forall j :: j in JsonList(rows) ==> EntryOfJson(j, owner) in entries
  {
    forall j | j in JsonList(rows) ensures EntryOfJson(j, owner) in entries {
      var i :| 0 <= i < |rows| && JsonList(rows)[i] == j;
      assert rows[i] in rows;
    }
  }

  lemma SubsequenceMembers<T>(r: seq<T>, s: seq<T>)
    requires Tables.IsSubsequence(r, s)
    ensures forall x :: x in r ==> x in s
    decreases |s|
  {
    if r != [] && s != [] {
      if r[0] == s[0] && Tables.IsSubsequence(r[1..], s[1..]) {
        SubsequenceMembers(r[1..], s[1..]);
        assert forall x :: x in r ==> x == r[0] || x in r[1..];
      } else {
        SubsequenceMembers(r, s[1..]);
      }
    }
  }

  /** `index` lists exactly the user's entries, each once per row, newest first. */
  lemma IndexListsOwnNewestFirst(user: User, entries: seq<Entry>)
    ensures var js := Index(user, entries).body.credentials;
      && (forall i, j :: 0 <= i < j < |js| ==> js[i].createdAt >= js[j].createdAt)
      && |js| == |OwnedBy(entries, user.id)|
      && (forall e :: e in entries && e.owner == user.id ==> CredentialJsonOf(e) in js)
      && (forall j :: j in js ==> EntryOfJson(j, user.id) in entries)
  {
    var rows := OwnedNewestFirst(entries, user.id);
    JsonListOwn(rows, entries, user.id);
    assert |rows| == |multiset(rows)| == |OwnedBy(entries, user.id)|;
    forall e | e in entries && e.owner == user.id ensures CredentialJsonOf(e) in JsonList(rows) {
      var i :| 0 <= i < |rows| && rows[i] == e;
      assert JsonList(rows)[i] == CredentialJsonOf(e);
    }
  }

  /** `show` answers the same 404 for an id owned by someone else as for an id that does not exist. */
  lemma ShowForeignLikeMissing(user: User, entries: seq<Entry>, id: nat)
    requires forall e :: e in entries && e.id == id ==> e.owner != user.id
    ensures Show(user, entries, id) == CredentialNotFound
    ensures Show(user, entries, id) == Show(user, Tables.Filter(entries, (e: Entry) => e.id != id), id)
  {
  }

  /** `search` returns an entry exactly when it is the user's and the lower-cased query is in a column. */
  lemma SearchIff(entries: seq<Entry>, owner: UserId, q: Option<string>, e: Entry)
    ensures e in SearchRows(entries, owner, q) <==>
      e in entries && e.owner == owner &&
      ((e.title.Some? && Contains(Lower(e.title.value), SearchQuery(q))) ||
       (e.username.Some? && Contains(Lower(e.username.value), SearchQuery(q))) ||
       (e.url.Some? && Contains(Lower(e.url.value), SearchQuery(q))))
  {
  }

  /**
   * An empty or absent query matches every entry of the user that has at least one non-NULL
   * column among title, username and url; an entry with all three NULL is never returned.
   */
  lemma EmptySearchKeepsNonNullRows(entries: seq<Entry>, owner: UserId, q: Option<string>)
    requires q.None? || q.value == ""
    ensures SearchRows(entries, owner, q)
         == Tables.Filter(OwnedBy(entries, owner), (e: Entry) => e.title.Some? || e.username.Some? || e.url.Some?)
  {
    assert SearchQuery(q) == "";
    FilterSame(OwnedBy(entries, owner), (e: Entry) => SearchHit(e, ""),
               (e: Entry) => e.title.Some? || e.username.Some? || e.url.Some?);
  }

  /** When every entry has a title, an empty query returns all of the user's entries. */
  lemma EmptySearchReturnsAll(entries: seq<Entry>, owner: UserId, q: Option<string>)
    requires q.None? || q.value == ""
    requires forall e :: e in entries ==> e.title.Some?
    ensures SearchRows(entries, owner, q) == OwnedBy(entries, owner)
  {
    EmptySearchKeepsNonNullRows(entries, owner, q);
    Tables.FilterAll(OwnedBy(entries, owner), (e: Entry) => e.title.Some? || e.username.Some? || e.url.Some?);
  }

  lemma {:induction false} FilterSame<T(!new)>(s: seq<T>, p: T -> bool, p': T -> bool)
    requires forall x :: x in s ==> p(x) == p'(x)
    ensures Tables.Filter(s, p) == Tables.Filter(s, p')
    decreases |s|
  {
    if s != [] {
      FilterSame(s[1..], p, p');
    }
  }

  /** A blank or absent url finds nothing, without consulting the table. */
  lemma BlankUrlFindsNothing(user: User, entries: seq<Entry>, url: Option<string>, parse: string -> UriParse)
    requires url.None? || IsBlank(url.value)
    ensures ForUrl(user, entries, url, parse) == Response(200, CredentialsBody([]))
  {
  }

  /** `for_url` returns an entry exactly when it is the user's and its url contains the lower-cased domain. */
  lemma ForUrlIff(entries: seq<Entry>, owner: UserId, url: string, parse: string -> UriParse, e: Entry)
    requires !IsBlank(url)
    ensures e in ForUrlRows(entries, owner, Some(url), parse) <==>
      e in entries && e.owner == owner && e.url.Some? &&
      Contains(Lower(e.url.value), Lower(ExtractDomain(url, parse)))
  {
  }

  /**
   * The match is by substring, not by host: an entry is offered on a page as soon as its stored
   * url contains the page's host anywhere. An entry stored for `https://example.com/login` is
   * offered on a page whose host is `ample.com`, though not on `example.com.evil.net`.
   */
  lemma ForUrlMatchesBySubstring(entries: seq<Entry>, e: Entry, parse: string -> UriParse,
                                 page: string, host: string, before: string, after: string)
    requires e in entries && e.url == Some(before + Lower(host) + after)
    requires parse(page) == ParsedUri(Some(host)) && !IsBlank(page)
    ensures e in ForUrlRows(entries, e.owner, Some(page), parse)
  {
    var stored := before + Lower(host) + after;
    assert Lower(stored) == Lower(before) + Lower(Lower(host)) + Lower(after);
    LowerIdempotent(host);
    ContainsMiddle(Lower(before), Lower(host), Lower(after));
    assert ExtractDomain(page, parse) == host;
  }
}
