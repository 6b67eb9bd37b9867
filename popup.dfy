/**
 * The extension's popup (chrome_extension/popup.js): the client-side credential filter and
 * initials, and the state the popup keeps between events — the token, the credential list, which
 * of its three views is shown, the status line and the rendered list. Each event handler is a
 * method; what the network or storage answered is its parameter.
 */
module Popup {
  import opened Wrappers
  import opened Text
  import Tables
  import ApiBase

  /** A credential as the API sends it; any field may be null. */
  datatype Cred = Cred(id: int, title: Option<string>, username: Option<string>,
                       password: Option<string>, url: Option<string>)

  /** JavaScript truthiness of a string that may be null: present and not empty. */
  predicate Truthy(s: Option<string>) {
    s.Some? && s.value != ""
  }

  /**
   * The filter's test for one credential with an already lower-cased query, or None where it throws:
   * a null title always throws, a null username throws unless the title already matched, and a null
   * or empty url never matches.
   */
  function KeepCred(c: Cred, query: string): (r: Option<bool>)
    ensures r.None? <==> c.title.None? || (!Contains(Lower(c.title.value), query) && c.username.None?)
    ensures r.Some? ==>
      (r.value <==>
        || Contains(Lower(c.title.value), query)
        || (c.username.Some? && Contains(Lower(c.username.value), query))
        || (Truthy(c.url) && Contains(Lower(c.url.value), query)))
  {
    match c.title
    case None => None
    case Some(t) =>
      if Contains(Lower(t), query) then Some(true)
      else match c.username
        case None => None
        case Some(u) =>
          if Contains(Lower(u), query) then Some(true)
          else Some(Truthy(c.url) && Contains(Lower(c.url.value), query))
  }

  /**
   * `filterCredentials`: the credentials the lower-cased query keeps, in list order, or None when
   * the test throws on one of them (the list on screen is then left as it was).
   */
  function FilterCredentials(creds: seq<Cred>, input: string): (r: Option<seq<Cred>>)
    ensures r.None? <==> exists i :: 0 <= i < |creds| && KeepCred(creds[i], Lower(input)).None?
    ensures r.Some? ==> Tables.IsSubsequence(r.value, creds)
    ensures r.Some? ==> forall c :: c in r.value <==> c in creds && KeepCred(c, Lower(input)) == Some(true)
    decreases |creds|
  {
    if creds == [] then Some([])
    else
      match KeepCred(creds[0], Lower(input))
      case None => None
      case Some(keep) =>
        match FilterCredentials(creds[1..], input)
        case None =>
          assert forall i :: 0 <= i < |creds[1..]| ==> creds[1..][i] == creds[i + 1];
          None
        case Some(rest) =>
          assert forall i :: 1 <= i < |creds| ==> creds[i] == creds[1..][i - 1];
          assert forall c :: c in creds <==> c == creds[0] || c in creds[1..];
          if keep then
            assert ([creds[0]] + rest)[1..] == rest;
            Some([creds[0]] + rest)
          else
            assert rest == [] || Tables.IsSubsequence(rest, creds[1..]);
            Some(rest)
  }

  /**
   * `getInitials`: `substring(0, 2)` counts UTF-16 code units, so the initials are the title's
   * first two code units, upper-cased; a character above U+FFFF fills both.
   */
  function Initials(title: string): (r: seq<nat>)
    ensures |r| == if |Utf16(title)| < 2 then |Utf16(title)| else 2
    ensures forall i :: 0 <= i < |r| ==> r[i] == UpperUnit(Utf16(title)[i])
  {
    var units := Utf16(title);
    var first := if |units| <= 2 then units else units[..2];
    seq(|first|, i requires 0 <= i < |first| => UpperUnit(first[i]))
  }

  /** Which of the three views carry the `hidden` class. */
  datatype Hidden = Hidden(login: bool, credentials: bool, settings: bool)

  const ViewNames: set<string> := {"login", "credentials", "settings"}

  /** The names of the views that are not hidden. */
  function Visible(h: Hidden): set<string> {
    (if h.login then {} else {"login"}) + (if h.credentials then {} else {"credentials"})
      + (if h.settings then {} else {"settings"})
  }

  /** The list area: the spinner, rendered rows (none means "No credentials found"), or the error. */
  datatype Listing = Blank | Spinner | Rows(shown: seq<Cred>) | ConnectionError

  /** What the login request came back with: nothing usable, or a response and its JSON body. */
  datatype LoginReply = LoginUnreachable | LoginAnswer(ok: bool, token: Option<string>, error: Option<string>)

  /** What the credentials request came back with. */
  datatype LoadReply = LoadUnreachable | LoadAnswer(status: nat, credentials: Option<seq<Cred>>)

  /** The header `loadCredentials` sends: a null token is sent as the text "null". */
  function AuthorizationHeader(authToken: Option<string>): (h: string)
    ensures |h| >= 7 && h[..7] == "Bearer "
    ensures authToken.Some? ==> h[7..] == authToken.value
    ensures authToken.None? ==> h[7..] == "null"
  {
    "Bearer " + match authToken case None => "null" case Some(t) => t
  }

  /** A credential list the rows can be drawn for: `getInitials` throws on a null title. */
  predicate AllTitled(creds: seq<Cred>) {
    forall i :: 0 <= i < |creds| ==> creds[i].title.Some?
  }

  const DefaultServer := "http://localhost:3002"

  class PopupState {
    /** `authToken` in the popup's memory. */
    var authToken: Option<string>
    /** `authToken` in extension storage. */
    var storedToken: Option<string>
    /** `serverUrl` in extension storage. */
    var serverUrl: Option<string>
    var credentials: seq<Cred>
    var hidden: Hidden
    var status: Option<string>
    var listing: Listing

    /** The token in memory is the one in storage. */
    ghost predicate Valid()
      reads this
    {
      authToken == storedToken
    }

    /** The popup as the page loads, before its ready handler runs: every view is visible. */
    constructor ()
      ensures Valid()
      ensures authToken == None && storedToken == None && serverUrl == None && credentials == []
      ensures hidden == Hidden(false, false, false) && status == None && listing == Blank
    {
      authToken, storedToken, serverUrl, credentials := None, None, None, [];
      hidden, status, listing := Hidden(false, false, false), None, Blank;
    }

    /** `stored.serverUrl || DEFAULT_SERVER`. */
    function ServerUrl(): (r: string)
      reads this
      ensures r != ""
      ensures Truthy(serverUrl) ==> r == serverUrl.value
    {
      if Truthy(serverUrl) then serverUrl.value else DefaultServer
    }

    /** `showView`: hide all three views, then unhide the one named, if any. */
    method ShowView(view: string)
      modifies this
      ensures Visible(hidden) == if view in ViewNames then {view} else {}
      ensures authToken == old(authToken) && storedToken == old(storedToken) && serverUrl == old(serverUrl)
      ensures credentials == old(credentials) && status == old(status) && listing == old(listing)
    {
      hidden := Hidden(true, true, true);
      if view == "login" { hidden := hidden.(login := false); }
      if view == "credentials" { hidden := hidden.(credentials := false); }
      if view == "settings" { hidden := hidden.(settings := false); }
    }

    /** The ready handler: the stored token and server are read, and the view follows the token. */
    method Open(stored: Option<string>, storedServer: Option<string>)
      modifies this
      ensures Valid()
      ensures authToken == stored && storedToken == stored && serverUrl == storedServer
      ensures Visible(hidden) == if Truthy(stored) then {"credentials"} else {"login"}
      ensures credentials == old(credentials) && status == old(status) && listing == old(listing)
    {
      authToken, storedToken, serverUrl := stored, stored, storedServer;
      ShowView(if Truthy(stored) then "credentials" else "login");
    }

    /**
     * `handleLogin`: the token is taken, and stored, only from an ok response whose token is
     * truthy; otherwise it stays as it was and the status shows the server's error or a fallback.
     */
    method HandleLogin(reply: LoginReply)
      requires Valid()
      modifies this
      ensures Valid()
      ensures credentials == old(credentials) && listing == old(listing) && serverUrl == old(serverUrl)
      ensures match reply
        case LoginUnreachable =>
          authToken == old(authToken) && hidden == old(hidden) && status == Some("Cannot connect to server")
        case LoginAnswer(ok, token, error) =>
          if ok && Truthy(token) then
            authToken == token && status == Some("Logged in successfully!") && Visible(hidden) == {"credentials"}
          else
            authToken == old(authToken) && hidden == old(hidden) &&
            status == Some(if Truthy(error) then error.value else "Login failed")
    {
      match reply
      case LoginUnreachable =>
        status := Some("Cannot connect to server");
      case LoginAnswer(ok, token, error) =>
        if ok && Truthy(token) {
          authToken := token;
          storedToken := token;
          status := Some("Logged in successfully!");
          ShowView("credentials");
        } else {
          status := Some(if Truthy(error) then error.value else "Login failed");
        }
    }

    /** `handleLogout`: the token is dropped from memory and storage and the login view shown. */
    method HandleLogout()
      modifies this
      ensures Valid()
      ensures authToken == None && storedToken == None
      ensures Visible(hidden) == {"login"} && status == Some("Logged out")
      ensures credentials == old(credentials) && listing == old(listing) && serverUrl == old(serverUrl)
    {
      authToken := None;
      storedToken := None;
      ShowView("login");
      status := Some("Logged out");
    }

    /**
     * `loadCredentials`: a 401 logs out; any other answer replaces the list (`data.credentials || []`)
     * and draws it, and no answer at all leaves the list in memory and shows the connection error.
     */
    method LoadCredentials(reply: LoadReply)
      requires Valid()
      modifies this
      ensures Valid()
      ensures serverUrl == old(serverUrl)
      ensures match reply
        case LoadUnreachable =>
          && credentials == old(credentials) && listing == ConnectionError
          && authToken == old(authToken) && hidden == old(hidden) && status == old(status)
        case LoadAnswer(code, creds) =>
          if code == 401 then
            && authToken == None && Visible(hidden) == {"login"} && status == Some("Logged out")
            && credentials == old(credentials) && listing == Spinner
          else
            var list := match creds case None => [] case Some(cs) => cs;
            && credentials == list
            && listing == (if AllTitled(list) then Rows(list) else ConnectionError)
            && authToken == old(authToken) && hidden == old(hidden) && status == old(status)
    {
      listing := Spinner;
      match reply
      case LoadUnreachable =>
        listing := ConnectionError;
      case LoadAnswer(code, creds) =>
        if code == 401 {
          HandleLogout();
          return;
        }
        credentials := match creds case None => [] case Some(cs) => cs;
        listing := if AllTitled(credentials) then Rows(credentials) else ConnectionError;
    }

    /** The back button: credentials when there is a token, login otherwise. */
    method Back()
      modifies this
      ensures Visible(hidden) == if Truthy(authToken) then {"credentials"} else {"login"}
      ensures authToken == old(authToken) && storedToken == old(storedToken) && serverUrl == old(serverUrl)
      ensures credentials == old(credentials) && status == old(status) && listing == old(listing)
    {
      ShowView(if Truthy(authToken) then "credentials" else "login");
    }

    method OpenSettings()
      modifies this
      ensures Visible(hidden) == {"settings"}
      ensures authToken == old(authToken) && storedToken == old(storedToken) && serverUrl == old(serverUrl)
      ensures credentials == old(credentials) && status == old(status) && listing == old(listing)
    {
      ShowView("settings");
    }

    /** `saveSettings`: the server is stored, then the view follows the token as for the back button. */
    method SaveSettings(url: string)
      modifies this
      ensures serverUrl == Some(url) && status == Some("Settings saved!")
      ensures Visible(hidden) == if Truthy(authToken) then {"credentials"} else {"login"}
      ensures authToken == old(authToken) && storedToken == old(storedToken)
      ensures credentials == old(credentials) && listing == old(listing)
    {
      serverUrl := Some(url);
      status := Some("Settings saved!");
      ShowView(if Truthy(authToken) then "credentials" else "login");
    }

    /** Typing in the search box: the filtered rows are drawn; if the filter throws, nothing changes. */
    method Search(input: string)
      modifies this
      ensures listing == match FilterCredentials(credentials, input)
                         case None => old(listing) case Some(r) => Rows(r)
      ensures authToken == old(authToken) && storedToken == old(storedToken) && serverUrl == old(serverUrl)
      ensures credentials == old(credentials) && status == old(status) && hidden == old(hidden)
    {
      match FilterCredentials(credentials, input)
      case None =>
      case Some(r) => listing := Rows(r);
    }
  }

  // ---------------------------------------------------------------- lemmas

  /** An empty query keeps every credential, in order, as long as every title is present. */
  lemma {:induction false} EmptyQueryKeepsAll(creds: seq<Cred>)
    requires AllTitled(creds)
    ensures FilterCredentials(creds, "") == Some(creds)
    decreases |creds|
  {
    if creds != [] {
      assert Lower("") == "";
      assert Contains(Lower(creds[0].title.value), "");
      EmptyQueryKeepsAll(creds[1..]);
      assert [creds[0]] + creds[1..] == creds;
    }
  }

  /** The filter ignores the case of the query. */
  lemma FilterIgnoresQueryCase(creds: seq<Cred>, input: string)
    ensures FilterCredentials(creds, Lower(input)) == FilterCredentials(creds, input)
  {
    LowerIdempotent(input);
  }

  /** A credential with an empty url is never kept for its url alone. */
  lemma EmptyUrlNeverMatches(c: Cred, query: string)
    requires c.url == Some("")
    requires c.title.Some? && !Contains(Lower(c.title.value), query)
    requires c.username.Some? && !Contains(Lower(c.username.value), query)
    ensures KeepCred(c, query) == Some(false)
  {
  }

  /** Initials are upper-cased: a title's own case does not matter. */
  lemma InitialsIgnoreCase(title: string)
    ensures Initials(Lower(title)) == Initials(title)
  {
    Utf16Lower(title);
  }

  /**
   * When the title's first two characters lie below U+10000, the initials are those two
   * characters (or fewer), upper-cased.
   */
  lemma InitialsOfBasicPlane(title: string)
    requires forall i :: 0 <= i < |title| && i < 2 ==> (title[i] as int) < 0x1_0000
    ensures |Initials(title)| == |FirstChars(title, 2)|
    ensures forall i :: 0 <= i < |FirstChars(title, 2)| ==> Initials(title)[i] == UpperChar(title[i]) as int
  {
    if title != [] {
      assert Utf16(title) == [title[0] as int] + Utf16(title[1..]);
      if |title| >= 2 {
        assert title[1..][0] == title[1];
        assert Utf16(title[1..]) == [title[1] as int] + Utf16(title[2..]);
      }
    }
  }

  /** A title that starts with a character above U+FFFF has that one character as its initials. */
  lemma InitialsOfSupplementary(c: char, rest: string)
    requires (c as int) >= 0x1_0000
    ensures Initials([c] + rest) == CodeUnits(c)
  {
    assert ([c] + rest)[1..] == rest;
    assert Utf16([c] + rest) == CodeUnits(c) + Utf16(rest);
  }

  /**
   * The server reads back the token the popup holds: the header's last word is the token when it
   * is a single word, and the word "null" when the popup has none.
   */
  lemma HeaderCarriesToken(authToken: Option<string>)
    requires authToken.Some? ==> authToken.value != "" && NoSpace(authToken.value)
    ensures ApiBase.BearerToken(Some(AuthorizationHeader(authToken)))
         == Some(match authToken case None => "null" case Some(t) => t)
  {
    var t := match authToken case None => "null" case Some(t) => t;
    ApiBase.BearerTokenOfHeader("Bearer", t);
    assert "Bearer" + " " + t == "Bearer " + t;
  }
}
