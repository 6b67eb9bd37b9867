/**
 * The extension's content script (chrome_extension/content.js): which page elements it treats as
 * visible and fillable, which username and password fields it fills, which button or form it uses
 * to submit, when it asks the server for matching credentials, and how long it waits for a
 * password field. The page is a sequence of element records in document order; which CSS selectors
 * an element matches is part of its record.
 */
module Autofill {
  import opened Wrappers
  import opened Text
  import Tables
  import opened Popup

  /** The computed style properties the script reads. */
  datatype Style = Style(display: string, visibility: string, opacity: string)

  /**
   * A page element: its computed style and bounding box, its state, its text, value and
   * aria-label, its `type` property, its tag, the selectors it matches and, for a form, whether it
   * holds a password input.
   */
  datatype Element = Element(style: Style, width: real, height: real, disabled: bool, readOnly: bool,
                             textContent: string, value: Option<string>, ariaLabel: Option<string>,
                             kind: string, tag: string, matches: set<string>, containsPassword: bool)

  /** `isVisible` on an element that exists. */
  predicate Visible(e: Element) {
    e.style.display != "none" && e.style.visibility != "hidden" && e.style.opacity != "0" &&
    e.width > 0.0 && e.height > 0.0
  }

  /** `isVisible`, which also accepts a missing element. */
  predicate IsVisible(e: Option<Element>)
    ensures e.None? ==> !IsVisible(e)
    ensures (e.Some? && (e.value.style.display == "none" || e.value.style.visibility == "hidden" ||
                         e.value.style.opacity == "0")) ==> !IsVisible(e)
    ensures e.Some? && (e.value.width <= 0.0 || e.value.height <= 0.0) ==> !IsVisible(e)
    ensures (e.Some? && e.value.style.display != "none" && e.value.style.visibility != "hidden" &&
             e.value.style.opacity != "0" && e.value.width > 0.0 && e.value.height > 0.0) ==> IsVisible(e)
  {
    e.Some? && Visible(e.value)
  }

  /** A field the script will type into. */
  predicate Fillable(e: Element)
    ensures Fillable(e) <==> IsVisible(Some(e)) && !e.disabled && !e.readOnly
  {
    Visible(e) && !e.disabled && !e.readOnly
  }

  const UsernameSelectors: seq<string> := [
    "input[type=\"email\"]",
    "input[type=\"text\"][name*=\"user\"]",
    "input[type=\"text\"][name*=\"email\"]",
    "input[type=\"text\"][name*=\"login\"]",
    "input[type=\"text\"][id*=\"user\"]",
    "input[type=\"text\"][id*=\"email\"]",
    "input[type=\"text\"][id*=\"login\"]",
    "input[name=\"username\"]",
    "input[name=\"email\"]",
    "input[name=\"login\"]",
    "input[autocomplete=\"username\"]",
    "input[autocomplete=\"email\"]",
    "input[type=\"text\"]"]

  const PasswordSelectors: seq<string> := [
    "input[type=\"password\"]",
    "input[name=\"password\"]",
    "input[name=\"pass\"]",
    "input[autocomplete=\"current-password\"]"]

  const SubmitSelectors: seq<string> := [
    "button[type=\"submit\"]",
    "input[type=\"submit\"]",
    "button[name=\"login\"]",
    "button[name=\"signin\"]",
    "button[name=\"sign-in\"]",
    "button[id*=\"login\"]",
    "button[id*=\"signin\"]",
    "button[id*=\"sign-in\"]",
    "button[class*=\"login\"]",
    "button[class*=\"signin\"]",
    "button[class*=\"sign-in\"]",
    "button[class*=\"submit\"]",
    "input[value*=\"Sign\" i]",
    "input[value*=\"Log\" i]",
    "button",
    "a[role=\"button\"]"]

  const LoginKeywords: seq<string> := ["sign in", "signin", "log in", "login", "submit", "continue", "next", "enter"]

  /** `element` is returned by `querySelectorAll(selector)` and passes `ok`. */
  predicate Picks(e: Element, selector: string, ok: Element -> bool) {
    selector in e.matches && ok(e)
  }

  /** `querySelectorAll(selector)` returns some element that passes `ok`. */
  predicate HasPick(doc: seq<Element>, selector: string, ok: Element -> bool) {
    exists j :: 0 <= j < |doc| && Picks(doc[j], selector, ok)
  }

  /** The test of one selector's loop: its matches in document order, against `ok`. */
  function PickTest(selector: string, ok: Element -> bool): Element -> bool {
    (e: Element) => Picks(e, selector, ok)
  }

  /**
   * The element the selector loops stop at: for the earliest selector with a match that passes
   * `ok`, the first such match in document order (see `FirstBySelectorsChoice`).
   */
  function FirstBySelectors(doc: seq<Element>, selectors: seq<string>, ok: Element -> bool): (r: Option<nat>)
    ensures r.Some? ==> r.value < |doc| && ok(doc[r.value])
    ensures r.None? <==> forall t :: 0 <= t < |selectors| ==> !HasPick(doc, selectors[t], ok)
    decreases |selectors|
  {
    if selectors == [] then None
    else
      match Tables.FirstIndex(doc, PickTest(selectors[0], ok))
      case Some(k) => Some(k)
      case None =>
        assert !HasPick(doc, selectors[0], ok);
        assert forall t :: 1 <= t < |selectors| ==> selectors[t] == selectors[1..][t - 1];
        FirstBySelectors(doc, selectors[1..], ok)
  }

  /**
   * The selector loops of `fillCredentials` and `clickSubmitButton`: selectors in order, matches in
   * document order, stopping at the first that passes `ok`.
   */
  method SelectField(doc: array<Element>, selectors: seq<string>, ok: Element -> bool) returns (found: Option<nat>)
    ensures found == FirstBySelectors(doc[..], selectors, ok)
  {
    found := None;
    var s := 0;
    while s < |selectors|
      invariant 0 <= s <= |selectors|
      invariant FirstBySelectors(doc[..], selectors, ok) == FirstBySelectors(doc[..], selectors[s..], ok)
    {
      var k := ScanMatches(doc, selectors[s], ok);
      assert selectors[s..][0] == selectors[s] && selectors[s..][1..] == selectors[s + 1..];
      if k.Some? {
        found := k;
        return;
      }
      s := s + 1;
    }
  }

  /** The inner loop: the first match of one selector, in document order, that passes `ok`. */
  method ScanMatches(doc: array<Element>, selector: string, ok: Element -> bool) returns (found: Option<nat>)
    ensures found == Tables.FirstIndex(doc[..], PickTest(selector, ok))
  {
    var k := 0;
    while k < doc.Length
      invariant 0 <= k <= doc.Length
      invariant forall j :: 0 <= j < k ==> !PickTest(selector, ok)(doc[j])
    {
      if selector in doc[k].matches && ok(doc[k]) {
        return Some(k);
      }
      k := k + 1;
    }
    return None;
  }

  /**
   * The chosen element matches some selector, no earlier selector has a passing match, and no
   * earlier element is a passing match of that selector.
   */
  lemma {:induction false} FirstBySelectorsChoice(doc: seq<Element>, selectors: seq<string>, ok: Element -> bool)
    requires FirstBySelectors(doc, selectors, ok).Some?
    ensures var k := FirstBySelectors(doc, selectors, ok).value;
      exists s :: 0 <= s < |selectors| && Picks(doc[k], selectors[s], ok) &&
        (forall j :: 0 <= j < k ==> !Picks(doc[j], selectors[s], ok)) &&
        (forall t :: 0 <= t < s ==> !HasPick(doc, selectors[t], ok))
    decreases |selectors|
  {
    var k := FirstBySelectors(doc, selectors, ok).value;
    var first := Tables.FirstIndex(doc, PickTest(selectors[0], ok));
    if first.Some? {
      assert first.value == k;
      assert forall j :: 0 <= j < k ==> !PickTest(selectors[0], ok)(doc[j]);
      assert Picks(doc[k], selectors[0], ok);
    } else {
      var rest := selectors[1..];
      assert FirstBySelectors(doc, rest, ok) == FirstBySelectors(doc, selectors, ok);
      FirstBySelectorsChoice(doc, rest, ok);
      var s' :| 0 <= s' < |rest| && Picks(doc[k], rest[s'], ok) &&
        (forall j :: 0 <= j < k ==> !Picks(doc[j], rest[s'], ok)) &&
        (forall t :: 0 <= t < s' ==> !HasPick(doc, rest[t], ok));
      assert selectors[s' + 1] == rest[s'];
      forall t | 0 <= t < s' + 1 ensures !HasPick(doc, selectors[t], ok) {
        if t > 0 {
          assert selectors[t] == rest[t - 1];
        }
      }
    }
  }

  /** The page after the element at `k`, if any, has been given the value `v`. */
  function Filled(doc: seq<Element>, k: Option<nat>, v: string): (r: seq<Element>)
    ensures |r| == |doc|
    ensures forall i :: 0 <= i < |doc| && (k.None? || i != k.value) ==> r[i] == doc[i]
    ensures k.Some? && k.value < |doc| ==> r[k.value] == doc[k.value].(value := Some(v))
  {
    match k
    case None => doc
    case Some(i) => if i < |doc| then doc[i := doc[i].(value := Some(v))] else doc
  }

  /** What `fillCredentials` did: the fields it filled, the notification, the scheduled submit. */
  datatype FillReport = FillReport(usernameField: Option<nat>, passwordField: Option<nat>,
                                   notified: bool, submitScheduled: bool)

  /**
   * `fillCredentials`: at most one username field and then at most one password field are filled;
   * the notification shows if either was, and the submit is scheduled only then and only when
   * `autoSubmit` holds.
   */
  method FillCredentials(doc: array<Element>, username: string, password: string, autoSubmit: bool)
    returns (report: FillReport)
    modifies doc
    ensures var u := FirstBySelectors(old(doc[..]), UsernameSelectors, Fillable);
      var p := FirstBySelectors(old(doc[..]), PasswordSelectors, Fillable);
      && report == FillReport(u, p, u.Some? || p.Some?, (u.Some? || p.Some?) && autoSubmit)
      && doc[..] == Filled(Filled(old(doc[..]), u, username), p, password)
  {
    ghost var before := doc[..];
    var u := FillFirst(doc, UsernameSelectors, username);
    FillKeepsSelection(before, u, username, PasswordSelectors);
    var p := FillFirst(doc, PasswordSelectors, password);
    var filled := u.Some? || p.Some?;
    report := FillReport(u, p, filled, filled && autoSubmit);
  }

  /** One of the two selector loops of `fillCredentials`: the first fillable match gets the value. */
  method FillFirst(doc: array<Element>, selectors: seq<string>, v: string) returns (k: Option<nat>)
    modifies doc
    ensures k == FirstBySelectors(old(doc[..]), selectors, Fillable)
    ensures doc[..] == Filled(old(doc[..]), k, v)
  {
    k := SelectField(doc, selectors, Fillable);
    if k.Some? {
      doc[k.value] := doc[k.value].(value := Some(v));
    }
  }

  /** `message.autoSubmit !== false`: only an explicit false turns the submit off. */
  function AutoSubmitFlag(m: Option<bool>): (r: bool)
    ensures !r <==> m == Some(false)
  {
    m != Some(false)
  }

  /** `(textContent || value || '').toLowerCase()`. */
  function ButtonText(e: Element): (r: string)
    ensures forall i :: 0 <= i < |r| ==> !IsUpperChar(r[i])
    ensures e.textContent != "" ==> r == Lower(e.textContent)
    ensures e.textContent == "" && Truthy(e.value) ==> r == Lower(e.value.value)
    ensures e.textContent == "" && !Truthy(e.value) ==> r == ""
  {
    LowerNoUpperIff(if e.textContent != "" then e.textContent else if Truthy(e.value) then e.value.value else "");
    Lower(if e.textContent != "" then e.textContent else if Truthy(e.value) then e.value.value else "")
  }

  function AriaText(e: Element): string {
    Lower(match e.ariaLabel case None => "" case Some(a) => a)
  }

  /** Some login keyword occurs in the button's lower-cased text or aria-label. */
  predicate IsLoginButton(e: Element)
    ensures (exists i :: 0 <= i < |LoginKeywords| && Contains(ButtonText(e), LoginKeywords[i])) ==> IsLoginButton(e)
    ensures ButtonText(e) == "" && AriaText(e) == "" ==> !IsLoginButton(e)
  {
    exists i :: 0 <= i < |LoginKeywords| && (Contains(ButtonText(e), LoginKeywords[i]) || Contains(AriaText(e), LoginKeywords[i]))
  }

  /** A button `clickSubmitButton` clicks: visible, and a login button or of type submit. */
  predicate Qualifies(e: Element)
    ensures Qualifies(e) ==> IsVisible(Some(e))
    ensures Visible(e) && e.kind == "submit" ==> Qualifies(e)
    ensures ButtonText(e) == "" && AriaText(e) == "" ==> (Qualifies(e) <==> Visible(e) && e.kind == "submit")
  {
    Visible(e) && (IsLoginButton(e) || e.kind == "submit")
  }

  /** A form the fallback submits: visible and holding a password input. */
  predicate SubmittableForm(e: Element) {
    e.tag == "form" && e.containsPassword && Visible(e)
  }

  datatype SubmitOutcome = Clicked(button: nat) | SubmittedForm(form: nat) | NothingToSubmit

  /** `clickSubmitButton`: the first qualifying button by selector, else the first submittable form. */
  function SubmitTarget(doc: seq<Element>): (r: SubmitOutcome)
    ensures r.Clicked? ==> r.button < |doc| && Qualifies(doc[r.button])
    ensures r.Clicked? ==> FirstBySelectors(doc, SubmitSelectors, Qualifies) == Some(r.button)
    ensures r.Clicked? ==>
      exists s :: 0 <= s < |SubmitSelectors| && Picks(doc[r.button], SubmitSelectors[s], Qualifies) &&
        (forall j :: 0 <= j < r.button ==> !Picks(doc[j], SubmitSelectors[s], Qualifies)) &&
        (forall t :: 0 <= t < s ==> !HasPick(doc, SubmitSelectors[t], Qualifies))
    ensures r.SubmittedForm? ==>
      && r.form < |doc| && SubmittableForm(doc[r.form])
      && (forall j :: 0 <= j < r.form ==> !SubmittableForm(doc[j]))
      && (forall t :: 0 <= t < |SubmitSelectors| ==> !HasPick(doc, SubmitSelectors[t], Qualifies))
    ensures r.NothingToSubmit? <==>
      (forall t :: 0 <= t < |SubmitSelectors| ==> !HasPick(doc, SubmitSelectors[t], Qualifies)) &&
      (forall j :: 0 <= j < |doc| ==> !SubmittableForm(doc[j]))
  {
    match FirstBySelectors(doc, SubmitSelectors, Qualifies)
    case Some(k) => FirstBySelectorsChoice(doc, SubmitSelectors, Qualifies); Clicked(k)
    case None =>
      match Tables.FirstIndex(doc, SubmittableForm)
      case Some(f) => SubmittedForm(f)
      case None => NothingToSubmit
  }

  /** `clickSubmitButton`; the result is true exactly when something was clicked or submitted. */
  method ClickSubmitButton(doc: array<Element>) returns (outcome: SubmitOutcome, submitted: bool)
    ensures outcome == SubmitTarget(doc[..])
    ensures submitted <==> !outcome.NothingToSubmit?
  {
    var b := SelectField(doc, SubmitSelectors, Qualifies);
    if b.Some? {
      return Clicked(b.value), true;
    }
    var f := FirstSubmittableForm(doc);
    if f.Some? {
      return SubmittedForm(f.value), true;
    }
    return NothingToSubmit, false;
  }

  /** The fallback loop of `clickSubmitButton` over the page's forms. */
  method FirstSubmittableForm(doc: array<Element>) returns (found: Option<nat>)
    ensures found == Tables.FirstIndex(doc[..], SubmittableForm)
  {
    var f := 0;
    while f < doc.Length
      invariant 0 <= f <= doc.Length
      invariant forall j :: 0 <= j < f ==> !SubmittableForm(doc[j])
    {
      if doc[f].containsPassword && doc[f].tag == "form" && Visible(doc[f]) {
        return Some(f);
      }
      f := f + 1;
    }
    return None;
  }

  /** `checkForMatchingCredentials` goes on to the server only off the skipped hosts and with a token. */
  predicate ShouldCheck(hostname: string, storedToken: Option<string>)
    ensures ShouldCheck(hostname, storedToken) ==> storedToken.Some? && storedToken.value != ""
    ensures ShouldCheck(hostname, storedToken) ==>
      hostname != "localhost" && !Contains(hostname, "chrome.google.com") && !Contains(hostname, "extensions")
  {
    !(hostname == "localhost" || Contains(hostname, "chrome.google.com") || Contains(hostname, "extensions"))
    && Truthy(storedToken)
  }

  /** What the `for_url` request came back with. */
  datatype MatchReply = MatchUnreachable | MatchAnswer(ok: bool, credentials: Option<seq<Cred>>)

  /**
   * `checkForMatchingCredentials`: the credentials it hands to the smart popup, or None when it
   * stops early (a skipped host, no token, a failed or non-ok request, or no match).
   */
  function MatchingCredentials(hostname: string, storedToken: Option<string>, reply: MatchReply): (r: Option<seq<Cred>>)
    ensures r.Some? ==>
      && ShouldCheck(hostname, storedToken) && reply.MatchAnswer? && reply.ok
      && r.value != [] && reply.credentials == Some(r.value)
    ensures (ShouldCheck(hostname, storedToken) && reply.MatchAnswer? && reply.ok &&
             reply.credentials.Some? && reply.credentials.value != []) ==> r == reply.credentials
  {
    if !ShouldCheck(hostname, storedToken) then None
    else match reply
      case MatchUnreachable => None
      case MatchAnswer(ok, creds) =>
        if !ok then None
        else
          var list := match creds case None => [] case Some(cs) => cs;
          if |list| > 0 then Some(list) else None
  }

  const MaxAttempts: nat := 10

  /**
   * `waitForPasswordFieldAndShow`, with `present(i)` telling whether the page has a password
   * field at the i-th check: the popup is shown exactly once, at the first check that finds one,
   * or at the tenth check when none does.
   */
  method WaitForPasswordField(present: nat -> bool) returns (shownAt: nat, shows: nat)
    ensures shows == 1
    ensures shownAt < MaxAttempts
    ensures present(shownAt) || shownAt == MaxAttempts - 1
    ensures forall i :: 0 <= i < shownAt ==> !present(i)
  {
    var attempts := 0;
    shows := 0;
    shownAt := 0;
    while true
      invariant 0 <= attempts < MaxAttempts
      invariant shows == 0
      invariant forall i :: 0 <= i < attempts ==> !present(i)
      decreases MaxAttempts - attempts
    {
      if present(attempts) {
        shownAt, shows := attempts, shows + 1;
        return;
      }
      attempts := attempts + 1;
      if attempts >= MaxAttempts {
        shownAt, shows := attempts - 1, shows + 1;
        return;
      }
    }
  }

  // ---------------------------------------------------------------- lemmas

  /** Typing a value never changes which elements match or pass a test that ignores values. */
  lemma FillKeepsSelection(doc: seq<Element>, k: Option<nat>, v: string, selectors: seq<string>)
    ensures FirstBySelectors(Filled(doc, k, v), selectors, Fillable) == FirstBySelectors(doc, selectors, Fillable)
  {
    var d := Filled(doc, k, v);
    assert forall t, j :: 0 <= t < |selectors| && 0 <= j < |doc| ==>
      Picks(d[j], selectors[t], Fillable) == Picks(doc[j], selectors[t], Fillable);
    SameSelection(doc, d, selectors, Fillable);
  }

  lemma {:induction false} SameSelection(doc: seq<Element>, d: seq<Element>, selectors: seq<string>, ok: Element -> bool)
    requires |d| == |doc|
    requires forall t, j :: 0 <= t < |selectors| && 0 <= j < |doc| ==> Picks(d[j], selectors[t], ok) == Picks(doc[j], selectors[t], ok)
    ensures FirstBySelectors(d, selectors, ok) == FirstBySelectors(doc, selectors, ok)
    decreases |selectors|
  {
    if selectors != [] {
      SameFirstIndex(doc, d, PickTest(selectors[0], ok));
      assert forall t :: 1 <= t < |selectors| ==> selectors[t] == selectors[1..][t - 1];
      SameSelection(doc, d, selectors[1..], ok);
    }
  }

  lemma {:induction false} SameFirstIndex(doc: seq<Element>, d: seq<Element>, p: Element -> bool)
    requires |d| == |doc|
    requires forall j :: 0 <= j < |doc| ==> p(d[j]) == p(doc[j])
    ensures Tables.FirstIndex(d, p) == Tables.FirstIndex(doc, p)
    decreases |doc|
  {
    if doc != [] {
      SameFirstIndex(doc[1..], d[1..], p);
    }
  }

  /**
   * At most one field per kind is filled: the page changes in the username field and the password
   * field (which may be the same element, filled twice) and nowhere else.
   */
  lemma FillChangesAtMostTwoFields(doc: seq<Element>, username: string, password: string)
    ensures var u := FirstBySelectors(doc, UsernameSelectors, Fillable);
      var p := FirstBySelectors(doc, PasswordSelectors, Fillable);
      var after := Filled(Filled(doc, u, username), p, password);
      && |after| == |doc|
      && (forall i :: 0 <= i < |doc| && (u.None? || i != u.value) && (p.None? || i != p.value) ==> after[i] == doc[i])
      && (p.Some? ==> after[p.value].value == Some(password))
      && (u.Some? && (p.None? || p.value != u.value) ==> after[u.value].value == Some(username))
  {
  }

  /** A field of the page that no selector picks, or that is hidden, disabled or read-only, is never filled. */
  lemma UnfillableNeverFilled(doc: seq<Element>, username: string, password: string, i: nat)
    requires i < |doc| && !Fillable(doc[i])
    ensures var u := FirstBySelectors(doc, UsernameSelectors, Fillable);
      var p := FirstBySelectors(doc, PasswordSelectors, Fillable);
      Filled(Filled(doc, u, username), p, password)[i] == doc[i]
  {
  }

  /** Without a stored token the script asks the server nothing. */
  lemma NoTokenNeverChecks(hostname: string, token: Option<string>, reply: MatchReply)
    requires !Truthy(token)
    ensures MatchingCredentials(hostname, token, reply) == None
  {
  }

  /** Hosts the script never checks: `localhost`, the web store and extension pages. */
  lemma SkippedHostsNeverCheck(hostname: string, token: Option<string>, reply: MatchReply)
    requires hostname == "localhost" || Contains(hostname, "chrome.google.com") || Contains(hostname, "extensions")
    ensures MatchingCredentials(hostname, token, reply) == None
  {
  }

  /** A keyword anywhere in the button's text makes a visible button qualify, whatever its type. */
  lemma KeywordButtonQualifies(e: Element, before: string, after: string)
    requires Visible(e) && e.textContent == before + "log in" + after
    ensures Qualifies(e)
  {
    var t := e.textContent;
    assert t != "";
    assert Lower(t) == Lower(before) + Lower("log in") + Lower(after);
    assert Lower("log in") == "log in";
    ContainsMiddle(Lower(before), "log in", Lower(after));
    assert Contains(ButtonText(e), LoginKeywords[2]);
  }
}
