# Vault, modelled in Dafny

Vault is a personal password vault. It has three parts:

- a Rails server that keeps each user's credential entries (title, username, password, url);
- a JSON API that a Chrome extension calls with a bearer token;
- the extension itself: a popup that lists and filters credentials, and a content script that fills login forms.

This project models the logic of those parts and proves what they promise.

- **Accounts** (`accounts.dfy`): the account record and its rules.
  - E-mail normalisation and the validations.
  - The two signed tokens an account issues: the 15-minute password-reset token bound to the password salt, and the API token.
  - Tokens follow the framework's `generates_token_for`. Resolving a token re-derives the payload from the record as it is now and compares it with the signed one.
- **Store** (`store.dfy`): the users, password_entries and sessions tables as a `Database` class.
  - Two in-place changes: `touch` (the API-token "invalidation") and destroying a user with its dependent rows.
  - Owner-scoped queries are in `entries.dfy`; table helpers are in `tables.dfy`.
- **API** (`api_base.dfy`, `api_auth.dfy`, `api_credentials.dfy`):
  - the bearer-token gate, which takes the header's last word and never checks the scheme;
  - login and logout;
  - the four read actions: index, show, search and for_url.
- **Web pages** (`web_credentials.dfy`): a `CredentialsController` class over the `Database`. Its index, new, edit, create, update and destroy are scoped to the signed-in user.
- **Popup** (`popup.dfy`): the client-side filter and initials. A `PopupState` class holds the token, the list and the view, and its event handlers are methods.
- **Content script** (`autofill.dfy`): visibility, fillable fields and the selector-priority loops over an array of element records. Also the submit-button rules, the skip rules and the bounded wait for a password field.

Strings are `seq<char>`, and case mapping is ASCII. `blank?` counts Unicode White_Space as blank; `split` and `strip` use ASCII whitespace (and NUL for `strip`). The popup's initials are taken in UTF-16 code units, as JavaScript indexes strings. Time is an integer number of seconds passed in as `now`. The code is followed where it differs from what its comments or a reader would expect:

- `invalidate_api_token!` does not invalidate (see Findings).
- An empty search does not return entries whose title, username and url are all NULL, because SQL `LIKE '%%'` never matches NULL (`ApiCredentials.EmptySearchKeepsNonNullRows`).
- `extract_domain` keeps an empty host, because `""` is truthy in Ruby.
- The popup keeps its credential list in memory after logout.
- The popup's load draws the connection error when a row has a null title, because `getInitials` throws inside the `try`.

## Model

| member | source | states |
|---|---|---|
| Accounts.NormalizeEmail | app/models/user.rb:6 | the stored address is the lower case of the input with exactly its leading and trailing whitespace (NUL included) removed; it has no surrounding whitespace and no upper-case letter, is no longer than the input, and an address already in that form is stored unchanged |
| Accounts.NormalizeIdempotent | app/models/user.rb:6 | normalising an address twice gives the same result as normalising it once |
| Accounts.NormalizeIgnoresCase | app/models/user.rb:6 | addresses equal up to letter case normalise to the same address |
| Accounts.AccountErrors | app/models/user.rb:9-11 | each error is reported exactly when its validation fails: blank when the normalised address is empty or Unicode whitespace only, taken when another row holds it, malformed when the format test refuses it, too short when a set password has under 8 characters |
| Accounts.AccountValidIff | app/models/user.rb:9-11 | an account has no validation error iff its e-mail is present, its normalised form is not blank, is unused by any other row and is well formed, and a password being set (nil = unchanged) has at least 8 characters |
| Accounts.ValidInsertKeepsEmailsUnique | app/models/user.rb:9 | inserting an account that validates keeps e-mail addresses unique in the table |
| Accounts.PayloadFor | app/models/user.rb:14-19 | a token payload carries the record's id, and carries nothing else exactly when the definition has no block |
| Accounts.Generate | app/models/user.rb:32-34 | a generated token is signed for the record's id and has an expiry exactly when the definition has one |
| Accounts.Verified | app/models/user.rb:14 | the verifier accepts exactly a genuine token signed for this purpose and lifetime that has not yet expired, and yields its payload |
| Accounts.Resolve | app/models/user.rb:27-29 | a token resolves only to a row of the table whose current payload equals the signed payload |
| Accounts.ResolveStrict | app/models/user.rb:22-24 | the raising lookup returns a row of the table whose current payload is the signed one, and raises not-found exactly when the token verifies but no row has its id |
| Accounts.FindByApiToken | app/models/user.rb:27-29 | a user is found only for a genuine API-access token whose payload is that user's id alone |
| Accounts.FindByPasswordResetToken | app/models/user.rb:22-24 | a user is found only for a genuine, unexpired reset token whose payload is that user's current payload; a forged token raises an invalid signature |
| Accounts.GenerateApiToken | app/models/user.rb:32-34 | a genuine API-access token without expiry, bound to the user's id alone |
| Accounts.PasswordResetToken | app/models/user.rb:43-45 | a genuine reset token expiring 15 minutes after issue, bound to the user's id and the last 10 characters of the password salt (nil without a password) |
| Accounts.PasswordSalt | app/models/user.rb:15 | the salt exists exactly when a password digest does, and is the digest's salt |
| Accounts.GeneratedTokenResolves | app/models/user.rb:22-34 | a token resolves, leniently and strictly, to the record it was generated for while that record is unchanged and the token unexpired |
| Accounts.ResolvesOnlyToIssuer | app/models/user.rb:27-29 | a generated token can only resolve to a row with the issuer's id and the issuer's payload |
| Accounts.StrictAgreesWithLenient | app/models/user.rb:22-29 | the raising lookup succeeds exactly when the lenient one does, with the same user; a forged token gives nil, or raises an invalid signature |
| Accounts.ResetTokenExpires | app/models/user.rb:14 | a reset token is refused from 15 minutes after issue |
| Accounts.ResetTokenValidWindow | app/models/user.rb:14-16 | within 15 minutes a reset token finds its account |
| Accounts.PasswordChangeVoidsResetToken | app/models/user.rb:14-16 | a change of the salt's last 10 characters (a new password) voids every reset token issued before |
| Accounts.ApiTokenNeverExpires | app/models/user.rb:18-19 | the API token's resolution does not depend on the time |
| Accounts.ApiTokenResolves | app/models/user.rb:27-34 | a generated API token resolves to its account at any time |
| Accounts.ApiTokenBindsOnlyId | app/models/user.rb:19 | an API token resolves to whatever row now has the issuer's id, whatever else changed |
| Accounts.Touch | app/models/user.rb:36-40 | touch sets `updated_at` to now and keeps id, e-mail and digest |
| Accounts.Touched | app/models/user.rb:36-40 | touching a user changes only that row |
| Accounts.TouchedKeepsIds | app/models/user.rb:36-40 | touching keeps ids unique |
| Accounts.TouchKeepsApiToken | app/models/user.rb:36-40 | as written, an API token issued before the touch still resolves afterwards, to the touched row |
| Accounts.RevocableApiTokenResolves | app/models/user.rb:36-40 | with `updated_at` in the payload, a token resolves to its untouched account |
| Accounts.RevocableTouchRevokes | app/models/user.rb:36-40 | with `updated_at` in the payload, touching the account voids every earlier token |
| Entries.OwnedBy | app/models/user.rb:4 | `password_entries` holds exactly the rows owned by the user, in table order |
| Entries.OwnedNewestFirst | app/controllers/api/v1/credentials_controller.rb:5 | the ordered list is a permutation of the user's rows, sorted by `created_at` descending |
| Entries.FindOwned | app/controllers/api/v1/credentials_controller.rb:12 | `find` returns a row that the user owns with that id, and fails exactly when there is none |
| Entries.ForeignIdLikeMissing | app/controllers/credentials_controller.rb:39-41 | an id owned by someone else is not found, just as if the row did not exist |
| Store.Database.InvalidateApiToken | app/models/user.rb:36-40 | the table invariants hold, the user's row is touched, and nothing else changes |
| Store.Database.DestroyUser | app/models/user.rb:3-4 | the user and exactly the user's entries and sessions are removed, the invariants (unique keys, no orphans) hold |
| Store.DeleteKeepsTablesConsistent | app/models/user.rb:3-4 | removing a user together with its dependent entries and sessions leaves ids and emails unique, entry ids below the next id, no entry or session without its user, and the user gone |
| ApiBase.BearerToken | app/controllers/api/v1/base_controller.rb:9 | there is no token exactly when the header is missing or blank; a token is a non-empty single word |
| ApiBase.RenderUnauthorized | app/controllers/api/v1/base_controller.rb:20-22 | 401 with error "Unauthorized" |
| ApiBase.RenderError | app/controllers/api/v1/base_controller.rb:24-26 | the error message with status 422 unless another is given |
| ApiBase.Gate | app/controllers/api/v1/base_controller.rb:9-13 | the request passes exactly when the header yields a token that resolves, as that user; otherwise 401 |
| ApiBase.ApiRequest.AuthenticateToken | app/controllers/api/v1/base_controller.rb:8-14 | renders 401 and leaves no current user, or sets `@current_user` to the user the token resolves to, as the gate decides |
| ApiBase.BearerTokenOfHeader | app/controllers/api/v1/base_controller.rb:9 | the last word is the token whatever scheme word comes before it, and a header without a scheme is taken whole |
| ApiBase.LoneSchemeIsToken | app/controllers/api/v1/base_controller.rb:9 | the header `Bearer` alone yields the token text `Bearer` |
| ApiBase.MissingTokenHalts | app/controllers/api/v1/base_controller.rb:9-10 | a missing or blank header halts with 401 |
| ApiBase.IssuedTokenPassesGate | app/controllers/api/v1/base_controller.rb:9-13 | a generated API token sent after any scheme word passes the gate as its user |
| ApiAuth.AuthenticateBy | app/controllers/api/v1/auth_controller.rb:5 | a user is found only for a present, non-empty password that checks out against the row holding the normalised address |
| ApiAuth.Login | app/controllers/api/v1/auth_controller.rb:4-19 | 200 with token, id and e-mail exactly when authentication succeeds, otherwise 401 "Invalid email or password" |
| ApiAuth.LoginSucceedsIff | app/controllers/api/v1/auth_controller.rb:5-15 | login answers 200 for user u exactly when the normalised address is u's and the non-empty password checks out for u |
| ApiAuth.LoginFailuresIndistinguishable | app/controllers/api/v1/auth_controller.rb:16-18 | any two failed logins get the identical response |
| ApiAuth.LoginIgnoresAddressCase | app/controllers/api/v1/auth_controller.rb:5 | addresses differing only in case or surrounding whitespace log in identically |
| ApiAuth.LoginTokenPassesGate | app/controllers/api/v1/auth_controller.rb:7-12 | the token a login returns passes the gate, at any later time, as the user named in the body |
| ApiAuth.Logout | app/controllers/api/v1/auth_controller.rb:21-28 | always 200 "Logged out successfully"; the users table becomes the one `LogoutUsers` describes; entries and sessions unchanged |
| ApiAuth.LogoutUsers | app/controllers/api/v1/auth_controller.rb:22-26 | without a bearer token, or with one that resolves to no user, the table is unchanged; when the token resolves, exactly that user's row is touched (`updated_at` set to now) and every other row stays |
| ApiAuth.LogoutKeepsTokenValid | app/controllers/api/v1/auth_controller.rb:21-28 | the token sent to logout still passes the gate afterwards |
| ApiCredentials.CredentialJsonOf | app/controllers/api/v1/credentials_controller.rb:46-56 | the JSON object holds the row's id, title, username, plaintext password, url and both timestamps: the row is recovered from it and its owner |
| ApiCredentials.JsonList | app/controllers/api/v1/credentials_controller.rb:7 | one object per row, in order |
| ApiCredentials.Index | app/controllers/api/v1/credentials_controller.rb:4-9 | 200 with a list in which every object is a row the user owns |
| ApiCredentials.Show | app/controllers/api/v1/credentials_controller.rb:11-16 | 200 exactly when the user owns a row with that id, whose object is returned; otherwise 404 "Credential not found" |
| ApiCredentials.SearchQuery | app/controllers/api/v1/credentials_controller.rb:19 | an absent query is empty; otherwise the query has its length and case-insensitive content, no upper-case letter, and is unchanged when it had none |
| ApiCredentials.SearchRows | app/controllers/api/v1/credentials_controller.rb:18-27 | the results are an order-preserving subsequence of the user's rows |
| ApiCredentials.Search | app/controllers/api/v1/credentials_controller.rb:18-27 | 200 with a list in which every object is a row the user owns |
| ApiCredentials.ExtractDomain | app/controllers/api/v1/credentials_controller.rb:58-63 | the parsed host when there is one, otherwise (no host or a parse error) the input unchanged |
| ApiCredentials.ForUrlRows | app/controllers/api/v1/credentials_controller.rb:29-42 | the results are an order-preserving subsequence of the user's rows, and none for an absent url or one that is empty or Unicode whitespace only |
| ApiCredentials.ForUrl | app/controllers/api/v1/credentials_controller.rb:29-42 | 200 with a list in which every object is a row the user owns; an empty list for a blank or absent url |
| ApiCredentials.Perform | app/controllers/api/v1/credentials_controller.rb:4-42 | every action answers 200, or 404 "Credential not found" exactly for a show of an id the user does not own; no answer holds another user's row |
| ApiCredentials.Handle | app/controllers/api/v1/base_controller.rb:4-14 | 401 exactly when the gate halts (then the unauthorized answer); otherwise the action's answer as the token's user, holding only that user's rows |
| ApiCredentials.Serve | app/controllers/api/v1/base_controller.rb:4 | a request runs the before-action, then the action only if nothing was rendered: the result is the gate-then-action answer |
| ApiCredentials.IndexListsOwnNewestFirst | app/controllers/api/v1/credentials_controller.rb:4-9 | index lists each of the user's rows, only those, newest first |
| ApiCredentials.ShowForeignLikeMissing | app/controllers/api/v1/credentials_controller.rb:11-16 | a foreign id gets the same 404 as a missing one |
| ApiCredentials.SearchIff | app/controllers/api/v1/credentials_controller.rb:18-23 | a row is found exactly when it is the user's and the lower-cased query is in its lower-cased title, username or url (NULL never matches) |
| ApiCredentials.EmptySearchKeepsNonNullRows | app/controllers/api/v1/credentials_controller.rb:19-23 | an empty or absent query returns the user's rows with at least one of title, username, url present |
| ApiCredentials.EmptySearchReturnsAll | app/controllers/api/v1/credentials_controller.rb:19-23 | if every row has a title, an empty query returns all of the user's rows |
| ApiCredentials.BlankUrlFindsNothing | app/controllers/api/v1/credentials_controller.rb:30-31 | an absent url, or one that is empty or Unicode whitespace only (`blank?`), gives an empty list |
| ApiCredentials.ForUrlIff | app/controllers/api/v1/credentials_controller.rb:33-38 | a row is found exactly when it is the user's and its lower-cased url contains the lower-cased extracted domain |
| ApiCredentials.ForUrlMatchesBySubstring | app/controllers/api/v1/credentials_controller.rb:34-38 | an entry is found on a page as soon as its stored url contains the host parsed from the page's url, anywhere in it |
| WebCredentials.CredentialParams | app/controllers/credentials_controller.rb:43-45 | the parameters are refused exactly when `password_entry` is missing or empty |
| WebCredentials.Permit | app/controllers/credentials_controller.rb:44 | each of title, username, password and url is set exactly when the form sent that key, to the sent value |
| WebCredentials.NewRow | app/controllers/credentials_controller.rb:13 | the new row has the given id and owner, both timestamps now, the sent columns, and NULL for every column not sent |
| WebCredentials.Updated | app/controllers/credentials_controller.rb:25 | id, owner and created_at are kept; sent columns take the sent values and the others keep theirs; the row is unchanged exactly when assigning changes nothing, and otherwise `updated_at` is now |
| WebCredentials.CredentialsController.Index | app/controllers/credentials_controller.rb:4-6 | `@credentials` is the signed-in user's rows, newest first |
| WebCredentials.CredentialsController.New | app/controllers/credentials_controller.rb:8-10 | `@credential` is an empty unsaved record owned by the signed-in user |
| WebCredentials.CredentialsController.SetCredential | app/controllers/credentials_controller.rb:39-41 | `@credential` is the signed-in user's row with that id, or nothing |
| WebCredentials.CredentialsController.Edit | app/controllers/credentials_controller.rb:21-22 | the edit form showing `@credential`, which the `set_credential` filter sets to the signed-in user's row with that id; 404 and no record for a foreign or missing id |
| WebCredentials.CredentialsController.Create | app/controllers/credentials_controller.rb:12-19 | 400 without parameters; a saved row under the next id, owned by the signed-in user, appended, or 422 and the table unchanged; other tables unchanged, invariants kept |
| WebCredentials.CredentialsController.Update | app/controllers/credentials_controller.rb:24-30 | 404 for a foreign or missing id, 400 without parameters, 422 on a rejected save (each with the table unchanged; after the 422 `@credential` is the stored row with the submitted columns assigned and not saved), else only the target row is replaced by its update, which `@credential` then holds |
| WebCredentials.CredentialsController.Destroy | app/controllers/credentials_controller.rb:32-35 | 404 for a foreign or missing id with the table unchanged, else the row with that id is removed and `@credential` is that row |
| WebCredentials.PermitReadsOnlyWhitelist | app/controllers/credentials_controller.rb:43-45 | parameters that agree on title, username, password and url give the same permitted fields |
| WebCredentials.CreatedRowBelongsToCaller | app/controllers/credentials_controller.rb:13 | an owner key in the form changes nothing: the new row belongs to the signed-in user |
| WebCredentials.UpdateChangesOnlyPermitted | app/controllers/credentials_controller.rb:25 | update keeps id, owner and created_at, sets exactly the sent columns, leaves the row untouched when nothing changed and otherwise sets updated_at to now |
| WebCredentials.ReplaceTouchesOnlyTarget | app/controllers/credentials_controller.rb:24-25 | every other row stays where and as it was |
| WebCredentials.RemoveRowExactlyTarget | app/controllers/credentials_controller.rb:32-33 | with unique ids, destroy removes one copy of the target row and nothing else |
| Popup.FilterCredentials | chrome_extension/popup.js:197-205 | fails exactly when the test throws on some credential; otherwise an order-preserving subsequence holding exactly the credentials whose lower-cased title or username, or non-empty url, contains the lower-cased query |
| Popup.KeepCred | chrome_extension/popup.js:198-203 | throws exactly on a null title, or a null username when the title does not match; otherwise keeps the credential exactly when the lower-cased title, username or non-empty url contains the query |
| Popup.Initials | chrome_extension/popup.js:256-258 | the first two UTF-16 code units of the title (fewer if shorter), upper-cased |
| Popup.EmptyQueryKeepsAll | chrome_extension/popup.js:197-203 | with every title present, an empty query keeps the whole list |
| Popup.FilterIgnoresQueryCase | chrome_extension/popup.js:198 | the filter does not depend on the query's case |
| Popup.EmptyUrlNeverMatches | chrome_extension/popup.js:202 | an empty url never makes a credential match |
| Popup.InitialsIgnoreCase | chrome_extension/popup.js:256-258 | initials do not depend on the title's case |
| Popup.InitialsOfBasicPlane | chrome_extension/popup.js:256-258 | when the first two characters lie below U+10000, the initials are those characters, upper-cased |
| Popup.InitialsOfSupplementary | chrome_extension/popup.js:256-258 | a title that starts with a character from U+10000 up has that character's surrogate pair as initials |
| Popup.HeaderCarriesToken | chrome_extension/popup.js:105-110 | the server's bearer extraction reads back the popup's token, or "null" when there is none |
| Popup.AuthorizationHeader | chrome_extension/popup.js:105-110 | the header is "Bearer " followed by the token, or by "null" when there is none |
| Popup.PopupState.ServerUrl | chrome_extension/popup.js:64-67 | the stored server if truthy, never empty |
| Popup.PopupState.ShowView | chrome_extension/popup.js:54-62 | exactly the named view is visible if it is one of the three, otherwise none; nothing else changes |
| Popup.PopupState.Open | chrome_extension/popup.js:18-33 | the stored token is taken; the credentials view shows if it is truthy, else login |
| Popup.PopupState.HandleLogin | chrome_extension/popup.js:69-97 | the token is set and stored only on an ok reply with a truthy token; otherwise it is unchanged and the status shows the error, "Login failed" or "Cannot connect to server" |
| Popup.PopupState.HandleLogout | chrome_extension/popup.js:233-238 | the token is cleared in memory and storage, login shows, the list is kept |
| Popup.PopupState.LoadCredentials | chrome_extension/popup.js:99-131 | 401 logs out; another answer sets the list to `credentials` or empty and draws it; no answer keeps the list and shows the error |
| Popup.PopupState.Back | chrome_extension/popup.js:44-46 | credentials view if the token is truthy, else login |
| Popup.PopupState.OpenSettings | chrome_extension/popup.js:43 | only the settings view shows |
| Popup.PopupState.SaveSettings | chrome_extension/popup.js:240-246 | the server is stored, then the view follows the token |
| Popup.PopupState.Search | chrome_extension/popup.js:197-205 | the list shows the filter's result, or stays as it was when the filter throws |
| Autofill.FirstBySelectors | chrome_extension/content.js:304-330 | the chosen element passes the test; nothing is chosen exactly when no selector has a passing match |
| Autofill.FirstBySelectorsChoice | chrome_extension/content.js:304-330 | the chosen element matches a selector with no passing match before it in document order, and every earlier selector has no passing match at all |
| Autofill.SelectField | chrome_extension/content.js:306-316 | the nested selector loops find exactly the element `FirstBySelectors` names |
| Autofill.ScanMatches | chrome_extension/content.js:307-315 | one selector's loop over `querySelectorAll` stops at the first match, in document order, that passes the test, and at none when no match passes |
| Autofill.FillFirst | chrome_extension/content.js:319-330 | one selector loop fills exactly the selected field and no other |
| Autofill.Filled | chrome_extension/content.js:404-407 | only the chosen field's value changes, to the given value |
| Autofill.FillCredentials | chrome_extension/content.js:278-343 | the selected username field, then the selected password field, are filled; notified iff one was; the submit is scheduled iff notified and auto-submit is on |
| Autofill.AutoSubmitFlag | chrome_extension/content.js:9 | auto-submit is off only for an explicit false |
| Autofill.SubmitTarget | chrome_extension/content.js:345-402 | the first qualifying button in selector order (the earliest selector with one, its first in document order), else the first visible form with a password input, else nothing, each only when the earlier choices are absent |
| Autofill.ClickSubmitButton | chrome_extension/content.js:345-402 | the loops click or submit what `SubmitTarget` names, and report false only when nothing qualifies |
| Autofill.FirstSubmittableForm | chrome_extension/content.js:391-399 | the fallback loop finds the first visible form holding a password input |
| Autofill.MatchingCredentials | chrome_extension/content.js:21-67 | credentials are handed on exactly when the host is not skipped, a token is stored, and the reply is ok with a non-empty list, which is handed on whole |
| Autofill.WaitForPasswordField | chrome_extension/content.js:70-93 | the popup shows exactly once, at the first check that finds a password field, or at the tenth |
| Autofill.IsVisible | chrome_extension/content.js:421-431 | a missing, display-none, visibility-hidden, opacity-0 or zero-sized element is not visible; any other element is |
| Autofill.Fillable | chrome_extension/content.js:309 | a field is filled exactly when `isVisible` accepts it and it is neither disabled nor read-only |
| Autofill.ButtonText | chrome_extension/content.js:371 | the lower-cased text content, else the lower-cased value when truthy, else empty; never an upper-case letter |
| Autofill.IsLoginButton | chrome_extension/content.js:371-377 | a keyword in the button text makes a login button; a button with neither text nor aria-label never is one |
| Autofill.Qualifies | chrome_extension/content.js:369-379 | a qualifying button is visible; a visible submit-typed button qualifies; a button without text or label qualifies exactly when visible and submit-typed |
| Autofill.ShouldCheck | chrome_extension/content.js:25-37 | the check goes on only with a non-empty token, off localhost, the web store and extension pages |
| Autofill.FillKeepsSelection | chrome_extension/content.js:318-330 | filling the username field does not change which password field is chosen |
| Autofill.FillChangesAtMostTwoFields | chrome_extension/content.js:304-330 | the page changes only in the chosen username and password fields |
| Autofill.UnfillableNeverFilled | chrome_extension/content.js:309 | a hidden, disabled or read-only field is never filled |
| Autofill.NoTokenNeverChecks | chrome_extension/content.js:33-37 | without a stored token nothing is fetched |
| Autofill.SkippedHostsNeverCheck | chrome_extension/content.js:25-30 | localhost, the web store and extension pages are never checked |
| Autofill.KeywordButtonQualifies | chrome_extension/content.js:371-379 | a visible button whose text contains a login keyword qualifies whatever its type |

## Left out

- Cryptography is abstract.
  - Token signing is a `Codec` with `Signed`/`Forged` tokens.
  - BCrypt is a `Hasher` parameter. Its constant-time comparison is not modelled.
  - The field encryption of the password column is taken as transparent. config/initializers/active_record_encryption.rb hard-codes fallback keys, which the model does not represent.
- The e-mail format regular expression is a parameter, `isEmail`.
- The validations `has_secure_password` adds itself are not modelled: password presence on create, the 72-byte limit and confirmation.
- The validations of the password entry model are a parameter, `saves`. That model is not part of this model.
- Web sign-in sessions and `Current.user` are framework code. The signed-in user is a given id.
- `URI.parse` is a parameter: its answer is a host, no host, or a parse error.
- ApiCredentials.SearchRows: `%` and `_` in the query are matched literally, while SQL `LIKE` treats them as wildcards, so the code returns a superset of what the model returns.
- ApiCredentials.ForUrlRows: the same wildcard caveat applies to the domain.
- The search and for_url queries have no `ORDER BY`. The model returns table order.
- Case mapping is ASCII only. Ruby's `downcase`, JavaScript's `toLowerCase`/`toUpperCase` and the database's `LOWER` may also map other letters.
- Ids arrive as strings and are cast to integers by the framework. The model takes them as numbers.
- Request parameters that are not strings, such as nested hashes and arrays, are not modelled.
- Popup.PopupState.HandleLogin: the `loadCredentials` call that follows a login, and the one at startup, are a separate call to `LoadCredentials`, not part of the handler.
- The popup's asynchronous effects are left out: `fetch`, `chrome.storage`, the status line's timed hiding, HTML building and `escapeHtml`, and copy and fill through `chrome.tabs` and the clipboard.
- Credential fields whose JSON values are not strings are not modelled.
- The content script's DOM work is left out:
  - the smart popup's markup and its auto-hide;
  - the events and styling `fillField` applies;
  - the 500 ms and 1000 ms timers (the scheduled submit is reported as a flag);
  - the URL-change observer;
  - the `try` around `querySelectorAll` (selectors are taken as valid).
- Which selectors an element matches is part of its record. Selector matching is not modelled.
- chrome_extension/background.js, the Stimulus controllers, routes, CORS and mail configuration are not part of this model: they carry no logic of the core.

## Findings

| source | as written | input that shows it | evidently intended | confidence | as-written member | corrected member |
|---|---|---|---|---|---|---|
| app/models/user.rb:19 | the API token is declared without a block, so its payload is the id alone. `touch` in `invalidate_api_token!` (app/models/user.rb:36-40, commented "invalidate existing tokens") therefore changes nothing about resolution, and `/logout` leaves the token usable | log in, send the token to logout, then to any credential action: it still passes the gate | the token binds `updated_at`, so touching the account voids every token issued before | high; not executed | ApiAuth.LogoutKeepsTokenValid | Accounts.RevocableTouchRevokes |

The controllers in this model use the API token exactly as declared (`Accounts.ApiAccessDef`), so that the discrepancy stays visible end to end. `Accounts.RevocableApiAccessDef` is the corrected definition. `Accounts.RevocableApiTokenResolves` and `Accounts.RevocableTouchRevokes` prove that it keeps tokens working until the touch and voids them after.
