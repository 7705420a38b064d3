# Record store, session and route guard of the IPT prototype

A Dafny model of the core of `script.js`: the in-memory store `window.db`
(accounts, departments, employees and requests), the integrity rules its
handlers keep, the session (`currentUser` with the `auth_token` and
`unverified_email` slots), and the route guard of `handleRouting`.

- `Text` models `String.prototype.trim` and `toLowerCase`, and the normalised form in which emails are stored and compared.
- `Seqs` holds the generic list operations the handlers use: `find`/`findIndex`, `filter`, and distinct keys.
- `Records` holds the entities and the pure lookups: login credentials, the `checkAuth` restore, the item-row collection of a request, and the projections that `renderRequests` and `renderEmployees` draw from.
- `Routing` is the route guard as a pure function of the route, the signed-in role and the pages that exist.
- `Store.Db` is `window.db` plus the session, as a class. Each handler is a method with a `modifies` clause naming the lists it changes. Every method keeps `Valid()`:
  - ids are non-empty and unique in every list;
  - account emails are unique and stored normalised;
  - every request has an item;
  - the signed-in account is a stored account.

  Most methods also keep `SessionRestorable()`: the token names the signed-in account, so the next `checkAuth` does not sign the user out.

Form values, the answers of `confirm()` and `prompt()`, generated ids and timestamps are method parameters. `currentUser` is the same object as the stored account in the source. The model writes this aliasing out: when a handler changes that account in place, `currentUser` follows it (`Store.Refreshed`).

Self-registration creates an `Admin` account, as `script.js:213` does.

## Model

| member | source | states |
|---|---|---|
| Seqs.FirstIndex | script.js:102 | the index `find`/`findIndex` stops at: the first element that matches; None only when no element matches |
| Seqs.IndexOfKey | script.js:363 | the position `findIndex(x => x.id === id)` returns for a key that is present: that element has the key and no earlier one does |
| Seqs.Filter | script.js:398 | `filter` keeps exactly the elements the test accepts, and never adds any |
| Seqs.Without | script.js:474 | `filter(x => x.id !== id)` keeps exactly the elements with another key |
| Seqs.WithoutOne | script.js:605 | with unique keys, removing a present key deletes exactly that element and keeps all others in order |
| Seqs.WithoutKeyed | script.js:602-605 | filtering a list keeps its keys unique and non-empty |
| Seqs.FilterAppend | script.js:617 | filtering a concatenation is concatenating the filtered parts |
| Seqs.FilterKeepsAll | script.js:398 | a filter that accepts every element returns the list unchanged |
| Seqs.FilterRemovesOne | script.js:605 | a filter that rejects exactly one position removes that element and keeps the rest in order |
| Seqs.FilterDistinct | script.js:605 | a filtered list of distinct keys still has distinct keys |
| Seqs.FilterMap | script.js:666-672 | the `forEach`-and-`push` collection keeps at most one output per input, keeps every defined result, and keeps nothing else |
| Seqs.FilterMapAppend | script.js:666-672 | the collected values come in the order of the inputs they come from |
| Seqs.FilterMapEmpty | script.js:674 | the collection is empty exactly when no input yields a value |
| Seqs.FilterMapAll | script.js:669-670 | every collected value satisfies what every yielded value satisfies |
| Seqs.KeyedAppend | script.js:217 | `push` of an element under a fresh id keeps ids unique and non-empty |
| Seqs.KeyedUpdate | script.js:364 | replacing an element by one with the same id keeps ids unique |
| Seqs.DistinctAppend | script.js:201-217 | `push` of an element whose key is new keeps keys unique |
| Seqs.DistinctUpdate | script.js:517-532 | replacing an element by one whose key no other element has keeps keys unique |
| Text.TrimStart | script.js:195 | removing leading white space never lengthens the string |
| Text.TrimStartSpec | script.js:195 | `trim` keeps a suffix whose first character is not white space and drops only white space |
| Text.TrimEnd | script.js:196 | removing trailing white space never lengthens the string |
| Text.TrimEndSpec | script.js:196 | `trim` keeps a prefix whose last character is not white space and drops only white space |
| Text.Trim | script.js:195-196 | `trim` never lengthens the string |
| Text.TrimSpec | script.js:195-197 | a trimmed value has no white space at either end, and it is empty exactly when the field was all white space |
| Text.TrimOfTrimmed | script.js:667 | a string without white space at its ends is its own trim |
| Text.LowerChar | script.js:197 | the model's ASCII-only `toLowerCase` of one character: A-Z map to a-z, every other character, white space included, is left alone |
| Text.ToLower | script.js:197 | the model's ASCII-only `toLowerCase`: each character is folded by `LowerChar` in place, so the length is kept and no letter A-Z is left |
| Text.ToLowerOfLower | script.js:197 | a string without an ASCII capital is its own lower-case form under the model's ASCII-only `toLowerCase` |
| Text.Normalize | script.js:197 | the model's ASCII-only `trim().toLowerCase()` yields a normalised string (no white space at either end, no ASCII capital) no longer than its input |
| Text.NormalizeIdempotent | script.js:263 | normalising a normalised email changes nothing |
| Text.NormalizedIsFixed | script.js:511 | the strings normalisation leaves alone are exactly the normalised ones |
| Records.Credentials | script.js:266-270 | login finds an account exactly when one has that email, that password and `verified` true, and what it finds is such an account |
| Records.Restore | script.js:99-110 | `checkAuth` restores only a stored, verified account whose email is the non-empty token |
| Records.RestoreFinds | script.js:101-105 | with unique emails, a verified account named by the token is the one restored |
| Records.RowItem | script.js:667-670 | a row yields an item exactly when its trimmed name is non-empty and its quantity is a number other than 0; the item is that trimmed name and quantity |
| Records.RowItemDropped | script.js:667-670 | a row is dropped exactly when its name is all white space or its quantity is NaN or 0 |
| Records.KeptItems | script.js:665-672 | the collected items are at most one per row, each with a non-empty name and a non-zero quantity; every row that is not dropped contributes its item, and every item comes from such a row |
| Records.KeptItemsAppend | script.js:666-672 | the items of later rows come after those of earlier rows |
| Records.KeptItemsEmpty | script.js:674-677 | no item is left exactly when every row has a blank name or a zero or NaN quantity |
| Records.KeptItemNamesTrimmed | script.js:667-670 | every collected name is already trimmed |
| Records.CollectItems | script.js:663-672 | the `forEach` loop over the rows builds exactly the kept items, in row order |
| Records.RequestsOf | script.js:617 | the requests table lists exactly the requests filed under the user's email |
| Records.RequestsOfAppend | script.js:617 | after a request is pushed, the user's list gains it at the end if it is theirs and is unchanged otherwise |
| Records.EmployeeRowOf | script.js:306-323 | an employee row shows the account's full name or else the raw email, and the department's name or else "N/A" |
| Records.EmployeeRows | script.js:306-323 | the employees table has one row per employee, in list order |
| Routing.RouteOf | script.js:126-127 | the route is the hash after its `#/` prefix, and empty for a missing hash |
| Routing.Decide | script.js:138-189 | anonymous visitors go to login from guarded routes and non-admins go home from admin routes, both if and only if, and no other redirect is issued; a shown guarded page has an allowed user; an allowed route with a page is shown; a route without a page shows home, and so does the empty route |
| Routing.RedirectSettles | script.js:142-158 | the route a redirect lands on is shown without another redirect |
| Store.AccountsValidAppend | script.js:201-217 | pushing an account with a fresh id and an unused normalised email keeps the account rules |
| Store.AccountsValidUpdate | script.js:526-532 | replacing an account by one with its id and an email no other account has keeps the account rules |
| Store.RequestsValidAppend | script.js:674-688 | pushing a request with a fresh id and an item keeps the request rules |
| Store.SameIdSameAccount | script.js:534 | with unique ids, the signed-in account whose id is that of a stored account is that account |
| Store.SelfEmailEditSignsOut | script.js:525-537 | after the signed-in admin changes their own email, the session holds the edited account but the stale token restores nobody |
| Store.SeedEmailNormalized | script.js:44 | the seeded admin email is already normalised |
| Store.SeedAdminSignsIn | script.js:40-48 | the seeded admin signs in with the seeded credentials, whatever case and padding the email is typed with |
| Store.Db.constructor | script.js:2-10 | the store starts with four empty lists and nobody signed in |
| Store.Db.Seeded | script.js:37-64 | the seed is one verified Admin account and the Engineering and HR departments, and it satisfies the integrity rules |
| Store.Db.Register | script.js:192-225 | a taken email changes nothing; otherwise exactly one unverified Admin account is appended with trimmed names and the normalised email, and that email awaits verification |
| Store.Db.VerifyEmail | script.js:236-255 | the first account with the awaited email becomes verified, with the session following it, and the awaited email is cleared; with no such account nothing changes |
| Store.Db.UpdateAccount | script.js:532-537 | an account replaced in place keeps the rules, and the session follows it when it is the signed-in account |
| Store.Db.AppendAccount | script.js:217 | `accounts.push` of a fresh account keeps the rules and the session |
| Store.Db.AppendRequest | script.js:688 | `requests.push` of a fresh request with an item keeps the rules |
| Store.Db.Login | script.js:260-280 | login succeeds exactly when the credentials match a verified account; it then stores the normalised email as the token and signs that account in, and when the normalised email is non-empty the session survives `checkAuth`; on failure nothing changes |
| Store.Db.CheckAuth | script.js:99-110 | the session becomes exactly what the token restores, and the result says whether anyone is signed in |
| Store.Db.Logout | script.js:112-117 | the token and the session are cleared |
| Store.Db.HandleRouting | script.js:125-190 | the session is restored and then the guard decides; an admin page is shown only to a stored, verified Admin account named by the token |
| Store.Db.SaveEmployee | script.js:337-372 | an email that no account has changes nothing; an edit replaces only that employee and keeps its id; a create appends exactly one record |
| Store.Db.DeleteEmployee | script.js:396-403 | a confirmed delete removes exactly the employees with that id; a cancelled one changes nothing |
| Store.Db.SaveDepartment | script.js:427-446 | an edit replaces only that department and keeps its id; a create appends exactly one |
| Store.Db.DeleteDepartment | script.js:465-479 | refused while any employee has that department id; otherwise a confirmed delete removes exactly that department and leaves employees alone |
| Store.Db.SaveAccount | script.js:505-551 | an email held by another id changes nothing; an edit keeps the id and, for a blank password, the old password; a create without a password changes nothing; the token is never touched |
| Store.Db.SaveAccountKeepingSession | script.js:525-539 | the account form where the token follows the signed-in user's own new email, so the session survives `checkAuth` |
| Store.Db.ResetPassword | script.js:574-589 | a dismissed or empty answer and one shorter than 6 characters change nothing; otherwise only that account's password changes |
| Store.Db.DeleteAccount | script.js:591-611 | refused for the signed-in user's own account; otherwise no employee keeps the account's email, the account is gone and the other accounts stay in order |
| Store.Db.SubmitRequest | script.js:659-690 | with no kept item nothing changes; otherwise exactly one Pending request with the kept items is appended under the signed-in user's email |

Some members have no row because they only name a source expression that the handlers use. `Seqs.HasKey` stands for a `find(x => key(x) === k)` that is truthy, or a `some` that holds. `Store.Db.EmailHeldByOther` is the duplicate-email lookup `find(acc => acc.email === email && acc.id !== id)` at script.js:517. `Store.Db.IsCurrentUser` is `currentUser && currentUser.id === id` at script.js:534 and script.js:593. `Store.RoleOf` is `currentUser.role` as read by the guard at script.js:154, or None with nobody signed in. `Store.Refreshed` is the assignment `currentUser = window.db.accounts[index]` at script.js:534-535, together with the aliasing that makes `currentUser` the stored object: a session whose account has the edited id holds the edited account afterwards.

## Left out

- Persistence (`loadFromStorage`, `saveToStorage`, the JSON snapshot) is left out. The store lives in memory. The `auth_token` and `unverified_email` slots are plain fields, so their survival across reloads is not modelled.
- `generateId` reads the clock and `Math.random`, so fresh ids are parameters. They must be non-empty and unused.
- The timestamps `new Date().toISOString()` and `toLocaleDateString` read the clock and locale, so the date is an input string.
- HTML building, `document.*`, class lists, modals, toasts, `setTimeout` and event wiring are UI glue. The toast a handler shows is represented only by the `Refusal` it returns.
- The `confirm()` and `prompt()` dialogs are left out; their answers are inputs.
- `parseInt` is left out. A row's quantity is its result: an integer, or None for NaN.
- The browser's form validation (`required`, `type="email"`, `min="1"`) is left out. The handlers are modelled on every input they accept, including blank or negative values.
- Store.Db.SaveEmployee: requires that an edit id names a stored employee. On an unknown id the source's `findIndex` gives -1 and writes a stray array property, which the model does not reproduce. The same holds for Store.Db.SaveDepartment.
- Store.Db.SaveAccount: requires that an edit id names a stored account. On an unknown id with a password given, the source writes a stray array property. With a blank password it throws a TypeError when it reads `existingAccount.password` (script.js:530). The model reproduces neither.
- Store.Db.DeleteAccount: requires that a confirmed delete of another user's account names a stored account. The source would throw on `account.email` otherwise.
- Store.Db.SubmitRequest: requires a signed-in user when some item is kept. The source would throw on `currentUser.email` otherwise.
- Text.LowerChar: lowercases the ASCII letters A-Z only, whereas `toLowerCase` also folds letters of other scripts, such as 'É' to 'é'.
- Text.ToLower: keeps the length because it folds ASCII only; `toLowerCase` can lengthen a string, as with 'İ' (U+0130), whose lower case is two UTF-16 units.
- Text.Normalize: is no longer than its input only because the model's `ToLower` keeps the length; in JavaScript `trim().toLowerCase()` of 'İ' (U+0130) is two UTF-16 units, and capitals outside A-Z such as 'É' stay in a normalised string.
- Store.Db.ResetPassword: counts characters as code points, whereas `String.length` counts UTF-16 units. The two differ only for characters outside the Basic Multilingual Plane.
- `editEmployee`, `editDepartment` and `editAccount` only fill form fields, so they are not modelled. `renderProfile`, `renderDepartments` and `renderAccounts` only draw a stored list, so they are not modelled either.

## Findings

| source | as written | input that shows it | evidently intended | confidence | as-written member | corrected member |
|---|---|---|---|---|---|---|
| script.js:525-539 | when the signed-in user edits their own account, `currentUser` follows the edit but `auth_token` keeps the old email | the signed-in admin changes their own email from admin@example.com to boss@example.com; the next navigation runs `checkAuth`, which finds no account with the old email and signs them out (Store.SelfEmailEditSignsOut) | the token follows the new email, so that the session refreshed by `setAuthState(true, currentUser)` survives | medium, not executed | Store.Db.SaveAccount | Store.Db.SaveAccountKeepingSession |
