# Activation-key license server, modelled in Dafny

The system is a small Express server backed by PostgreSQL. It hands out
activation keys (uuids) for a desktop program, plus the browser console its
administrator uses to manage them. This project models the decision logic of
both halves and proves what each rule promises.

The server side is `index.js`:

- The `basicAuth` middleware guards the admin pages with HTTP Basic credentials
  compared against `ADMIN_USER` and `ADMIN_PASS`.
- The admin listing `GET /` filters rows with `ILIKE '%term%'` and orders them
  newest first.
- The admin endpoints create a batch of keys, delete one key, and flip one
  key's lock.
- The public endpoint `POST /api/activate` answers 400, 404, 409, 403, 410 or
  200 for a key.

The console side is `public/js/main.js`:

- Each key gets a status badge (expired, locked, used, unused).
- The fingerprint column is truncated to 15 characters.
- Log actions are translated to Vietnamese.
- The bulk-action bar has a select-all checkbox and two guards: choose an
  action and keys, then enter a password. Only after both does it send a
  request.

Modules and files:

| file | module | what it holds |
|---|---|---|
| `option.dfy` | `Optional` | the `Option` type, standing for `undefined` and `null` |
| `text.dfy` | `Text` | ASCII lower-casing, `split`/`join` on one character |
| `parse_int.dfy` | `JsParseInt` | JavaScript `parseInt` without a radix (white space, sign, `0x`, longest digit run, NaN) |
| `keys.dfy` | `Keys` | the `activation_keys` table as `map<nat, KeyRecord>`; the delete, toggle and batch-insert rules; `parseInt(count) \|\| 1` |
| `registry.dfy` | `Registry` | class `KeyStore`, whose `rows` and `nextId` fields the three admin endpoints update in place |
| `activation.dfy` | `Activation` | the activation check and its status codes |
| `search.dfy` | `Search` | PostgreSQL `LIKE` with `%`, `_` and `\`, the search filter, the newest-first order |
| `basic_auth.dfy` | `BasicAuth` | the admin-page authentication middleware |
| `console.dfy` | `Console` | the console rules of `main.js` |
| `precedence.dfy` | `Precedence` | the server's rule order compared with the console's |

Conventions:

- Database timestamps and `new Date()` are integers on one clock. `now` is a
  parameter.
- The database's conversion of the `expires_at` text is the parameter
  `toTimestamp`.
- Base64 decoding is the parameter `decode`.
- The values `uuidv4()` returns are a parameter sequence. They are required to
  be pairwise distinct and unused.

## Model

| member | source | states |
|---|---|---|
| BasicAuth.NoHeaderIsChallenged | index.js:5-10 | a missing or empty Authorization header is answered with the 401 challenge, whatever the configuration |
| BasicAuth.Decide | index.js:13-21 | the credential rule only grants or rejects; granting needs `ADMIN_USER` set, free of `:`, and a prefix of the decoded text |
| BasicAuth.Authorize | index.js:3-22 | the challenge comes exactly for a missing or empty header, the 500 exactly for a non-empty header without a space; granting needs `ADMIN_USER` set |
| BasicAuth.HeaderWithoutSpaceFails | index.js:13 | a non-empty header without a space has no second word; decoding `undefined` throws, which the framework turns into a 500 |
| BasicAuth.SecondWordIsDecoded | index.js:13 | only the word between the first and second space is decoded; the scheme word is never checked |
| BasicAuth.GrantedIff | index.js:13-21 | with both variables set, access is granted iff the decoded text is user, `:`, password, then nothing or `:` and anything |
| BasicAuth.ExtraSegmentsIgnored | index.js:13 | text after a second `:` is ignored by the destructuring |
| BasicAuth.UnsetUserRejectsAll | index.js:16 | with `ADMIN_USER` unset nobody is admitted |
| BasicAuth.UnsetPasswordAdmitsBareUser | index.js:16 | with `ADMIN_PASS` unset, the user name without any `:` is admitted (both sides are `undefined`) |
| Text.Split | index.js:13 | `split` yields at least one part, no part contains the separator, and joining the parts restores the text |
| Text.SplitAtFirst | index.js:13 | splitting `u + c + v` with `c` absent from `u` gives `u` followed by the parts of `v` |
| Text.SplitWithoutSeparator | index.js:13 | text without the separator splits into itself alone |
| Text.SplitsIffSeparator | index.js:13 | text splits into two or more parts exactly when it holds the separator |
| Text.Lower | index.js:96 | lower-casing keeps the length and maps each character by ASCII case folding |
| Search.SearchTerm | index.js:91 | a missing `search` query parameter becomes the empty term |
| Search.PercentMatchesAll | index.js:97 | the pattern `%` matches every text |
| Search.Like | index.js:96-97 | a pattern without `%`, `_` and `\` matches exactly the text equal to it |
| Search.Matches | index.js:96-97 | the pattern `%%` built from the empty term matches every key |
| Search.Selected | index.js:94-97 | adding the WHERE clause only for a non-empty term changes nothing: a row is selected exactly when the `ILIKE` pattern matches |
| Search.LeadingPercent | index.js:97 | a leading `%` matches iff the rest of the pattern matches some suffix |
| Search.PlainPrefix | index.js:96-97 | a plain pattern followed by a rest matches iff the text begins with it and the rest matches the remainder |
| Search.PlainTermIsSubstring | index.js:95-97 | for a term without `%`, `_`, `\` the filter is exactly case-insensitive substring search |
| Search.UnderscoreMatchesEveryKey | index.js:96-97 | `_` is a wildcard: the term "_" selects every non-empty key |
| Search.Filtered | index.js:93-98 | the rows kept are exactly the rows whose key is selected by the term, unchanged |
| Search.Ordered | index.js:99 | the ordered listing has as many rows as the table |
| Search.OrderedRowsComeFromTable | index.js:99-101 | every listed row is a row of the table with its values |
| Search.OrderedHasNoDuplicates | index.js:99-101 | no row is listed twice |
| Search.OrderedIsComplete | index.js:99-101 | every row of the table is listed |
| Search.OrderedNewestFirst | index.js:99 | creation times never increase down the listing |
| Search.ListingIsTheMatchingRows | index.js:90-107 | the page lists exactly the selected rows, each once and unchanged, newest first; without a term, every row |
| Search.Listing | index.js:90-107 | every listed row is a table row, unchanged, selected by the term; without a term all rows are listed |
| JsParseInt.TrimStart | index.js:113 | the trimmed text is a suffix of the input that starts with no white space, and everything dropped is white space |
| JsParseInt.DigitRun | index.js:113 | the run stops at the first non-digit |
| JsParseInt.DigitRunIsDigits | index.js:113 | every character inside the run is a digit |
| JsParseInt.DecimalText | index.js:113 | decimal spelling: non-empty, all digits, no leading zero except for 0 |
| JsParseInt.DecimalTextValue | index.js:113 | the decimal spelling of n has value n |
| JsParseInt.DecimalRun | index.js:113 | a decimal spelling followed by a non-digit forms the whole digit run |
| JsParseInt.ParseDecimalPrefix | index.js:113 | round trip: `parseInt` of a decimal spelling followed by a non-digit gives the number back |
| JsParseInt.ParseNegativeDecimalPrefix | index.js:113 | round trip with a minus sign gives the negated number |
| JsParseInt.LeadingWhiteSpaceIgnored | index.js:113 | leading white space never changes the result |
| JsParseInt.HexPrefixSwitchesBase | index.js:113 | after `0x` the digits are read in base 16 |
| JsParseInt.EmptyTextIsNaN | index.js:113 | `parseInt("")` is NaN |
| JsParseInt.ParseInt | index.js:113 | `parseInt(undefined)` and `parseInt("")` are NaN |
| Keys.CountToCreate | index.js:113 | `parseInt(count) \|\| 1` is never 0 |
| Keys.LoopRuns | index.js:117 | the loop runs `count` times for a positive count and never for a count of 0 or less |
| Keys.MissingCountCreatesOne | index.js:113 | a missing count (`parseInt(undefined)` is NaN) creates one key |
| Keys.EmptyCountCreatesOne | index.js:113 | an empty count creates one key |
| Keys.NonNumericCountCreatesOne | index.js:113 | any count that parses to NaN creates one key |
| Keys.ZeroCountCreatesOne | index.js:113 | "0" is falsy after parsing and creates one key |
| Keys.PositiveCountCreatesThatMany | index.js:113-117 | a positive decimal count, with any non-digit tail, creates that many keys |
| Keys.NegativeCountCreatesNone | index.js:113-117 | a negative count is kept and the loop inserts nothing |
| Keys.ExpiryOf | index.js:114 | the expiry is absent iff the field is missing or empty |
| Keys.KeysToInsert | index.js:113-117 | no key is inserted exactly when the count parses to a negative number; a count that parses to NaN inserts one |
| Keys.NewBatch | index.js:117-122 | the batch holds ids `base` to `base + n - 1`, each with its uuid, unactivated, unlocked, the common expiry and creation time |
| Keys.BatchSize | index.js:117-122 | a batch of n keys holds n rows |
| Keys.BatchKeepsUniqueKeys | index.js:117-122 | distinct fresh uuids keep activation keys unique |
| Keys.BatchKeepsExistingRows | index.js:117-122 | existing rows survive unchanged and the table grows by exactly n |
| Registry.BatchGrows | index.js:117-122 | one loop iteration adds exactly the next row of the batch |
| Registry.BatchStep | index.js:117-122 | one loop iteration adds the next row of the batch, keeps keys unique, and every earlier id lies below the new one |
| Registry.KeyStore.InsertBatch | index.js:117-123 | after the loop the table is the old table plus the batch of `LoopRuns(count)` rows, the id sequence has advanced by as much, and keys stay unique |
| Registry.KeyStore.constructor | index.js:117-122 | a new store holds no rows and its id sequence starts at 1 |
| Registry.NextIdIsFree | index.js:117-122 | while the invariant holds, the next id handed out is not in use, so an insert never overwrites a row |
| Registry.KeyStore.CreateKeys | index.js:112-123 | the request inserts the batch of `KeysToInsert(count field)` keys with the parsed expiry; the id sequence advances by as much; keys stay unique |
| Keys.Deleted | index.js:134 | deleting removes that id only and keeps every other row; an absent id changes nothing |
| Registry.KeyStore.DeleteKey | index.js:132-135 | the table becomes the table without that row; the invariant is kept |
| Keys.ToggledLock | index.js:145-148 | toggling flips only that row's lock; an absent id changes nothing |
| Keys.ToggleTwice | index.js:145-148 | toggling the same row twice restores the table |
| Keys.ToggleKeepsUniqueKeys | index.js:145-148 | toggling keeps activation keys unique |
| Registry.KeyStore.ToggleLock | index.js:143-149 | the table becomes the toggled table; the invariant is kept |
| Activation.StatusCode | index.js:157-181 | the answer is 200 iff the key is valid, otherwise a 4xx code |
| Activation.Find | index.js:163-164 | no row found iff no row carries the key; otherwise a row carrying it, the lowest such id |
| Keys.IsExpired | index.js:169 | a key without expiry never expires, and the comparison is strict |
| Keys.ExpiredStaysExpired | index.js:169 | once expired, a key stays expired at every later time |
| Activation.Validate | index.js:157-181 | 400 exactly for a missing or empty key, 404 exactly for a key no row carries, 200 only when a row carrying it is not activated, not locked and not expired |
| Activation.MissingKeyIgnoresTable | index.js:158-161 | a missing or empty key is answered 400 whatever the table holds |
| Activation.UnknownKeyIff | index.js:163-166 | a key is answered 404 iff no row carries it |
| Activation.DecidedByTheRow | index.js:166-176 | the row carrying the key decides, checked in the order activated, locked, expired |
| Activation.ActivatedOutranksLockAndExpiry | index.js:167-171 | an activated key is answered 409 even when also locked or expired |
| Activation.ExpiryAtNowStillValid | index.js:169 | expiry compares strictly: a key expiring exactly now is still valid |
| Activation.ValidIff | index.js:157-181 | 200 iff the key is non-empty and carried by a row that is not activated, not locked and not expired |
| Activation.LockingBlocksValidation | index.js:168 | locking a valid key makes it answer 403; locking it again makes it valid again |
| Activation.DeletedKeyIsUnknown | index.js:163-166 | a deleted key is answered 404 |
| Activation.NewKeysValidate | index.js:117-122 | every key of a fresh batch validates until its expiry has passed |
| Console.StatusOf | public/js/main.js:57-62 | the status is expired iff the expiry lies before now, else locked iff locked, else used iff activated, else unused |
| Console.BadgesTellStatusesApart | public/js/main.js:58-62 | different statuses get different badge texts and classes |
| Console.FingerprintShown | public/js/main.js:71 | a missing or empty fingerprint shows as `---`; otherwise a non-empty prefix of at most 15 characters, the whole fingerprint when it fits |
| Console.RenderTable | public/js/main.js:50-83 | an empty list shows the "no key found" line; otherwise one row per key in order, with its id, status, badge, fingerprint and lock label |
| Console.BadgeOf | public/js/main.js:58-62 | only an unused key gets the `status-ok` badge; every badge has a text |
| Console.RowOf | public/js/main.js:57-76 | a row carries its key id, offers "Mở" exactly for a locked key, fits its fingerprint in 15 characters, and shows `status-ok` exactly for a key neither expired, locked nor activated |
| Console.ActionText | public/js/main.js:204 | a known action is shown translated, and differently from itself; any other action verbatim |
| Console.ActionTextInjective | public/js/main.js:21-30 | distinct actions never read the same, unless one of them is itself a translated text |
| Console.TranslationsDistinct | public/js/main.js:21-30 | the eight translations are pairwise different |
| Console.CheckedCount | public/js/main.js:127-128 | the selection count never exceeds the number of rows |
| Console.SomeCheckedIff | public/js/main.js:127-128 | the count is positive iff some row is checked |
| Console.AllCheckedIff | public/js/main.js:131-132 | the count equals the number of rows iff every row is checked |
| Console.BarVisibleIff | public/js/main.js:130 | the bulk bar is displayed iff some row is checked |
| Console.BarFor | public/js/main.js:126-133 | the count never exceeds the rows; a ticked header checkbox means the bar is shown and every row is counted |
| Console.SelectAllIff | public/js/main.js:131-132 | the header checkbox is ticked iff there are rows and all are checked |
| Console.SetAll | public/js/main.js:136 | every row takes the header checkbox's value and keeps its key id |
| Console.SetAllUpdatesBar | public/js/main.js:135-138 | ticking selects all rows and shows the bar (when there are rows); unticking clears and hides it |
| Console.SelectedIds | public/js/main.js:146 | one id per checked row |
| Console.SelectedIdsAreTheChecked | public/js/main.js:146 | an id is selected iff some checked row carries it |
| Console.BulkRequestIff | public/js/main.js:144-169 | a request is sent iff an action is chosen, a row is checked and a password typed; it carries exactly these, the ids in table order |
| Console.OnExecuteClick | public/js/main.js:144-154 | the password is asked for exactly when an action is chosen and some row is checked, keeping the action and the checked ids |
| Console.OnConfirm | public/js/main.js:159-169 | a request is sent exactly when a password is typed, carrying the pending action and ids unchanged |
| Console.BulkFlow | public/js/main.js:144-169 | a request that goes out has an action, a password and at least one id |
| Console.HiddenBarSendsNothing | public/js/main.js:148-151 | while the bar is hidden the execute button only alerts |
| Precedence.ServerAnswer | index.js:166-176 | for a row's own non-empty key the server never answers 400 or 404 |
| Precedence.ValidIffUnused | public/js/main.js:57-62 | the server accepts a key iff the console shows it unused |
| Precedence.ExpiredOnConsole | index.js:167-171 | a key shown expired is answered 409 if activated, else 403 if locked, else 410 |
| Precedence.LockedOnConsole | index.js:167-168 | a key shown locked is answered 409 if activated, else 403 |
| Precedence.UsedOnConsole | index.js:167 | a key shown used is answered 409 |
| Precedence.OrdersDisagreeOnExpiredActivatedKey | public/js/main.js:60 | an activated, expired key shows as expired on the console while the server answers 409 |

## Left out

- Express routing, redirects, response bodies and messages are not modelled.
  Only the decision each handler takes is kept.
- index.js:81-85 re-declares `basicAuth` as an empty placeholder and stubs `POST /api/activate`. The model takes the full versions at index.js:3-22 and index.js:157-181.
- Database failures (the 500 answers in every `catch`), the connection pool and `dotenv` are left out. Each query is modelled as succeeding.
- Base64 decoding is the parameter `decode`. The date-text conversion of `expires_at` is the parameter `toTimestamp`. `uuidv4()` values are a parameter sequence assumed distinct and fresh.
- Time zones, `toLocaleString` and the `new Date` parsing of timestamps are left out. Timestamps are integers on one clock.
- Keys.NewBatch: every row of a batch gets the same creation time. The database stamps each insert separately, so their order within a batch is not modelled.
- Search.Ordered: rows with equal `created_at` are ordered by descending id. SQL leaves that order open, so this tie order is a choice of the model.
- Activation.Find: when several rows carry the same key, the model takes the lowest id. `rows[0]` has no defined order. Keys created through `Registry.KeyStore` are unique, so the choice never matters there.
- JsParseInt.ParseInt: the float precision of very long digit runs is not modelled. `parseInt` returns an exact unbounded integer here, and a count too large for a double is not rounded.
- Search.Matches: case folding is ASCII only. PostgreSQL folds by the database locale. A pattern ending in a lone `\` is an error in PostgreSQL; it cannot arise here because the pattern always ends with `%`.
- Console.FingerprintShown: `substring` counts UTF-16 code units. The model counts characters.
- Console.ActionText: inherited object keys such as `constructor` are not modelled. `logTranslations` would return an inherited member for them.
- The DOM, `fetch`, `alert`, modals and the search debounce are left out. The history fetch and the server side of the bulk endpoint are not part of this model.
- The activation check does not mark a key as used, because that update is commented out in the source. The model never changes the table there. `Activation.Validate` is a pure function of the table.
- The server checks activated, then locked, then expired (index.js:167-171). The console shows expired first (public/js/main.js:59-62). No session or heartbeat logic exists in these files; main.js has only display strings for those log tags (public/js/main.js:21-30).
- Registry.KeyStore.CreateKeys: each request is one atomic step. In the source every `await pool.query` of the loop at index.js:117-123 lets other requests run, so concurrent creates, deletes and toggles can interleave with a batch, and a batch's ids need not be the consecutive `base` to `base + n - 1` that `Keys.NewBatch` states.
- Console.KeyView: main.js:39 fetches `GET /api/keys?search=&status=`, but index.js has no such route (only `POST /api/keys` at index.js:112 and the rendered page `GET /` at index.js:90). That the console sees a row's own flags (`Precedence.SameFlags`) and that both sides judge expiry against the same `now` are assumptions of the Precedence lemmas.
