# PersonalWebsite core, modelled in Dafny

This project models the server logic behind a personal portfolio site (a Nuxt
application backed by SQLite) and proves properties of that model. It covers five
pieces:

- **Admin sessions.** These are in `auth.dfy` and `auth_routes.dfy`. They cover:
  - the session table, the `session_id` cookie and a clock;
  - `generateSessionId`, `createSession`, `getAuthSession`, `deleteSession` and `isAllowedUser`;
  - the GitHub OAuth callback, `/api/auth/me` and `/api/auth/logout`;
  - the two `admin-auth` guards, one on the server and one on the client.
- **Migrations.** These are in `migrate.dfy`. Both runners are modelled:
  - the transactional one, `server/db/migrate.ts`;
  - the non-transactional one, `scripts/migrate.js`.

  Each is modelled as a fold over the sorted `.sql` names against the log of applied names. Each script is an abstract success or failure outcome.
- **Content writes.** These are in `content.dfy`. They cover:
  - the create handlers for writing posts, projects, education and experience;
  - the about-content update, with its blank-entry filter;
  - the contact form, with its e-mail check.

  Each handler is modelled with its required-field checks, slug uniqueness, defaults, and the mapping from a row to its reply.
- **Lists.** These are in `listing.dfy`. They cover:
  - the public writing list and the admin writing list;
  - the featured projects with their thumbnails.

  Each SQL `WHERE … ORDER BY …` is stated as a property of the output sequence: the same multiset as the filtered table, and sorted. The model's evaluation is proved to meet that property.
- **GitHub activity widget.** This is in `activity.dfy`. It covers:
  - the hour buckets, the "N H AGO" text, the day streak, and message truncation;
  - the summary built from the events;
  - the 15-minute cache with its hit, miss and fallback paths.

Supporting modules:
- `wrappers.dfy`: `Option` and `Result`.
- `strings.dfy`: the parts of JavaScript's string handling the handlers rely on:
  - truthiness of a field;
  - `trim`;
  - the order `sort` and SQLite's BINARY collation put names in, modelled as code-point order;
  - decimal text and `parseInt`;
  - `split('\n')[0]`.
- `sequences.dfy`: filter, stable insertion sort and the subsequence relation.
- `hex.dfy`: lower-case hex encoding of bytes, with its decoder.
- `json_list.dfy`: `JSON.stringify` and `JSON.parse` for lists of strings.

Conventions:
- A request handler is a pure function. It takes the tables it reads and the request body, and returns the reply together with the tables as they are afterwards.
- Replies are written `Done(value)`, `Rejected(status, message)` or `Thrown` for an uncaught exception, which becomes a 500.
- Clocks, the local hour, the calendar day, random bytes and the replies of GitHub are all parameters.

Where the code and its documentation differ, the model follows the code:
- **Missing migrations directory.** `server/db/migrate.ts` throws when the directory is missing: `readdirSync` is not guarded. Only `scripts/migrate.js` tolerates a missing directory.
- **Server guard import.** `server/middleware/admin-auth.ts:1` imports `getSession`, but `server/utils/auth.ts` exports no such function; it exports only `getAuthSession`. `AuthRoutes.ServerGuard` gives the guard the semantics of `getAuthSession`, which is what the guard evidently means to call.
- **Expired sessions.** `getAuthSession` deletes the cookie of an expired session but never deletes the row. `Auth.GetAuthSession` therefore leaves the table unchanged, and an expired row stays in the store.

## Model

| member | source | states |
|---|---|---|
| `Auth.GenerateSessionId` | server/utils/auth.ts:16-20 | The id is 64 characters, each in `0-9a-f`. Hex-decoding it gives back the 32 random bytes exactly, so no two byte strings share an id. |
| `Hex.DecodeEncode` | server/utils/auth.ts:19 | Writing each byte as two zero-padded lower-case digits loses nothing: decoding the text returns the bytes. |
| `Hex.EncodeDecode` | server/utils/auth.ts:19 | Every text the decoder accepts is the encoding of what it decodes to. The hex form of an id is therefore unique. |
| `Auth.CreateSession` | server/utils/auth.ts:22-40 | Success adds exactly one row, keyed by the returned token. The row expires 604800 s after `now`, and the cookie is set to the same token with max-age 604800. Other rows are unchanged. A token already in the table makes the insert fail with 500. |
| `Auth.GetAuthSession` | server/utils/auth.ts:42-57 | With no cookie, or an empty one, the result is null and nothing changes. It returns the row exactly when the cookie's token is in the table and `now` is before its expiry. Otherwise it deletes the cookie. It never changes the table, so expired rows persist. |
| `Auth.DeleteSession` | server/utils/auth.ts:59-65 | Only the row the cookie names is removed, and every other row keeps its value. The cookie is always cleared. |
| `Auth.DeleteSessionIdempotent` | server/utils/auth.ts:59-65 | A second delete changes nothing, whether it carries no cookie or replays the old one. |
| `Auth.IsAllowedUser` | server/utils/auth.ts:67-71 | A user is allowed exactly when `ALLOWED_GITHUB_USER_ID` is set, not empty, and `parseInt` reads the user's id from it. When it is unset or empty, nobody is allowed. |
| `Auth.AllowListAdmitsConfiguredIdOnly` | server/utils/auth.ts:67-71 | Configuring the decimal text of an id admits that id and no other. |
| `Strings.ParseIntRoundTrip` | server/utils/auth.ts:70 | `parseInt(String(i), 10)` gives back `i` for every integer, negative ones included. |
| `Auth.LiveAsWrittenIsDayGranular` | server/utils/auth.ts:46-49 | The query compares the ISO expiry text with SQLite's `datetime('now')` text. That comparison accepts a session exactly while the expiry's calendar day is not before today's, ignoring the time of day. |
| `Auth.LiveAsWrittenAcceptsExpiredSession` | server/utils/auth.ts:46-49 | Counterexample: a session that expired an hour earlier, on the same day, is still accepted by the query as written. |
| `AuthRoutes.Callback` | server/api/auth/github/callback.get.ts:14-67 | The checks run in the order code, token, user id, allow-list. A missing code gives 400 before any provider call. A missing access token or a falsy user id (0 included) gives 401. A user not on the allow-list gives 403. Only when all pass is a session created, with a redirect to `/admin`. Every failure leaves the store unchanged. |
| `AuthRoutes.CallbackSuccessCreatesOneSession` | server/api/auth/github/callback.get.ts:63-66 | A successful callback adds exactly one session, for `user.id` and `user.login`, and leaves every other row as it was. The next request at the same instant is authenticated by it. |
| `AuthRoutes.Me` | server/api/auth/me.get.ts:3-14 | The reply is 401 unless the cookie names a live session. Otherwise it is that row's GitHub id and name. The session table never changes. |
| `AuthRoutes.MeRevealsOnlyIdentity` | server/api/auth/me.get.ts:10-13 | Two live sessions of the same user give the same reply, whatever their tokens and timestamps. The token, `created_at` and `expires_at` never leak. |
| `AuthRoutes.Logout` | server/api/auth/logout.post.ts:3-6 | The reply is always `success: true`, with or without a cookie. The cookie is cleared, the cookie's row is gone, and every other row is kept. |
| `AuthRoutes.LogoutRevokesToken` | server/api/auth/logout.post.ts:3-6 | After logout, a replayed old cookie authenticates nothing. |
| `AuthRoutes.LogoutIdempotent` | server/api/auth/logout.post.ts:3-6 | Logging out twice gives the same reply and store as logging out once. |
| `AuthRoutes.ServerGuard` | server/middleware/admin-auth.ts:1-16 | Paths outside the `/api/admin` prefix pass untouched. A guarded path passes exactly when the cookie names a live session; otherwise the guard raises 401. A pass has no other effect. |
| `AuthRoutes.AuthRoutesNeverGuarded` | server/middleware/admin-auth.ts:7-9 | Every `/api/auth…` path passes whatever the session, so the login flow is never blocked. |
| `AuthRoutes.PrefixGuardsLongerNames` | server/middleware/admin-auth.ts:7 | The test is a plain prefix, so `/api/administrator` is guarded too. |
| `AuthRoutes.ClientGuard` | app/middleware/admin-auth.ts:1-16 | `/admin/login` and server-side rendering always continue, with no probe. On the client, the guard probes `/api/auth/me`: it continues exactly when the probe succeeds, and otherwise redirects to the login page. |
| `AuthRoutes.ClientGuardNoRedirectLoop` | app/middleware/admin-auth.ts:2-4 | A redirect lands on `/admin/login`, where the guard always continues. |
| `AuthRoutes.ClientGuardAgreesWithServer` | app/middleware/admin-auth.ts:11-15 | On the client, the page guard continues exactly when the server guard would let an admin API request through with the same cookie and clock. |
| `Migrate.SqlFiles` | server/db/migrate.ts:22-24 | Every `.sql` name of the listing is kept as often as it occurs, and nothing else is. The result is sorted in code-point order. |
| `Migrate.Pending` | server/db/migrate.ts:26-27 | The scripts that run are exactly the listed files whose names are not in the log read at the start. |
| `Migrate.EnsureLogTable` | scripts/migrate.js:14-23 | The log table exists afterwards. An existing log is kept, and a new one starts empty. |
| `Migrate.ApplyAllIsRunOutcome` | server/db/migrate.ts:26-39 | The loop equals its closed form. The pending scripts before the first failure are applied and logged in order; that failure ends the run and is raised; later scripts are never attempted. Without a transaction, the failing script's partial effect remains. |
| `Migrate.RunTransactional` | server/db/migrate.ts:10-39 | A missing directory raises ENOENT after the log table exists. Otherwise the run is the transactional closed form over the pending `.sql` files. |
| `Migrate.RunScript` | scripts/migrate.js:8-51 | A missing directory returns normally with the log unchanged. Otherwise the run is the non-transactional closed form, except that a script failing with ENOENT is also swallowed. |
| `Migrate.RunsOnlyPendingSqlInOrder` | server/db/migrate.ts:18-27 | Every attempted script is a listed `.sql` name not already in the log. The scripts are attempted in ascending order. |
| `Migrate.SuccessfulRunLogsEverySqlName` | server/db/migrate.ts:26-34 | When no script fails, the final log is the old log together with every `.sql` name of the listing. |
| `Migrate.RunOutcomeStopsAtFailure` | server/db/migrate.ts:29-38 | When the script at position k fails, the scripts before k stay applied and logged and k is not logged. Nothing after k is attempted, and k's error is raised. |
| `Migrate.TransactionalFailure` | server/db/migrate.ts:29-38 | A raised error comes from the last attempted script, which was pending and failed with that error. Its effects are rolled back, and the earlier scripts stay applied and logged. |
| `Migrate.ScriptFailure` | scripts/migrate.js:34-46 | The failing script is not logged, although its partial effect stays. No later script runs. Its error is rethrown unless its code is ENOENT. |
| `Migrate.NothingPendingWhenAllLogged` | scripts/migrate.js:27-32 | Once every file is in the log, nothing is pending. |
| `Migrate.TransactionalRerunIsNoOp` | server/db/migrate.ts:18-27 | After a successful run, a second run over the same directory executes nothing and changes nothing, whatever the scripts would do. |
| `Migrate.ScriptRerunIsNoOp` | scripts/migrate.js:23-32 | After a run in which every script succeeded, a second run executes nothing and changes nothing. |
| `Sequences.SortSorted` | server/db/migrate.ts:24 | Insertion sort by a total preorder gives a sorted sequence. |
| `JsonList.RoundTrip` | server/api/admin/about/index.put.ts:37-42 | `JSON.parse(JSON.stringify(xs))` gives back every list of strings, whatever characters the strings contain. |
| `Content.CreateWriting` | server/api/admin/writing/index.post.ts:32-84 | A missing or empty required field gives 400 "Missing required fields", checked first. A slug already present gives 400 "Slug already exists". Otherwise exactly one row is appended, with an id above every existing id. The reply is that stored row read back as the lists read it, and its tags are the submitted tags, or `[]`. Slug uniqueness in the table is preserved. |
| `Content.CreateWritingAppliesDefaults` | server/api/admin/writing/index.post.ts:64-83 | The reply is the new row read back as the lists read it, and it has no `published` field. The stored tags decode to the submitted tags, or `[]`. Empty hero fields become null. `published` is stored as 1 exactly when `true` was sent. An explicit `sortOrder` of 0 is kept. |
| `Content.CreateProject` | server/api/admin/projects/index.post.ts:14-41 | It makes the same two checks with their own messages, and slug uniqueness is preserved. Success appends one row and replies with its new id only. The stored row is the submitted body: empty optional texts as null, `featuredOrder` as sent, and tags encoded from the submitted list, or `[]`. The stored tags decode back to that list. |
| `Content.CreateProjectKeepsZeroOrder` | server/api/admin/projects/index.post.ts:26-38 | A `featuredOrder` of 0 is kept. Content and the GitHub and live URLs are null exactly when they were empty or absent. |
| `Content.CreateEducation` | server/api/admin/education/index.post.ts:15-51 | A missing institution, degree or date range gives 400. Otherwise one row is appended, with a fresh id. The reply is that stored row read back, and it is the body with empty optional fields as null, achievements defaulting to `[]`, and `sortOrder ?? 0`. |
| `Content.EducationAllowsDuplicates` | server/api/admin/education/index.post.ts:25-39 | Posting the same body twice gives two rows that differ only in their ids. |
| `Content.CreateExperience` | server/api/admin/experience/index.post.ts:14-48 | A missing company, role, date range or description gives 400. Otherwise one row is appended. The reply is that stored row read back, and it is the body with technologies defaulting to `[]` and `sortOrder ?? 0`. |
| `Content.ExperienceAllowsDuplicates` | server/api/admin/experience/index.post.ts:24-37 | There is no uniqueness check, so identical bodies give distinct rows. |
| `Strings.TrimEmptyIffBlank` | server/api/admin/about/index.put.ts:27-28 | `s.trim()` is empty exactly when every character of `s` is white space. |
| `Content.KeepNonBlankSpec` | server/api/admin/about/index.put.ts:27-28 | The filter drops exactly the blank entries and keeps every other entry unchanged, as often as it occurs, in its original order. Filtering again changes nothing. |
| `Content.UpdateAbout` | server/api/admin/about/index.put.ts:16-45 | A list that is not an array gives 400 "Invalid request body" with no update. Otherwise only row 1 changes: both lists are replaced wholesale by the filtered lists. The reply holds exactly the lists stored, and they decode back from the stored text. |
| `Content.UpdateAboutIdempotent` | server/api/admin/about/index.put.ts:27-37 | Submitting the reply's lists again stores and returns the same lists. |
| `Content.ValidEmailMatchesPattern` | server/api/contact/index.post.ts:16-22 | The hand-written check accepts exactly the strings `^[^\s@]+@[^\s@]+\.[^\s@]+$` matches. |
| `Content.ValidEmailExamples` | server/api/contact/index.post.ts:16-22 | `a@b.co` is accepted. `a@b@c.d` (two `@`) and `a@.b` (a dot right after `@`) are refused. |
| `Content.SubmitContact` | server/api/contact/index.post.ts:4-43 | A missing name, e-mail or message gives 400, checked before the address format. An address that does not match the pattern gives 400 "Invalid email address" and stores nothing. A stored submission appends exactly one row with a fresh id and replies `success: true` with that id. A storage failure gives 500 "Failed to save contact submission". |
| `Listing.PostOrderTotalPreorder` | server/api/writing/index.get.ts:36 | Sort order ascending, then date descending, is a total preorder. A sorted result is therefore well defined up to ties. |
| `Listing.PublicRows` | server/api/writing/index.get.ts:32-37 | The evaluated query holds every published row as often as the table does, and nothing else. It is sorted by (sort order asc, date desc). |
| `Listing.WritingQueryCounts` | server/api/writing/index.get.ts:32-37 | Any result of such a query holds a row exactly as many times as the table does when the row passes the filter, and otherwise not at all. |
| `Listing.PublicWritingList` | server/api/writing/index.get.ts:31-52 | The list succeeds exactly when every published row's tags decode. Each item is its row mapped to camel-case with tags decoded and no `published` field. Sort orders do not decrease, and each item comes from a published row. |
| `Listing.PublicRowsArePublishedRows` | server/api/writing/index.get.ts:35 | Every row of the public result is a published row of the table. |
| `Listing.AdminRows` | server/api/admin/writing/index.get.ts:20-24 | The admin query holds every row, published or not, exactly as often as the table does. It is sorted in the same order as the public query. |
| `Listing.AdminWritingList` | server/api/admin/writing/index.get.ts:19-40 | The list is produced exactly when every row's tags decode; otherwise the handler throws. There is one item per row. Each item is the public mapping of its row plus that row's `published` value. |
| `Listing.PublicIsAdminRestricted` | server/api/admin/writing/index.get.ts:20-24 | Restricting the admin result to published rows is a valid result of the public query: the public list is the admin list filtered, up to ties. |
| `Listing.FeaturedRows` | server/api/projects/featured.get.ts:23-24 | The query returns exactly the projects whose `featured_order` is not null, 0 included, sorted ascending by it. |
| `Listing.FeaturedOf` | server/api/projects/featured.get.ts:19-36 | One featured row becomes an item exactly when its tags decode. The item carries the row's fields and decoded tags. The thumbnail is null exactly when the project has no image or its first image's URL is empty, and otherwise has the URL of an image of minimal sort order. |
| `Listing.FirstImage` | server/api/projects/featured.get.ts:20 | There is no image exactly when the project has none. Otherwise the result is an image of the project with minimal sort order. |
| `Listing.FeaturedList` | server/api/projects/featured.get.ts:16-38 | The list is produced exactly when every featured project's tags decode. There is one item per featured project, in ascending featured order. Each item carries its row's id, slug, title, description, URLs, featured order and decoded tags. The thumbnail is null exactly when the project has no image or its first image's URL is empty. Otherwise its URL is that of an image of minimal sort order. |
| `Listing.ThumbnailFromFirstImages` | server/api/projects/featured.get.ts:20-21 | The thumbnail URL and alt text each come from a minimal-sort-order image of the scan that selected them. When both subqueries scan alike, they come from the same image. |
| `Listing.ThumbnailMayMixTiedImages` | server/api/projects/featured.get.ts:20-21 | Counterexample: with two images tied on sort order, scanned in different orders, the thumbnail pairs one image's URL with the other's alt text. |
| `Activity.TimeOfDayMatchesTable` | server/api/github/activity.get.ts:28-35 | Every hour 0–23 gets one bucket: night 0–2, sleep 3–8, morning 9–11, office 12–17, evening 18–23. |
| `Activity.FormatTimeAgoReadsBack` | server/api/github/activity.get.ts:37-44 | The text holds no number exactly under one hour. From 1 to 24 hours it reads back as the whole number of hours and ends in `H AGO`. From 24 hours on it reads back as the whole number of days, and from 48 hours on it ends in ` DAYS AGO`. |
| `Activity.OneDayAgoIsSecondDay` | server/api/github/activity.get.ts:37-44 | "1 DAY AGO" is shown exactly for 24 ≤ h < 48. |
| `Activity.FormatTimeAgoCountsDays` | server/api/github/activity.get.ts:37-44 | The text ends in ` DAY AGO` or ` DAYS AGO` exactly from 24 hours on. |
| `Activity.Truncate` | server/api/github/activity.get.ts:259-262 | A message of at most 30 characters is unchanged. A longer one is its first 30 characters followed by `...`. |
| `Activity.TruncateIdempotent` | server/api/github/activity.get.ts:259-262 | Truncating twice is truncating once, and the result is never longer than 33. |
| `Activity.CommitHeadline` | server/api/github/activity.get.ts:164-188 | Without a fetched message, the text is "Recent commit". Otherwise it is the part of the message before its first line feed: a prefix without a line feed, followed in the message by a line feed unless it is the whole message. |
| `Activity.RunBackExactly` | server/api/github/activity.get.ts:234-247 | Counting back from a day stops exactly at the first day missing from the set, or at the limit. |
| `Activity.Streak` | server/api/github/activity.get.ts:234-247 | The loop computes the streak: 1 if today has a push, plus the number of consecutive days with pushes counting back from yesterday. The total is at most 30. |
| `Activity.SecondSegmentOfFullName` | server/api/github/activity.get.ts:250 | The current repository is the `repo` part of an `owner/repo` name. |
| `Activity.Fetch` | server/api/github/activity.get.ts:46-282 | A missing token or a failed request gives null. With no push events, the report is the quiet one. Otherwise the report is active exactly when the last push is under 24 hours old. The last commit carries that age, its `formatTimeAgo` text, the commit URL of the push, and the truncated headline: the fetched first line when the push has a head, else "Recent commit". The week count is the fetched total, or 0. The streak is computed over the push days. The languages are the fetched ones, or the fixed fallback when there are none. The current repository is the part of the name after its first `/`. |
| `Activity.FetchedReportAgrees` | server/api/github/activity.get.ts:258-268 | A report is active exactly when its time text does not count days. A first line of at most 30 characters from a fetched commit message is shown whole. |
| `Activity.LoadCache` | server/api/github/activity.get.ts:284-307 | The cached row is used exactly while `cached_at` plus 15 minutes is after `now`. A last commit is reported exactly when a message is stored, and the time of day is recomputed. |
| `Activity.SaveCache` | server/api/github/activity.get.ts:309-336 | Saving updates the existing row and makes it fresh. Without a row, nothing is written. |
| `Activity.SaveThenLoad` | server/api/github/activity.get.ts:284-336 | Within 15 minutes, a saved report reads back as itself. The exceptions: an empty message drops the last commit, an age of 0 reads back as null, and the time of day is recomputed. |
| `Activity.Handle` | server/api/github/activity.get.ts:338-373 | A fresh cache is served without fetching. On a miss, a successful fetch is saved and returned. A failed fetch returns the zeroed fallback and leaves the cache untouched. |
| `Activity.FetchedReportServedUntilExpiry` | server/api/github/activity.get.ts:338-373 | After a successful miss, every request in the next 15 minutes is served from the cache, as the cached form of the fetched report. |
| `Activity.FailedFetchRetriesNextTime` | server/api/github/activity.get.ts:353-372 | A failed fetch writes nothing to the cache, so the next request fetches again. |

## Left out

- **GitHub requests.** The GraphQL, REST and OAuth requests are not modelled as HTTP. Their replies are inputs: `TokenReply`, `UserReply` and `Upstream`. This covers:
  - the week-contribution count;
  - the repository-language requests;
  - the OAuth initiation handler `server/api/auth/github.get.ts`, with its `URLSearchParams` encoding.
- **Language percentages.** The shares are a `Math.round` of a floating-point division. Languages are an opaque map.
- **Languages in the cache.** `JSON.stringify`/`JSON.parse` of the languages object is taken as storing the map itself. `JSON.parse(row.languages_json || '{}')` is modelled by keeping the map.
- **Randomness.** Random bytes are an input sequence of 32 bytes.
- **Cookie options.** `httpOnly`, `secure`, `sameSite` and `path` are left out, and so is the browser's own expiry of the cookie. The cookie is present until a handler deletes it.
- **`sendRedirect`.** It is modelled as the redirect location in the reply.
- **Time.** A timestamp is an integer instant, the local hour is an integer input, and `toDateString` is an integer day number.
- **Timestamp formats.** Apart from the expiry comparison, SQLite's `datetime('now')` and the ISO text formats are not modelled.
- **SQLite.** Tables are sequences of rows, or a map for the about row. Each `WHERE … ORDER BY` is stated as a property of the result; the order among ties is left unspecified, as SQLite leaves it.
- **Row ids.** The rowid SQLite assigns is modelled as one more than the largest id (`Content.NextRowId`). The properties only use that it is fresh.
- **JSON.** `JSON.stringify` and `JSON.parse` are modelled only for lists of strings, with no white space between tokens. Text that does not decode makes the handler throw.
- **Field types.** Body fields are modelled as optional strings, lists of strings, integers and booleans. A body field of another JSON type is not modelled, and neither is the `TypeError` that `p.trim()` throws on a non-string entry.
- **String representation.** Strings are sequences of code points, not JavaScript's UTF-16 code units. This affects `length` and `substring` for characters outside the Basic Multilingual Plane. It also affects the order of `.sql` names: `sort` compares UTF-16 code units, which puts such a character before the code points U+E000 to U+FFFF, while code-point order puts it after them. SQLite's BINARY collation compares UTF-8 bytes, which agrees with code-point order.
- `Auth.IsAllowedUser`: `parseInt` is modelled on unbounded integers, so digits beyond the 2^53 precision of a JavaScript number are not rounded away as they would be.
- **The two log tables.** The two runners use different log tables, `_migrations` and `migrations`. The model has one log per database and runs each runner against its own.
- **Migration failures.** `readFileSync` of a listed script failing is a failing outcome of that script. The model ignores:
  - `console` output;
  - `applied_at` / `executed_at`;
  - `db.close()`.
- **Server guard import.** `server/middleware/admin-auth.ts` is modelled as if its `getSession` import were `getAuthSession`. As written, the import names nothing the module exports.
- `Activity.Fetch`: a few fields are simplified.
  - `undefined` and `null` are one `None`. This affects a push without `payload.head`, whose commit URL would read `…/commit/undefined`, and a repository name without `/`, which gives `currentRepo` undefined.
- `Activity.SaveCache`: the stored `last_commit_date` column is left out because no handler reads it back.
- **Everything else.** The read-only endpoints that only rename columns are left out, including the education and experience lists. So are:
  - the update and delete handlers;
  - uploads;
  - the seed script;
  - `server/utils/db.ts`;
  - Markdown rendering;
  - the front-end plugins;
  - the health endpoint;
  - all logging.

## Findings

| source | as written | input that shows it | evidently intended | confidence | as-written member | corrected member |
|---|---|---|---|---|---|---|
| server/utils/auth.ts:46-49 | `expires_at > datetime('now')` compares two texts. `expires_at` is ISO, `2026-01-08T01:00:00.000Z`, and `datetime('now')` is SQLite's `2026-01-08 02:00:00`. They first differ at the eleventh character, where `T` sorts after the space, so on the expiry date every session counts as live. | A session expiring at 01:00 UTC, queried at 02:00 UTC the same day, is still accepted. | A session is live only while `now` is before its expiry instant. | high, not executed | `Auth.LiveAsWrittenIsDayGranular`, `Auth.LiveAsWrittenAcceptsExpiredSession` | `Auth.GetAuthSession` |
