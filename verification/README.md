# Login gateway: the pure layer of `src/server.ts`

This project models the part of the Express login gateway that makes decisions without doing I/O. That part covers:

- `escapeHtml`;
- how the tenant id, display name and username are derived from the session user (the account object the identity provider returns);
- how `{{displayName}}`, `{{username}}` and `{{tenantId}}` placeholders in a page template are filled;
- the outcome of `GET /profile` and of `GET /no-subscription`.

Modules:

- `Text` (`text.dfy`): reference string operations. These are character count, substring occurrence, literal replace-all and join.
- `JsString` (`js_string.dfy`): the two JavaScript built-ins the server uses.
  - `s.replace(/literal/g, string)`, including the `$` patterns that JavaScript expands in a string replacement (`$$`, `$&`, `` $` ``, `$'`).
  - `s.split(".")`, together with JavaScript's `undefined` for an index past the end.
- `Escape` (`escape.dfy`): `escapeHtml` as five sequential replace passes. Its main lemma proves the chain equals a per-character entity map. An unescaping function serves as the inverse.
- `Account` (`account.dfy`): the account record with optional fields, JavaScript `||` truthiness, tenant id, display name and username.
- `Routes` (`routes.dfy`): placeholder filling, the profile and no-subscription pages, and the `/profile` and `/no-subscription` handlers.

In the handlers, these are inputs rather than effects:

- loading a template is an `Attempt` (a value, or a throw);
- the subscription query is a function from tenant id to `Attempt<row count>`.

The `/profile` handler also reports which tenant id it queried, if any. This makes "no database query without a session user" a checkable statement.

Two behaviours of the code are easy to misread, and the model follows the code in both:

- The pages are meant to receive HTML-escaped values. However, the code hands each escaped value to `replace` as a string, and JavaScript then expands `$` patterns in it. This is recorded under Findings. The handlers send the pages as written (`ProfilePageAsWritten`, `NoSubscriptionPageAsWritten`), and `ProfilePage` and `NoSubscriptionPage` are the corrected verbatim-fill pages. The two agree whenever no filled value holds a `$`.
- In `/profile` the template is loaded inside the `try` block. A failure to load it therefore yields the 500 error page, as any other thrown error does.

## Model

| member | source | states |
|---|---|---|
| JsString.ReplaceGlobal | src/server.ts:120-122 | `s.replace(/pat/g, rep)` with a string `rep`, `$` patterns expanded per match. When `rep` holds no `$`, it equals the literal replace-all, so the five `escapeHtml` passes at lines 159-164 are literal. A text with no occurrence of the pattern comes back unchanged, whatever `rep` holds. |
| JsString.Split | src/server.ts:102 | `split(".")` gives at least one piece. No piece contains a dot. Joining the pieces with dots gives back the input. |
| JsString.SplitJoin | src/server.ts:102 | Dot-free pieces joined with dots split back into exactly those pieces, so split and join are inverse. |
| Escape.EscapeHtml | src/server.ts:158-165 | The five sequential passes (`&` first) equal the per-character map `&`→`&amp;`, `<`→`&lt;`, `>`→`&gt;`, `"`→`&quot;`, `'`→`&#039;`, with every other character unchanged. |
| Escape.EscapeHtmlNoMarkup | src/server.ts:158-165 | The output contains no `<`, `>`, `"` or `'`. |
| Escape.EscapeHtmlAmpersands | src/server.ts:159-164 | The output has exactly one `&` per special input character. The count alone does not exclude double escaping; that follows from `Escape.EscapeHtml` and `Escape.EscapeMapLength`. |
| Escape.AmpersandLastDoubleEscapes | src/server.ts:159-164 | If the `&` pass ran last, `<` would become `&amp;lt;`. The actual chain gives `&lt;`. |
| Escape.EscapeHtmlIdentity | src/server.ts:158-165 | `escapeHtml` returns its input unchanged exactly when the input contains none of `& < > " '`. |
| Escape.EscapeMapLength | src/server.ts:158-165 | The output length is the input length plus 4 per `&`, 3 per `<` or `>`, and 5 per `"` or `'`. |
| Escape.EscapeHtmlNeverShorter | src/server.ts:158-165 | The output is never shorter than the input. |
| Escape.UnescapeEscapeHtml | src/server.ts:158-165 | Decoding the five entities recovers the input, so escaping loses no information. |
| Escape.EscapeHtmlInjective | src/server.ts:158-165 | Different inputs escape to different outputs. |
| Escape.EscapeHtmlDollar | src/server.ts:158-165 | The output holds a `$` exactly when the input does. The `$` patterns themselves can change, as `Escape.EscapeCreatesMatchPattern` shows. |
| Account.TenantId | src/server.ts:100-103 | A non-empty `tid` claim wins. Without one, the result contains no dot. It is empty when there is no usable home account id or no session user. The same rule appears at lines 145-148. |
| Account.TenantFromHomeAccountId | src/server.ts:102 | Suppose there is no usable `tid` and the home account id is `<oid>.<tid>`, optionally followed by more dot-separated segments. Then the tenant id is the `<tid>` segment. |
| Account.TenantWithoutDot | src/server.ts:102-103 | With no usable `tid` and a home account id without a dot, the segment is `undefined` and the tenant id falls back to `""`. |
| Account.DisplayName | src/server.ts:144 | The result is `name`, else `username`, else `"User"`, and is never empty. Without a session user it is `"User"`. The same chain appears at line 116. |
| Account.Username | src/server.ts:117 | The result is `username`, else `name`, else `""`. It is empty exactly when both fields are missing or empty. |
| Account.NameFallbacksAgree | src/server.ts:116-117 | An empty username implies the display name `"User"`. When exactly one of the two fields is set, both values show that field. |
| Routes.FillAsWritten | src/server.ts:120 | One `replace` pass as written. A page without the placeholder comes back unchanged. For a value without `$` the pass inserts the escaped value verbatim (`Fill`). |
| Routes.FillKeepsMarkup | src/server.ts:120 | With the verbatim fill (the corrected pass), filling a placeholder that has no `<` or `>` with an escaped value keeps the page's count of `<` and of `>`. `FillAsWritten` equals it for `$`-free values. |
| Routes.ProfilePageAsWritten | src/server.ts:120-122 | The profile page as sent: display name, username and tenant id filled in that order. A template with no placeholder is returned unchanged. When none of the three values holds a `$`, the page equals the verbatim-fill `ProfilePage`. |
| Routes.ProfilePageKeepsMarkup | src/server.ts:120-122 | With the verbatim fill (the corrected page `ProfilePage`), the page has exactly as many `<` and `>` characters as its template, whatever the user. |
| Routes.ProfilePageAsWrittenKeepsMarkup | src/server.ts:120-122 | The page as sent has exactly as many `<` and `>` characters as its template whenever no value holds a `$`. Via the bridge in `ProfilePageAsWritten`. |
| Routes.ProfilePageFillsInsertedSlot | src/server.ts:121-122 | Filling is sequential: for every user whose username reads `{{tenantId}}` (and whose tenant id holds no `$`), the template `{{username}}` renders as the escaped tenant id. |
| Routes.NoSubscriptionPageAsWritten | src/server.ts:151-152 | The no-subscription page as sent: display name, then tenant id. A template without those placeholders is returned unchanged. When neither value holds a `$`, the page equals the verbatim-fill `NoSubscriptionPage`. |
| Routes.NoSubscriptionPageKeepsMarkup | src/server.ts:151-152 | With the verbatim fill (the corrected page `NoSubscriptionPage`), the page has exactly as many `<` and `>` characters as its template. |
| Routes.NoSubscriptionPageAsWrittenKeepsMarkup | src/server.ts:151-152 | The page as sent keeps the template's count of `<` and `>` whenever neither value holds a `$`. |
| Routes.Profile | src/server.ts:90-130 | These are the outcomes of `/profile`. (1) It redirects to `/login` exactly when there is no session user, and then no query happens. (2) It redirects to `/no-subscription` exactly when the query for the derived tenant id returns no rows. (3) It returns 200 exactly when rows exist, and the body is `ProfilePageAsWritten` of the loaded template and the session user. (4) It returns 500 with the error page exactly when the template load or the query throws. Whenever there is a session user and the template loads, exactly one connect-and-query attempt is made, for `TenantId` of the session user. |
| Routes.NoSubscription | src/server.ts:142-155 | `/no-subscription` always answers 200 with `NoSubscriptionPageAsWritten` of the template and the session user. Without a session user, the page shows `User` and an empty tenant id. |
| Escape.EscapeCreatesMatchPattern | src/server.ts:158-165 | Escaping can create a `$` pattern. `$<` is literal text for `replace`, but it escapes to `$&lt;`, whose `$&` expands to the matched placeholder. |
| Routes.LessThanUsernameRepeatsSlot | src/server.ts:121 | As written, a username of `$<` renders the template `{{username}}` as `{{username}}lt;`. |
| Routes.DollarPatternCopiesMarkup | src/server.ts:121 | As written, a username of `` $` `` in template `<b>{{username}}` yields `<b><b>`. The page gains a `<`. The verbatim fill yields `` <b>$` ``. |

## Left out

- `src/db/db.ts` (`getToken`, `getConnection`) is left out. It covers token acquisition and opening the SQL pool, which are cloud and network I/O through foreign libraries. Connecting plus querying is the `activeRows` input, whose results are a row count or a throw.
- The SQL text at `src/server.ts:109` is not modelled. It interpolates the tenant id into the query, and the `tenant_id` binding at line 108 is unused. The model makes no claim about what the database matches or about injection safety.
- `src/util/load-html.ts` (`loadHtml`) is a filesystem read. Templates are given text, or an `Attempt` where the handler awaits inside `try`.
- `error.html` is read inside the `catch` block, and `no-subscription.html` is read outside any `try`. A failure in either is an unhandled rejection, which the model does not represent. Both templates are given text.
- The routes `/`, `/login` and `/redirect` are left out, along with the MSAL authorization-code exchange (section 4.1 of RFC 6749). They are library calls with no decision logic of their own.
- `/logout`, the session middleware and `session.destroy` are left out. They are middleware state plus a library URL encoder.
- The model types account fields as optional strings, so non-string values are not represented. In `/profile` such a value would throw at different points:
  - a non-string `homeAccountId` throws in `split` at line 102, before the query, which yields 500;
  - a non-string `name`, `username` or `tid` throws only in `escapeHtml` at lines 120-122, after the query. With zero rows the route still redirects at lines 111-112; with rows it yields 500.
  - In `/no-subscription` the same throws happen outside any `try` and are unhandled rejections.
- Strings are sequences of Unicode characters, not UTF-16 code units. Every operation modelled inspects only ASCII characters, so the difference does not show.
- Server startup, port parsing and console logging are left out.

## Findings

| source | as written | input that shows it | evidently intended | confidence | as-written member | corrected member |
|---|---|---|---|---|---|---|
| src/server.ts:120-122 | `html.replace(/{{username}}/g, escapeHtml(username))` passes the escaped value as a string replacement. JavaScript expands `$&`, `` $` ``, `$'` and `$$` in it. `escapeHtml` keeps every `$` and can even create a `$&` pattern (`$<` becomes `$&lt;`, so a username `$<` renders `{{username}}` as `{{username}}lt;`, `Routes.LessThanUsernameRepeatsSlot`). Lines 151-152 do the same. | Username `` $` `` with template `<b>{{username}}` renders `<b><b>`. The text before the placeholder, markup included, is copied into the page. | Insert the escaped value verbatim, for example with a replacer function or by doubling each `$`. The page then has exactly the template's `<` and `>` characters. | high; not executed | Routes.DollarPatternCopiesMarkup | Routes.ProfilePageKeepsMarkup |
