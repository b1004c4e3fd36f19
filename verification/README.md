# List-users API suite: pagination contract and record validation

The repository is a Jest suite that calls the paginated `GET /users`
endpoint of a REST service. It checks the pagination fields of each
response, and it validates every returned user record with
`validateUsersData`. This project models the two pure parts of that suite:

- **Record validation** (`Email`, `Url` and `Users` modules). A record is a
  JSON object. It passes when `id`, `first_name` and `last_name` are
  defined, `email` matches the anchored pattern `^[^\s@]+@[^\s@]+\.[^\s@]+$`,
  and `avatar` satisfies the simplified URL predicate. The email pattern is
  modelled twice. `MatchesEmailRegex` reads it literally, as `local@domain.tld`.
  `IsEmail` is a direct, computable check. A lemma proves the two agree on
  every string. The URL pattern is modelled by a simplified predicate. A list
  is validated in order, and validation stops at the first failed expectation.
- **Pagination contract** (`Pagination` and `Suite` modules). The suite
  pins down what the service must answer, so the service's behaviour is
  written as a reference function, `Paginate`. It echoes `page` and
  `per_page`, reports `total` as the size of the collection, and returns the
  slice `[(page-1)*per_page, min(page*per_page, total))`, which is empty past
  the end. The defaults are `page = 1` and `per_page = 6`. Each `it` block
  becomes a lemma about `Serve`. The suite's shared `totalNumberOfUsers`
  variable becomes an explicit value, `CapturedTotal`. `SuitePassesIff`
  proves that the whole suite passes exactly when the service holds at least
  twelve records and all of them are valid.

Files: `strings.dfy` (character classes, `Count`, `Find`), `email.dfy`,
`url.dfy`, `users.dfy`, `pagination.dfy`, `suite.dfy`, `optional.dfy`.

## Model

| member | source | states |
|---|---|---|
| Strings.IsWhitespace | tests/index.test.js:113 | The ECMAScript `\s` class: TAB, LF, VT, FF, CR, SPACE, NBSP, U+1680, U+2000-U+200A, U+2028, U+2029, U+202F, U+205F, U+3000 and U+FEFF. |
| Email.IsEmail | tests/index.test.js:113 | The computable email check that validation uses: no whitespace, a non-empty part before the first `@`, no second `@`, and a `.` strictly inside the part after the `@`. |
| Email.MatchesEmailRegex | tests/index.test.js:113 | The email pattern read literally: the string is `L@D.T`, with L, D and T each a non-empty run of characters that are neither whitespace nor `@`. |
| Url.IsUrl | tests/index.test.js:116 | Some index starts `http://` or `https://`, followed by one or more host characters, a `.`, and an extension character. |
| Users.IsValidUser | tests/index.test.js:121-127 | `id`, `first_name` and `last_name` are present, `email` is a string satisfying `IsEmail`, and `avatar` is a string satisfying `IsUrl`. |
| Users.AllValid | tests/index.test.js:119-128 | Every record of the list satisfies `IsValidUser`. |
| Pagination.Serve | tests/index.test.js:11-102 | Reports `total` as the collection size. An absent `page` or `per_page` is answered with 1 or 6, and a present positive one is echoed as sent. |
| Suite.Scenarios | tests/index.test.js:11-102 | The seven `it` blocks in source order. Each has its query and expected `per_page`, `page` and record count, and the first six validate their records. |
| Suite.RunSuite | tests/index.test.js:9-102 | One outcome per scenario, seven in all. Each holds when the response to that scenario's query meets its expectations, with the captured total threaded into the last three. |
| Email.EmailRegexIff | tests/index.test.js:113 | A string matches `^[^\s@]+@[^\s@]+\.[^\s@]+$` exactly when it has no whitespace, its first `@` has a non-empty part before it, no further `@` follows, and the part after the `@` has a `.` that is neither its first nor its last character. Both directions are proved. |
| Email.RegexImpliesShape | tests/index.test.js:113 | Any string `L@D.T`, with L, D and T non-empty and free of whitespace and `@`, passes the computable email check. |
| Email.ShapeImpliesRegex | tests/index.test.js:113 | Every string that passes the computable email check splits as `L@D.T` into three such segments. |
| Email.EmailRegexRejects | tests/index.test.js:113 | The email pattern rejects any string with whitespace anywhere, any string with zero `@` or with two or more, and any string with no `.` strictly inside the part after the `@`. |
| Email.SingleAtIff | tests/index.test.js:113 | "Exactly one `@`", counted, is the same as "an `@` with no second one after it". |
| Email.EmailAcceptsServiceShape | tests/index.test.js:113 | An address of the service's shape (`george.bluth@reqres.in`) matches. |
| Email.EmailAcceptsDottedDomain | tests/index.test.js:113 | The part after the `@` may hold several dots (`a@b.c.d` matches). |
| Email.EmailRejectsSpace | tests/index.test.js:113 | `a b@c.d` is rejected because it contains whitespace. |
| Email.EmailRejectsWrongAtCount | tests/index.test.js:113 | `a@b@c.d` (a second `@`) and `a.b.c` (no `@`) are rejected. |
| Email.EmailRejectsEmptyLocal | tests/index.test.js:113 | `@b.c` is rejected because its local part is empty. |
| Email.EmailRejectsTrailingDot | tests/index.test.js:113 | `a@bc.` is rejected because its only dot is the last character. |
| Email.EmailRejectsLeadingDot | tests/index.test.js:113 | `a@.bc` is rejected because its only dot directly follows the `@`. |
| Url.UrlUnanchored | tests/index.test.js:115-116 | The URL pattern has no anchors. A match anywhere in a string is enough, so any text may come before or after a matching string. |
| Url.UrlNeedsScheme | tests/index.test.js:116 | Every accepted string contains `http://` or `https://`. |
| Url.NoSchemeNoUrl | tests/index.test.js:116 | A string with neither `http://` nor `https://` in it is rejected. |
| Url.HttpsHostMatches | tests/index.test.js:116 | `https://`, a run of host characters, a `.` and an extension character form a match, whatever follows. |
| Url.UrlAcceptsServiceAvatar | tests/index.test.js:116 | The service's avatar address `https://reqres.in/img/faces/1-image.jpg` matches. |
| Url.UrlRejectsSamples | tests/index.test.js:116 | A host without a dot (`https://reqres`) and a non-HTTP scheme (`ftp://reqres.in/a.jpg`) are rejected. |
| Users.FirstFailure | tests/index.test.js:121-127 | Returns no failure exactly when `id`, `first_name` and `last_name` are present, `email` is a string matching the email pattern and `avatar` is a string matching the URL pattern. Otherwise it returns the first check, in source order, that fails; every earlier check holds. |
| Users.ValidateUsersData | tests/index.test.js:111-129 | Validation passes exactly when every record is valid. On failure it names the first invalid record, every record before it is valid, and the failed check is that record's first failing one. |
| Users.AllValidAppend | tests/index.test.js:119-128 | List validation is a conjunction over the records: `valid(a + b)` holds exactly when `valid(a)` and `valid(b)` both hold. |
| Users.AllValidSlice | tests/index.test.js:119-128 | Every contiguous part of a valid list is valid. |
| Users.ValidityIgnoresOtherFields | tests/index.test.js:121 | Validity reads only `id`, `email`, `first_name`, `last_name` and `avatar`. Changing any other field never changes it. |
| Pagination.Effective | tests/index.test.js:11-21 | An absent parameter takes its default, and a present positive one is used as sent. |
| Pagination.Paginate | tests/index.test.js:11-102 | Echoes `page` and `per_page` unclamped and reports `total` as the collection size. The data holds the items from `(page-1)*per_page` onward, in order. Its length is the smaller of `per_page` and the number of remaining items, and it is empty when the page starts at or past the end. |
| Pagination.FullPageIff | tests/index.test.js:11-62 | A page holds `per_page` records exactly when `page * per_page <= total`. |
| Pagination.EmptyPageIff | tests/index.test.js:99-101 | A page is empty exactly when it starts at or past the end of the collection. |
| Pagination.PagesArePrefix | tests/index.test.js:11-102 | Pages 1 to n, read in order, are exactly the first `min(n*per_page, total)` items. No item is skipped, repeated or reordered. |
| Pagination.PagesCoverAll | tests/index.test.js:11-102 | Reading every page in order gives back the whole collection. |
| Pagination.ItemLocation | tests/index.test.js:11-102 | Item `i` appears on page `i / per_page + 1` at offset `i % per_page`. |
| Suite.CapturedTotal | tests/index.test.js:10-31 | The `total` the suite captures and reuses is the size of the collection. |
| Suite.NoParamsScenario | tests/index.test.js:11-24 | With no parameters and at least 6 records, the response has `per_page = 6` and `page = 1`, and its data is the first 6 records. |
| Suite.ExplicitFirstPageScenario | tests/index.test.js:25-38 | `page=1` gets the same response as no parameters, for every collection. |
| Suite.PerPageTenScenario | tests/index.test.js:39-50 | With `per_page=10` and at least 10 records, the response has `per_page = 10` and `page = 1`, and its data is the first 10 records. |
| Suite.SecondPageScenario | tests/index.test.js:51-62 | With `page=2` and at least 12 records, the response has `per_page = 6` and `page = 2`, and its data is records 7 to 12. |
| Suite.PerPageAtLeastTotalScenario | tests/index.test.js:63-90 | With `per_page >= total` on page 1, the echoed `per_page` is the requested value, never clamped, and the data is the whole collection. This covers both `per_page = total` and `per_page = total + 1`. |
| Suite.PastEndScenario | tests/index.test.js:91-102 | `per_page=total&page=2` gives `page = 2`, `per_page = total` and empty data, not an error. |
| Suite.SuitePassesIff | tests/index.test.js:9-102 | All seven scenarios pass exactly when the service holds at least 12 records and every record is valid. |

## Left out

- HTTP calls through axios, `dotenv` loading of `BASE_URL`, and the `status == 200` expectations (lines 2-6, 13, 18 and similar). These are network and configuration I/O. A response here is the value `Serve` returns.
- Jest mechanics (`describe`/`it`, async sequencing, reporting). An `it` block passes when all its expectations hold, which is what `Suite.Meets` states. The order in which expectations are reported is not modelled.
- The captured `totalNumberOfUsers` variable (line 10) is not modelled as mutable state. It becomes the explicit value `Suite.CapturedTotal`, taken from the second scenario's response (line 31), the last write before it is read. Line 17 writes the same value.
- `total_pages`: the suite never reads it.
- The test title at line 25 says "page is set to 0", but line 27 sends `page=1`. The model follows line 27.
- Pagination.Effective: the fallback to the default for a non-positive `page` or `per_page` is the service's documented behaviour, not something the suite pins down. The suite sends a non-positive value only when the total is 0 (`per_page=0` at lines 66 and 94). In that case line 21 already fails, which is why `Suite.PerPageAtLeastTotalScenario` and `Suite.PastEndScenario` require at least one record. No lemma depends on the fallback value.
- Url.IsUrl: simplifies the URL pattern of line 116. It drops the word boundary `\b`, the `{1,256}` and `{1,6}` bounds and the optional trailing path group. It accepts every string the real pattern matches, plus some that only the bounds or the boundary would reject (for example `http://a.bcdefghij`).
- Url.HttpsHostMatches: proved for the simplified predicate. The real pattern also needs a word boundary within six extension characters, so `https://a.bcdefgh` satisfies the lemma's premise but does not match line 116.
- Url.UrlUnanchored: proved for the simplified predicate. For the real pattern, text added in front keeps a match. Text added after it can remove the word boundary after the extension and so lose the match.
- JSON numbers are modelled as integers, and the contents of arrays and objects as one opaque value. The checks never look at them.
- JavaScript runs these patterns over UTF-16 code units, while Dafny strings hold Unicode scalar values. Neither pattern names a surrogate, so results agree.
