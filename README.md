# Page analyser in Dafny

A model of the page analyser web application (`page_analyzer/app.py`).
A user submits a URL. The application stores it under a normalised name,
`scheme://host`. A user can then trigger a check of the stored URL: the
application fetches the page and records the HTTP status together with the
page's first `<h1>`, `<title>` and meta description, each cut to 255 characters.

The model has six modules:

- `Options` (`options.dfy`): an optional value, for elements that may be absent and lookups that may find nothing.
- `Formatter` (`formatter.dfy`): the field formatter `formatter` as a function `Format` over `Option<string>`. `None` is an absent element; `Some(text)` is an element's text or an attribute value.
- `UrlNormalizer` (`normalizer.dfy`): the name stored for a validated URL, `urlparse(url).scheme + "://" + urlparse(url).hostname`. Parsing follows the generic syntax of section 3 of RFC 3986 in the way Python's `urlsplit` reads it:
  - the scheme ends at the first `:`;
  - the authority follows `//` and ends at the first `/`, `?` or `#`;
  - inside the authority `[userinfo "@"] host [":" port]` (section 3.2 of RFC 3986), the host follows the last `@` and ends at `:`, or it is the text inside `[...]`;
  - a host in brackets (an IP literal, section 3.2.2 of RFC 3986) loses its brackets;
  - the scheme is lower-cased, and so is the host up to its first `%`; a `%` and what follows it (an IPv6 zone identifier, or a percent-encoded octet) keep their case;
  - a missing host prints as `None`, as the f-string does.
- `Ordering` (`ordering.dfy`): `ORDER BY id DESC` as an insertion sort on sequences, proved to return a permutation in descending key order. It is strictly descending when the keys are distinct.
- `Tables` (`tables.dfy`): the rows of `urls` and `url_checks`, and the queries the handlers run against them. The queries are pure functions over the two tables: lookup by name, lookup by id, the largest id, the latest check per URL, the listing, and the checks of one URL.
- `Handlers` (`handlers.dfy`): the class `Database`. It holds both tables and the last value issued by each id sequence. `Valid()` is its invariant:
  - ids strictly increase in insertion order and never exceed their sequence;
  - URL names are unique;
  - every check belongs to a stored URL and has text fields of at most 255 characters.

  The read-only handlers `GET /urls` and `GET /urls/<id>` are the functions `Listing` and `ShowUrl`. The handlers that insert rows, `POST /urls` and `POST /urls/<id>/checks`, are the methods `PostUrls` and `PostCheck`. Each method modifies the object and states its complete new state. A handler's answer is a `Response`:
  - a redirect to `/urls/<id>` carrying its flash message;
  - a 422 page that echoes the submitted value with a `danger` message;
  - a crash, for the exceptions the code does not catch.

Four behaviours of the code that a reader might expect to be otherwise; the model states them as the code has them:

- Normalisation lower-cases scheme and host, because `urlparse` does. So `https://Example.com/path?q=1` is stored as `https://example.com` (`UrlNormalizer.NormalizeExample`). The host is lower-cased only up to its first `%`, so `http://x%41B/` is stored as `http://x%41B` (`UrlNormalizer.NormalizePercentExample`).
- `hostname` drops the brackets of an IP-literal host, and the port goes with the rest of the authority. So `http://[::1]:8080/x` is stored as `http://::1` (`UrlNormalizer.NormalizeIpLiteralExample`). The stored name has lost its brackets and no longer parses as a URL with that host. What a later fetch of it does is left to the `fetch` input of `PostCheck`; a transport failure there is `Crash(ConnectionFailed)`.
- A page without `<meta name="description">` makes `description.get` raise `AttributeError`, which nothing catches. The model answers `Crash(MissingDescription)` and writes nothing; it does not substitute an empty description.
- A connection-level failure of the fetch is not caught, since only `HTTPError` is. The model answers `Crash(ConnectionFailed)`, not the "check failed" message.

## Model

| member | source | states |
|---|---|---|
| `Formatter.Format` | page_analyzer/app.py:25-34 | The result has at most 255 characters. A present string is returned unchanged exactly when it has at most 255 characters. |
| `Formatter.FormatAbsent` | page_analyzer/app.py:29-30 | An absent element gives the empty string. |
| `Formatter.FormatKeepsShort` | page_analyzer/app.py:33-34 | A string of at most 255 characters passes through unchanged. |
| `Formatter.FormatTruncatesLong` | page_analyzer/app.py:31-32 | A longer string gives exactly 255 characters: its first 252 characters, then `...`. |
| `Formatter.FormatIdempotent` | page_analyzer/app.py:29-34 | Formatting an already formatted value gives the same value. |
| `UrlNormalizer.Hostname` | page_analyzer/app.py:74 | `hostname` is absent exactly when the authority's host is empty. Otherwise it is as long as the host, and each character is lower-cased exactly when no `%` comes before it. A host without `%` therefore comes back with no capital letter. |
| `UrlNormalizer.LowerHostPointwise` | page_analyzer/app.py:74 | The case folding of `hostname` keeps the length, lower-cases each character that no `%` precedes, and keeps every other character as written. |
| `UrlNormalizer.NormalizeShape` | page_analyzer/app.py:73-74 | `Normalize`: when the URL has a host without `%`, its stored name has no capital letter. Without a host, the name is the scheme followed by `://None`. |
| `UrlNormalizer.NormalizeComposed` | page_analyzer/app.py:73-74 | The name stored for `scheme://[userinfo@]host[:port]` followed by a path, query or fragment is the lower-cased scheme, `://` and the host lower-cased up to its first `%`; a host without `%` is lower-cased as a whole. The host is a registered name or a bracketed IP literal, and an IP literal is stored without its brackets. The components carry no `[` or `]` outside the IP literal's own brackets, since `urlsplit` rejects those URLs. |
| `UrlNormalizer.SameSchemeAndHostSameName` | page_analyzer/app.py:73-74 | Two URLs whose scheme agrees up to case, and whose host agrees up to case before its first `%`, are stored under the same name, whatever their userinfo, port, path, query or fragment. This holds for registered names and for IP literals alike. |
| `UrlNormalizer.NormalizeExample` | page_analyzer/app.py:73-74 | `https://Example.com/path?q=1` is stored as `https://example.com`. |
| `UrlNormalizer.NormalizeIpLiteralExample` | page_analyzer/app.py:73-74 | `http://[::1]:8080/x` is stored as `http://::1`, without brackets or port. |
| `UrlNormalizer.NormalizePercentExample` | page_analyzer/app.py:73-74 | `http://x%41B/` is stored as `http://x%41B`: a letter after a `%` keeps its case, so this URL and `http://x%41b/` get two names. |
| `Ordering.SortDesc` | page_analyzer/app.py:63 | `ORDER BY id DESC` returns a permutation of the rows, with keys in descending order. |
| `Ordering.SortDescStrict` | page_analyzer/app.py:110 | When no two rows share an id, the ordered rows have strictly descending ids. |
| `Tables.FindByName` | page_analyzer/app.py:77-82 | The lookup by name returns a stored row with that name, or nothing exactly when no stored row has that name. |
| `Tables.FindById` | page_analyzer/app.py:105-106 | The lookup by id returns a stored row with that id, or nothing exactly when no stored row has that id. |
| `Tables.LastUrlId` | page_analyzer/app.py:90-91 | The highest-id query returns nothing exactly when the table is empty. Otherwise it returns an id that some row holds and that no row exceeds. |
| `Tables.LatestCheck` | page_analyzer/app.py:47-54 | `MAX(url_checks.id)` for a URL is absent exactly when the URL has no checks. Otherwise it is a check of that URL that no other check of that URL exceeds in id. |
| `Tables.ListingRowFor` | page_analyzer/app.py:56-62 | A listing row carries the URL's id and name. Its status and check time are both null exactly when the URL has no checks. Otherwise they are the status and check time of the URL's check with the largest id. |
| `Tables.ListUrlsWithLatestCheck` | page_analyzer/app.py:46-63 | The listing has one row for each stored URL, with ids in descending order. |
| `Tables.ListingRowsAreUrls` | page_analyzer/app.py:52-62 | Every listing row is a stored URL joined to its latest check. |
| `Tables.ListingCoversUrls` | page_analyzer/app.py:52-62 | Every stored URL appears in the listing, joined to its latest check. |
| `Tables.ListingStrictlyDescending` | page_analyzer/app.py:63 | With unique URL ids, the listing ids are strictly descending, so each URL appears exactly once. |
| `Tables.ChecksOf` | page_analyzer/app.py:107-111 | `WHERE url_id = %s` keeps every check of that URL as often as the table holds it, and no other check. |
| `Tables.ChecksFor` | page_analyzer/app.py:107-112 | A URL's checks are exactly the checks with that `url_id`, none missing and none foreign, ordered by id descending. |
| `Tables.ChecksForStrictlyDescending` | page_analyzer/app.py:107-112 | With unique check ids, a URL's checks come in strictly descending id order. |
| `Handlers.Database.Listing` | page_analyzer/app.py:42-66 | `GET /urls` on a valid database returns one row per stored URL, with strictly descending ids. |
| `Handlers.Database.ShowUrl` | page_analyzer/app.py:101-118 | `GET /urls/<id>` shows the stored URL with that id, or none exactly when there is none. Its checks are exactly that URL's checks, in strictly descending id order. Its message is the first pending flash message, if there is one. |
| `Handlers.RaisesForStatusClasses` | page_analyzer/app.py:129 | `raise_for_status` raises exactly for the client-error and server-error classes: the status codes whose hundreds digit is 4 or 5. |
| `Handlers.Database.PostUrls` | page_analyzer/app.py:69-98 | A valid URL answers 302, an invalid one 422. An invalid URL leaves both tables unchanged and answers 422 with the submitted value and the danger message `Некорректный URL`. A normalised name that is already stored leaves both tables unchanged and redirects to that row's id with the info message `Страница уже существует`. Otherwise exactly one row is appended, with an id above every existing id, and the answer redirects to it with the success message `Страница успешно добавлена`. Names stay unique. |
| `Handlers.Database.InsertUrl` | page_analyzer/app.py:87-91 | The insert appends one row with the next sequence value, and the highest-id query then returns that id, which exceeds every earlier id. |
| `Handlers.Database.InsertCheck` | page_analyzer/app.py:138-149 | Inserting a check for a stored URL, with formatted fields and the next sequence value as its id, appends exactly that row and keeps the database valid. The URLs table is unchanged. |
| `Handlers.Database.PostCheck` | page_analyzer/app.py:121-153 | Every answer that is not a crash is a 302 redirect to `/urls/<id>` of the checked URL. The URLs table never changes. The uncaught cases (unknown id, transport failure, a page without a description meta element) insert nothing. A 4xx or 5xx status inserts nothing and redirects to `/urls/<id>` with the danger message `Произошла ошибка при проверке`. Any other status appends exactly one check with that `url_id`, the status, the next check id, and the formatted `h1`, title and description, then redirects to `/urls/<id>` with the success message `Страница успешно проверена`. |
| `Handlers.SubmitNewTwice` | page_analyzer/app.py:77-93 | Submitting a valid URL whose name is not yet stored twice appends exactly one row, with the next id. The first answer redirects to it with the success message, and the second redirects to the same id with the info message. |
| `Handlers.SubmitTwice` | page_analyzer/app.py:77-93 | Submitting the same valid URL twice to an empty database first adds it as id 1, then redirects to id 1 with the info message. Exactly one row is stored. |
| `Handlers.CheckNotFound` | page_analyzer/app.py:125-153 | A check whose fetch answers 404 stores no check and redirects to `/urls/1` with the danger message. |

## Left out

- Flask routing, template rendering, `url_for`, and the configuration read from the environment (page_analyzer/app.py:19-22) are framework plumbing. Handlers return a `Response` value instead.
- The session-backed flash queue is not modelled as state. A POST handler returns its message inside the `Response`, and `ShowUrl` receives the pending messages as a parameter.
- `Handlers.Database.PostUrls`: the 422 page shows the first message of the whole session flash queue (page_analyzer/app.py:96). The model assumes no earlier message is still pending, so it always shows `Некорректный URL`.
- PostgreSQL connections, cursors and commits are replaced by the two sequences of `Database`. Each handler's changes are made as a single step. A request that crashes writes nothing, as the rolled-back transaction does.
- Serial ids are modelled as a counter per table that the insert advances by one. The schema file that declares these sequences is not part of this model.
- `requests.get` is network I/O. Its result is an input function from the stored URL name to a `Fetch` outcome: a transport failure, or a status code with the parsed page. Redirect following and timeouts are not modelled.
- BeautifulSoup parsing is a foreign call. Each `soup.find` result is an input: `Some(text)` for a found element, `None` for a missing one. The description is an optional element whose `content` attribute is itself optional.
- `validators.url` is a foreign predicate. `PostUrls` takes its verdict as the Boolean `valid`.
- A request whose form lacks the `url` field is not modelled. The raw value is always a string.
- `datetime.now()` is a `Timestamp` parameter that is only stored.
- Concurrent requests, and with them the race between the name lookup and the insert, are not modelled: each handler runs as one atomic step.
- `UrlNormalizer.Normalize` does not model these parts of `urlsplit`:
  - stripping leading control and space characters;
  - removing tab, carriage-return and line-feed characters;
  - the `ValueError` raised on unbalanced `[`/`]` in the authority;
  - the `ValueError` that `_checknetloc` raises for a non-ASCII authority whose NFKC normal form contains `/`, `?`, `#`, `@` or `:`;
  - the `ValueError` that newer Python versions raise when the text inside `[...]` is neither an IPv6 address nor an IPvFuture literal, or when text comes before the `[` or between the `]` and the port's `:` (as in `[::1]x`).

  Each of these `ValueError`s escapes `post_urls` and answers 500. The model instead returns a name for such a URL.
- `UrlNormalizer.Normalize` and `UrlNormalizer.Hostname`: lower-casing covers ASCII letters only, whereas Python's `str.lower` folds all of Unicode and can change a string's length (`'İ'.lower()` has two code points).
