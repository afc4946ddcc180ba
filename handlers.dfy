/**
 * The request handlers of page_analyzer/app.py over an in-memory database.
 * `GET /urls` and `GET /urls/<id>` only read; `POST /urls` and
 * `POST /urls/<id>/checks` insert rows. A flash message is returned inside
 * the response instead of being queued in the session; a fetch is an input
 * function from the stored URL name to its outcome.
 */
module Handlers {
  import opened Options
  import opened Ordering
  import opened Formatter
  import opened UrlNormalizer
  import opened Tables

  /** The category of a flash message, which the templates style. */
  datatype Category = Success | Info | Danger

  datatype Flash = Flash(category: Category, message: string)

  const AlreadyExistsMessage: string := "Страница уже существует"
  const AddedMessage: string := "Страница успешно добавлена"
  const InvalidUrlMessage: string := "Некорректный URL"
  const CheckedMessage: string := "Страница успешно проверена"
  const CheckFailedMessage: string := "Произошла ошибка при проверке"

  /** Why a request ends in an uncaught exception. */
  datatype CrashCause =
    | UnknownUrl          // `fetchone()` found no row, so `[1]` fails
    | ConnectionFailed    // `requests.get` raised something other than `HTTPError`
    | MissingDescription  // no `<meta name="description">`, so `.get` fails on None

  /** What a POST handler answers. */
  datatype Response =
    | Redirect(urlId: int, flash: Flash)        // 302 to /urls/<urlId>
    | Unprocessable(echoed: string, shown: Flash) // 422, the form again with the submitted value
    | Crash(cause: CrashCause)                  // the exception propagates: 500
  {
    function StatusCode(): int {
      match this
      case Redirect(_, _) => 302
      case Unprocessable(_, _) => 422
      case Crash(_) => 500
    }
  }

  /**
   * What the HTML parser finds in a fetched page: the text of the first
   * `<title>` and `<h1>`, and the first `<meta name="description">` element
   * with its `content` attribute (itself possibly absent).
   */
  datatype Page = Page(title: Option<string>, description: Option<Option<string>>, h1: Option<string>)

  /** The outcome of `requests.get`: a transport failure, or a response. */
  datatype Fetch = ConnectionError | Fetched(statusCode: int, page: Page)

  /** `raise_for_status` raises `HTTPError` for the 4xx and 5xx codes. */
  predicate RaisesForStatus(statusCode: int) {
    400 <= statusCode < 600
  }

  /**
   * The codes that raise are exactly those of the client-error and
   * server-error classes (section 15 of RFC 9110): the hundreds digit is 4 or 5.
   */
  lemma RaisesForStatusClasses(statusCode: int)
    requires 100 <= statusCode <= 999
    ensures RaisesForStatus(statusCode) <==> statusCode / 100 == 4 || statusCode / 100 == 5
  {
  }

  /** What `GET /urls/<id>` renders: the URL row (if any), its checks and one message. */
  datatype UrlPage = UrlPage(url: Option<UrlRow>, checks: seq<CheckRow>, message: Option<Flash>)

  /** No two rows carry the same name. */
  ghost predicate UniqueNames(urls: seq<UrlRow>) {
    forall i, j :: 0 <= i < j < |urls| ==> urls[i].name != urls[j].name
  }

  /** The three text columns of a check fit 255 characters. */
  predicate FieldsBounded(c: CheckRow) {
    |c.h1| <= MaxLength && |c.title| <= MaxLength && |c.description| <= MaxLength
  }

  /** The database: both tables and the last value issued by each id sequence. */
  class Database {
    var urls: seq<UrlRow>
    var checks: seq<CheckRow>
    var urlsIdSeq: nat
    var checksIdSeq: nat

    /**
     * Ids are issued by increasing sequences, so rows appear in increasing
     * id order and no id exceeds its sequence; names are unique; every check
     * belongs to a stored URL and has formatted fields.
     */
    ghost predicate Valid()
      reads this
    {
      StrictlyAscending(urls, UrlId)
      && (forall u :: u in urls ==> 0 < u.id <= urlsIdSeq)
      && UniqueNames(urls)
      && StrictlyAscending(checks, CheckId)
      && (forall c :: c in checks ==> 0 < c.id <= checksIdSeq)
      && (forall c :: c in checks ==> FindById(urls, c.urlId).Some?)
      && (forall c :: c in checks ==> FieldsBounded(c))
    }

    /** An empty database whose sequences start at 1. */
    constructor ()
      ensures Valid()
      ensures urls == [] && checks == [] && urlsIdSeq == 0 && checksIdSeq == 0
    {
      urls, checks := [], [];
      urlsIdSeq, checksIdSeq := 0, 0;
    }

    /** `GET /urls`: one row per stored URL, in strictly descending id order. */
    function Listing(): (rows: seq<ListingRow>)
      reads this
      requires Valid()
      ensures |rows| == |urls|
      ensures StrictlyDescending(rows, ListingId)
    {
      ListingStrictlyDescending(urls, checks);
      ListUrlsWithLatestCheck(urls, checks)
    }

    /**
     * `GET /urls/<id>`: the URL row with that id if there is one, exactly its
     * checks newest first, and the first pending flash message.
     */
    function ShowUrl(id: int, pending: seq<Flash>): (page: UrlPage)
      reads this
      requires Valid()
      ensures page.url.None? <==> forall u :: u in urls ==> u.id != id
      ensures page.url.Some? ==> page.url.value in urls && page.url.value.id == id
      ensures forall c :: c in page.checks <==> c in checks && c.urlId == id
      ensures StrictlyDescending(page.checks, CheckId)
      ensures pending != [] ==> page.message == Some(pending[0])
      ensures pending == [] ==> page.message.None?
    {
      ChecksForStrictlyDescending(checks, id);
      UrlPage(FindById(urls, id), ChecksFor(checks, id), if pending == [] then None else Some(pending[0]))
    }

    /**
     * `POST /urls`: reject an invalid URL with 422; otherwise redirect to the
     * URL stored under the normalised name, inserting it first when absent.
     * `valid` is the verdict of the URL validator on `raw`.
     */
    method PostUrls(raw: string, valid: bool, now: Timestamp) returns (resp: Response)
      requires Valid()
      modifies this
      ensures Valid()
      ensures checks == old(checks) && checksIdSeq == old(checksIdSeq)
      ensures resp.StatusCode() == (if valid then 302 else 422)
      ensures !valid ==>
        urls == old(urls) && urlsIdSeq == old(urlsIdSeq)
        && resp == Unprocessable(raw, Flash(Danger, InvalidUrlMessage))
      ensures valid && (exists u :: u in old(urls) && u.name == Normalize(raw)) ==>
        urls == old(urls) && urlsIdSeq == old(urlsIdSeq)
        && resp.Redirect? && resp.flash == Flash(Info, AlreadyExistsMessage)
        && (exists u :: u in urls && u.name == Normalize(raw) && u.id == resp.urlId)
      ensures valid && (forall u :: u in old(urls) ==> u.name != Normalize(raw)) ==>
        urls == old(urls) + [UrlRow(old(urlsIdSeq) + 1, Normalize(raw), now)]
        && urlsIdSeq == old(urlsIdSeq) + 1
        && (forall u :: u in old(urls) ==> u.id < old(urlsIdSeq) + 1)
        && resp == Redirect(old(urlsIdSeq) + 1, Flash(Success, AddedMessage))
    {
      if !valid {
        resp := Unprocessable(raw, Flash(Danger, InvalidUrlMessage));
        return;
      }
      var name := Normalize(raw);
      var found := FindByName(urls, name);
      if found.Some? && found.value.name == name {
        resp := Redirect(found.value.id, Flash(Info, AlreadyExistsMessage));
      } else {
        var id := InsertUrl(name, now);
        resp := Redirect(id, Flash(Success, AddedMessage));
      }
    }

    /**
     * `INSERT INTO urls (name, created_at)` followed by
     * `SELECT id FROM urls ORDER BY id DESC LIMIT 1`: the new row takes the
     * next sequence value, which is then the largest id.
     */
    method InsertUrl(name: string, now: Timestamp) returns (id: int)
      requires Valid()
      requires forall u :: u in urls ==> u.name != name
      modifies this
      ensures Valid()
      ensures checks == old(checks) && checksIdSeq == old(checksIdSeq)
      ensures id == old(urlsIdSeq) + 1 && urlsIdSeq == id
      ensures urls == old(urls) + [UrlRow(id, name, now)]
      ensures forall u :: u in old(urls) ==> u.id < id
    {
      var row := UrlRow(urlsIdSeq + 1, name, now);
      ghost var before := urls;
      urls := urls + [row];
      urlsIdSeq := urlsIdSeq + 1;
      assert forall u :: u in urls ==> u in before || u == row;
      assert UniqueNames(urls) by {
        forall i, j | 0 <= i < j < |urls| ensures urls[i].name != urls[j].name {
          if j == |before| {
            assert urls[i] in before;
          }
        }
      }
      assert StrictlyAscending(urls, UrlId) by {
        forall i, j | 0 <= i < j < |urls| ensures urls[i].id < urls[j].id {
          if j == |before| {
            assert urls[i] in before;
          }
        }
      }
      assert forall c :: c in checks ==> FindById(urls, c.urlId).Some? by {
        forall c | c in checks ensures FindById(urls, c.urlId).Some? {
          var u := FindById(before, c.urlId).value;
          assert u in urls;
        }
      }
      var last := LastUrlId(urls);
      id := last.value;
    }

    /**
     * `POST /urls/<id>/checks`: fetch the stored URL and, when the response
     * has no error status, insert one check with the formatted page fields.
     * Only the unknown id, a transport failure and a page without a
     * description meta element escape as exceptions.
     */
    method PostCheck(urlId: int, fetch: string -> Fetch, now: Timestamp) returns (resp: Response)
      requires Valid()
      modifies this
      ensures Valid()
      ensures urls == old(urls) && urlsIdSeq == old(urlsIdSeq)
      ensures resp.Crash? || (resp.StatusCode() == 302 && resp.urlId == urlId)
      ensures FindById(urls, urlId).None? ==>
        resp == Crash(UnknownUrl) && checks == old(checks) && checksIdSeq == old(checksIdSeq)
      ensures FindById(urls, urlId).Some? && fetch(FindById(urls, urlId).value.name).ConnectionError? ==>
        resp == Crash(ConnectionFailed) && checks == old(checks) && checksIdSeq == old(checksIdSeq)
      ensures FindById(urls, urlId).Some? && fetch(FindById(urls, urlId).value.name).Fetched? ==>
        var f := fetch(FindById(urls, urlId).value.name);
        if RaisesForStatus(f.statusCode) then
          resp == Redirect(urlId, Flash(Danger, CheckFailedMessage))
          && checks == old(checks) && checksIdSeq == old(checksIdSeq)
        else if f.page.description.None? then
          resp == Crash(MissingDescription) && checks == old(checks) && checksIdSeq == old(checksIdSeq)
        else
          resp == Redirect(urlId, Flash(Success, CheckedMessage))
          && checksIdSeq == old(checksIdSeq) + 1
          && checks == old(checks) + [CheckRow(
               old(checksIdSeq) + 1, urlId, f.statusCode,
               Format(f.page.h1), Format(f.page.title), Format(f.page.description.value), now)]
    {
      var url := FindById(urls, urlId);
      if url.None? {
        return Crash(UnknownUrl);
      }
      var response := fetch(url.value.name);
      if response.ConnectionError? {
        return Crash(ConnectionFailed);
      }
      if RaisesForStatus(response.statusCode) {
        return Redirect(urlId, Flash(Danger, CheckFailedMessage));
      }
      var page := response.page;
      var title := Format(page.title);
      if page.description.None? {
        return Crash(MissingDescription);
      }
      var description := Format(page.description.value);
      var h1 := Format(page.h1);
      InsertCheck(CheckRow(checksIdSeq + 1, urlId, response.statusCode, h1, title, description, now));
      resp := Redirect(urlId, Flash(Success, CheckedMessage));
    }

    /**
     * `INSERT INTO url_checks`: the new row, for a stored URL and with
     * formatted fields, takes the next sequence value as its id.
     */
    method InsertCheck(row: CheckRow)
      requires Valid()
      requires row.id == checksIdSeq + 1
      requires FindById(urls, row.urlId).Some? && FieldsBounded(row)
      modifies this
      ensures Valid()
      ensures urls == old(urls) && urlsIdSeq == old(urlsIdSeq)
      ensures checks == old(checks) + [row] && checksIdSeq == row.id
    {
      ghost var before := checks;
      checks := checks + [row];
      checksIdSeq := row.id;
      assert forall c :: c in checks ==> c in before || c == row;
      assert StrictlyAscending(checks, CheckId) by {
        forall i, j | 0 <= i < j < |checks| ensures checks[i].id < checks[j].id {
          if j == |before| {
            assert checks[i] in before;
          }
        }
      }
    }
  }

  /**
   * Submitting a valid URL that is not yet stored twice: the first request
   * adds one row with the next id, the second finds that row and adds nothing.
   */
  method SubmitNewTwice(db: Database, raw: string, first: Timestamp, second: Timestamp)
    returns (r1: Response, r2: Response)
    requires db.Valid()
    requires forall u :: u in db.urls ==> u.name != Normalize(raw)
    modifies db
    ensures db.Valid()
    ensures db.urls == old(db.urls) + [UrlRow(old(db.urlsIdSeq) + 1, Normalize(raw), first)]
    ensures db.checks == old(db.checks)
    ensures db.urlsIdSeq == old(db.urlsIdSeq) + 1 && db.checksIdSeq == old(db.checksIdSeq)
    ensures r1 == Redirect(old(db.urlsIdSeq) + 1, Flash(Success, AddedMessage))
    ensures r2 == Redirect(old(db.urlsIdSeq) + 1, Flash(Info, AlreadyExistsMessage))
  {
    r1 := db.PostUrls(raw, true, first);
    ghost var added := db.urls[|db.urls| - 1];
    assert added in db.urls && added.name == Normalize(raw);
    r2 := db.PostUrls(raw, true, second);
    assert forall u :: u in db.urls && u.name == Normalize(raw) ==> u == added by {
      forall u | u in db.urls && u.name == Normalize(raw) ensures u == added {
        var i :| 0 <= i < |db.urls| && db.urls[i] == u;
        assert db.urls[i].name == db.urls[|db.urls| - 1].name;
      }
    }
  }

  /**
   * Submitting the same valid URL twice to an empty database: the first
   * request adds it as id 1, the second finds it and adds nothing.
   */
  method SubmitTwice(raw: string, first: Timestamp, second: Timestamp)
    returns (r1: Response, r2: Response, rows: seq<UrlRow>)
    ensures r1 == Redirect(1, Flash(Success, AddedMessage))
    ensures r2 == Redirect(1, Flash(Info, AlreadyExistsMessage))
    ensures rows == [UrlRow(1, Normalize(raw), first)]
  {
    var db := new Database();
    r1, r2 := SubmitNewTwice(db, raw, first, second);
    rows := db.urls;
  }

  /** A check whose fetch answers 404 leaves no check row and redirects with a danger message. */
  method CheckNotFound(raw: string, now: Timestamp, page: Page)
    returns (r: Response, stored: seq<CheckRow>)
    ensures r == Redirect(1, Flash(Danger, CheckFailedMessage))
    ensures stored == []
  {
    var db := new Database();
    var added := db.PostUrls(raw, true, now);
    r := db.PostCheck(1, (name: string) => Fetched(404, page), now);
    stored := db.checks;
  }
}
