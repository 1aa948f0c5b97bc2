/** `run`: what the extraction does with what the browser hands back. Every browser
    read is an input of `Page`; `Run` drives the observers over the event sequence,
    fills the hidden-input dict, resolves `get_id` and assembles the result. */
module Extract {
  import opened Common
  import Strings
  import Scanner
  import Capture
  import HiddenInputs

  /** The path fragment after which a URL carries the download id. */
  const FileMarker: string := "/file/"

  /** A cookie as the browsing context reports it, passed through unchanged. */
  datatype Cookie = Cookie(name: string, value: string, domain: string, path: string)

  /** Everything the browser hands back to one extraction. */
  datatype Page = Page(
    url: string,
    hiddenPairs: Read<seq<HiddenInputs.HiddenPair>>,  // `input[type=hidden]` query
    downId: Read<Option<string>>,                     // trimmed text of `#down-id`
    siteKey: Read<Option<string>>,                    // `data-sitekey` of `.cf-turnstile`
    html: string,                                     // `page.content()`
    events: seq<Capture.Event>,                       // requests and responses, in order
    cookies: seq<Cookie>)                             // `context.cookies()`

  datatype Status = XhrSeen | NoXhr {
    /** The value of the `status` entry. */
    function Name(): string
    {
      match this
      case XhrSeen => "xhr_seen"
      case NoXhr => "no_xhr"
    }
  }

  /** The `extracted` entry of the result. */
  datatype Extracted = Extracted(getId: Option<string>, siteKey: Option<string>,
                                 secretKey: Option<string>, sessionId: Option<string>,
                                 allHiddenInputs: HiddenInputs.Fields)

  /** The dict `run` returns. */
  datatype ExtractionResult = ExtractionResult(status: Status,
                                               request: Option<Capture.RequestRecord>,
                                               response: Option<Capture.ResponseRecord>,
                                               extracted: Extracted, cookies: seq<Cookie>)

  /** `url.split("/file/")[-1] if "/file/" in url else None`. */
  function UrlFallback(url: string): Option<string>
  {
    if Strings.Contains(url, FileMarker) then Some(Strings.Last(Strings.Split(url, FileMarker))) else None
  }

  /** `get_id`: a truthy `#down-id` text wins; otherwise, whether the query returned
      nothing usable or raised, the URL fallback. */
  function GetId(downId: Read<Option<string>>, url: string): Option<string>
  {
    match downId
    case Ok(text) => if Truthy(text) then text else UrlFallback(url)
    case Failed => UrlFallback(url)
  }

  /** The site key is passed through; a query that raised gives None. */
  function SiteKey(r: Read<Option<string>>): Option<string>
  {
    match r
    case Ok(v) => v
    case Failed => None
  }

  /** `status` is derived from the flag alone. */
  function StatusOf(xhrFound: bool): Status
  {
    if xhrFound then XhrSeen else NoXhr
  }

  /** The hidden-input dict before the merge: the fold of the pairs, or empty when
      the query raised. */
  function Collected(pairs: Read<seq<HiddenInputs.HiddenPair>>): HiddenInputs.Fields
  {
    match pairs
    case Ok(ps) => HiddenInputs.Fold(map[], ps)
    case Failed => map[]
  }

  /** The result dict built from the final capture record and the harvested fields. */
  function Assemble(cap: Capture.CaptureState, getId: Option<string>, siteKey: Option<string>,
                    fields: HiddenInputs.Fields, cookies: seq<Cookie>): ExtractionResult
  {
    ExtractionResult(StatusOf(cap.xhrFound), cap.request, cap.response,
                     Extracted(getId, siteKey, HiddenInputs.Get(fields, Scanner.SecretKey),
                               HiddenInputs.Get(fields, Scanner.SessionId), fields),
                     cookies)
  }

  /** The result of `run` for the page, as a value. */
  function Extraction(page: Page): ExtractionResult
  {
    var fields := HiddenInputs.Merge(Collected(page.hiddenPairs), Scanner.ExtractFromHtml(page.html));
    Assemble(Capture.Replay(page.events), GetId(page.downId, page.url), SiteKey(page.siteKey),
             fields, page.cookies)
  }

  /** `run`, past the browser calls: the observers see the events in order, the
      hidden inputs are collected and merged, and the result is assembled. */
  method Run(page: Page) returns (r: ExtractionResult)
    ensures r == Extraction(page)
    ensures r.status == XhrSeen <==> r.request.Some? || r.response.Some?
  {
    var captured := new Capture.Capture();
    var i := 0;
    while i < |page.events|
      invariant 0 <= i <= |page.events|
      invariant captured.Valid()
      invariant captured.State() == Capture.Replay(page.events[..i])
    {
      match page.events[i] {
        case Request(e) => captured.OnRequest(e);
        case Response(e) => captured.OnResponse(e);
      }
      assert page.events[..i + 1][..i] == page.events[..i];
      i := i + 1;
    }
    assert page.events[..i] == page.events;

    var hidden := new HiddenInputs.HiddenInputs();
    if page.hiddenPairs.Ok? {
      hidden.AddPairs(page.hiddenPairs.value);
    }
    var heur := Scanner.ExtractFromHtml(page.html);
    hidden.MergeFallback(heur);

    var getId := GetId(page.downId, page.url);
    var siteKey := SiteKey(page.siteKey);
    r := Assemble(captured.State(), getId, siteKey, hidden.fields, page.cookies);
  }

  /** `get_id` resolution: a truthy `#down-id` text wins; otherwise, when the URL
      contains `/file/`, the id is the last piece of the left-to-right split at
      `/file/` (so the URL ends with `/file/` followed by the id, and the id contains
      no `/file/`); otherwise None. */
  lemma GetIdResolution(downId: Read<Option<string>>, url: string)
    ensures downId.Ok? && Truthy(downId.value) ==> GetId(downId, url) == downId.value
    ensures !(downId.Ok? && Truthy(downId.value)) && Strings.Contains(url, FileMarker) ==>
              && GetId(downId, url).Some?
              && |FileMarker| + |GetId(downId, url).value| <= |url|
              && url[|url| - |GetId(downId, url).value| - |FileMarker|..] == FileMarker + GetId(downId, url).value
              && !Strings.Contains(GetId(downId, url).value, FileMarker)
              && forall pieces :: Strings.IsLeftmostSplit(pieces, url, FileMarker) ==>
                   GetId(downId, url) == Some(Strings.Last(pieces))
    ensures !(downId.Ok? && Truthy(downId.value)) && !Strings.Contains(url, FileMarker) ==>
              GetId(downId, url).None?
  {
    if Strings.Contains(url, FileMarker) {
      Strings.LastPieceSuffix(url, FileMarker);
      Strings.SplitPiecesFree(url, FileMarker);
      forall pieces | Strings.IsLeftmostSplit(pieces, url, FileMarker)
        ensures pieces == Strings.Split(url, FileMarker)
      {
        Strings.SplitUnique(pieces, url, FileMarker);
      }
    }
  }

  /** `https://example.com/file/42` without a `#down-id` element yields `42`. */
  lemma GetIdExample(url: string)
    requires url == "https://example.com/file/42"
    ensures GetId(Failed, url) == Some("42")
    ensures GetId(Ok(None), url) == Some("42")
  {
    assert url == url[..19] + "/file/" + "42";
    assert Strings.OccursAt(url, FileMarker, 19);
    // An occurrence before index 19 would put an 'f' among the first 20 characters.
    var head := url[..20];
    assert head == "https://example.com/";
    assert 'f' !in head;
    forall j | 0 <= j < 19
      ensures !Strings.OccursAt(url, FileMarker, j)
    {
      assert head[j + 1] == url[j + 1] != 'f';
      assert url[j..j + |FileMarker|][1] == url[j + 1];
    }
    assert Strings.IndexOf(url, FileMarker, 0) == Some(19);
    assert url[25..] == "42";
    assert Strings.Split("42", FileMarker) == ["42"];
    assert Strings.Split(url, FileMarker) == [url[..19], "42"];
  }

  /** Separators are taken left to right: in `https://x.com/file/file/abc` the
      second `/file/` overlaps the first and is not a separator, so the id is
      `file/abc`, not `abc`. */
  lemma GetIdOverlapExample(url: string)
    requires url == "https://x.com/file/file/abc"
    ensures GetId(Failed, url) == Some("file/abc")
  {
    assert url == url[..13] + "/file/" + "file/abc";
    assert Strings.OccursAt(url, FileMarker, 13);
    // An occurrence before index 13 would put an 'f' among the first 14 characters.
    var head := url[..14];
    assert head == "https://x.com/";
    assert 'f' !in head;
    forall j | 0 <= j < 13
      ensures !Strings.OccursAt(url, FileMarker, j)
    {
      assert head[j + 1] == url[j + 1] != 'f';
      assert url[j..j + |FileMarker|][1] == url[j + 1];
    }
    assert Strings.IndexOf(url, FileMarker, 0) == Some(13);
    var rest := url[19..];
    assert rest == "file/abc";
    // An occurrence in the rest would start with a '/' among its first 3 characters.
    assert '/' !in rest[..3];
    forall j | 0 <= j < 3
      ensures !Strings.OccursAt(rest, FileMarker, j)
    {
      assert rest[..3][j] == rest[j] != '/';
      assert rest[j..j + |FileMarker|][0] == rest[j];
    }
    assert Strings.IndexOf(rest, FileMarker, 0) == None;
    assert Strings.Split(url, FileMarker) == [url[..13], rest];
  }

  /** `status` is `xhr_seen` exactly when a slot of the capture record is filled,
      which is exactly when some event carried the `/cfnl` marker; with no such
      event both slots are empty. */
  lemma ExtractionStatus(page: Page)
    ensures Extraction(page).status.Name() == "xhr_seen" <==>
              Extraction(page).request.Some? || Extraction(page).response.Some?
    ensures Extraction(page).status == XhrSeen <==>
              exists i :: 0 <= i < |page.events| && Capture.IsMatching(page.events[i])
    ensures (forall i :: 0 <= i < |page.events| ==> !Capture.IsMatching(page.events[i])) ==>
              && Extraction(page).status.Name() == "no_xhr"
              && Extraction(page).request.None? && Extraction(page).response.None?
  {
    Capture.ReplayConsistent(page.events);
    Capture.ReplayXhrFound(page.events);
  }

  /** In the result, a truthy DOM value for `secret_key` or `SessionID` wins over the
      scanner; a missing or falsy one gives way to the scanner's token when it found one. */
  lemma ExtractionPrecedence(page: Page)
    ensures var dom := HiddenInputs.Get(Collected(page.hiddenPairs), Scanner.SecretKey);
            var found := Scanner.ExtractFromHtml(page.html).secretKey;
            && (Truthy(dom) ==> Extraction(page).extracted.secretKey == dom)
            && (!Truthy(dom) && found.Some? ==> Extraction(page).extracted.secretKey == found)
    ensures var dom := HiddenInputs.Get(Collected(page.hiddenPairs), Scanner.SessionId);
            var found := Scanner.ExtractFromHtml(page.html).sessionId;
            && (Truthy(dom) ==> Extraction(page).extracted.sessionId == dom)
            && (!Truthy(dom) && found.Some? ==> Extraction(page).extracted.sessionId == found)
  {
    var m := Collected(page.hiddenPairs);
    var h := Scanner.ExtractFromHtml(page.html);
    Scanner.ExtractFromHtmlTokens(page.html);
    HiddenInputs.MergeSpec(m, h, Scanner.SecretKey);
    HiddenInputs.MergeSpec(m, h, Scanner.SessionId);
  }

  /** A hidden input `secret_key = "abc123"` in the DOM is reported as the secret key,
      whatever the markup holds. */
  lemma ScenarioDomValue(page: Page)
    requires page.hiddenPairs == Ok([HiddenInputs.HiddenPair(Some("secret_key"), Some("abc123"))])
    ensures Extraction(page).extracted.secretKey == Some("abc123")
  {
  }

  /** With no hidden inputs, markup holding `secret_key: "xyz789"` gives the secret key
      `xyz789` through the fallback scanner. */
  lemma ScenarioFallback(page: Page)
    requires page.hiddenPairs == Ok([])
    requires page.html == "secret_key: \"xyz789\""
    ensures Extraction(page).extracted.secretKey == Some("xyz789")
  {
    Scanner.SecretKeyExample();
    ExtractionPrecedence(page);
  }

  /** At `https://example.com/file/42` with no `#down-id` element the id is `42`. */
  lemma ScenarioUrlId(page: Page)
    requires page.url == "https://example.com/file/42"
    requires page.downId == Failed
    ensures Extraction(page).extracted.getId == Some("42")
  {
    GetIdExample(page.url);
  }
}
