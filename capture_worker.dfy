/** The capture worker (cloudflare/capture-worker/src/index.ts): a POST endpoint that
    opens a page in a headless browser and answers with the post's text, a screenshot
    and the handle read off the URL. The browser and the page are not modelled: what the
    page holds and which browser steps succeed are parameters. */
module CaptureWorker {
  import opened Wrappers
  import opened Seqs
  import opened Urls

  /** `TEXT_LIMIT`. */
  const TextLimit: nat := 4000

  // ------------------------------------------------------------------ author handle

  /** `extractAuthorHandle`: the segment before the first "status" one, unless "status"
      is the first segment; `None` for the URL stands for one `new URL` rejects. */
  function ExtractAuthorHandle(url: Option<UrlParts>): Option<string> {
    if url.None? then None
    else
      var parts := PathSegments(url.value.pathname);
      var i := IndexOf(parts, "status");
      if i > 0 then Some(parts[i - 1]) else None
  }

  /** A handle is found exactly when the path has a "status" segment that is not its
      first; it is the segment just before the first one, and a real segment. */
  lemma ExtractAuthorHandleSpec(url: Option<UrlParts>)
    ensures var r := ExtractAuthorHandle(url);
            && (r.Some? <==> url.Some? && IndexOf(PathSegments(url.value.pathname), "status") > 0)
            && (r.Some? ==>
                  var parts := PathSegments(url.value.pathname);
                  && IsSegment(r.value) && r.value == parts[IndexOf(parts, "status") - 1]
                  && "status" !in parts[..IndexOf(parts, "status")])
  {
    if url.Some? {
      PathSegmentsSpec(url.value.pathname);
    }
  }

  /** On a post's page `/<handle>/status/<id>` the handle is found, whatever the host. */
  lemma StatusUrlYieldsHandle(hostname: string, handle: string, id: string)
    requires IsSegment(handle) && handle != "status" && IsSegment(id)
    ensures ExtractAuthorHandle(Some(UrlParts(hostname, PathOf([handle, "status", id])))) == Some(handle)
  {
    var parts := [handle, "status", id];
    PathOfSegments(parts);
    assert parts[1..] == ["status", id];
    assert IndexOf(parts[1..], "status") == 0;
  }

  /** On the `/i/web/status/<id>` form the segment before "status" is "web", and that is
      what is answered as the handle. */
  lemma WebStatusUrlYieldsWeb(hostname: string, id: string)
    requires IsSegment(id)
    ensures ExtractAuthorHandle(Some(UrlParts(hostname, PathOf(["i", "web", "status", id])))) == Some("web")
  {
    var parts := ["i", "web", "status", id];
    PathOfSegments(parts);
    assert parts[1..][1..] == ["status", id];
    assert IndexOf(parts[1..][1..], "status") == 0;
  }

  // ------------------------------------------------------------------ request gate

  /** The JSON body: unparseable, or the `url` and the truthiness of `screenshotOnly`. */
  datatype Body = InvalidJson | Json(url: Option<string>, screenshotOnly: bool)

  /** A request: its method, its `authorization` header and its body. */
  datatype Request = Request(httpMethod: string, authorization: Option<string>, body: Body)

  /** The early returns, or the go-ahead with the URL and the mode. */
  datatype Gate = Reject(status: nat, message: string) | Proceed(url: string, screenshotOnly: bool)

  /** The checks before the browser is launched; `captureToken` is `env.CAPTURE_TOKEN`. */
  function GateRequest(req: Request, captureToken: Option<string>): Gate {
    if req.httpMethod != "POST" then Reject(405, "Method not allowed")
    else if captureToken.Some? && captureToken.value != ""
            && req.authorization.GetOr("") != "Bearer " + captureToken.value then Reject(401, "Unauthorized")
    else if req.body.InvalidJson? then Reject(400, "Invalid JSON")
    else if req.body.url.None? || req.body.url.value == "" then Reject(400, "Missing url")
    else Proceed(req.body.url.value, req.body.screenshotOnly)
  }

  /** A request that is not a POST gets 405 whatever else it carries. With a token set, a
      request gets past the authorization check only with the header "Bearer <token>"
      exactly, and 401 otherwise. Invalid JSON and a missing or empty URL get 400. Only a
      request that passes every check goes ahead, with its URL and mode. */
  lemma GateSpec(req: Request, captureToken: Option<string>)
    ensures var g := GateRequest(req, captureToken);
            var tokenSet := captureToken.Some? && captureToken.value != "";
            var authorised := !tokenSet || req.authorization == Some("Bearer " + captureToken.value);
            && (req.httpMethod != "POST" ==> g == Reject(405, "Method not allowed"))
            && (g == Reject(401, "Unauthorized") <==> req.httpMethod == "POST" && !authorised)
            && (g.Reject? && g.status == 400 <==>
                  req.httpMethod == "POST" && authorised && (req.body.InvalidJson? || req.body.url.None? || req.body.url.value == ""))
            && (g.Proceed? <==>
                  req.httpMethod == "POST" && authorised && req.body.Json? && req.body.url.Some? && req.body.url.value != "")
            && (g.Proceed? ==> g.url == req.body.url.value && g.screenshotOnly == req.body.screenshotOnly)
  {
    if captureToken.Some? && captureToken.value != "" && req.authorization.None? {
      assert |"Bearer " + captureToken.value| > 0;
    }
  }

  // ------------------------------------------------------------------ page text

  /** What the loaded page holds: the texts of the `tweetText` nodes, the text of the
      first `article` if there is one, the body's text if there is a body, and whether a
      `tweet` element exists. */
  datatype Page = Page(tweetTexts: seq<string>, article: Option<string>, bodyText: Option<string>, hasTweet: bool)

  /** The script `page.evaluate` runs. */
  function PageText(page: Page): string {
    if page.tweetTexts != [] then Join(page.tweetTexts, "\n")
    else if page.article.Some? then page.article.value
    else if page.bodyText.Some? then Take(page.bodyText.value, TextLimit)
    else ""
  }

  /** The text of a capture: empty in screenshot-only mode. */
  function CapturedText(page: Page, screenshotOnly: bool): string {
    if screenshotOnly then "" else PageText(page)
  }

  /** Screenshot-only gives no text. Otherwise the tweet texts joined by newlines come
      first, then the article's text, then the body's text cut to its first 4000
      characters, then nothing. Only the body's text is cut. */
  lemma CapturedTextPriority(page: Page, screenshotOnly: bool)
    ensures screenshotOnly ==> CapturedText(page, screenshotOnly) == ""
    ensures !screenshotOnly && page.tweetTexts != [] ==> CapturedText(page, screenshotOnly) == Join(page.tweetTexts, "\n")
    ensures !screenshotOnly && page.tweetTexts == [] && page.article.Some? ==> CapturedText(page, screenshotOnly) == page.article.value
    ensures !screenshotOnly && page.tweetTexts == [] && page.article.None? && page.bodyText.Some? ==>
              var t := CapturedText(page, screenshotOnly);
              && |t| <= TextLimit && t == page.bodyText.value[..|t|]
              && (|page.bodyText.value| <= TextLimit ==> t == page.bodyText.value)
    ensures !screenshotOnly && page.tweetTexts == [] && page.article.None? && page.bodyText.None? ==> CapturedText(page, screenshotOnly) == ""
  {
  }

  /** What is photographed: the `tweet` element, else the first `article`, else the whole
      page. */
  datatype Shot = TweetShot | ArticleShot | FullPageShot

  function ShotOf(page: Page): Shot {
    if page.hasTweet then TweetShot else if page.article.Some? then ArticleShot else FullPageShot
  }

  // ------------------------------------------------------------------ the handler

  /** Which browser steps succeed: launching, opening the page, and everything inside the
      `try` (navigation, the text script, the screenshot). */
  datatype BrowserRun = BrowserRun(launches: bool, opensPage: bool, loads: bool)

  /** The handler's answer: an early response, the capture, or an exception that leaves
      the handler. The screenshot's bytes and their base64 encoding are not modelled. */
  datatype Answer = Early(status: nat, message: string) | Captured(text: string, shot: Shot, authorHandle: Option<string>) | Thrown

  /** The handler as written: `browser.newPage` runs before the `try`, so when it throws
      the `finally` does not run and the launched browser is never closed. The outputs
      say whether the browser was launched and whether `close` was called on the page and
      on the browser. */
  method HandleAsWritten(req: Request, captureToken: Option<string>, parsedUrl: Option<UrlParts>, page: Page, run: BrowserRun)
    returns (answer: Answer, launched: bool, pageClosed: bool, browserClosed: bool)
    ensures GateRequest(req, captureToken).Reject? ==>
              answer == Early(GateRequest(req, captureToken).status, GateRequest(req, captureToken).message) && !launched
    ensures launched <==> GateRequest(req, captureToken).Proceed? && run.launches
    ensures launched && !run.opensPage ==> answer == Thrown && !browserClosed
    ensures launched && run.opensPage ==> pageClosed && browserClosed
    ensures answer.Captured? <==> launched && run.opensPage && run.loads
    ensures GateRequest(req, captureToken).Proceed? && !answer.Captured? ==> answer == Thrown
    ensures answer.Captured? ==>
              var g := GateRequest(req, captureToken);
              answer == Captured(CapturedText(page, g.screenshotOnly), ShotOf(page), ExtractAuthorHandle(parsedUrl))
  {
    var gate := GateRequest(req, captureToken);
    if gate.Reject? {
      return Early(gate.status, gate.message), false, false, false;
    }
    if !run.launches {
      return Thrown, false, false, false;
    }
    launched, pageClosed, browserClosed := true, false, false;
    if !run.opensPage {
      return Thrown, launched, pageClosed, browserClosed;
    }
    if run.loads {
      answer := Captured(CapturedText(page, gate.screenshotOnly), ShotOf(page), ExtractAuthorHandle(parsedUrl));
    } else {
      answer := Thrown;
    }
    // finally: each close is attempted, and a failing close is ignored
    pageClosed := true;
    browserClosed := true;
  }

  /** A request that reaches the leak: a POST with a URL and no token configured. */
  lemma LeakIsReachable(url: string)
    requires url != ""
    ensures GateRequest(Request("POST", None, Json(Some(url), false)), None).Proceed?
  {
  }

  /** The handler with `browser.newPage` moved inside the `try`: every exit after the
      launch closes the browser, and the page whenever it was opened. */
  method HandleRequest(req: Request, captureToken: Option<string>, parsedUrl: Option<UrlParts>, page: Page, run: BrowserRun)
    returns (answer: Answer, launched: bool, pageClosed: bool, browserClosed: bool)
    ensures GateRequest(req, captureToken).Reject? ==>
              answer == Early(GateRequest(req, captureToken).status, GateRequest(req, captureToken).message) && !launched
    ensures launched <==> GateRequest(req, captureToken).Proceed? && run.launches
    ensures launched ==> browserClosed
    ensures launched && run.opensPage ==> pageClosed
    ensures answer.Captured? <==> launched && run.opensPage && run.loads
    ensures GateRequest(req, captureToken).Proceed? && !answer.Captured? ==> answer == Thrown
    ensures answer.Captured? ==>
              var g := GateRequest(req, captureToken);
              answer == Captured(CapturedText(page, g.screenshotOnly), ShotOf(page), ExtractAuthorHandle(parsedUrl))
  {
    var gate := GateRequest(req, captureToken);
    if gate.Reject? {
      return Early(gate.status, gate.message), false, false, false;
    }
    if !run.launches {
      return Thrown, false, false, false;
    }
    launched, pageClosed, browserClosed := true, false, false;
    if run.opensPage && run.loads {
      answer := Captured(CapturedText(page, gate.screenshotOnly), ShotOf(page), ExtractAuthorHandle(parsedUrl));
    } else {
      answer := Thrown;
    }
    // finally: the page is closed if it was opened, then the browser
    if run.opensPage {
      pageClosed := true;
    }
    browserClosed := true;
  }
}
