/** Importing a post from X (convex/x.ts): the status id is read off the URL, the post is
    fetched from the X API and stored as a pending post. The HTTP exchange is not
    modelled: the token and the API's response are parameters. */
module XImport {
  import opened Wrappers
  import opened Seqs
  import opened Text
  import opened Urls
  import opened Database
  import Posts

  /** `hostname.replace(/^www\./, "")`. */
  function StripWww(hostname: string): string {
    if |hostname| >= 4 && hostname[..4] == "www." then hostname[4..] else hostname
  }

  predicate IsXHost(hostname: string) {
    StripWww(hostname) == "x.com" || StripWww(hostname) == "twitter.com"
  }

  /** The first branch: the segment right after the first "status" one. */
  function AfterStatus(parts: seq<string>): Option<string> {
    var i := IndexOf(parts, "status");
    if i >= 0 && i + 1 < |parts| && parts[i + 1] != "" then Some(parts[i + 1]) else None
  }

  /** The second branch, for `/i/web/status/<id>`. */
  function WebStatus(parts: seq<string>): Option<string> {
    if |parts| >= 3 && parts[0] == "i" && parts[1] == "web" && parts[2] == "status" then
      if |parts| >= 4 then Some(parts[3]) else None
    else None
  }

  /** `extractTweetId`; `None` for the URL stands for one `new URL` rejects. */
  function ExtractTweetId(url: Option<UrlParts>): Option<string> {
    if url.None? || !IsXHost(url.value.hostname) then None
    else
      var parts := PathSegments(url.value.pathname);
      if AfterStatus(parts).Some? then AfterStatus(parts) else WebStatus(parts)
  }

  /** An id is found exactly for an X or Twitter URL whose path has a segment after its
      first "status" segment; the id is that segment, a non-empty one without a slash. */
  lemma ExtractTweetIdSpec(url: Option<UrlParts>)
    ensures var r := ExtractTweetId(url);
            && (r.Some? <==> url.Some? && IsXHost(url.value.hostname)
                             && "status" in PathSegments(url.value.pathname)
                             && IndexOf(PathSegments(url.value.pathname), "status") + 1 < |PathSegments(url.value.pathname)|)
            && (r.Some? ==>
                  var parts := PathSegments(url.value.pathname);
                  IsSegment(r.value) && r.value == parts[IndexOf(parts, "status") + 1])
  {
    if url.Some? {
      var parts := PathSegments(url.value.pathname);
      PathSegmentsSpec(url.value.pathname);
      WebStatusAddsNothing(parts);
    }
  }

  /** The `/i/web/status` branch never finds an id the first branch misses: its "status"
      segment is the first one, so its id is the segment after it. */
  lemma WebStatusAddsNothing(parts: seq<string>)
    requires forall k | 0 <= k < |parts| :: IsSegment(parts[k])
    ensures AfterStatus(parts).None? ==> WebStatus(parts).None?
  {
    if |parts| >= 4 && parts[0] == "i" && parts[1] == "web" && parts[2] == "status" {
      assert parts[..2] == ["i", "web"];
      assert IndexOf(parts, "status") == 2;
    }
  }

  /** A post's page, `https://[www.]x.com/<handle>/status/<id>` or the same on twitter.com,
      yields its id. */
  lemma StatusUrlYieldsId(hostname: string, handle: string, id: string)
    requires IsXHost(hostname)
    requires IsSegment(handle) && handle != "status" && IsSegment(id)
    ensures ExtractTweetId(Some(UrlParts(hostname, PathOf([handle, "status", id])))) == Some(id)
  {
    var parts := [handle, "status", id];
    PathOfSegments(parts);
    assert parts[1..] == ["status", id];
    assert IndexOf(parts[1..], "status") == 0;
  }

  /** So does the `/i/web/status/<id>` form. */
  lemma WebStatusUrlYieldsId(hostname: string, id: string)
    requires IsXHost(hostname)
    requires IsSegment(id)
    ensures ExtractTweetId(Some(UrlParts(hostname, PathOf(["i", "web", "status", id])))) == Some(id)
  {
    var parts := ["i", "web", "status", id];
    PathOfSegments(parts);
    assert parts[1..][1..] == ["status", id];
    assert IndexOf(parts[1..][1..], "status") == 0;
  }

  /** The four host spellings are accepted, and no other. */
  lemma XHosts(hostname: string)
    ensures IsXHost(hostname) <==> hostname in {"x.com", "twitter.com", "www.x.com", "www.twitter.com"}
  {
    assert "x.com"[..4] == "x.co" && "twitter.com"[..4] == "twit";
    assert "www.x.com"[..4] == "www." && "www.x.com"[4..] == "x.com";
    assert "www.twitter.com"[..4] == "www." && "www.twitter.com"[4..] == "twitter.com";
    if |hostname| >= 4 && hostname[..4] == "www." {
      assert hostname == "www." + hostname[4..];
      assert "www." + "x.com" == "www.x.com" && "www." + "twitter.com" == "www.twitter.com";
    }
  }

  const NotConfigured := "X API is not configured. Set X_API_BEARER_TOKEN."
  const NoPostText := "X API returned no post text."
  const UnsupportedUrl := "Unsupported X URL."

  /** What the exchange with the X API gave: a rejection with its message (by `fetch`,
      by reading the body of a failed response, or by parsing the body of a successful
      one as JSON), or an answer with the HTTP status and body and, from the JSON payload,
      `data.text` and `includes.users[0].username`. */
  datatype XResponse =
    | Rejected(message: string)
    | Answered(ok: bool, status: nat, body: string, text: Option<string>, username: Option<string>)

  /** A fetched post. */
  datatype Fetched = Fetched(text: string, authorHandle: Option<string>)

  function ApiError(status: nat, body: string): string {
    "X API error (" + NatToString(status) + "): " + body
  }

  /** `fetchTweet`, given the configured token and the API's response. */
  function FetchTweet(token: Option<string>, response: XResponse): Result<Fetched> {
    if token.None? || token.value == "" then Failure(NotConfigured)
    else if response.Rejected? then Failure(response.message)
    else if !response.ok then Failure(ApiError(response.status, response.body))
    else if response.text.None? || response.text.value == "" then Failure(NoPostText)
    else Success(Fetched(response.text.value, response.username))
  }

  /** A missing token, a rejected exchange, a failed response and a missing text each
      throw their message, the failed response's naming its status so that it can be read
      back; otherwise the post is the non-empty text with the first included user's name. */
  lemma FetchTweetSpec(token: Option<string>, response: XResponse)
    ensures var r := FetchTweet(token, response);
            && ((token.None? || token.value == "") ==> r == Failure(NotConfigured))
            && (token.Some? && token.value != "" && response.Rejected? ==> r == Failure(response.message))
            && (token.Some? && token.value != "" && response.Answered? && !response.ok ==>
                  && r.Failure?
                  && exists digits :: && r.error == "X API error (" + digits + "): " + response.body
                                      && (forall i | 0 <= i < |digits| :: IsDigit(digits[i]))
                                      && DigitsValue(digits) == response.status)
            && (r.Success? <==> token.Some? && token.value != "" && response.Answered? && response.ok
                                && response.text.Some? && response.text.value != "")
            && (r.Success? ==> r.value.text == response.text.value && r.value.authorHandle == response.username)
  {
    if token.Some? && token.value != "" && response.Answered? && !response.ok {
      var digits := NatToString(response.status);
      NatToStringRoundTrip(response.status);
      assert FetchTweet(token, response).error == "X API error (" + digits + "): " + response.body;
    }
  }

  /** The answer of `importPost`. */
  datatype Imported = Imported(postId: Id, text: string, authorHandle: Option<string>)

  /** `importPost` for the signed-in user `userId`: an unsupported URL throws before the
      fetch, a failed fetch throws its error, and otherwise one pending post from X is
      stored with the URL as given and the fetched text. */
  method ImportPost(db: Db, userId: Id, url: string, parsed: Option<UrlParts>, token: Option<string>,
                    response: XResponse, now: Time) returns (r: Result<Imported>)
    requires db.Valid()
    modifies db`posts, db`nextId
    ensures db.Valid()
    ensures ExtractTweetId(parsed).None? ==> r == Failure(UnsupportedUrl)
    ensures ExtractTweetId(parsed).Some? && FetchTweet(token, response).Failure? ==>
              r == Failure(FetchTweet(token, response).error)
    ensures r.Failure? ==> unchanged(db)
    ensures r.Success? <==> ExtractTweetId(parsed).Some? && FetchTweet(token, response).Success?
    ensures r.Success? ==>
              var fetched := FetchTweet(token, response).value;
              && r.value == Imported(old(db.nextId), fetched.text, fetched.authorHandle)
              && db.nextId == old(db.nextId) + 1
              && db.posts == old(db.posts)[r.value.postId := Post(userId, None, Posts.NormalizedHandle(fetched.authorHandle),
                                                                   fetched.text, Some(url), Some(FromX), Pending, now)]
  {
    var tweetId := ExtractTweetId(parsed);
    if tweetId.None? {
      return Failure(UnsupportedUrl);
    }
    var fetched := FetchTweet(token, response);
    if fetched.Failure? {
      return Failure(fetched.error);
    }
    var postId := Posts.CreatePostInternal(db, userId, fetched.value.text, Some(url), Some(FromX), fetched.value.authorHandle, now);
    r := Success(Imported(postId, fetched.value.text, fetched.value.authorHandle));
  }
}
