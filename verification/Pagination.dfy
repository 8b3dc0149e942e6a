/** The complete-or-fail walk of a `Link`-paged listing. */
module Pagination {
  import opened Wrappers
  import opened Text
  import opened LinkHeader

  datatype Error =
    | Upstream(detail: int)            // transport, rate limit or decoding: opaque here
    | Status(status: nat)
    | BadHeader(bytes: nat)            // unparseable pagination link header
    | OffBase(bytes: nat)              // pagination link points outside the base
    | Revisited                        // pagination returned to a page already walked
    | PageBound                        // listing exceeded its page bound

  datatype Response = Response(status: nat, headers: map<string, string>, body: seq<bv8>)

  /** Backstop on one walk. */
  const MAX_PAGES: nat := 1000

  // --- the next page ------------------------------------------------------------

  /** `strip_prefix`, keeping only a remainder that starts with a slash. */
  function PathUnder(url: string, baseUrl: string): Option<string> {
    if baseUrl <= url && |url| > |baseUrl| && url[|baseUrl|] == '/' then Some(url[|baseUrl|..]) else None
  }

  /** What the response says about the page after it. */
  function NextPath(response: Response, baseUrl: string): Result<Option<string>, Error> {
    if "link" !in response.headers then Ok(None)
    else
      match Announced(response.headers["link"])
      case Err(e) => Err(BadHeader(e.bytes))
      case Ok(None) => Ok(None)
      case Ok(Some(url)) =>
        match PathUnder(url, baseUrl)
        case None => Err(OffBase(ByteLength(url)))
        case Some(path) => Ok(Some(path))
  }

  method NextPagePath(response: Response, baseUrl: string) returns (r: Result<Option<string>, Error>)
    ensures r == NextPath(response, baseUrl)
  {
    if "link" !in response.headers {
      return Ok(None);
    }
    var next := NextRelation(response.headers["link"]);
    match next {
      case Err(e) => r := Err(BadHeader(e.bytes));
      case Ok(None) => r := Ok(None);
      case Ok(Some(url)) =>
        match PathUnder(url, baseUrl) {
          case None => r := Err(OffBase(ByteLength(url)));
          case Some(path) => r := Ok(Some(path));
        }
    }
  }

  lemma PathUnderExactly(url: string, baseUrl: string, path: string)
    ensures PathUnder(url, baseUrl) == Some(path) <==> path != [] && path[0] == '/' && url == baseUrl + path
  {
    if url == baseUrl + path {
      assert url[|baseUrl|..] == path;
    }
  }

  /** A response without a link header is a last page; with one, it errs as unreadable exactly when the header is. */
  lemma HeaderDecides(response: Response, baseUrl: string)
    ensures "link" !in response.headers ==> NextPath(response, baseUrl) == Ok(None)
    ensures "link" in response.headers ==>
      var header := response.headers["link"];
      NextPath(response, baseUrl) == Err(BadHeader(ByteLength(header))) <==> Unreadable(header)
  {
    hide Announced, Unreadable, ByteLength, PathUnder;
    if "link" in response.headers {
      var header := response.headers["link"];
      FailsExactly(header);
      if Announced(header).Err? {
        FailureTellsSize(header);
      }
    }
  }

  lemma FailureTellsSize(header: string)
    requires Announced(header).Err?
    ensures Announced(header).error == Unparseable(ByteLength(header))
  {
  }

  /**
   * Whatever readable header the response has: without a next link it is a last page; with one, the next path is
   * the rest of its url after the base, and a url that is not the base and a path is an error.
   */
  lemma LinkDecides(response: Response, baseUrl: string, lead: string, links: seq<RawLink>, tail: string, url: string)
    requires "link" in response.headers && CutsInto(response.headers["link"], lead, Scanned(links, tail))
    ensures IsFirstNext(links, None) && links != [] && tail == [] ==> NextPath(response, baseUrl) == Ok(None)
    ensures IsFirstNext(links, Some(url)) ==>
      && (forall path :: path != [] && path[0] == '/' && url == baseUrl + path ==>
            NextPath(response, baseUrl) == Ok(Some(path)))
      && ((forall path :: path != [] && path[0] == '/' ==> url != baseUrl + path) ==>
            NextPath(response, baseUrl) == Err(OffBase(ByteLength(url))))
  {
    hide Announced, IsFirstNext, CutsInto, ByteLength;
    AnnouncedExactly(response.headers["link"], lead, links, tail, url);
    if PathUnder(url, baseUrl).Some? {
      PathUnderExactly(url, baseUrl, PathUnder(url, baseUrl).value);
    }
    forall path | path != [] && path[0] == '/' && url == baseUrl + path
      ensures PathUnder(url, baseUrl) == Some(path)
    {
      PathUnderExactly(url, baseUrl, path);
    }
  }

  /** For a well-formed header: a next page is followed exactly when its URL stays under the base. */
  lemma FollowsOnlyTheBase(response: Response, baseUrl: string, links: seq<Link>, path: string)
    requires links != [] && LinksForm(links)
    requires "link" in response.headers && response.headers["link"] == PrintHeader(links)
    ensures NextPath(response, baseUrl) == Ok(None) <==> FirstAnnounced(links) == None
    ensures NextPath(response, baseUrl) == Ok(Some(path)) <==>
      path != [] && path[0] == '/' && FirstAnnounced(links) == Some(baseUrl + path)
  {
    ReadsPrintedHeader(links);
    match FirstAnnounced(links) {
      case None =>
      case Some(url) => PathUnderExactly(url, baseUrl, path);
    }
  }

  // --- the chain of next pages --------------------------------------------------

  /** A server: what fetching a path returns. A walk asks for no path twice, so this is any server. */
  type Server = string -> Result<Response, Error>

  /** The page fetched at `path` announces `next` as the page after it. */
  ghost predicate Announces(fetch: Server, baseUrl: string, path: string, next: Option<string>) {
    fetch(path).Ok? && NextPath(fetch(path).value, baseUrl) == Ok(next)
  }

  ghost predicate Distinct(pages: seq<string>) {
    forall i, j :: 0 <= i < j < |pages| ==> pages[i] != pages[j]
  }

  /** Page `i` of `pages` is the one announced by the page before it. */
  ghost predicate Follows(fetch: Server, baseUrl: string, pages: seq<string>, i: nat)
    requires 0 < i < |pages|
  {
    Announces(fetch, baseUrl, pages[i - 1], Some(pages[i]))
  }

  /** `pages` starts at `first`, follows next links only, and never returns to a page. */
  ghost predicate Chain(fetch: Server, baseUrl: string, first: string, pages: seq<string>) {
    && (pages != [] ==> pages[0] == first)
    && (forall i :: 0 < i < |pages| ==> Follows(fetch, baseUrl, pages, i))
    && Distinct(pages)
  }

  /** Handing each page of `pages` to `absorb` in order. */
  function AbsorbAll<S>(fetch: Server, absorb: (S, Response) -> Result<S, Error>, start: S, pages: seq<string>)
    : Result<S, Error>
  {
    if pages == [] then Ok(start)
    else
      match AbsorbAll(fetch, absorb, start, pages[..|pages| - 1])
      case Err(e) => Err(e)
      case Ok(s) =>
        match fetch(pages[|pages| - 1])
        case Err(e) => Err(e)
        case Ok(response) => absorb(s, response)
  }

  /** Every page from `first` to one that announces no next page, within the bound, all absorbed. */
  ghost predicate CompleteWalk<S>(
    fetch: Server, baseUrl: string, first: string, maxPages: nat,
    absorb: (S, Response) -> Result<S, Error>, start: S, pages: seq<string>)
  {
    && 1 <= |pages| <= maxPages
    && Chain(fetch, baseUrl, first, pages)
    && Announces(fetch, baseUrl, pages[|pages| - 1], None)
    && AbsorbAll(fetch, absorb, start, pages).Ok?
  }

  /** The exact reason a walk that fetched `fetched` stopped with `e`. */
  ghost predicate StoppedBy<S>(
    fetch: Server, baseUrl: string, maxPages: nat,
    absorb: (S, Response) -> Result<S, Error>, start: S, fetched: seq<string>, e: Error)
  {
    if fetched == [] then maxPages == 0 && e == PageBound
    else
      var last := fetched[|fetched| - 1];
      var before := AbsorbAll(fetch, absorb, start, fetched[..|fetched| - 1]);
      && before.Ok?
      && match fetch(last)
         case Err(f) => e == f
         case Ok(response) =>
           match NextPath(response, baseUrl)
           case Err(f) => e == f
           case Ok(next) =>
             match absorb(before.value, response)
             case Err(f) => e == f
             case Ok(_) =>
               && next.Some?
               && e == (if |fetched| == maxPages then PageBound else Revisited)
               && (|fetched| < maxPages ==> next.value in fetched)
  }

  /** A chain is determined by its length. */
  lemma {:induction false} ChainsAgree(
    fetch: Server, baseUrl: string, first: string, a: seq<string>, b: seq<string>, n: nat)
    requires Chain(fetch, baseUrl, first, a) && Chain(fetch, baseUrl, first, b)
    requires n <= |a| && n <= |b|
    ensures a[..n] == b[..n]
  {
    hide NextPath;
    if n > 0 {
      ChainsAgree(fetch, baseUrl, first, a, b, n - 1);
      if n > 1 {
        assert a[n - 2] == a[..n - 1][n - 2] == b[..n - 1][n - 2] == b[n - 2];
        assert Follows(fetch, baseUrl, a, n - 1) && Follows(fetch, baseUrl, b, n - 1);
      }
      assert a[n - 1] == b[n - 1];
      assert a[..n] == a[..n - 1] + [a[n - 1]] && b[..n] == b[..n - 1] + [b[n - 1]];
    }
  }

  lemma ChainExtends(fetch: Server, baseUrl: string, first: string, pages: seq<string>, path: string)
    requires Chain(fetch, baseUrl, first, pages) && path !in pages
    requires if pages == [] then path == first else Announces(fetch, baseUrl, pages[|pages| - 1], Some(path))
    ensures Chain(fetch, baseUrl, first, pages + [path])
  {
    hide NextPath;
    forall i | 0 < i < |pages| + 1 ensures Follows(fetch, baseUrl, pages + [path], i) {
      if i < |pages| { assert Follows(fetch, baseUrl, pages, i); }
    }
  }

  lemma AbsorbOne<S>(
    fetch: Server, absorb: (S, Response) -> Result<S, Error>, start: S, pages: seq<string>, path: string)
    ensures AbsorbAll(fetch, absorb, start, pages + [path]) ==
      match AbsorbAll(fetch, absorb, start, pages)
      case Err(e) => Err(e)
      case Ok(s) =>
        match fetch(path)
        case Err(e) => Err(e)
        case Ok(response) => absorb(s, response)
  {
    assert (pages + [path])[..|pages|] == pages;
  }

  /** Absorbing further pages cannot mend a failure. */
  lemma {:induction false} AbsorbPrefix<S>(
    fetch: Server, absorb: (S, Response) -> Result<S, Error>, start: S, pages: seq<string>, n: nat)
    requires n <= |pages| && AbsorbAll(fetch, absorb, start, pages).Ok?
    ensures AbsorbAll(fetch, absorb, start, pages[..n]).Ok?
    decreases |pages|
  {
    if n == |pages| {
      assert pages[..n] == pages;
    } else {
      AbsorbPrefix(fetch, absorb, start, pages[..|pages| - 1], n);
      assert pages[..|pages| - 1][..n] == pages[..n];
    }
  }

  lemma EndsHere(fetch: Server, baseUrl: string, first: string, pages: seq<string>, chain: seq<string>)
    requires Chain(fetch, baseUrl, first, pages) && Chain(fetch, baseUrl, first, chain)
    requires 0 < |pages| < |chain|
    ensures !Announces(fetch, baseUrl, pages[|pages| - 1], None)
  {
    hide NextPath;
    var n := |pages|;
    ChainsAgree(fetch, baseUrl, first, pages, chain, n);
    assert pages[n - 1] == pages[..n][n - 1] == chain[..n][n - 1] == chain[n - 1];
    assert Follows(fetch, baseUrl, chain, n);
  }

  /** No chain goes on where a complete walk ends. */
  lemma CompleteWalkIsLongest<S>(
    fetch: Server, baseUrl: string, first: string, maxPages: nat,
    absorb: (S, Response) -> Result<S, Error>, start: S, pages: seq<string>, chain: seq<string>)
    requires CompleteWalk(fetch, baseUrl, first, maxPages, absorb, start, pages)
    requires Chain(fetch, baseUrl, first, chain)
    ensures |chain| <= |pages| && chain == pages[..|chain|]
  {
    hide NextPath;
    if |pages| < |chain| {
      EndsHere(fetch, baseUrl, first, pages, chain);
    } else {
      ChainsAgree(fetch, baseUrl, first, chain, pages, |chain|);
      assert chain[..|chain|] == chain;
    }
  }

  /** Two complete walks are the same walk. */
  lemma CompleteWalkUnique<S>(
    fetch: Server, baseUrl: string, first: string, maxPages: nat,
    absorb: (S, Response) -> Result<S, Error>, start: S, a: seq<string>, b: seq<string>)
    requires CompleteWalk(fetch, baseUrl, first, maxPages, absorb, start, a)
    requires CompleteWalk(fetch, baseUrl, first, maxPages, absorb, start, b)
    ensures a == b
  {
    hide NextPath;
    CompleteWalkIsLongest(fetch, baseUrl, first, maxPages, absorb, start, a, b);
    CompleteWalkIsLongest(fetch, baseUrl, first, maxPages, absorb, start, b, a);
    assert a == b[..|a|] == b;
  }

  /** Absorbing succeeded at each page of what was absorbed. */
  lemma AbsorbAt<S>(
    fetch: Server, absorb: (S, Response) -> Result<S, Error>, start: S, pages: seq<string>, n: nat)
    requires AbsorbAll(fetch, absorb, start, pages).Ok?
    requires 0 < n <= |pages|
    ensures AbsorbAll(fetch, absorb, start, pages[..n - 1]).Ok?
    ensures fetch(pages[n - 1]).Ok?
    ensures absorb(AbsorbAll(fetch, absorb, start, pages[..n - 1]).value, fetch(pages[n - 1]).value).Ok?
  {
    AbsorbPrefix(fetch, absorb, start, pages, n);
    assert pages[..n] == pages[..n - 1] + [pages[n - 1]];
    AbsorbOne(fetch, absorb, start, pages[..n - 1], pages[n - 1]);
  }

  /** A complete walk announces at each page the page it reads next. */
  lemma CompleteWalkStep<S>(
    fetch: Server, baseUrl: string, first: string, maxPages: nat,
    absorb: (S, Response) -> Result<S, Error>, start: S, pages: seq<string>, n: nat)
    requires CompleteWalk(fetch, baseUrl, first, maxPages, absorb, start, pages)
    requires 0 < n <= |pages|
    ensures Announces(fetch, baseUrl, pages[n - 1], if n == |pages| then None else Some(pages[n]))
  {
    hide NextPath;
    if n < |pages| { assert Follows(fetch, baseUrl, pages, n); }
  }

  lemma PrefixOfPrefix<T>(a: seq<T>, b: seq<T>)
    requires 0 < |a| <= |b| && a == b[..|a|]
    ensures a[..|a| - 1] == b[..|a| - 1] && a[|a| - 1] == b[|a| - 1]
  {
  }

  /** A walk that stopped early had no complete walk to find. */
  lemma StoppedMeansIncomplete<S>(
    fetch: Server, baseUrl: string, first: string, maxPages: nat,
    absorb: (S, Response) -> Result<S, Error>, start: S, fetched: seq<string>, e: Error, pages: seq<string>)
    requires Chain(fetch, baseUrl, first, fetched) && |fetched| <= maxPages
    requires StoppedBy(fetch, baseUrl, maxPages, absorb, start, fetched, e)
    ensures !CompleteWalk(fetch, baseUrl, first, maxPages, absorb, start, pages)
  {
    hide NextPath;
    if CompleteWalk(fetch, baseUrl, first, maxPages, absorb, start, pages) {
      CompleteWalkIsLongest(fetch, baseUrl, first, maxPages, absorb, start, pages, fetched);
      if fetched != [] {
        AbsorbAt(fetch, absorb, start, pages, |fetched|);
        CompleteWalkStep(fetch, baseUrl, first, maxPages, absorb, start, pages, |fetched|);
        PrefixOfPrefix(fetched, pages);
      }
      assert false;
    }
  }

  lemma NoWalk<S>(
    fetch: Server, baseUrl: string, first: string, maxPages: nat,
    absorb: (S, Response) -> Result<S, Error>, start: S, fetched: seq<string>, e: Error)
    requires Chain(fetch, baseUrl, first, fetched) && |fetched| <= maxPages
    requires StoppedBy(fetch, baseUrl, maxPages, absorb, start, fetched, e)
    ensures !exists pages :: CompleteWalk(fetch, baseUrl, first, maxPages, absorb, start, pages)
  {
    hide NextPath;
    forall pages ensures !CompleteWalk(fetch, baseUrl, first, maxPages, absorb, start, pages) {
      StoppedMeansIncomplete(fetch, baseUrl, first, maxPages, absorb, start, fetched, e, pages);
    }
  }

  /** The walk that read `fetched` and absorbed it, but may not go on to `next`. */
  lemma StopsBeforeNext<S>(
    fetch: Server, baseUrl: string, first: string, maxPages: nat,
    absorb: (S, Response) -> Result<S, Error>, start: S, fetched: seq<string>, next: string)
    requires Chain(fetch, baseUrl, first, fetched) && 0 < |fetched| <= maxPages
    requires AbsorbAll(fetch, absorb, start, fetched).Ok?
    requires Announces(fetch, baseUrl, fetched[|fetched| - 1], Some(next))
    requires |fetched| < maxPages ==> next in fetched
    ensures StoppedBy(fetch, baseUrl, maxPages, absorb, start, fetched,
                      if |fetched| == maxPages then PageBound else Revisited)
  {
    hide NextPath;
    AbsorbAt(fetch, absorb, start, fetched, |fetched|);
  }

  /** The first page can be read and absorbed, and has no link header. */
  ghost predicate OnePage<S>(
    fetch: Server, first: string, maxPages: nat, absorb: (S, Response) -> Result<S, Error>, start: S)
  {
    && maxPages > 0
    && fetch(first).Ok? && "link" !in fetch(first).value.headers
    && absorb(start, fetch(first).value).Ok?
  }

  lemma OnePageIsWhole<S>(
    fetch: Server, baseUrl: string, first: string, maxPages: nat,
    absorb: (S, Response) -> Result<S, Error>, start: S)
    requires OnePage(fetch, first, maxPages, absorb, start)
    ensures CompleteWalk(fetch, baseUrl, first, maxPages, absorb, start, [first])
    ensures AbsorbAll(fetch, absorb, start, [first]) == absorb(start, fetch(first).value)
  {
    HeaderDecides(fetch(first).value, baseUrl);
    assert [first][..0] == [];
  }

  lemma WalkIsComplete<S>(
    fetch: Server, baseUrl: string, first: string, maxPages: nat,
    absorb: (S, Response) -> Result<S, Error>, start: S, fetched: seq<string>, state: S)
    requires 1 <= |fetched| <= maxPages && Chain(fetch, baseUrl, first, fetched)
    requires AbsorbAll(fetch, absorb, start, fetched) == Ok(state)
    requires Announces(fetch, baseUrl, fetched[|fetched| - 1], None)
    ensures CompleteWalk(fetch, baseUrl, first, maxPages, absorb, start, fetched)
  {
    hide NextPath;
  }

  method WalkLinkPages<S>(
    first: string, baseUrl: string, maxPages: nat, fetch: Server,
    absorb: (S, Response) -> Result<S, Error>, start: S)
    returns (r: Result<S, Error>, ghost fetched: seq<string>)
    // No page is fetched twice, none beyond the bound, and only next links are followed.
    ensures |fetched| <= maxPages && Distinct(fetched) && Chain(fetch, baseUrl, first, fetched)
    // The walk succeeds exactly when the listing can be read to its last page, with all of it absorbed.
    ensures r.Ok? <==> exists pages :: CompleteWalk(fetch, baseUrl, first, maxPages, absorb, start, pages)
    ensures r.Ok? ==>
      && CompleteWalk(fetch, baseUrl, first, maxPages, absorb, start, fetched)
      && r == AbsorbAll(fetch, absorb, start, fetched)
    ensures r.Err? ==> StoppedBy(fetch, baseUrl, maxPages, absorb, start, fetched, r.error)
    // A first page without a link header is the whole listing.
    ensures OnePage(fetch, first, maxPages, absorb, start) ==>
      fetched == [first] && r == absorb(start, fetch(first).value)
  {
    ghost var whole := OnePage(fetch, first, maxPages, absorb, start);
    if whole {
      OnePageIsWhole(fetch, baseUrl, first, maxPages, absorb, start);
    }
    hide NextPath, OnePage, CompleteWalk, Chain, Announces, AbsorbAll, StoppedBy;
    var path := first;
    var walked: set<string> := {};
    var state := start;
    fetched := [];
    for n := 0 to maxPages
      invariant |fetched| == n && Chain(fetch, baseUrl, first, fetched)
      invariant forall p :: p in walked <==> p in fetched
      invariant AbsorbAll(fetch, absorb, start, fetched) == Ok(state)
      invariant if n == 0 then path == first else Announces(fetch, baseUrl, fetched[n - 1], Some(path))
    {
      if path in walked {
        StopsBeforeNext(fetch, baseUrl, first, maxPages, absorb, start, fetched, path);
        NoWalk(fetch, baseUrl, first, maxPages, absorb, start, fetched, Revisited);
        return Err(Revisited), fetched;
      }
      walked := walked + {path};
      ChainExtends(fetch, baseUrl, first, fetched, path);
      AbsorbOne(fetch, absorb, start, fetched, path);
      assert (fetched + [path])[..n] == fetched;
      fetched := fetched + [path];
      var response := fetch(path);
      if response.Err? {
        NoWalk(fetch, baseUrl, first, maxPages, absorb, start, fetched, response.error);
        return Err(response.error), fetched;
      }
      var next := NextPagePath(response.value, baseUrl);
      if next.Err? {
        NoWalk(fetch, baseUrl, first, maxPages, absorb, start, fetched, next.error);
        return Err(next.error), fetched;
      }
      var absorbed := absorb(state, response.value);
      if absorbed.Err? {
        NoWalk(fetch, baseUrl, first, maxPages, absorb, start, fetched, absorbed.error);
        return Err(absorbed.error), fetched;
      }
      state := absorbed.value;
      match next.value {
        case None =>
          assert CompleteWalk(fetch, baseUrl, first, maxPages, absorb, start, fetched) by {
            WalkIsComplete(fetch, baseUrl, first, maxPages, absorb, start, fetched, state);
          }
          if whole {
            CompleteWalkUnique(fetch, baseUrl, first, maxPages, absorb, start, fetched, [first]);
          }
          return Ok(state), fetched;
        case Some(p) => path := p;
      }
    }
    if maxPages > 0 {
      StopsBeforeNext(fetch, baseUrl, first, maxPages, absorb, start, fetched, path);
    }
    NoWalk(fetch, baseUrl, first, maxPages, absorb, start, fetched, PageBound);
    r := Err(PageBound);
  }
}
