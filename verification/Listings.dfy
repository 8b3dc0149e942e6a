/** The listings that walk `Link` pages, each to the last page or not at all. */
module Listings {
  import opened Wrappers
  import opened Pagination

  /** One decoded page of a listing that reports GitHub's own count. */
  datatype Listing<T> = Listing(totalCount: nat, items: seq<T>)

  type Decoder<T> = seq<bv8> -> Result<T, Error>

  /** `ensure_success`: a response outside 2xx is an error. */
  function EnsureSuccess(sent: Result<Response, Error>): Result<Response, Error> {
    match sent
    case Err(e) => Err(e)
    case Ok(response) => if 200 <= response.status < 300 then Ok(response) else Err(Status(response.status))
  }

  /** A sent request counts as read for exactly the statuses from 200 to 299, and then as it was answered. */
  lemma SuccessExactly(response: Response)
    ensures EnsureSuccess(Ok(response)) == Ok(response) <==> 200 <= response.status <= 299
    ensures EnsureSuccess(Ok(response)).Err? ==> EnsureSuccess(Ok(response)) == Err(Status(response.status))
  {
  }

  function Fetching(send: Server): Server {
    path => EnsureSuccess(send(path))
  }

  /** The response at `path` is within 2xx and decodes to `page`. */
  ghost predicate Decodes<T>(send: Server, decode: Decoder<T>, path: string, page: T) {
    match send(path)
    case Err(_) => false
    case Ok(response) => 200 <= response.status <= 299 && decode(response.body) == Ok(page)
  }

  // --- list_invitations ---------------------------------------------------------

  /** `listed.extend(page)` */
  function ExtendItems<T>(decode: Decoder<seq<T>>): (seq<T>, Response) -> Result<seq<T>, Error> {
    (listed: seq<T>, response: Response) =>
      match decode(response.body)
      case Err(e) => Err(e)
      case Ok(items) => Ok(listed + items)
  }

  function Flatten<T>(pages: seq<seq<T>>): seq<T> {
    if pages == [] then [] else Flatten(pages[..|pages| - 1]) + pages[|pages| - 1]
  }

  /** `pages[i]` is what the response at `paths[i]` decodes to. */
  ghost predicate Pages<T>(send: Server, decode: Decoder<T>, paths: seq<string>, pages: seq<T>) {
    |pages| == |paths| && forall i :: 0 <= i < |paths| ==> Decodes(send, decode, paths[i], pages[i])
  }

  lemma {:induction false} ExtendedPages<T>(send: Server, decode: Decoder<seq<T>>, paths: seq<string>)
    returns (pages: seq<seq<T>>)
    requires AbsorbAll(Fetching(send), ExtendItems(decode), [], paths).Ok?
    ensures Pages(send, decode, paths, pages)
    ensures AbsorbAll(Fetching(send), ExtendItems(decode), [], paths) == Ok(Flatten(pages))
  {
    if paths == [] {
      pages := [];
    } else {
      var n := |paths| - 1;
      var before := ExtendedPages(send, decode, paths[..n]);
      var items := decode(Fetching(send)(paths[n]).value.body).value;
      pages := before + [items];
      assert pages[..n] == before;
    }
  }

  /** Every page from `first` to the last, in order, each announcing the next. */
  ghost predicate WholeListing(send: Server, baseUrl: string, first: string, paths: seq<string>) {
    && 1 <= |paths| <= 1000
    && Chain(Fetching(send), baseUrl, first, paths)
    && Announces(Fetching(send), baseUrl, paths[|paths| - 1], None)
  }

  /** Pending invitations: on success, the items of every page of the listing, in page order. */
  method ListInvitations<T>(first: string, baseUrl: string, send: Server, decode: Decoder<seq<T>>)
    returns (r: Result<seq<T>, Error>)
    ensures r.Ok? <==> exists paths, pages ::
      WholeListing(send, baseUrl, first, paths) && Pages(send, decode, paths, pages)
    ensures forall paths, pages ::
      WholeListing(send, baseUrl, first, paths) && Pages(send, decode, paths, pages) ==> r == Ok(Flatten(pages))
  {
    hide NextPath;
    var absorb := ExtendItems(decode);
    ghost var fetched;
    r, fetched := WalkLinkPages(first, baseUrl, MAX_PAGES, Fetching(send), absorb, []);
    forall paths, pages | WholeListing(send, baseUrl, first, paths) && Pages(send, decode, paths, pages)
      ensures CompleteWalk(Fetching(send), baseUrl, first, MAX_PAGES, absorb, [], paths)
      ensures r.Ok? ==> paths == fetched && AbsorbAll(Fetching(send), absorb, [], paths) == Ok(Flatten(pages))
    {
      PagesAbsorb(send, decode, paths, pages);
      if r.Ok? {
        CompleteWalkUnique(Fetching(send), baseUrl, first, MAX_PAGES, absorb, [], paths, fetched);
      }
    }
    if r.Ok? {
      ghost var pages := ExtendedPages(send, decode, fetched);
      assert WholeListing(send, baseUrl, first, fetched) && Pages(send, decode, fetched, pages);
    }
  }

  lemma {:induction false} PagesAbsorb<T>(send: Server, decode: Decoder<seq<T>>, paths: seq<string>, pages: seq<seq<T>>)
    requires Pages(send, decode, paths, pages)
    ensures AbsorbAll(Fetching(send), ExtendItems(decode), [], paths) == Ok(Flatten(pages))
    decreases |paths|
  {
    if paths != [] {
      var n := |paths| - 1;
      PagesAbsorb(send, decode, paths[..n], pages[..n]);
      assert Decodes(send, decode, paths[n], pages[n]);
    }
  }

  // --- list_user_installations, list_user_installation_repos --------------------

  /** The first page is kept whole; later pages only add their items. */
  function ExtendListing<T>(decode: Decoder<Listing<T>>)
    : (Option<Listing<T>>, Response) -> Result<Option<Listing<T>>, Error>
  {
    (listed: Option<Listing<T>>, response: Response) =>
      match decode(response.body)
      case Err(e) => Err(e)
      case Ok(page) =>
        match listed
        case None => Ok(Some(page))
        case Some(l) => Ok(Some(Listing(l.totalCount, l.items + page.items)))
  }

  function ItemsOf<T>(pages: seq<Listing<T>>): seq<T> {
    if pages == [] then [] else ItemsOf(pages[..|pages| - 1]) + pages[|pages| - 1].items
  }

  /** The listing its pages add up to. */
  function Total<T>(pages: seq<Listing<T>>): Option<Listing<T>> {
    if pages == [] then None else Some(Listing(pages[0].totalCount, ItemsOf(pages)))
  }

  lemma {:induction false} ExtendedListing<T>(send: Server, decode: Decoder<Listing<T>>, paths: seq<string>)
    returns (pages: seq<Listing<T>>)
    requires AbsorbAll(Fetching(send), ExtendListing(decode), None, paths).Ok?
    ensures Pages(send, decode, paths, pages)
    ensures AbsorbAll(Fetching(send), ExtendListing(decode), None, paths) == Ok(Total(pages))
  {
    if paths == [] {
      pages := [];
    } else {
      var n := |paths| - 1;
      var before := ExtendedListing(send, decode, paths[..n]);
      var page := decode(Fetching(send)(paths[n]).value.body).value;
      pages := before + [page];
      assert pages[..n] == before;
      if n == 0 { assert ItemsOf(pages) == page.items; }
    }
  }

  lemma {:induction false} ListingAbsorbs<T>(
    send: Server, decode: Decoder<Listing<T>>, paths: seq<string>, pages: seq<Listing<T>>)
    requires Pages(send, decode, paths, pages)
    ensures AbsorbAll(Fetching(send), ExtendListing(decode), None, paths) == Ok(Total(pages))
    decreases |paths|
  {
    if paths != [] {
      var n := |paths| - 1;
      ListingAbsorbs(send, decode, paths[..n], pages[..n]);
      assert Decodes(send, decode, paths[n], pages[n]);
      if n == 0 { assert ItemsOf(pages) == pages[0].items; }
    }
  }

  /**
   * Installations of a user, or repositories of a user's installation: GitHub's count from the first
   * page and the items of every page in order. A complete walk reads at least one page.
   */
  method ListUserListing<T>(first: string, baseUrl: string, send: Server, decode: Decoder<Listing<T>>)
    returns (r: Result<Listing<T>, Error>)
    ensures r.Ok? <==> exists paths, pages ::
      WholeListing(send, baseUrl, first, paths) && Pages(send, decode, paths, pages)
    ensures forall paths, pages ::
      WholeListing(send, baseUrl, first, paths) && Pages(send, decode, paths, pages) ==>
        Total(pages).Some? && r == Ok(Total(pages).value)
  {
    hide NextPath;
    var absorb := ExtendListing(decode);
    var listed: Result<Option<Listing<T>>, Error>;
    ghost var fetched;
    listed, fetched := WalkLinkPages(first, baseUrl, MAX_PAGES, Fetching(send), absorb, None);
    forall paths, pages | WholeListing(send, baseUrl, first, paths) && Pages(send, decode, paths, pages)
      ensures CompleteWalk(Fetching(send), baseUrl, first, MAX_PAGES, absorb, None, paths)
      ensures listed.Ok? ==> paths == fetched && AbsorbAll(Fetching(send), absorb, None, paths) == Ok(Total(pages))
    {
      ListingAbsorbs(send, decode, paths, pages);
      if listed.Ok? {
        CompleteWalkUnique(Fetching(send), baseUrl, first, MAX_PAGES, absorb, None, paths, fetched);
      }
    }
    if listed.Ok? {
      ghost var pages := ExtendedListing(send, decode, fetched);
      assert WholeListing(send, baseUrl, first, fetched) && Pages(send, decode, fetched, pages);
      r := Ok(listed.value.value);  // a complete walk reads at least one page
    } else {
      r := Err(listed.error);
    }
  }
}
