/** The counted walk over an installation's repositories: the complete numeric scope or an error. */
module InstallationRepos {
  import opened Wrappers
  import Decimal
  import opened Text
  import Pagination
  import Listings
  import opened Sorting

  datatype RepoPage = RepoPage(totalCount: nat, repositories: seq<nat>)

  datatype RefreshError =
    | Request(error: Pagination.Error)
    | Inconsistent   // a repository with no id, or listed twice
    | Incomplete     // the count changed, was overshot, or was never reached

  const LAST_PAGE: nat := 1000

  // --- reading one page ---------------------------------------------------------

  function PagePath(page: nat): string {
    if page == 1 then "/installation/repositories?per_page=100"
    else "/installation/repositories?per_page=100&page=" + Decimal.Print(page)
  }

  /** Every page has a path of its own, so a server may be any function of the path. */
  lemma PagePathsDiffer(a: nat, b: nat)
    requires 1 <= a < b
    ensures PagePath(a) != PagePath(b)
  {
    var prefix := "/installation/repositories?per_page=100";
    if a == 1 {
      assert |PagePath(b)| > |PagePath(a)|;
    } else if PagePath(a) == PagePath(b) {
      var long := prefix + "&page=";
      assert PagePath(a)[|long|..] == Decimal.Print(a);
      assert PagePath(b)[|long|..] == Decimal.Print(b);
      Decimal.PrintInjective(a, b);
    }
  }

  /** The value of the last parameter named `key` in a query, as a server reads it. */
  function Asked(params: seq<string>, key: string): Option<string> {
    if params == [] then None
    else
      var last := params[|params| - 1];
      if Before(last, '=') == key && From(last, '=') != [] then Some(From(last, '=')[1..])
      else Asked(params[..|params| - 1], key)
  }

  function QueryOf(path: string): seq<string> {
    if From(path, '?') == [] then [] else Split(From(path, '?')[1..], '&')
  }

  /** What the path of page `n` asks for: the listing, a hundred at a time, at page `n`. */
  lemma AsksForThatPage(n: nat)
    requires n >= 1
    ensures Before(PagePath(n), '?') == "/installation/repositories"
    ensures Asked(QueryOf(PagePath(n)), "per_page") == Some("100")
    ensures match Asked(QueryOf(PagePath(n)), "page")
            case None => n == 1
            case Some(text) => Decimal.AllDigits(text) && Decimal.Value(text) == n
  {
    hide Decimal.Print, PagePath, QueryOf, Asked;
    QueryIs(n);
    SizeAsked();
    if n > 1 {
      Decimal.ValueOfPrint(n);
      PageAsked(Decimal.Print(n));
    }
  }

  lemma QueryIs(n: nat)
    requires n >= 1
    ensures Before(PagePath(n), '?') == "/installation/repositories"
    ensures QueryOf(PagePath(n)) == if n == 1 then ["per_page=100"] else ["per_page=100", "page=" + Decimal.Print(n)]
  {
    hide Decimal.Print, Before, From, Split;
    var query := if n == 1 then "per_page=100" else "per_page=100" + (['&'] + ("page=" + Decimal.Print(n)));
    PathWithQuery(n, query);
    CutAt("/installation/repositories", '?', ['?'] + query);
    assert (['?'] + query)[1..] == query;
    if n == 1 {
      SplitLast("per_page=100", '&');
    } else {
      NumeralHasNo(Decimal.Print(n));
      SplitStep("per_page=100", '&', "page=" + Decimal.Print(n));
      SplitLast("page=" + Decimal.Print(n), '&');
    }
  }

  lemma PathWithQuery(n: nat, query: string)
    requires query == if n == 1 then "per_page=100" else "per_page=100" + (['&'] + ("page=" + Decimal.Print(n)))
    ensures PagePath(n) == "/installation/repositories" + (['?'] + query)
  {
    hide Decimal.Print;
    var start := "/installation/repositories" + (['?'] + "per_page=100");
    assert start == "/installation/repositories?per_page=100";
    if n != 1 {
      var digits := Decimal.Print(n);
      assert start + "&page=" == "/installation/repositories?per_page=100&page=";
      Reassociate("/installation/repositories", "per_page=100", digits);
    }
  }

  lemma Reassociate(head: string, size: string, digits: string)
    ensures head + (['?'] + (size + (['&'] + ("page=" + digits)))) == (head + (['?'] + size)) + "&page=" + digits
  {
  }

  lemma SizeAsked()
    ensures Asked(["per_page=100"], "per_page") == Some("100") && Asked(["per_page=100"], "page") == None
  {
    hide Before, From;
    CutAt("per_page", '=', "=100");
    assert "per_page" + "=100" == "per_page=100" && ["per_page=100"][..0] == [];
  }

  lemma PageAsked(digits: string)
    requires Decimal.AllDigits(digits)
    ensures Asked(["per_page=100", "page=" + digits], "page") == Some(digits)
    ensures Asked(["per_page=100", "page=" + digits], "per_page") == Asked(["per_page=100"], "per_page")
  {
    hide Before, From;
    var params := ["per_page=100", "page=" + digits];
    CutAt("page", '=', "=" + digits);
    assert "page" + ("=" + digits) == "page=" + digits && ("=" + digits)[1..] == digits;
    assert params[..1] == ["per_page=100"];
  }

  lemma NumeralHasNo(digits: string)
    requires Decimal.AllDigits(digits)
    ensures '&' !in digits && '=' !in digits && '?' !in digits
  {
  }

  type Reader = nat -> Result<RepoPage, Pagination.Error>

  function ReadPage(send: Pagination.Server, decode: Listings.Decoder<RepoPage>): Reader {
    (page: nat) =>
      match Listings.EnsureSuccess(send(PagePath(page)))
      case Err(e) => Err(e)
      case Ok(response) => decode(response.body)
  }

  /** A page is read exactly when its own path is answered within 2xx by a body that decodes, to that page. */
  lemma ReadsItsPage(send: Pagination.Server, decode: Listings.Decoder<RepoPage>, n: nat, page: RepoPage)
    ensures ReadPage(send, decode)(n) == Ok(page) <==>
      match send(PagePath(n))
      case Err(_) => false
      case Ok(response) => 200 <= response.status <= 299 && decode(response.body) == Ok(page)
  {
    hide PagePath;
  }

  // --- what a complete refresh is -----------------------------------------------

  /** The repository ids of pages 1 to `k`, in listing order. */
  function Listed(read: Reader, k: nat): seq<nat> {
    if k == 0 || read(k).Err? then [] else Listed(read, k - 1) + read(k).value.repositories
  }

  ghost predicate DistinctNonZero(ids: seq<nat>) {
    && (forall i :: 0 <= i < |ids| ==> ids[i] != 0)
    && (forall i, j :: 0 <= i < j < |ids| ==> ids[i] != ids[j])
  }

  /** Pages 1 to `k` were read, all reporting `total`, listing distinct repositories. */
  ghost predicate Consistent(read: Reader, total: nat, k: nat) {
    && (forall j :: 1 <= j <= k ==> read(j).Ok? && read(j).value.totalCount == total)
    && DistinctNonZero(Listed(read, k))
  }

  /** Pages 1 to `k` are consistent, none is empty, and each leaves repositories to come. */
  ghost predicate Unfinished(read: Reader, total: nat, k: nat) {
    && Consistent(read, total, k)
    && forall j :: 1 <= j <= k ==> read(j).value.repositories != [] && |Listed(read, j)| < total
  }

  /** The count is first reached at page `k`, by pages that agree on it. */
  ghost predicate CompleteRefresh(read: Reader, total: nat, k: nat) {
    && 1 <= k <= 1000
    && Consistent(read, total, k)
    && (total > 0 ==> forall j :: 1 <= j <= k ==> read(j).value.repositories != [])
    && (forall j :: 1 <= j < k ==> |Listed(read, j)| != total)
    && |Listed(read, k)| == total
  }

  /** Why a walk that read pages 1 to `k` cannot be completed. */
  ghost predicate StoppedAt(read: Reader, k: nat, e: RefreshError) {
    && 1 <= k <= 1000
    && (read(1).Ok? ==> Unfinished(read, read(1).value.totalCount, k - 1))
    && match read(k)
       case Err(f) => e == Request(f)
       case Ok(page) =>
         && read(1).Ok?
         && var total := read(1).value.totalCount;
            if page.totalCount != total then e == Incomplete
            else if !DistinctNonZero(Listed(read, k)) then e == Inconsistent
            else
              && e == Incomplete
              && |Listed(read, k)| != total
              && (page.repositories == [] || |Listed(read, k)| > total || k == 1000)
  }

  lemma {:induction false} ListedGrows(read: Reader, j: nat, k: nat)
    requires j <= k && forall i :: 1 <= i <= k ==> read(i).Ok?
    ensures Listed(read, j) <= Listed(read, k)
  {
    if j < k {
      ListedGrows(read, j, k - 1);
    }
  }

  lemma DistinctPrefix(a: seq<nat>, b: seq<nat>)
    requires a <= b && DistinctNonZero(b)
    ensures DistinctNonZero(a)
  {
  }

  lemma ConsistentPrefix(read: Reader, total: nat, j: nat, k: nat)
    requires j <= k && Consistent(read, total, k)
    ensures Consistent(read, total, j)
  {
    ListedGrows(read, j, k);
    DistinctPrefix(Listed(read, j), Listed(read, k));
  }

  /** Before its last page a complete refresh is unfinished. */
  lemma CompleteIsUnfinishedBefore(read: Reader, total: nat, j: nat, k: nat)
    requires CompleteRefresh(read, total, k) && j < k
    ensures Unfinished(read, total, j)
  {
    ConsistentPrefix(read, total, j, k);
    forall i | 1 <= i <= j ensures read(i).value.repositories != [] && |Listed(read, i)| < total {
      ListedGrows(read, i, k);
      assert |Listed(read, i)| != total;
    }
  }

  /** A walk that stopped with an error had no complete refresh to find. */
  lemma StoppedMeansIncomplete(read: Reader, n: nat, e: RefreshError, total: nat, k: nat)
    requires StoppedAt(read, n, e)
    ensures !CompleteRefresh(read, total, k)
  {
    if CompleteRefresh(read, total, k) {
      assert read(1).Ok? && read(1).value.totalCount == total;
      if n < k {
        CompleteIsUnfinishedBefore(read, total, n, k);
        assert false;
      } else if n == k {
        assert false;
      } else {
        assert false;
      }
    }
  }

  /** The first page at which the count is reached is unique. */
  lemma CompleteRefreshUnique(read: Reader, t: nat, j: nat, u: nat, k: nat)
    requires CompleteRefresh(read, t, j) && CompleteRefresh(read, u, k)
    ensures t == u && j == k
  {
    assert read(1).value.totalCount == t == u;
    assert j < k ==> |Listed(read, j)| != u;
    assert k < j ==> |Listed(read, k)| != t;
  }

  // --- the walk -----------------------------------------------------------------

  ghost predicate Ascending(ids: seq<nat>) {
    forall i, j :: 0 <= i < j < |ids| ==> ids[i] < ids[j]
  }

  /** `ids` holds exactly the ids of `listed`, in ascending order. */
  ghost predicate Gathered(ids: seq<nat>, listed: seq<nat>) {
    Ascending(ids) && |ids| == |listed| && forall x :: x in ids <==> x in listed
  }

  predicate AtMost(a: nat, b: nat) {
    a <= b
  }

  lemma InsertAscending(ids: seq<nat>, id: nat)
    requires Ascending(ids) && id !in ids
    ensures Ascending(Insert(AtMost, id, ids))
    ensures forall x :: x in Insert(AtMost, id, ids) <==> x == id || x in ids
  {
    if ids != [] && ids[0] <= id {
      assert ids[0] in ids && ids == [ids[0]] + ids[1..];
      InsertAscending(ids[1..], id);
      var tail := Insert(AtMost, id, ids[1..]);
      assert Insert(AtMost, id, ids) == [ids[0]] + tail;
      forall j | 0 <= j < |tail| ensures ids[0] < tail[j] {
        assert tail[j] in tail;
      }
    }
  }

  lemma Appended(all: seq<nat>, id: nat)
    requires DistinctNonZero(all)
    ensures DistinctNonZero(all + [id]) <==> id != 0 && id !in all
  {
    var longer := all + [id];
    assert longer[|all|] == id;
    if id in all {
      var i :| 0 <= i < |all| && all[i] == id;
      assert longer[i] == longer[|all|];
    }
  }

  /** The repositories of one page join `ids`; a missing or repeated id is an inconsistency. */
  method AddAll(ids: seq<nat>, repositories: seq<nat>, ghost before: seq<nat>) returns (r: Option<seq<nat>>)
    requires Gathered(ids, before) && DistinctNonZero(before)
    ensures r.Some? <==> DistinctNonZero(before + repositories)
    ensures r.Some? ==> Gathered(r.value, before + repositories)
  {
    var all := ids;
    ghost var seen := before;
    for i := 0 to |repositories|
      invariant seen == before + repositories[..i]
      invariant Gathered(all, seen) && DistinctNonZero(seen)
    {
      var id := repositories[i];
      Appended(seen, id);
      assert before + repositories[..i + 1] == seen + [id];
      if id == 0 || id in all {
        assert seen + [id] <= before + repositories;
        if DistinctNonZero(before + repositories) {
          DistinctPrefix(seen + [id], before + repositories);
        }
        return None;
      }
      InsertAscending(all, id);
      all := Insert(AtMost, id, all);
      seen := seen + [id];
    }
    assert before + repositories == seen;
    r := Some(all);
  }

  lemma NothingRead(read: Reader)
    ensures Listed(read, 0) == [] && Underway(read, 0)
    ensures Gathered([], Listed(read, 0)) && DistinctNonZero(Listed(read, 0))
  {
  }

  lemma ListedStep(read: Reader, page: nat)
    requires page > 0 && read(page).Ok?
    ensures Listed(read, page) == Listed(read, page - 1) + read(page).value.repositories
  {
  }

  /** Pages 1 to `k` were read and leave the refresh unfinished. */
  ghost predicate Underway(read: Reader, k: nat) {
    && (k > 0 ==> read(1).Ok?)
    && (read(1).Ok? ==> Unfinished(read, read(1).value.totalCount, k))
  }

  /** What page `page` makes of a refresh that is underway: every way on, and every way to end. */
  lemma PageDecides(read: Reader, page: nat)
    requires 1 <= page <= LAST_PAGE && Underway(read, page - 1)
    ensures read(page).Err? ==> StoppedAt(read, page, Request(read(page).error))
    ensures read(page).Ok? ==>
      var total, listed := read(1).value.totalCount, Listed(read, page);
      && read(1).Ok?
      && (if read(page).value.totalCount != total then StoppedAt(read, page, Incomplete)
          else if !DistinctNonZero(listed) then StoppedAt(read, page, Inconsistent)
          else if |listed| == total then CompleteRefresh(read, total, page)
          else if read(page).value.repositories == [] || |listed| > total then StoppedAt(read, page, Incomplete)
          else Underway(read, page) && (page == LAST_PAGE ==> StoppedAt(read, page, Incomplete)))
  {
    hide DistinctNonZero, Listed;
    NothingListed(read);
    if read(page).Ok? {
      ListedStep(read, page);
    }
  }

  lemma NothingListed(read: Reader)
    ensures Listed(read, 0) == []
  {
  }

  /** The loop over the pages: the ids in ascending order, after exactly `pages` page reads. */
  method WalkRepoPages(read: Reader) returns (r: Result<seq<nat>, RefreshError>, ghost pages: nat)
    ensures r.Ok? <==> exists total, k :: CompleteRefresh(read, total, k)
    ensures r.Ok? ==>
      && CompleteRefresh(read, |r.value|, pages)
      && Gathered(r.value, Listed(read, pages))
    ensures r.Err? ==> StoppedAt(read, pages, r.error)
  {
    var ids: seq<nat> := [];
    var expected: Option<nat> := None;
    pages := 0;
    NothingRead(read);
    hide Gathered, DistinctNonZero, Listed, StoppedAt, CompleteRefresh, Underway;
    for page := 1 to LAST_PAGE + 1
      invariant pages == page - 1
      invariant page > 1 ==> read(1).Ok?
      invariant expected == if page == 1 then None else Some(read(1).value.totalCount)
      invariant Underway(read, page - 1)
      invariant page > LAST_PAGE ==> StoppedAt(read, LAST_PAGE, Incomplete)
      invariant Gathered(ids, Listed(read, page - 1)) && DistinctNonZero(Listed(read, page - 1))
    {
      pages := page;
      PageDecides(read, page);
      var result := read(page);
      if result.Err? {
        NoRefresh(read, page, Request(result.error));
        return Err(Request(result.error)), page;
      }
      if expected.Some? && expected.value != result.value.totalCount {
        NoRefresh(read, page, Incomplete);
        return Err(Incomplete), page;
      }
      var total := result.value.totalCount;
      expected := Some(total);
      var empty := result.value.repositories == [];
      ListedStep(read, page);
      var added := AddAll(ids, result.value.repositories, Listed(read, page - 1));
      if added.None? {
        NoRefresh(read, page, Inconsistent);
        return Err(Inconsistent), page;
      }
      ids := added.value;
      GatheredAll(ids, Listed(read, page));
      if |ids| == total {
        return Ok(ids), page;
      }
      if empty || |ids| > total {
        NoRefresh(read, page, Incomplete);
        return Err(Incomplete), page;
      }
    }
    NoRefresh(read, LAST_PAGE, Incomplete);
    r := Err(Incomplete);
  }

  lemma GatheredAll(ids: seq<nat>, listed: seq<nat>)
    requires Gathered(ids, listed)
    ensures |ids| == |listed|
  {
  }

  lemma NoRefresh(read: Reader, n: nat, e: RefreshError)
    requires StoppedAt(read, n, e)
    ensures !exists total, k :: CompleteRefresh(read, total, k)
  {
    forall total, k ensures !CompleteRefresh(read, total, k) {
      StoppedMeansIncomplete(read, n, e, total, k);
    }
  }

  function PathsTo(k: nat): (paths: seq<string>)
    ensures |paths| == k
  {
    if k == 0 then [] else PathsTo(k - 1) + [PagePath(k)]
  }

  lemma {:induction false} PathAt(k: nat, i: nat)
    requires i < k
    ensures PathsTo(k)[i] == PagePath(i + 1)
  {
    hide PagePath;
    if i < k - 1 {
      PathAt(k - 1, i);
    }
  }

  /** Against a server: the paths asked for are the first pages, in order, none of them twice. */
  method AllInstallationRepoIds(send: Pagination.Server, decode: Listings.Decoder<RepoPage>)
    returns (r: Result<seq<nat>, RefreshError>, ghost paths: seq<string>)
    ensures r.Ok? <==> exists total, k :: CompleteRefresh(ReadPage(send, decode), total, k)
    ensures r.Ok? ==>
      && CompleteRefresh(ReadPage(send, decode), |r.value|, |paths|)
      && Gathered(r.value, Listed(ReadPage(send, decode), |paths|))
    ensures r.Err? ==> StoppedAt(ReadPage(send, decode), |paths|, r.error)
    ensures paths == PathsTo(|paths|) && Pagination.Distinct(paths)
  {
    ghost var pages;
    r, pages := WalkRepoPages(ReadPage(send, decode));
    hide CompleteRefresh, StoppedAt, Gathered, Listed, PagePath;
    paths := PathsTo(pages);
    forall i, j | 0 <= i < j < |paths| ensures paths[i] != paths[j] {
      PathAt(pages, i);
      PathAt(pages, j);
      PagePathsDiffer(i + 1, j + 1);
    }
  }
}
