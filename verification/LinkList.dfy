/** The console's invitation link list: URL state, and the selection of one page of links. */
module LinkList {
  import opened Wrappers
  import opened Text
  import Decimal
  import I = InvitationLinks
  import Sorting

  // --- URL state ----------------------------------------------------------------

  datatype Filter = Active | Inactive | All

  datatype SortKey = Description | Uses | Expiration | Created

  datatype Direction = Asc | Desc

  datatype Query = Query(filter: Filter, sort: SortKey, direction: Direction, page: nat)

  predicate PageNumeral(s: string) {
    s != [] && Decimal.AllDigits(s)
  }

  /** `LinkListQuery::new`; `usizeMax` is the largest number the platform's `usize` holds. */
  function NewQuery(filter: string, sort: string, direction: string, page: string, usizeMax: nat): (q: Query)
    ensures q.page >= 1
  {
    Query(
      if filter == "inactive" then Inactive else if filter == "all" then All else Active,
      if sort == "description" then Description
      else if sort == "uses" then Uses
      else if sort == "expiration" then Expiration
      else Created,
      if direction == "asc" then Asc else Desc,
      if PageNumeral(page) then Max1(Decimal.Saturating(page, usizeMax)) else 1)
  }

  function Max1(n: nat): nat {
    if n == 0 then 1 else n
  }

  /** Saturating at every digit is saturating once, for digit strings of any length. */
  lemma PageOfNumeral(filter: string, sort: string, direction: string, page: string, usizeMax: nat)
    requires PageNumeral(page)
    ensures NewQuery(filter, sort, direction, page, usizeMax).page == Max1(Decimal.Min(Decimal.Value(page), usizeMax))
  {
  }

  function FilterText(f: Filter): string {
    match f
    case Active => "active"
    case Inactive => "inactive"
    case All => "all"
  }

  function SortText(s: SortKey): string {
    match s
    case Description => "description"
    case Uses => "uses"
    case Expiration => "expiration"
    case Created => "created"
  }

  function DirectionText(d: Direction): string {
    match d
    case Asc => "asc"
    case Desc => "desc"
  }

  /** `href`: the query string of another page of the same list. */
  function Href(q: Query, base: string, page: nat): string {
    base + "?filter=" + FilterText(q.filter) + "&sort=" + SortText(q.sort)
    + "&direction=" + DirectionText(q.direction) + "&page=" + Decimal.Print(page)
  }

  // Reading a URL's query string.

  /** The value of `name` among `&`-separated `name=value` pairs; empty when it is missing. */
  function Parameter(pairs: seq<string>, name: string): string {
    if pairs == [] then []
    else
      var rest := From(pairs[0], '=');
      if rest != [] && Before(pairs[0], '=') == name then rest[1..] else Parameter(pairs[1..], name)
  }

  function QueryPairs(url: string): seq<string> {
    var rest := From(url, '?');
    if rest == [] then [] else Split(rest[1..], '&')
  }

  function ReadQuery(url: string, usizeMax: nat): Query {
    var pairs := QueryPairs(url);
    NewQuery(Parameter(pairs, "filter"), Parameter(pairs, "sort"),
             Parameter(pairs, "direction"), Parameter(pairs, "page"), usizeMax)
  }

  function Pair(name: string, value: string): string {
    name + (['='] + value)
  }

  lemma PairReads(name: string, value: string)
    requires '=' !in name
    ensures From(Pair(name, value), '=') == ['='] + value && Before(Pair(name, value), '=') == name
    ensures (['='] + value)[1..] == value
  {
    CutAt(name, '=', ['='] + value);
  }

  function Pairs(filter: string, sort: string, direction: string, page: string): seq<string> {
    [Pair("filter", filter), Pair("sort", sort), Pair("direction", direction), Pair("page", page)]
  }

  lemma ParameterHere(name: string, value: string, rest: seq<string>)
    requires '=' !in name
    ensures Parameter([Pair(name, value)] + rest, name) == value
  {
    PairReads(name, value);
  }

  lemma ParameterLater(other: string, value: string, rest: seq<string>, name: string)
    requires '=' !in other && other != name
    ensures Parameter([Pair(other, value)] + rest, name) == Parameter(rest, name)
  {
    PairReads(other, value);
    assert ([Pair(other, value)] + rest)[1..] == rest;
  }

  lemma PairsRead(filter: string, sort: string, direction: string, page: string)
    ensures var ps := Pairs(filter, sort, direction, page);
      && Parameter(ps, "filter") == filter && Parameter(ps, "sort") == sort
      && Parameter(ps, "direction") == direction && Parameter(ps, "page") == page
  {
    hide Parameter, Pair;
    var d4 := [Pair("page", page)] + [];
    var d3 := [Pair("direction", direction)] + d4;
    var d2 := [Pair("sort", sort)] + d3;
    var d1 := [Pair("filter", filter)] + d2;
    assert Pairs(filter, sort, direction, page) == d1;
    assert |"filter"| == 6 && |"sort"| == 4 == |"page"| && |"direction"| == 9 && "sort"[0] != "page"[0];
    ParameterHere("filter", filter, d2);
    ParameterLater("filter", filter, d2, "sort");
    ParameterLater("filter", filter, d2, "direction");
    ParameterLater("filter", filter, d2, "page");
    ParameterHere("sort", sort, d3);
    ParameterLater("sort", sort, d3, "direction");
    ParameterLater("sort", sort, d3, "page");
    ParameterHere("direction", direction, d4);
    ParameterLater("direction", direction, d4, "page");
    ParameterHere("page", page, []);
  }

  lemma JoinStep(a: string, rest: seq<string>)
    requires rest != []
    ensures Join([a] + rest, "&") == a + ("&" + Join(rest, "&"))
  {
    assert ([a] + rest)[1..] == rest;
  }

  lemma JoinFour(a: string, b: string, c: string, d: string)
    ensures Join([a, b, c, d], "&") == a + ("&" + (b + ("&" + (c + ("&" + d)))))
  {
    JoinStep(c, [d]);
    JoinStep(b, [c, d]);
    JoinStep(a, [b, c, d]);
    assert [a] + [b, c, d] == [a, b, c, d] && [b] + [c, d] == [b, c, d] && [c] + [d] == [c, d];
    assert Join([d], "&") == d;
  }

  lemma HrefAsPairs(q: Query, base: string, page: nat)
    ensures Href(q, base, page)
         == base + (['?'] + Join(Pairs(FilterText(q.filter), SortText(q.sort), DirectionText(q.direction),
                                       Decimal.Print(page)), "&"))
  {
    hide FilterText, SortText, DirectionText, Decimal.Print;
    var f, s, d, p := FilterText(q.filter), SortText(q.sort), DirectionText(q.direction), Decimal.Print(page);
    JoinFour(Pair("filter", f), Pair("sort", s), Pair("direction", d), Pair("page", p));
    RegroupHref(base, f, s, d, p);
  }

  lemma RegroupHref(base: string, f: string, s: string, d: string, p: string)
    ensures base + "?filter=" + f + "&sort=" + s + "&direction=" + d + "&page=" + p
         == base + (['?'] + (("filter" + (['='] + f)) + ("&" + (("sort" + (['='] + s)) + ("&"
            + (("direction" + (['='] + d)) + ("&" + ("page" + (['='] + p)))))))))
  {
  }

  lemma DigitsHoldNoAmpersand(n: nat)
    ensures '&' !in Decimal.Print(n)
  {
    var s := Decimal.Print(n);
    assert forall i :: 0 <= i < |s| ==> Decimal.IsDigit(s[i]);
  }

  lemma TextsReadBack(q: Query, page: nat, usizeMax: nat)
    requires 1 <= page <= usizeMax
    ensures NewQuery(FilterText(q.filter), SortText(q.sort), DirectionText(q.direction), Decimal.Print(page), usizeMax)
         == q.(page := page)
    ensures '&' !in FilterText(q.filter) && '&' !in SortText(q.sort) && '&' !in DirectionText(q.direction)
  {
    Decimal.ValueOfPrint(page);
    assert "expiration"[0] != "description"[0] && |"created"| != |"description"|;
  }

  /** Following a link of the list asks for the same list at the page the link names. */
  lemma HrefReadsBack(q: Query, base: string, page: nat, usizeMax: nat)
    requires '?' !in base
    requires 1 <= page <= usizeMax
    ensures ReadQuery(Href(q, base, page), usizeMax) == q.(page := page)
  {
    var f, s, d, p := FilterText(q.filter), SortText(q.sort), DirectionText(q.direction), Decimal.Print(page);
    var pairs := Pairs(f, s, d, p);
    HrefAsPairs(q, base, page);
    CutAt(base, '?', ['?'] + Join(pairs, "&"));
    assert (['?'] + Join(pairs, "&"))[1..] == Join(pairs, "&");
    DigitsHoldNoAmpersand(page);
    TextsReadBack(q, page, usizeMax);
    NoAmpersands(f, s, d, p);
    SplitJoin(pairs, '&');
    PairsRead(f, s, d, p);
  }

  lemma NoAmpersands(f: string, s: string, d: string, p: string)
    requires '&' !in f && '&' !in s && '&' !in d && '&' !in p
    ensures forall x :: x in Pairs(f, s, d, p) ==> '&' !in x
  {
  }

  // --- links --------------------------------------------------------------------

  datatype Link = Link(
    id: nat,
    description: string,
    usesCount: nat,
    maxUses: Option<nat>,
    expiresAt: Option<int>,
    createdAt: int,
    revoked: bool)

  predicate IsActive(l: Link, now: int) {
    I.CheckInactive(l.revoked, l.expiresAt, l.usesCount, l.maxUses, now).None?
  }

  predicate Keeps(filter: Filter, l: Link, now: int) {
    match filter
    case All => true
    case Inactive => !IsActive(l, now)
    case Active => IsActive(l, now)
  }

  function Matching(links: seq<Link>, filter: Filter, now: int): (rows: seq<Link>)
    ensures |rows| <= |links|
  {
    if links == [] then []
    else if Keeps(filter, links[0], now) then [links[0]] + Matching(links[1..], filter, now)
    else Matching(links[1..], filter, now)
  }

  // --- the order of rows --------------------------------------------------------

  datatype Ordering = Less | Equal | Greater

  function Reverse(o: Ordering): Ordering {
    match o
    case Less => Greater
    case Equal => Equal
    case Greater => Less
  }

  function CompareInt(a: int, b: int): Ordering {
    if a < b then Less else if a == b then Equal else Greater
  }

  /** Lexicographic by character, which is how UTF-8 text compares byte by byte. */
  function CompareText(a: string, b: string): Ordering {
    if a == [] then (if b == [] then Equal else Less)
    else if b == [] then Greater
    else if a[0] < b[0] then Less
    else if a[0] > b[0] then Greater
    else CompareText(a[1..], b[1..])
  }

  function Directed(o: Ordering, d: Direction): Ordering {
    if d == Desc then Reverse(o) else o
  }

  function ThenById(o: Ordering, a: Link, b: Link): Ordering {
    if o == Equal then CompareInt(a.id, b.id) else o
  }

  /** The comparator of `select_links`; an undated link is decided before the direction is. */
  function Compare(sort: SortKey, d: Direction, a: Link, b: Link): Ordering {
    match sort
    case Description => ThenById(Directed(CompareText(a.description, b.description), d), a, b)
    case Uses => ThenById(Directed(CompareInt(a.usesCount, b.usesCount), d), a, b)
    case Created => ThenById(Directed(CompareInt(a.createdAt, b.createdAt), d), a, b)
    case Expiration =>
      match (a.expiresAt, b.expiresAt)
      case (None, Some(_)) => Greater
      case (Some(_), None) => Less
      case (None, None) => ThenById(Directed(Equal, d), a, b)
      case (Some(x), Some(y)) => ThenById(Directed(CompareInt(x, y), d), a, b)
  }

  lemma {:induction false} CompareTextReverses(a: string, b: string)
    ensures CompareText(b, a) == Reverse(CompareText(a, b))
    ensures CompareText(a, b) == Equal <==> a == b
  {
    if a != [] && b != [] && a[0] == b[0] {
      CompareTextReverses(a[1..], b[1..]);
      assert a == [a[0]] + a[1..] && b == [b[0]] + b[1..];
    }
  }

  lemma {:induction false} CompareTextTransitive(a: string, b: string, c: string)
    requires CompareText(a, b) == Less && CompareText(b, c) == Less
    ensures CompareText(a, c) == Less
  {
    if a != [] && a[0] == b[0] == c[0] {
      CompareTextTransitive(a[1..], b[1..], c[1..]);
    }
  }

  /** Swapping the arguments reverses the verdict, and only equal ids tie. */
  lemma CompareReverses(sort: SortKey, d: Direction, a: Link, b: Link)
    ensures Compare(sort, d, b, a) == Reverse(Compare(sort, d, a, b))
    ensures Compare(sort, d, a, b) == Equal ==> a.id == b.id
    ensures a == b ==> Compare(sort, d, a, b) == Equal
  {
    CompareTextReverses(a.description, b.description);
  }

  /** What the comparator decides before it falls back to ids. */
  function Primary(sort: SortKey, d: Direction, a: Link, b: Link): Ordering {
    match sort
    case Description => Directed(CompareText(a.description, b.description), d)
    case Uses => Directed(CompareInt(a.usesCount, b.usesCount), d)
    case Created => Directed(CompareInt(a.createdAt, b.createdAt), d)
    case Expiration =>
      match (a.expiresAt, b.expiresAt)
      case (None, Some(_)) => Greater
      case (Some(_), None) => Less
      case (None, None) => Equal
      case (Some(x), Some(y)) => Directed(CompareInt(x, y), d)
  }

  lemma CompareByPrimary(sort: SortKey, d: Direction, a: Link, b: Link)
    ensures Compare(sort, d, a, b) == ThenById(Primary(sort, d, a, b), a, b)
  {
  }

  lemma PrimaryTransitive(sort: SortKey, d: Direction, a: Link, b: Link, c: Link)
    requires Primary(sort, d, a, b) != Greater && Primary(sort, d, b, c) != Greater
    ensures Primary(sort, d, a, c) != Greater
    ensures Primary(sort, d, a, c) == Equal ==> Primary(sort, d, a, b) == Equal && Primary(sort, d, b, c) == Equal
  {
    if sort == Description {
      CompareTextReverses(a.description, b.description);
      CompareTextReverses(b.description, c.description);
      CompareTextReverses(a.description, c.description);
      if d == Asc {
        TextNotAfter(a.description, b.description, c.description);
      } else {
        TextNotAfter(c.description, b.description, a.description);
      }
    }
  }

  lemma TextNotAfter(a: string, b: string, c: string)
    requires CompareText(a, b) != Greater && CompareText(b, c) != Greater
    ensures CompareText(a, c) != Greater
    ensures CompareText(a, c) == Equal ==> CompareText(a, b) == Equal && CompareText(b, c) == Equal
  {
    CompareTextReverses(a, b);
    CompareTextReverses(b, c);
    CompareTextReverses(a, c);
    if CompareText(a, b) == Less && CompareText(b, c) == Less { CompareTextTransitive(a, b, c); }
  }

  lemma CompareTransitive(sort: SortKey, d: Direction, a: Link, b: Link, c: Link)
    requires Compare(sort, d, a, b) != Greater && Compare(sort, d, b, c) != Greater
    ensures Compare(sort, d, a, c) != Greater
  {
    CompareByPrimary(sort, d, a, b);
    CompareByPrimary(sort, d, b, c);
    CompareByPrimary(sort, d, a, c);
    PrimaryTransitive(sort, d, a, b, c);
  }

  function NotAfter(sort: SortKey, d: Direction): (Link, Link) -> bool {
    (a: Link, b: Link) => Compare(sort, d, a, b) != Greater
  }

  /** For every sort key and direction the comparator is a total order: a lawful comparator for the sort. */
  lemma ComparatorIsTotalOrder(sort: SortKey, d: Direction)
    ensures Sorting.Preorder(NotAfter(sort, d))
  {
    var leq := NotAfter(sort, d);
    forall a, b ensures leq(a, b) || leq(b, a) {
      CompareReverses(sort, d, a, b);
    }
    forall a, b, c | leq(a, b) && leq(b, c) ensures leq(a, c) {
      CompareTransitive(sort, d, a, b, c);
    }
  }

  // --- selection ----------------------------------------------------------------

  const PAGE_SIZE: nat := 25

  datatype Selection = Selection(
    query: Query,
    rows: seq<Link>,
    totalLinks: nat,
    matchingLinks: nat,
    totalPages: nat)

  function LinkId(l: Link): nat {
    l.id
  }

  /** Every matching link, in the one order the query asks for. */
  function Canonical(links: seq<Link>, q: Query, now: int): seq<Link> {
    Sorting.Sort(NotAfter(q.sort, q.direction), Matching(links, q.filter, now))
  }

  function TotalPages(rows: nat): (n: nat)
    ensures n >= 1
  {
    Max1((rows + (PAGE_SIZE - 1)) / PAGE_SIZE)
  }

  function Skip<T>(s: seq<T>, n: nat): seq<T> {
    if n <= |s| then s[n..] else []
  }

  function Take<T>(s: seq<T>, n: nat): seq<T> {
    if n <= |s| then s[..n] else s
  }

  function Page(rows: seq<Link>, page: nat): seq<Link>
    requires page >= 1
  {
    Take(Skip(rows, (page - 1) * PAGE_SIZE), PAGE_SIZE)
  }

  function Select(links: seq<Link>, q: Query, now: int): Selection
    requires q.page >= 1
  {
    var rows := Canonical(links, q, now);
    var totalPages := TotalPages(|rows|);
    var page := Decimal.Min(q.page, totalPages);
    Selection(q.(page := page), Page(rows, page), |links|, |rows|, totalPages)
  }

  method SelectLinks(links: seq<Link>, query: Query, now: int) returns (s: Selection)
    requires query.page >= 1
    ensures s == Select(links, query, now)
  {
    var rows := [];
    for i := |links| downto 0
      invariant rows == Matching(links[i..], query.filter, now)
    {
      assert links[i..][1..] == links[i + 1..];
      if Keeps(query.filter, links[i], now) {
        rows := [links[i]] + rows;
      }
    }
    assert links[0..] == links;
    rows := Sorting.Sort(NotAfter(query.sort, query.direction), rows);
    var matchingLinks := |rows|;
    var totalPages := TotalPages(matchingLinks);
    var shown := query.(page := Decimal.Min(query.page, totalPages));
    s := Selection(shown, Page(rows, shown.page), |links|, matchingLinks, totalPages);
  }

  // Filtering.

  lemma {:induction false} MatchingIsFilter(links: seq<Link>, filter: Filter, now: int)
    ensures forall x :: multiset(Matching(links, filter, now))[x]
                     == if Keeps(filter, x, now) then multiset(links)[x] else 0
  {
    if links != [] {
      MatchingIsFilter(links[1..], filter, now);
      assert links == [links[0]] + links[1..];
      assert multiset(links) == multiset{links[0]} + multiset(links[1..]);
    }
  }

  lemma CanonicalIsFilter(links: seq<Link>, q: Query, now: int, x: Link)
    ensures multiset(Canonical(links, q, now))[x] == if Keeps(q.filter, x, now) then multiset(links)[x] else 0
  {
    MatchingIsFilter(links, q.filter, now);
  }

  /** Every link is in the active list or in the inactive one, never in both. */
  lemma ActiveAndInactivePartition(links: seq<Link>, q: Query, now: int)
    ensures multiset(Canonical(links, q.(filter := Active), now))
          + multiset(Canonical(links, q.(filter := Inactive), now)) == multiset(links)
    ensures multiset(Canonical(links, q.(filter := All), now)) == multiset(links)
  {
    hide Canonical;
    forall x ensures multiset(Canonical(links, q.(filter := Active), now))[x]
                   + multiset(Canonical(links, q.(filter := Inactive), now))[x] == multiset(links)[x]
      ensures multiset(Canonical(links, q.(filter := All), now))[x] == multiset(links)[x]
    {
      CanonicalIsFilter(links, q.(filter := Active), now, x);
      CanonicalIsFilter(links, q.(filter := Inactive), now, x);
      CanonicalIsFilter(links, q.(filter := All), now, x);
    }
  }

  // The canonical order.

  lemma CanonicalOrdered(links: seq<Link>, q: Query, now: int)
    ensures Sorting.Ordered(NotAfter(q.sort, q.direction), Canonical(links, q, now))
  {
    ComparatorIsTotalOrder(q.sort, q.direction);
    Sorting.SortOrdered(NotAfter(q.sort, q.direction), Matching(links, q.filter, now));
  }

  /** Each matching link exactly once, in sorted order. */
  lemma CanonicalRows(links: seq<Link>, q: Query, now: int)
    ensures forall x :: multiset(Canonical(links, q, now))[x] == if Keeps(q.filter, x, now) then multiset(links)[x] else 0
    ensures forall i, j :: 0 <= i < j < |Canonical(links, q, now)| ==>
      Compare(q.sort, q.direction, Canonical(links, q, now)[i], Canonical(links, q, now)[j]) != Greater
  {
    MatchingIsFilter(links, q.filter, now);
    CanonicalOrdered(links, q, now);
    var rows := Canonical(links, q, now);
    forall i, j | 0 <= i < j < |rows| ensures Compare(q.sort, q.direction, rows[i], rows[j]) != Greater {
      assert NotAfter(q.sort, q.direction)(rows[i], rows[j]);
    }
  }

  /** Under expiration, in either direction, no dated link comes after an undated one. */
  lemma UndatedLast(links: seq<Link>, q: Query, now: int, i: nat, j: nat)
    requires q.sort == Expiration
    requires i < j < |Canonical(links, q, now)|
    requires Canonical(links, q, now)[i].expiresAt.None?
    ensures Canonical(links, q, now)[j].expiresAt.None?
  {
    CanonicalRows(links, q, now);
    var rows := Canonical(links, q, now);
    assert Compare(q.sort, q.direction, rows[i], rows[j]) != Greater;
  }

  /** Links that tie on the sort key come in ascending id order, in either direction. */
  lemma TiesByAscendingId(links: seq<Link>, q: Query, now: int, i: nat, j: nat)
    requires i < j < |Canonical(links, q, now)|
    requires Primary(q.sort, q.direction, Canonical(links, q, now)[i], Canonical(links, q, now)[j]) == Equal
    ensures Canonical(links, q, now)[i].id <= Canonical(links, q, now)[j].id
  {
    CanonicalRows(links, q, now);
    var rows := Canonical(links, q, now);
    CompareByPrimary(q.sort, q.direction, rows[i], rows[j]);
    assert Compare(q.sort, q.direction, rows[i], rows[j]) != Greater;
  }

  lemma MatchingForgetsOrder(a: seq<Link>, b: seq<Link>, filter: Filter, now: int)
    requires multiset(a) == multiset(b)
    ensures multiset(Matching(a, filter, now)) == multiset(Matching(b, filter, now))
  {
    MatchingIsFilter(a, filter, now);
    MatchingIsFilter(b, filter, now);
  }

  lemma MatchingIsTieless(links: seq<Link>, q: Query, now: int)
    requires Sorting.DistinctKeys(LinkId, links)
    ensures Sorting.Tieless(NotAfter(q.sort, q.direction), Matching(links, q.filter, now))
  {
    var leq, rows := NotAfter(q.sort, q.direction), Matching(links, q.filter, now);
    MatchingIsFilter(links, q.filter, now);
    Sorting.DistinctIsOneEach(LinkId, links);
    forall x, y | x in rows && y in rows && leq(x, y) && leq(y, x) ensures x == y {
      CompareReverses(q.sort, q.direction, x, y);
      assert x in multiset(rows) && y in multiset(rows);
      assert x in multiset(links) && y in multiset(links);
      assert LinkId(x) == LinkId(y);
    }
  }

  /** The page shown does not depend on the order in which the links were read. */
  lemma SelectionForgetsOrder(a: seq<Link>, b: seq<Link>, q: Query, now: int)
    requires q.page >= 1
    requires multiset(a) == multiset(b) && Sorting.DistinctKeys(LinkId, a)
    ensures Select(a, q, now) == Select(b, q, now)
  {
    assert |a| == |multiset(a)| == |multiset(b)| == |b|;
    ComparatorIsTotalOrder(q.sort, q.direction);
    MatchingIsTieless(a, q, now);
    MatchingForgetsOrder(a, b, q.filter, now);
    Sorting.SortForgetsOrder(NotAfter(q.sort, q.direction),
                             Matching(a, q.filter, now), Matching(b, q.filter, now));
  }

  // Paging.

  /** The rows of pages 1 to `n`, one page after another. */
  function PagesUpTo(links: seq<Link>, q: Query, now: int, n: nat): seq<Link> {
    if n == 0 then []
    else PagesUpTo(links, q, now, n - 1) + Select(links, q.(page := n), now).rows
  }

  lemma PageIsSlice(rows: seq<Link>, page: nat)
    requires page >= 1
    ensures page * PAGE_SIZE <= |rows| ==> Page(rows, page) == rows[(page - 1) * PAGE_SIZE..page * PAGE_SIZE]
    ensures (page - 1) * PAGE_SIZE <= |rows| <= page * PAGE_SIZE ==> Page(rows, page) == rows[(page - 1) * PAGE_SIZE..]
  {
  }

  lemma TotalPagesCover(rows: nat)
    ensures (TotalPages(rows) - 1) * PAGE_SIZE <= rows <= TotalPages(rows) * PAGE_SIZE
    ensures rows > 0 ==> (TotalPages(rows) - 1) * PAGE_SIZE < rows
  {
  }

  /** Asking for a page that exists shows that page of the canonical list. */
  lemma SelectedPage(links: seq<Link>, q: Query, now: int, n: nat)
    requires 1 <= n <= TotalPages(|Canonical(links, q, now)|)
    ensures Select(links, q.(page := n), now).rows == Page(Canonical(links, q, now), n)
    ensures Select(links, q.(page := n), now).totalPages == TotalPages(|Canonical(links, q, now)|)
  {
    assert Canonical(links, q.(page := n), now) == Canonical(links, q, now);
  }

  lemma SliceGrows<T>(s: seq<T>, a: nat, b: nat)
    requires a <= b <= |s|
    ensures s[..a] + s[a..b] == s[..b]
    ensures s[..a] + s[a..] == s
  {
  }

  lemma {:induction false} PagesArePrefix(links: seq<Link>, q: Query, now: int, n: nat)
    requires n < TotalPages(|Canonical(links, q, now)|)
    ensures n * PAGE_SIZE <= |Canonical(links, q, now)|
    ensures PagesUpTo(links, q, now, n) == Canonical(links, q, now)[..n * PAGE_SIZE]
  {
    hide Canonical, Select, Page;
    var rows := Canonical(links, q, now);
    TotalPagesCover(|rows|);
    if n > 0 {
      PagesArePrefix(links, q, now, n - 1);
      SelectedPage(links, q, now, n);
      PageIsSlice(rows, n);
      SliceGrows(rows, (n - 1) * PAGE_SIZE, n * PAGE_SIZE);
    }
  }

  /** The pages, one after another, are the canonical list: nothing is lost, repeated or reordered. */
  lemma PagesPartition(links: seq<Link>, q: Query, now: int)
    ensures PagesUpTo(links, q, now, Select(links, q.(page := 1), now).totalPages) == Canonical(links, q, now)
  {
    hide Canonical, Select, Page;
    var rows := Canonical(links, q, now);
    var last := TotalPages(|rows|);
    SelectedPage(links, q, now, 1);
    TotalPagesCover(|rows|);
    PagesArePrefix(links, q, now, last - 1);
    SelectedPage(links, q, now, last);
    PageIsSlice(rows, last);
    SliceGrows(rows, (last - 1) * PAGE_SIZE, |rows|);
  }

  /** Every page but the last is full, the last holds what is left, and asking further shows the last. */
  lemma PageSizes(links: seq<Link>, q: Query, now: int)
    requires q.page >= 1
    ensures var s := Select(links, q, now);
      && 1 <= s.query.page <= s.totalPages
      && (s.query.page < s.totalPages ==> |s.rows| == 25)
      && (s.query.page == s.totalPages ==> |s.rows| == s.matchingLinks - (s.totalPages - 1) * 25)
      && (s.matchingLinks > 0 ==> s.rows != [])
      && (q.page >= s.totalPages ==> s == Select(links, q.(page := s.totalPages), now))
  {
    hide Page;
    var rows := Canonical(links, q, now);
    var last := TotalPages(|rows|);
    TotalPagesCover(|rows|);
    PageIsSlice(rows, Decimal.Min(q.page, last));
    assert Canonical(links, q.(page := last), now) == rows;
  }

  // --- what is shown, over the links' own fields --------------------------------

  /** Each parameter picks its own word; any other word is the default; a page that is no numeral is the first. */
  lemma QueryExactly(filter: string, sort: string, direction: string, page: string, usizeMax: nat)
    ensures var q := NewQuery(filter, sort, direction, page, usizeMax);
      && (q.filter == Inactive <==> filter == "inactive") && (q.filter == All <==> filter == "all")
      && (q.sort == Description <==> sort == "description") && (q.sort == Uses <==> sort == "uses")
      && (q.sort == Expiration <==> sort == "expiration")
      && (q.direction == Asc <==> direction == "asc")
      && ((page == [] || exists i :: 0 <= i < |page| && !('0' <= page[i] <= '9')) ==> q.page == 1)
  {
    assert "inactive" != "all" && "description" != "uses" && "description" != "expiration" && "uses" != "expiration";
  }

  /** Not revoked, not expired at `now`, and below its use limit. */
  predicate Usable(l: Link, now: int) {
    && !l.revoked
    && (l.expiresAt.Some? ==> now < l.expiresAt.value)
    && (l.maxUses.Some? ==> l.usesCount < l.maxUses.value)
  }

  /** The rows of all pages: under the active filter exactly the usable links, under the inactive one exactly the
    * others, and under neither all of them, each as often as it was given. */
  lemma ShownExactly(links: seq<Link>, q: Query, now: int, x: Link)
    ensures var shown := PagesUpTo(links, q, now, Select(links, q.(page := 1), now).totalPages);
      multiset(shown)[x] ==
        match q.filter
        case Active => if Usable(x, now) then multiset(links)[x] else 0
        case Inactive => if Usable(x, now) then 0 else multiset(links)[x]
        case All => multiset(links)[x]
  {
    hide Canonical, Select, PagesUpTo;
    PagesPartition(links, q, now);
    CanonicalIsFilter(links, q, now, x);
    I.InactiveExactly(x.revoked, x.expiresAt, x.usesCount, x.maxUses, now);
  }

  /** Text order: at the first difference the smaller character, or the end, comes first. */
  ghost predicate LexBefore(a: string, b: string) {
    exists k :: 0 <= k <= |a| && k <= |b| && a[..k] == b[..k] && DiffersAt(a, b, k)
  }

  predicate DiffersAt(a: string, b: string, k: nat)
    requires k <= |a| && k <= |b|
  {
    if k == |a| then k < |b| else k < |b| && a[k] < b[k]
  }

  lemma {:induction false} CompareTextIsLex(a: string, b: string)
    ensures CompareText(a, b) == Less <==> LexBefore(a, b)
  {
    if a == [] || b == [] || a[0] != b[0] {
      if CompareText(a, b) == Less {
        assert a[..0] == b[..0] && DiffersAt(a, b, 0);
      }
      if k :| 0 <= k <= |a| && k <= |b| && a[..k] == b[..k] && DiffersAt(a, b, k) {
        SameHead(a, b, k);
      }
    } else {
      CompareTextIsLex(a[1..], b[1..]);
      if LexBefore(a[1..], b[1..]) {
        var k :| 0 <= k <= |a[1..]| && k <= |b[1..]| && a[1..][..k] == b[1..][..k] && DiffersAt(a[1..], b[1..], k);
        assert a[..k + 1] == [a[0]] + a[1..][..k] && b[..k + 1] == [b[0]] + b[1..][..k];
        assert DiffersAt(a, b, k + 1);
      }
      if k :| 0 <= k <= |a| && k <= |b| && a[..k] == b[..k] && DiffersAt(a, b, k) {
        assert k > 0;
        assert a[1..][..k - 1] == a[..k][1..] && b[1..][..k - 1] == b[..k][1..];
        assert DiffersAt(a[1..], b[1..], k - 1);
      }
    }
  }

  lemma SameHead(a: string, b: string, k: nat)
    requires k <= |a| && k <= |b| && a[..k] == b[..k]
    ensures k > 0 ==> a != [] && b != [] && a[0] == b[0]
  {
    if k > 0 {
      assert a[..k][0] == a[0] && b[..k][0] == b[0];
    }
  }

  /** Row `a` may stand before row `b`: ascending no greater key before, descending no smaller one; dates before none. */
  ghost predicate KeysInOrder(sort: SortKey, d: Direction, a: Link, b: Link) {
    match sort
    case Description => if d == Asc then !LexBefore(b.description, a.description) else !LexBefore(a.description, b.description)
    case Uses => if d == Asc then a.usesCount <= b.usesCount else a.usesCount >= b.usesCount
    case Created => if d == Asc then a.createdAt <= b.createdAt else a.createdAt >= b.createdAt
    case Expiration =>
      b.expiresAt.Some? ==>
        a.expiresAt.Some?
        && if d == Asc then a.expiresAt.value <= b.expiresAt.value else a.expiresAt.value >= b.expiresAt.value
  }

  /** In the list no row stands before another against the chosen key and direction. */
  lemma RowsInOrder(links: seq<Link>, q: Query, now: int, i: nat, j: nat)
    requires i < j < |PagesUpTo(links, q, now, Select(links, q.(page := 1), now).totalPages)|
    ensures var shown := PagesUpTo(links, q, now, Select(links, q.(page := 1), now).totalPages);
      KeysInOrder(q.sort, q.direction, shown[i], shown[j])
  {
    hide Canonical, Select, PagesUpTo, CompareText, LexBefore;
    PagesPartition(links, q, now);
    CanonicalRows(links, q, now);
    var a, b := Canonical(links, q, now)[i], Canonical(links, q, now)[j];
    assert Compare(q.sort, q.direction, a, b) != Greater;
    CompareTextIsLex(a.description, b.description);
    CompareTextIsLex(b.description, a.description);
    CompareTextReverses(a.description, b.description);
  }

  /** The figures beside the rows: all links, the matching ones, and pages of 25 for them, the first always there. */
  lemma CountsExactly(links: seq<Link>, q: Query, now: int)
    requires q.page >= 1
    ensures var s := Select(links, q, now);
      && s.totalLinks == |links|
      && s.matchingLinks == |PagesUpTo(links, q, now, s.totalPages)|
      && (if s.matchingLinks == 0 then s.totalPages == 1
          else (s.totalPages - 1) * 25 < s.matchingLinks <= s.totalPages * 25)
      && s.query == q.(page := if q.page <= s.totalPages then q.page else s.totalPages)
  {
    hide Canonical;
    PagesPartition(links, q, now);
    TotalPagesCover(|Canonical(links, q, now)|);
    assert Canonical(links, q.(page := 1), now) == Canonical(links, q, now) by {
      PageDoesNotMatter(links, q, now);
    }
  }

  lemma PageDoesNotMatter(links: seq<Link>, q: Query, now: int)
    ensures Canonical(links, q.(page := 1), now) == Canonical(links, q, now)
  {
  }
}
