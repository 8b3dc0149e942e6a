/** Creation rules of an invitation link: text, repository scope, normalisation, activity. */
module InvitationLinks {
  import opened Wrappers
  import opened Text
  import opened Sorting

  const DESCRIPTION_MAX_CHARS: nat := 120
  const INTERNAL_NOTE_MAX_BYTES: nat := 16_384
  const REPOSITORY_SCOPE_MAX_REPOS: nat := 100
  const REPOSITORY_FULL_NAME_MAX_BYTES: nat := 256

  // --- description and internal note --------------------------------------------

  datatype DescriptionError = Required | MultiLine | TooLong

  predicate LineBreak(c: char) {
    c == '\r' || c == '\n'
  }

  predicate HasLineBreak(s: string) {
    exists i :: 0 <= i < |s| && LineBreak(s[i])
  }

  function ParseDescription(raw: string): Result<string, DescriptionError> {
    var trimmed := Trim(raw);
    if trimmed == [] then Err(Required)
    else if HasLineBreak(raw) then Err(MultiLine)
    else if |trimmed| > DESCRIPTION_MAX_CHARS then Err(TooLong)
    else Ok(trimmed)
  }

  /** A description as it is stored: nonempty, one line, trimmed, at most 120 characters. */
  predicate StoredDescription(s: string) {
    s != [] && Trimmed(s) && !HasLineBreak(s) && |s| <= DESCRIPTION_MAX_CHARS
  }

  datatype NoteError = NoteTooLong

  function ParseInternalNote(raw: string): Result<Option<string>, NoteError> {
    var trimmed := Trim(raw);
    if ByteLength(trimmed) > INTERNAL_NOTE_MAX_BYTES then Err(NoteTooLong)
    else Ok(if trimmed == [] then None else Some(trimmed))
  }

  predicate StoredNote(s: string) {
    s != [] && Trimmed(s) && ByteLength(s) <= INTERNAL_NOTE_MAX_BYTES
  }

  lemma TrimKeepsOneLine(raw: string)
    requires !HasLineBreak(raw)
    ensures !HasLineBreak(Trim(raw))
  {
    var left, right := TrimSplits(raw);
    var t := Trim(raw);
    forall i | 0 <= i < |t| ensures !LineBreak(t[i]) {
      assert t[i] == raw[|left| + i];
    }
  }

  /** What parses is stored trimmed on one line, and a stored description parses to itself. */
  lemma DescriptionParses(raw: string)
    ensures ParseDescription(raw).Ok? ==> StoredDescription(ParseDescription(raw).value)
    ensures StoredDescription(raw) <==> ParseDescription(raw) == Ok(raw)
  {
    if !HasLineBreak(raw) { TrimKeepsOneLine(raw); }
    if Trimmed(raw) { TrimOfTrimmed(raw); }
  }

  lemma NoteParses(raw: string)
    ensures ParseInternalNote(raw).Ok? && ParseInternalNote(raw).value.Some? ==>
      StoredNote(ParseInternalNote(raw).value.value)
    ensures StoredNote(raw) <==> ParseInternalNote(raw) == Ok(Some(raw))
  {
    if Trimmed(raw) { TrimOfTrimmed(raw); }
  }

  /** Blanks around a description do not matter; a line break anywhere does. */
  lemma DescriptionIgnoresOuterBlanks(left: string, raw: string, right: string)
    requires AllWhitespace(left) && AllWhitespace(right)
    requires !HasLineBreak(left) && !HasLineBreak(right)
    ensures ParseDescription(left + raw + right) == ParseDescription(raw)
  {
    TrimIgnoresOuterWhitespace(left, raw, right);
    var s := left + raw + right;
    if HasLineBreak(raw) {
      var i :| 0 <= i < |raw| && LineBreak(raw[i]);
      assert s[|left| + i] == raw[i];
    }
  }

  lemma DescriptionRejectsAnyLineBreak(left: string, raw: string, right: string)
    requires HasLineBreak(left) || HasLineBreak(right)
    ensures ParseDescription(left + raw + right).Err?
  {
    var s := left + raw + right;
    if HasLineBreak(left) {
      var i :| 0 <= i < |left| && LineBreak(left[i]);
      assert s[i] == left[i];
    } else {
      var i :| 0 <= i < |right| && LineBreak(right[i]);
      assert s[|left| + |raw| + i] == right[i];
    }
  }

  // --- repositories -------------------------------------------------------------

  datatype Repo = Repo(id: nat, fullName: string)

  /** `RepositoryIdentity::parse` succeeds: one slash with a name on each side. */
  predicate FullNameParses(fullName: string) {
    var rest := From(fullName, '/');
    rest != [] && Before(fullName, '/') != [] && |rest| > 1 && '/' !in rest[1..]
  }

  /** The accepted full names are exactly a nonempty owner and a nonempty name around their only slash. */
  lemma FullNameForm(fullName: string)
    ensures FullNameParses(fullName) <==> exists owner, name :: IsFullName(fullName, owner, name)
  {
    if FullNameParses(fullName) {
      BeforeFrom(fullName, '/');
      var rest := From(fullName, '/');
      assert rest == ['/'] + rest[1..];
      assert IsFullName(fullName, Before(fullName, '/'), rest[1..]);
    }
    if owner, name :| IsFullName(fullName, owner, name) {
      CutAt(owner, '/', ['/'] + name);
      assert (['/'] + name)[1..] == name;
    }
  }

  predicate IsFullName(fullName: string, owner: string, name: string) {
    fullName == owner + (['/'] + name) && owner != [] && name != [] && '/' !in owner && '/' !in name
  }

  predicate ValidRepo(r: Repo) {
    && r.id != 0
    && ByteLength(r.fullName) <= REPOSITORY_FULL_NAME_MAX_BYTES
    && FullNameParses(r.fullName)
  }

  datatype ScopeError = Empty | TooMany | Duplicate | InvalidRepository

  predicate ById(a: Repo, b: Repo) {
    a.id <= b.id
  }

  function RepoId(r: Repo): nat {
    r.id
  }

  predicate AllValid(repos: seq<Repo>) {
    forall i :: 0 <= i < |repos| ==> ValidRepo(repos[i])
  }

  function ParseScope(repos: seq<Repo>): Result<seq<Repo>, ScopeError> {
    if repos == [] then Err(Empty)
    else if |repos| > REPOSITORY_SCOPE_MAX_REPOS then Err(TooMany)
    else
      var sorted := Sort(ById, repos);
      if exists i :: 0 < i < |sorted| && sorted[i - 1].id == sorted[i].id then Err(Duplicate)
      else if !AllValid(sorted) then Err(InvalidRepository)
      else Ok(sorted)
  }

  ghost predicate AscendingIds(repos: seq<Repo>) {
    forall i, j :: 0 <= i < j < |repos| ==> repos[i].id < repos[j].id
  }

  /** A scope as it is stored. */
  ghost predicate StoredScope(repos: seq<Repo>) {
    && 1 <= |repos| <= REPOSITORY_SCOPE_MAX_REPOS
    && AscendingIds(repos)
    && AllValid(repos)
  }

  lemma SortedById(repos: seq<Repo>)
    ensures Ordered(ById, Sort(ById, repos))
  {
    SortOrdered(ById, repos);
  }

  /** Sorted ids repeat exactly when neighbours do. */
  lemma {:induction false} NeighboursDecide(s: seq<Repo>)
    requires Ordered(ById, s)
    ensures AscendingIds(s) <==> !exists i :: 0 < i < |s| && s[i - 1].id == s[i].id
  {
    if forall i :: 0 < i < |s| ==> s[i - 1].id != s[i].id {
      forall i, j | 0 <= i < j < |s| ensures s[i].id < s[j].id {
        assert ById(s[i], s[i + 1]) && s[i + 1 - 1].id != s[i + 1].id;
        assert i + 1 == j || ById(s[i + 1], s[j]);
      }
    } else {
      var i :| 0 < i < |s| && s[i - 1].id == s[i].id;
      assert !(s[i - 1].id < s[i].id);
    }
  }

  lemma AscendingIffDistinct(repos: seq<Repo>)
    ensures AscendingIds(Sort(ById, repos)) <==> DistinctKeys(RepoId, repos)
  {
    var sorted := Sort(ById, repos);
    SortedById(repos);
    if DistinctKeys(RepoId, repos) {
      DistinctForgetsOrder(RepoId, repos, sorted);
      forall i, j | 0 <= i < j < |sorted| ensures sorted[i].id < sorted[j].id {
        assert ById(sorted[i], sorted[j]) && RepoId(sorted[i]) != RepoId(sorted[j]);
      }
    }
    if AscendingIds(sorted) {
      assert DistinctKeys(RepoId, sorted);
      DistinctForgetsOrder(RepoId, sorted, repos);
    }
  }

  lemma SortKeepsValidity(repos: seq<Repo>)
    ensures AllValid(Sort(ById, repos)) <==> AllValid(repos)
  {
    hide AllValid, Sort;
    var sorted := Sort(ById, repos);
    SortMembers(ById, repos);
    SameMembersSameValidity(repos, sorted);
    SameMembersSameValidity(sorted, repos);
  }

  lemma SameMembersSameValidity(a: seq<Repo>, b: seq<Repo>)
    requires forall x :: x in b ==> x in a
    ensures AllValid(a) ==> AllValid(b)
  {
    hide ValidRepo;
    forall i | 0 <= i < |b| ensures b[i] in a {
      assert b[i] in b;
    }
  }

  /** The outcome for every list of repositories, errors in their order of precedence. */
  lemma {:induction false} ScopeOutcome(repos: seq<Repo>)
    ensures ParseScope(repos) ==
      if |repos| == 0 then Err(Empty)
      else if |repos| > REPOSITORY_SCOPE_MAX_REPOS then Err(TooMany)
      else if !DistinctKeys(RepoId, repos) then Err(Duplicate)
      else if !AllValid(repos) then Err(InvalidRepository)
      else Ok(Sort(ById, repos))
  {
    SortedById(repos);
    NeighboursDecide(Sort(ById, repos));
    AscendingIffDistinct(repos);
    SortKeepsValidity(repos);
  }

  /** An accepted scope is the strictly ascending arrangement of exactly the given repositories. */
  lemma AcceptedScope(repos: seq<Repo>)
    requires ParseScope(repos).Ok?
    ensures StoredScope(ParseScope(repos).value)
    ensures multiset(ParseScope(repos).value) == multiset(repos)
  {
    ScopeOutcome(repos);
    AscendingIffDistinct(repos);
    SortKeepsValidity(repos);
  }

  lemma StoredScopeParses(repos: seq<Repo>)
    requires StoredScope(repos)
    ensures ParseScope(repos) == Ok(repos)
  {
    assert Ordered(ById, repos);
    SortOfOrdered(ById, repos);
    ScopeOutcome(repos);
    assert DistinctKeys(RepoId, repos);
  }

  /** The outcome does not depend on the order of the input. */
  lemma ScopeForgetsOrder(a: seq<Repo>, b: seq<Repo>)
    requires multiset(a) == multiset(b)
    ensures ParseScope(a) == ParseScope(b)
  {
    assert |a| == |multiset(a)| == |multiset(b)| == |b|;
    ScopeOutcome(a);
    ScopeOutcome(b);
    ValidityForgetsOrder(a, b);
    if DistinctKeys(RepoId, a) {
      DistinctForgetsOrder(RepoId, a, b);
      forall x, y | x in a && y in a && ById(x, y) && ById(y, x) ensures x == y {
        assert RepoId(x) == RepoId(y);
      }
      SortForgetsOrder(ById, a, b);
    } else if DistinctKeys(RepoId, b) {
      DistinctForgetsOrder(RepoId, b, a);
    }
  }

  lemma ValidityForgetsOrder(a: seq<Repo>, b: seq<Repo>)
    requires multiset(a) == multiset(b)
    ensures AllValid(a) <==> AllValid(b)
  {
    assert forall i :: 0 <= i < |a| ==> a[i] in multiset(b);
    assert forall i :: 0 <= i < |b| ==> b[i] in multiset(a);
  }

  // --- creation -----------------------------------------------------------------

  datatype Permission = Pull | Triage | Push | Maintain | Admin

  datatype AccountAdmin = AccountAdmin(accountId: nat, userId: nat)

  datatype CreateLink = CreateLink(
    linkId: nat,
    admin: AccountAdmin,
    accountId: nat,
    installationId: nat,
    description: string,
    internalNote: Option<string>,
    expiresAt: Option<int>,
    maxUses: Option<nat>,
    permission: Permission,
    approvalRequired: bool,
    repos: seq<Repo>)

  datatype InvalidLinkValues = InvalidLinkValues

  datatype LinkMetadata = LinkMetadata(description: string, internalNote: Option<string>)

  function ParseMetadata(description: string, internalNote: Option<string>): Result<LinkMetadata, InvalidLinkValues> {
    match ParseDescription(description)
    case Err(_) => Err(InvalidLinkValues)
    case Ok(d) =>
      match internalNote
      case None => Ok(LinkMetadata(d, None))
      case Some(note) =>
        match ParseInternalNote(note)
        case Err(_) => Err(InvalidLinkValues)
        case Ok(n) => Ok(LinkMetadata(d, n))
  }

  function Normalized(c: CreateLink): Result<CreateLink, InvalidLinkValues> {
    if c.installationId == 0 || c.maxUses == Some(0) then Err(InvalidLinkValues)
    else
      match ParseMetadata(c.description, c.internalNote)
      case Err(e) => Err(e)
      case Ok(metadata) =>
        var named := c.(description := metadata.description, internalNote := metadata.internalNote);
        match ParseScope(named.repos)
        case Err(_) => Err(InvalidLinkValues)
        case Ok(scope) => Ok(named.(repos := scope))
  }

  /** Creation data in its one stored form. */
  ghost predicate NormalForm(c: CreateLink) {
    && c.installationId != 0 && c.maxUses != Some(0)
    && StoredDescription(c.description)
    && (c.internalNote.Some? ==> StoredNote(c.internalNote.value))
    && StoredScope(c.repos)
  }

  /** Normalising reaches the normal form and stays there; only text and repository order can change. */
  lemma NormalizedIsNormal(c: CreateLink)
    requires Normalized(c).Ok?
    ensures NormalForm(Normalized(c).value)
    ensures var n := Normalized(c).value;
      && n == c.(description := n.description, internalNote := n.internalNote, repos := n.repos)
      && n.description == Trim(c.description)
      && n.internalNote == (if c.internalNote.Some? && Trim(c.internalNote.value) != []
                            then Some(Trim(c.internalNote.value)) else None)
      && multiset(n.repos) == multiset(c.repos)
  {
    DescriptionParses(c.description);
    if c.internalNote.Some? { NoteParses(c.internalNote.value); }
    AcceptedScope(c.repos);
  }

  /** Which creation data is accepted, over its own fields and in the limits' own numbers. */
  lemma NormalizedExactly(c: CreateLink)
    ensures Normalized(c).Ok? <==>
      && c.installationId != 0 && c.maxUses != Some(0)
      && 1 <= |Trim(c.description)| <= 120 && '\n' !in c.description && '\r' !in c.description
      && (c.internalNote.Some? ==> ByteLength(Trim(c.internalNote.value)) <= 16384)
      && 1 <= |c.repos| <= 100
      && (forall i, j :: 0 <= i < j < |c.repos| ==> c.repos[i].id != c.repos[j].id)
      && (forall i :: 0 <= i < |c.repos| ==>
            && c.repos[i].id != 0 && ByteLength(c.repos[i].fullName) <= 256
            && exists owner, name :: IsFullName(c.repos[i].fullName, owner, name))
  {
    hide Trim, ByteLength, Sort;
    ScopeOutcome(c.repos);
    LineBreaks(c.description);
    forall i | 0 <= i < |c.repos|
      ensures FullNameParses(c.repos[i].fullName) <==>
        exists owner, name :: IsFullName(c.repos[i].fullName, owner, name)
    {
      FullNameForm(c.repos[i].fullName);
    }
    hide FullNameParses, IsFullName;
    DistinctById(c.repos);
  }

  lemma LineBreaks(s: string)
    ensures HasLineBreak(s) <==> '\n' in s || '\r' in s
  {
  }

  lemma DistinctById(repos: seq<Repo>)
    ensures DistinctKeys(RepoId, repos) <==> forall i, j :: 0 <= i < j < |repos| ==> repos[i].id != repos[j].id
  {
    if DistinctKeys(RepoId, repos) {
      forall i, j | 0 <= i < j < |repos| ensures repos[i].id != repos[j].id {
        assert RepoId(repos[i]) != RepoId(repos[j]);
      }
    }
  }

  /** The fixed points of normalisation are exactly the normal forms. */
  lemma NormalFormsAreFixed(c: CreateLink)
    ensures NormalForm(c) <==> Normalized(c) == Ok(c)
  {
    if NormalForm(c) {
      DescriptionParses(c.description);
      if c.internalNote.Some? { NoteParses(c.internalNote.value); }
      StoredScopeParses(c.repos);
    }
    if Normalized(c) == Ok(c) {
      NormalizedIsNormal(c);
    }
  }

  lemma NormalizedIsIdempotent(c: CreateLink)
    requires Normalized(c).Ok?
    ensures Normalized(Normalized(c).value) == Normalized(c)
  {
    NormalizedIsNormal(c);
    NormalFormsAreFixed(Normalized(c).value);
  }

  /**
   * Two submissions that differ in repository order, in blanks around the description, or in any
   * whitespace around the note have the same outcome.
   */
  lemma NormalizedForgetsLayout(c: CreateLink, left: string, right: string, noteLeft: string, noteRight: string,
                                repos: seq<Repo>)
    requires AllWhitespace(left) && AllWhitespace(right) && !HasLineBreak(left) && !HasLineBreak(right)
    requires AllWhitespace(noteLeft) && AllWhitespace(noteRight)
    requires multiset(repos) == multiset(c.repos)
    ensures Normalized(c.(
        description := left + c.description + right,
        internalNote := if c.internalNote.Some? then Some(noteLeft + c.internalNote.value + noteRight) else None,
        repos := repos))
      == Normalized(c)
  {
    hide ParseDescription, ParseScope, Trim, AllWhitespace, HasLineBreak;
    DescriptionIgnoresOuterBlanks(left, c.description, right);
    if c.internalNote.Some? { TrimIgnoresOuterWhitespace(noteLeft, c.internalNote.value, noteRight); }
    ScopeForgetsOrder(repos, c.repos);
  }

  // --- activity -----------------------------------------------------------------

  datatype Inactive = Revoked | Expired | Exhausted

  /** A link is active when it is not revoked, not yet expired and not used up; else the first of these is why. */
  lemma InactiveExactly(revoked: bool, expiresAt: Option<int>, uses: nat, maxUses: Option<nat>, now: int)
    ensures var expired, used := expiresAt.Some? && expiresAt.value <= now, maxUses.Some? && maxUses.value <= uses;
      CheckInactive(revoked, expiresAt, uses, maxUses, now)
        == if !revoked && !expired && !used then None
           else Some(if revoked then Revoked else if expired then Expired else Exhausted)
  {
  }

  /** The first of revocation, expiration and exhausted use that applies. */
  function CheckInactive(revoked: bool, expiresAt: Option<int>, uses: nat, maxUses: Option<nat>, now: int)
    : Option<Inactive>
  {
    if revoked then Some(Revoked)
    else if expiresAt.Some? && now >= expiresAt.value then Some(Expired)
    else if maxUses.Some? && uses >= maxUses.value then Some(Exhausted)
    else None
  }
}
