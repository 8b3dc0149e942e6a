# Verified model of ghinvite's listings, forms, identities, continuations and admissions

ghinvite lets an account's administrators publish invitation links; people who follow a link are admitted
as requests, and approved requests become GitHub repository invitations. This project models the parts of
it whose correctness is an argument rather than a lookup, and proves what those parts are for.

* **Listings that are complete or fail** (`LinkHeader`, `Pagination`, `Listings`, `InstallationRepos`).
  Callers take absence from a listing as evidence, so a walk must have read every page. The GitHub server is an
  arbitrary function from path to response or transport error; the walk, its `Link` header parser and the counted
  walk are loops over it.
* **Codecs of identities and paths** (`Ulid`, `PathSegment`, `Decimal`, `Text`). ULID text against 128-bit values,
  percent-encoding against RFC 3986, decimal numerals, `str::trim`, `str::split` and the like.
* **Invitation links** (`InvitationLinks`, `LinkFormErrors`, `LinkForm`, `LinkFormOutcomes`, `Json`, `ScriptBlock`,
  `LinkList`, `Sorting`). Normalising creation data, the form with its attach/retire error object and the hand-written inverse
  in the browser island, JSON embedded in a script block, and filtering, sorting and paging the links.
* **Upstream diagnostics** (`Redact`). What of a response body may reach a log line.
* **Attempt continuations** (`Continuations`, `ContinuationRuns`). A first-writer-wins table of sealed payloads.
  Each SQL statement is one atomic step; a retain makes three of them, and the statements of any number of other calls
  come in between at will. The laws hold over every such interleaving.
* **Admissions** (`Admission`, `AdmissionRuns`, `AdmissionOutcomes`). The durable link object and the request owners it calls, as a
  state machine in which each call to another object may be undelivered, may fail there half way, may lose its answer,
  may be carried out after the caller gave up, or may be answered, and the send to the link's projection may fail; and
  what holds over every run. Runs are of whole steps. A request owner's own step that falls inside an admission has the
  effect it has before it or after it, wherever it falls: after the binding of the attempt
  (`AdmissionRuns.OwnerStepsCommuteWithBinding`), after the eligibility verdict (`AdmissionRuns.OwnerStepsCommute`), after
  the retained decision (`AdmissionRuns.OwnerStepsCommuteWithHandOff`), for the new request itself until it is held
  (`AdmissionRuns.UnheldRequestsRest`), and before the receipt (`AdmissionRuns.OwnerStepsCommuteWithReceipt`).

Code that changes state is a class or a method with loops, proved equal to a function of the old state;
the laws are lemmas about those functions. Times are integers, identifiers natural numbers, bytes a
newtype, text a sequence of Unicode characters. Randomness, clocks and network are parameters. AEAD sealing is an
ideal box that opens only under the secret, nonce and associated data it was closed with; the scope digest is the
text it is taken of, so what is proved is that those texts never coincide.

`dafny verify dfyconfig.toml` checks everything.

## Where the code and its documentation part

* A use is documented to be consumed by an accepted admission. The code writes the link, with the use consumed, before it
  sends it to the projection, and retains the admission only after that. If the send fails, the use is gone
  and nobody is admitted for it (`AdmissionRuns.FailedSendLosesTheUse`); `AdmissionRuns.UsesAreAccountedFor` says that
  uses and admissions agree if and only if no such send failed.
* An admission is documented to check the link's guardrails and availability evidence. The code decides whether to ask for
  evidence at one clock reading and decides the admission at a later one. If the clock steps back over the link's
  expiration between the two, the admission is decided without evidence
  (`AdmissionRuns.SteppedBackClockAdmitsUnchecked`); `AdmissionRuns.UncheckedExactly` says when, for every run and every
  new operation.
* Retaining a continuation is described as atomic. It is three statements without a transaction: if another request of the
  same scope releases the identity between the insert and the read-back, the retain fails
  (`ContinuationRuns.ReleaseInBetweenFails`); `ContinuationRuns.RetainFailsExactly` says when it does, for every
  interleaving. What it answers is true when it is read back, all the same (`ContinuationRuns.RetainedMeansStored`).
* Section 3.3 of RFC 8288 has parsers ignore every `rel` parameter of a link after the first. The parser takes any of
  them: `<u>; rel=prev; rel=next` is read as a next link (`LinkHeader.SecondRelIsMisread`);
  `LinkHeader.ReadsAsStandard` says which headers are read as the standard says.
* `retire` is described as the inverse of `attach`. It is on every state that attaching and retiring can
  reach, and not on two others (`LinkFormErrors.RetireUndoesAttach`).
* The browser rebuilds the server's form errors exactly, unless a further summary line repeats the generic one
  (`LinkFormErrors.RebuildsExactly`).

## Model

| member | source | states |
|---|---|---|
| `LinkHeader.ScanIsTheCut` | crates/ghinvite-github/src/pagination.rs:98-126 | any text is divided by its angle brackets into links and a tail in at most one way, and the scan finds that way |
| `LinkHeader.ScanCuts` | crates/ghinvite-github/src/pagination.rs:98-126 | such a division always exists: scanning loses nothing but the text before the first bracket |
| `LinkHeader.FirstNextIsFirst` | crates/ghinvite-github/src/pagination.rs:98-126 | the chosen link is a next link with none before it, and there is no choice exactly when no link is a next link |
| `LinkHeader.NextRelation` | crates/ghinvite-github/src/pagination.rs:98-126 | the loop over the header terminates on every text and returns the first next link of the division, or the error of an unreadable header |
| `LinkHeader.FailsExactly` | crates/ghinvite-github/src/pagination.rs:98-126 | for every text: an error if and only if no bracket opens, or an unclosed one is met and no link before it is a next link |
| `LinkHeader.AnnouncedExactly` | crates/ghinvite-github/src/pagination.rs:98-126 | for every text, given its division: the url of its first next link, or without one an error exactly when nothing is closed or something is left open |
| `LinkHeader.NamesNextOfPrinted` | crates/ghinvite-github/src/pagination.rs:132-150 | a printed parameter counts as next exactly when its name is `rel` in any case and its relation types hold `next` in any case, quoted or not |
| `LinkHeader.QuotedTypesAnnounce` | crates/ghinvite-github/src/pagination.rs:132-150 | a quoted `rel` of several relation types announces exactly if one of them, whichever, is `next` in some case |
| `LinkHeader.ReadsPrintedHeader` | crates/ghinvite-github/src/pagination.rs:98-150 | for every list of links printed in the form of section 3 of RFC 8288: the first link with a `rel` parameter listing `next`, and none exactly when no link has one |
| `LinkHeader.ReadsAsStandard` | crates/ghinvite-github/src/pagination.rs:132-150 | against the rule of section 3.3 of RFC 8288 that only a link's first `rel` counts: the header is read so if and only if the first link with any `rel` listing `next` has it in its first one, or the rule finds the same page further on |
| `LinkHeader.OneRelIsRead` | crates/ghinvite-github/src/pagination.rs:132-150 | headers with at most one `rel` a link are all read as the standard says |
| `LinkHeader.SecondRelIsMisread` | crates/ghinvite-github/src/pagination.rs:132-150 | a concrete header read otherwise than the standard says |
| `Pagination.PathUnderExactly` | crates/ghinvite-github/src/pagination.rs:70-90 | a URL is on the base exactly when it is the base followed by a path that starts with a slash |
| `Pagination.NextPagePath` | crates/ghinvite-github/src/pagination.rs:70-90 | the next path, the last page, or the error of an unreadable header or of a link off the base |
| `Pagination.HeaderDecides` | crates/ghinvite-github/src/pagination.rs:70-90 | a response without a link header is a last page; with one it errs as unreadable exactly when the header is, for every text of it |
| `Pagination.LinkDecides` | crates/ghinvite-github/src/pagination.rs:70-90 | for every readable header, well formed or not: the next path is the rest of the first next url after the base, a url off the base is an error of its size, and no next link is a last page |
| `Pagination.FollowsOnlyTheBase` | crates/ghinvite-github/src/pagination.rs:70-90 | for well-formed headers: the walk goes on exactly when the announced URL is the base and a path, and ends exactly when no link announces `next` |
| `Pagination.ChainsAgree` | crates/ghinvite-github/src/pagination.rs:27-61 | the pages reached by following next links from one path are determined by how many there are |
| `Pagination.CompleteWalkUnique` | crates/ghinvite-github/src/pagination.rs:27-61 | at most one sequence of pages is a complete walk |
| `Pagination.StoppedMeansIncomplete` | crates/ghinvite-github/src/pagination.rs:27-61 | whatever stopped a walk, failed fetch, unreadable header, failed absorption, revisited path or page bound, no complete walk exists |
| `Pagination.WalkLinkPages` | crates/ghinvite-github/src/pagination.rs:27-61 | for every server and bound: success if and only if a complete walk exists, with exactly its pages absorbed in order; no page fetched twice, none beyond the bound; on failure, the exact reason; a first page without a link header is the whole listing |
| `Listings.SuccessExactly` | crates/ghinvite-github/src/installation.rs:464-499 | exactly the statuses from 200 to 299 count as read |
| `Listings.ListInvitations` | crates/ghinvite-github/src/installation.rs:464-499 | success if and only if every page of the listing was read and decoded; then the items of all pages in page order |
| `Listings.ListUserListing` | crates/ghinvite-github/src/oauth.rs:264-339 | the same for the counted listings, with the count of the first page; a successful walk has read at least one page, so the result is never absent |
| `InstallationRepos.PagePathsDiffer` | crates/ghinvite-github/src/installation.rs:144-184 | each page is asked for under a path of its own |
| `InstallationRepos.AsksForThatPage` | crates/ghinvite-github/src/installation.rs:144-184 | read back by splitting its query, the path of page `n` asks the listing for a hundred repositories at page `n`, the first page by default |
| `InstallationRepos.ReadsItsPage` | crates/ghinvite-github/src/installation.rs:144-184 | a page is read exactly when its own path is answered within 2xx by a body that decodes, and is that |
| `InstallationRepos.AddAll` | crates/ghinvite-github/src/installation.rs:144-184 | a page is refused exactly when it has a repository without id or listed before; otherwise its ids join the ascending set |
| `InstallationRepos.CompleteRefreshUnique` | crates/ghinvite-github/src/installation.rs:144-184 | the total and the page at which it is first reached are unique |
| `InstallationRepos.StoppedMeansIncomplete` | crates/ghinvite-github/src/installation.rs:144-184 | a walk that stopped with an error had no complete refresh to find |
| `InstallationRepos.WalkRepoPages` | crates/ghinvite-github/src/installation.rs:144-184 | the loop: success if and only if some number of at most 1000 pages agree on a total, list distinct nonzero ids and first reach it there; then the strictly ascending ids of exactly those pages, as many as the total; otherwise the exact reason |
| `InstallationRepos.AllInstallationRepoIds` | crates/ghinvite-github/src/installation.rs:144-184 | the same of every server and decoder, and the paths asked for are the first pages in order, none twice |
| `PathSegment.PathSegment` | crates/ghinvite-github/src/util.rs:15-30 | the encoder's loop writes text that decodes to the input, uses only unreserved characters and percent triplets, and has no slash |
| `PathSegment.DecodeEncode` | crates/ghinvite-github/src/util.rs:15-30 | decoding as in section 2.1 of RFC 3986 gives back every byte string |
| `PathSegment.EncodeLegal` | crates/ghinvite-github/src/util.rs:15-30 | only characters of section 2.3 of RFC 3986 and triplets appear |
| `PathSegment.UnreservedExactly` | crates/ghinvite-github/src/util.rs:15-30 | the characters left alone are those of section 2.3 of RFC 3986, by their code points |
| `PathSegment.EncodesOnlyReserved` | crates/ghinvite-github/src/util.rs:15-30 | an unreserved byte stands for itself, every other one is a triplet |
| `PathSegment.EncodesInOrder` | crates/ghinvite-github/src/util.rs:15-30 | encoding is byte by byte, in order |
| `PathSegment.PathSplits` | crates/ghinvite-github/src/installation.rs:211-216 | splitting the permission path on slashes and decoding gives back owner, repository and login, whatever they hold |
| `PathSegment.PathIdentifies` | crates/ghinvite-github/src/installation.rs:211-216 | two requests share a path only if they name the same owner, repository and login |
| `Ulid.GuardIsBound` | crates/ghinvite-core/src/ids.rs:40-51 | of 26-symbol Base32 texts, the first-character guard accepts exactly those whose 130-bit value is below 2^128 |
| `Ulid.ParseAccepts` | crates/ghinvite-core/src/ids.rs:40-51 | a text parses to a value exactly when it is 26 symbols of that value |
| `Ulid.AlphabetExactly` | crates/ghinvite-core/src/ids.rs:34-51 | the symbols of the 32 digits are those of the Crockford alphabet, in either case, and no other character has a value |
| `Ulid.RefusedFor` | crates/ghinvite-core/src/ids.rs:40-51 | a text is refused for its length exactly when it is not 26 bytes long, otherwise for its characters |
| `Ulid.DecodeAliases` | crates/ghinvite-core/src/ids.rs:40-51 | without the guard larger values would stand for other identifiers; the guard refuses exactly those |
| `Ulid.ParseOfPrint` | crates/ghinvite-core/src/ids.rs:34-51 | parsing the printed form gives the identifier back |
| `Ulid.PrintOfParse` | crates/ghinvite-core/src/ids.rs:34-51 | printing what was parsed upper-cases it |
| `Ulid.ParsedAlikeIffSameUpToCase` | crates/ghinvite-core/src/ids.rs:34-51 | two accepted texts are one identifier exactly when they differ in case only |
| `Ulid.PrintedInOrder` | crates/ghinvite-core/src/ids.rs:34-38 | numeric order of identifiers is text order of their printed forms |
| `Ulid.OperationIdsAreCanonical` | crates/ghinvite-core/src/request_lifecycle.rs:13-20 | an operation id is accepted exactly when upper-casing it gives the printed form of the identifier |
| `InvitationLinks.DescriptionParses` | crates/ghinvite-core/src/invitation_link.rs:221-235 | what parses is trimmed, nonempty, on one line and within 120 characters; the texts that parse to themselves are exactly those |
| `InvitationLinks.DescriptionRejectsAnyLineBreak` | crates/ghinvite-core/src/invitation_link.rs:221-235 | a line break refuses the description even among blanks that trimming would remove |
| `InvitationLinks.NoteParses` | crates/ghinvite-core/src/invitation_link.rs:257-266 | what parses is a stored note, and stored notes parse to themselves |
| `Text.WhitespaceExactly` | crates/ghinvite-core/src/invitation_link.rs:221-266 | what trimming removes is the 25 characters with the Unicode property White_Space |
| `InvitationLinks.FullNameForm` | crates/ghinvite-core/src/repository_identity.rs:19-38 | the accepted full names are exactly a nonempty owner and a nonempty name around their only slash |
| `InvitationLinks.ScopeOutcome` | crates/ghinvite-core/src/invitation_link.rs:297-320 | the outcome for every list of repositories, in terms of the unsorted list: comparing sorted neighbours finds every duplicate, and errors take precedence in order |
| `InvitationLinks.AcceptedScope` | crates/ghinvite-core/src/invitation_link.rs:297-320 | an accepted scope is a strictly ascending permutation of its input, of 1 to 100 valid repositories |
| `InvitationLinks.ScopeForgetsOrder` | crates/ghinvite-core/src/invitation_link.rs:297-320 | any permutation of the repositories has the same outcome |
| `InvitationLinks.NormalizedIsNormal` | crates/ghinvite-core/src/invitation_link.rs:36-50 | accepted creation data is in normal form and differs from its input only by trimming and repository order |
| `InvitationLinks.NormalizedExactly` | crates/ghinvite-core/src/invitation_link.rs:36-50 | exactly which creation data is accepted, over its fields and with the limits as numbers |
| `InvitationLinks.InactiveExactly` | crates/ghinvite-core/src/invitation_link.rs:179-199 | a link is active exactly when it is not revoked, not expired and below its use limit; otherwise the first of these is the reason |
| `InvitationLinks.NormalFormsAreFixed` | crates/ghinvite-core/src/invitation_link.rs:36-50 | the fixed points of normalisation are exactly the normal forms |
| `InvitationLinks.NormalizedIsIdempotent` | crates/ghinvite-core/src/invitation_link.rs:36-87 | normalising twice is normalising once |
| `InvitationLinks.NormalizedForgetsLayout` | crates/ghinvite-core/src/invitation_link.rs:36-87 | inputs that differ in repository order, in blanks around the description or in whitespace around the note have equal results |
| `LinkFormErrors.LinkFormErrors.AttachMessage` | crates/ghinvite-ui/src/link_form.rs:224-240 | the whole new state: generic line first when the summary was empty, the field's first message kept, a form message appended to the summary |
| `LinkFormErrors.LinkFormErrors.RetireMessage` | crates/ghinvite-ui/src/link_form.rs:244-251 | the whole new state: the slot emptied, and the generic line dropped when it would stand alone |
| `LinkFormErrors.SlotsAreSeparate` | crates/ghinvite-ui/src/link_form.rs:269-287 | no two of the six slotted fields share a slot |
| `LinkFormErrors.RunsAreWellShaped` | crates/ghinvite-ui/src/link_form.rs:219-287 | after every sequence of attach and retire: the summary, if any, starts with the generic line, which stands alone only over a field message, and field messages stand only under it |
| `LinkFormErrors.FirstMessageWins` | crates/ghinvite-ui/src/link_form.rs:222-237 | the first message attached to a field is the one it keeps |
| `LinkFormErrors.SummaryTellsAll` | crates/ghinvite-ui/src/link_form.rs:254-265 | in every reachable state the summary is empty exactly when nothing was reported |
| `LinkFormErrors.RetireUndoesAttach` | crates/ghinvite-ui/src/link_form.rs:224-251 | retiring a freshly filled slot restores a state if and only if the state lacks two named irregularities |
| `LinkFormErrors.RetireUndoesAttachOnRuns` | crates/ghinvite-ui/src/link_form.rs:224-251 | and no sequence of attach and retire has those, so there it always restores the prior state |
| `LinkFormErrors.SubmitErrorsFrom` | crates/ghinvite-island/src/lib.rs:251-279 | the island's reading of the server's errors: one error a filled slot, then the further summary lines |
| `LinkFormErrors.Rebuilt` | crates/ghinvite-island/src/lib.rs:251-279 | what attaching those errors in the browser gives, for any error object at all |
| `LinkFormErrors.RebuildsExactly` | crates/ghinvite-island/src/lib.rs:251-279 | it is the server's object if and only if that is well shaped and no further summary line repeats the generic one |
| `LinkFormErrors.WellShapedIsReachable` | crates/ghinvite-ui/src/link_form.rs:219-287 | every well-shaped object is reached by a run of attaching alone, so the invariant is exact |
| `LinkForm.CountOutcome` | crates/ghinvite-ui/src/link_form.rs:342-360 | for every text: no limit exactly when blank, a number exactly when digits of a value from 1 to 2^32-1, too large exactly when digits beyond that, else not positive |
| `LinkFormOutcomes.CountExactly` | crates/ghinvite-ui/src/link_form.rs:342-360 | the parsed limit, or which of the two problems, for every text |
| `LinkForm.FormattedReadsBack` | crates/ghinvite-island/src/lib.rs:226-232 | the formatted value parses back to itself if and only if it is not zero |
| `LinkForm.ToModel` | crates/ghinvite-ui/src/link_form.rs:115-153 | the model and a fresh error object holding the guardrails' problems |
| `LinkForm.ParsingReports` | crates/ghinvite-island/src/lib.rs:204-209 | the server reports exactly the guardrails whose raw text the island restores, and nothing when it restores none |
| `LinkForm.MissingIds` | crates/ghinvite-ui/src/link_form.rs:483-493 | exactly the selected ids that are not offered are missing |
| `LinkForm.MissingInOrder` | crates/ghinvite-ui/src/link_form.rs:483-493 | they are named in the order and as often as they were selected |
| `LinkForm.MissingAlone` | crates/ghinvite-ui/src/link_form.rs:483-493 | a single selection is named once, exactly if it is not offered |
| `LinkForm.SubmitForm` | crates/ghinvite-web/src/forms/create_link.rs:145-224 | one error object filled in order by parsing and rules, then the derivations |
| `LinkForm.ReportsNothingIff` | crates/ghinvite-ui/src/link_form.rs:391-481 | nothing is reported exactly when every guardrail parses and every rule passes |
| `LinkForm.NotReportedTwice` | crates/ghinvite-ui/src/link_form.rs:391-460 | a guardrail that does not parse is not reported again by its rule |
| `LinkForm.RulesImplyDerivations` | crates/ghinvite-web/src/forms/create_link.rs:168-224 | whatever passes every rule can be derived: the two lists of conditions cannot drift apart |
| `LinkForm.SubmitOutcome` | crates/ghinvite-web/src/forms/create_link.rs:145-224 | accepted exactly when every guardrail parses and every rule passes; otherwise exactly what was reported, and never the fail-closed message |
| `LinkForm.ScopeIsSelection` | crates/ghinvite-ui/src/link_form.rs:518-530 | under the scope rule the scope parses and its ids are exactly the selected ones |
| `LinkForm.AcceptedIsNormal` | crates/ghinvite-web/src/forms/create_link.rs:102-140 | an accepted submission is creation data that core accepts unchanged for any existing installation, with a strictly ascending scope of 1 to 100 ids, the selected ones |
| `LinkFormOutcomes.AcceptedExactly` | crates/ghinvite-web/src/forms/create_link.rs:145-224 | over the typed values and the offered choices: which submissions are accepted |
| `LinkFormOutcomes.AcceptedAsTyped` | crates/ghinvite-web/src/forms/create_link.rs:102-224 | what is accepted is what was typed: trimmed texts, the permission as spelled, approval as chosen, the limit as numbered, the expiration so many days from now, and the chosen repositories under their own names |
| `LinkFormOutcomes.ScopeHoldsChoices` | crates/ghinvite-ui/src/link_form.rs:518-530 | the scope is exactly the choices that are offered and selected |
| `LinkFormOutcomes.ScopeRuleExactly` | crates/ghinvite-ui/src/link_form.rs:391-481 | the scope rule passes exactly when 1 to 100 usable repositories of distinct ids are chosen and nothing selected is missing |
| `LinkFormOutcomes.PermissionExactly` | crates/ghinvite-web/src/forms/create_link.rs:168-224 | each permission has one spelling, and no other text is a permission |
| `LinkFormOutcomes.ReportedExactly` | crates/ghinvite-ui/src/link_form.rs:391-481 | for every submission, what is said at each of the six fields, over the typed values |
| `LinkFormOutcomes.ScopeMessageExactly` | crates/ghinvite-ui/src/link_form.rs:391-493 | what is said of the repositories: which are gone while others remain, or why there is no scope |
| `LinkFormOutcomes.NoticeExactly` | crates/ghinvite-ui/src/link_form.rs:483-493 | the notice is the sentence around the numerals of the missing ids, in order |
| `LinkFormOutcomes.DriftFailsClosed` | crates/ghinvite-web/src/forms/create_link.rs:168-224 | whatever the rules let through, a model without a usable text, permission, nonzero limit, representable day or scope creates nothing and is answered with the one fail-closed line |
| `Json.PrintReadsBack` | crates/ghinvite-ui/src/link_form.rs:210-217 | the printed text of every JSON value parses, under the grammar of RFC 8259, to that value |
| `ScriptBlock.NoLtLeft` | crates/ghinvite-ui/src/link_form.rs:210-217 | no `<` is left in the embedded text |
| `ScriptBlock.HidingKeepsMeaning` | crates/ghinvite-ui/src/link_form.rs:210-217 | for every JSON text, whoever printed it: replacing each `<` by its escape leaves the parsed value unchanged, after escaped backslashes and in keys too |
| `ScriptBlock.ScriptBlockReadsBack` | crates/ghinvite-ui/src/link_form.rs:194-217 | the embedded props hold no `<` and parse to the value they were made from |
| `ScriptBlock.HidingCanMendBrokenText` | crates/ghinvite-ui/src/link_form.rs:210-217 | the law needs JSON text: on text that does not parse, the replacement can make it parse |
| `LinkList.PageOfNumeral` | crates/ghinvite-ui/src/link_list.rs:16-42 | saturating at each digit is saturating once: the page is the numeral's value, at least 1 and at most the largest `usize`, for any number of digits |
| `LinkList.QueryExactly` | crates/ghinvite-ui/src/link_list.rs:16-42 | each parameter picks its own word, any other word the default, and a page that is not a numeral is the first |
| `LinkList.HrefReadsBack` | crates/ghinvite-ui/src/link_list.rs:57-63 | the four printed parameters read back as the same query at the named page |
| `LinkList.CompareReverses` | crates/ghinvite-ui/src/link_list.rs:90-108 | swapping arguments reverses the verdict, and only equal ids tie |
| `LinkList.ComparatorIsTotalOrder` | crates/ghinvite-ui/src/link_list.rs:90-108 | total and transitive for all four keys in both directions |
| `LinkList.UndatedLast` | crates/ghinvite-ui/src/link_list.rs:90-108 | under expiration no dated link follows an undated one, in either direction |
| `LinkList.TiesByAscendingId` | crates/ghinvite-ui/src/link_list.rs:90-108 | links equal in the key are in ascending id order in either direction |
| `LinkList.SelectLinks` | crates/ghinvite-ui/src/link_list.rs:77-125 | filter, sort, page count and clamped page |
| `LinkList.CanonicalRows` | crates/ghinvite-ui/src/link_list.rs:77-125 | the sorted list holds each matching link as often as the input, in order |
| `LinkList.ShownExactly` | crates/ghinvite-ui/src/link_list.rs:77-125 | over the fields: the rows of all pages are, under the active filter, the links neither revoked nor expired nor used up, under the inactive one the others, each as often as given |
| `LinkList.RowsInOrder` | crates/ghinvite-ui/src/link_list.rs:90-108 | over the fields: ascending, no row has a greater key than a later one; descending, no smaller one; text keys in character order; dates before none |
| `LinkList.CountsExactly` | crates/ghinvite-ui/src/link_list.rs:77-125 | the totals, the matching links, the number of pages of 25 and the clamped page |
| `LinkList.ActiveAndInactivePartition` | crates/ghinvite-core/src/invitation_link.rs:157-199 | active and inactive links together are all links, none in both |
| `LinkList.SelectionForgetsOrder` | crates/ghinvite-ui/src/link_list.rs:77-125 | every permutation of links with distinct ids gives the same page |
| `LinkList.PagesPartition` | crates/ghinvite-ui/src/link_list.rs:77-125 | the pages from the first to the last are the sorted list, nothing lost, repeated or moved |
| `LinkList.PageSizes` | crates/ghinvite-ui/src/link_list.rs:77-125 | every page but the last has 25 rows, the last has the rest, and asking beyond it shows it |
| `Redact.CollectCodes` | crates/ghinvite-github/src/redact.rs:127-151 | each bounded code once, at its first occurrence |
| `Redact.KeptCodes` | crates/ghinvite-github/src/redact.rs:127-151 | at most four distinct codes, the placeholder last, and a documented code dropped only behind the first four documented ones |
| `Redact.CodesExactly` | crates/ghinvite-github/src/redact.rs:127-151 | the first four documented codes as they are, or all of them and then one placeholder if anything else was there |
| `Redact.LookupExactly` | crates/ghinvite-github/src/redact.rs:127-151 | of members with one name the last is read |
| `Redact.CodesOfEntries` | crates/ghinvite-github/src/redact.rs:127-151 | the codes considered are, entry by entry and in order, those that are text |
| `Redact.FitsIs` | crates/ghinvite-github/src/redact.rs:171-180 | the greatest character boundary within the limit is the only one with that property |
| `Redact.Bound` | crates/ghinvite-github/src/redact.rs:171-180 | the loop that steps down to a boundary cuts at that greatest one |
| `Redact.DependsOnlyOnObservation` | crates/ghinvite-github/src/redact.rs:41-54 | two bodies that agree on size, parse class, message size and bounded codes in order of first occurrence have the same diagnostic |
| `Redact.DiagnoseUpstream` | crates/ghinvite-github/src/redact.rs:41-54 | the diagnostic is put together from the body's size and parse class, the message's size and the bounded codes alone |
| `Redact.DiagnosticExactly` | crates/ghinvite-github/src/redact.rs:41-54 | the words of every diagnostic, by the size and parse class of the body or the size of its message and its codes |
| `Redact.NoUpstreamTextSurvives` | crates/ghinvite-github/src/redact.rs:41-54 | two envelopes with messages of one size, and codes that differ only where neither is documented, have the same diagnostic |
| `Redact.BoundNeverBinds` | crates/ghinvite-github/src/redact.rs:41-54 | no summary reaches 512 bytes, so no diagnostic is ever truncated |
| `Continuations.AttemptContinuations.Retain` | crates/ghinvite-web/src/attempt_continuations.rs:108-136 | the whole new table and the answer, whatever other connections complete between the call's cleanup, insert and read-back |
| `Continuations.AttemptContinuations.Load` | crates/ghinvite-web/src/attempt_continuations.rs:139-151 | nothing exactly when the identity has no live row; a payload or a failure only as the identity's live row opens or does not |
| `Continuations.AttemptContinuations.Latest` | crates/ghinvite-web/src/attempt_continuations.rs:164-171 | nothing exactly when the scope has no live row; otherwise the payload of its last live row, or a failure when a live row does not open |
| `Continuations.AttemptContinuations.Release` | crates/ghinvite-web/src/attempt_continuations.rs:173-178 | the identity's row goes, every other row stays |
| `ContinuationRuns.DeriveInput` | crates/ghinvite-web/src/attempt_continuations.rs:67-93 | the loop feeds the hash the flow, session and parts separated by slashes |
| `ContinuationRuns.ScopeTextIdentifies` | crates/ghinvite-web/src/attempt_continuations.rs:67-93 | different flows, sessions or subjects never feed the hash the same text |
| `ContinuationRuns.AadIdentifies` | crates/ghinvite-web/src/attempt_continuations.rs:232-234 | the associated data names one scope and one identity, even if the identity holds slashes |
| `ContinuationRuns.OpensOnlyWhereSealed` | crates/ghinvite-web/src/attempt_continuations.rs:184-230 | a payload opens exactly under its own secret, scope and identity |
| `ContinuationRuns.RetainIsRun` | crates/ghinvite-storage-sqlx/src/sqlx_impl.rs:376-404 | an interrupted retain is a run of statements, so that runs of statements cover every interleaving of calls |
| `ContinuationRuns.RunsAreGood` | migrations/0001_initial.sql:227-238 | however the statements of any number of calls interleave, identities and bindings stay unique and every row opens where it is stored |
| `ContinuationRuns.ReadsNeverFail` | crates/ghinvite-web/src/attempt_continuations.rs:139-171 | load, list and latest never fail on rows the facade wrote |
| `ContinuationRuns.LoadFinds` | crates/ghinvite-web/src/attempt_continuations.rs:139-151 | a load gives a payload exactly when the identity's live row holds it, and nothing exactly when there is none |
| `ContinuationRuns.RetainedMeansStored` | crates/ghinvite-web/src/attempt_continuations.rs:108-136 | the answer `Retained` is given exactly when, at the read-back, the identity's live row holds this very payload |
| `ContinuationRuns.LiveRowDecides` | crates/ghinvite-web/src/attempt_continuations.rs:108-136 | a live row that is there at the read-back decides the answer, for its own identity and for another under its binding |
| `ContinuationRuns.RetainedIsKept` | migrations/README.md:96-106 | after `Retained`, through any interleaving that neither releases the identity nor cleans up after its row's expiry: every load gives that payload, the list holds it, no other row has its binding, and every other retain of the identity, itself interrupted at will, agrees with it or conflicts |
| `ContinuationRuns.ListsInRetentionOrder` | crates/ghinvite-web/src/attempt_continuations.rs:153-162 | what was retained earlier is listed earlier, whatever ran since |
| `ContinuationRuns.InsertedIsLatest` | crates/ghinvite-web/src/attempt_continuations.rs:164-171 | a row that is inserted is the scope's latest |
| `ContinuationRuns.ScopesAreIsolated` | crates/ghinvite-web/src/attempt_continuations.rs:108-178 | no run of statements of other scopes, nor any cleanup, changes what a scope lists |
| `ContinuationRuns.RowsOutliveSessions` | crates/ghinvite-web/src/session_store.rs:51-118 | what a session retains never expires before the session's fixed deadline: half an hour from issue, thirty days once signed in |
| `ContinuationRuns.RetainFailsExactly` | crates/ghinvite-web/src/attempt_continuations.rs:108-136 | for every run and interleaving: a retain made while its session lasts fails if and only if, between its insert and its read-back, a release in its scope or a cleanup by a clock past the deadline freed its identity and binding, and no later insert took either; no backlog of expired rows makes it fail |
| `ContinuationRuns.FreshIsRetained` | crates/ghinvite-web/src/attempt_continuations.rs:108-136 | a call whose identity and subject, binding if given and identity if not, are new at its insert is retained unless its identity is released or outlived before the read-back |
| `ContinuationRuns.StoredUntilExpiry` | crates/ghinvite-web/src/attempt_continuations.rs:108-151 | what a new call stores is loaded exactly before its scope expires, while neither released nor outlived |
| `ContinuationRuns.FirstOfSubjectWins` | crates/ghinvite-web/src/attempt_continuations.rs:108-136 | two calls of a scope that name one subject, by binding or by identity: the later one, under another identity, is told the first one's payload, through every interleaving that spares the first |
| `ContinuationRuns.CleanupExactly` | crates/ghinvite-core/src/storage/attempt_continuations.rs:10-23 | a cleanup removes expired rows only, those longest expired first, a hundred of them or all there are |
| `ContinuationRuns.ListsExactly` | crates/ghinvite-web/src/attempt_continuations.rs:153-162 | a scope lists exactly its rows that have not expired, in the table's order |
| `ContinuationRuns.ReleaseInBetweenFails` | crates/ghinvite-storage-sqlx/src/sqlx_impl.rs:376-404 | a concrete interleaving in which a first input is not retained |
| `ContinuationRuns.ReleaseFrees` | crates/ghinvite-web/src/attempt_continuations.rs:173-178 | releasing frees both the identity and the binding |
| `Admission.LinkAuthority.AdmitRequest` | crates/ghinvite-workflows/src/admission.rs:437-676 | the whole new state of link and owners, and the answer, for every behaviour of the calls and of the send to the projection |
| `AdmissionOutcomes.AdmitExactly` | crates/ghinvite-workflows/src/admission.rs:437-676 | every answer a new operation can have, over every run and every behaviour of the calls, in terms of the link's fields, the evidence and the requester's earlier request |
| `AdmissionOutcomes.EligibleExactly` | crates/ghinvite-workflows/src/admission.rs:483-575 | with calls answered and sent and known, valid evidence: accepted if and only if the link is not revoked, not expired, not used up, the evidence says available, and no earlier request stands in the way; the one exception is a clock that stepped back over the expiration |
| `AdmissionOutcomes.DecidesExactly` | crates/ghinvite-workflows/src/admission.rs:517-676 | the decision itself: which check comes first and what each answers, with the receipt it gives |
| `AdmissionOutcomes.AskedExactly` | crates/ghinvite-workflows/src/request_owner.rs:422-483 | what the owner of the earlier request answers, over that request's fields |
| `AdmissionOutcomes.RepeatsItsVerdict` | crates/ghinvite-workflows/src/request_owner.rs:445-483 | asked again about an operation, an owner repeats its verdict for the input it judged and answers no other |
| `AdmissionOutcomes.UnansweredCallExactly` | crates/ghinvite-workflows/src/request_owner.rs:457-483 | what a call whose answer never arrives leaves behind: at most an overdue request expired, and the verdict if it was reached |
| `AdmissionOutcomes.RefusedExactly` | crates/ghinvite-core/src/admission.rs:36-54 | no requester or a justification beyond 16 KiB is refused and changes nothing |
| `AdmissionOutcomes.PreparedExactly` | crates/ghinvite-workflows/src/admission.rs:395-433 | preparing binds a new operation to its trimmed input, makes it the requester's latest, and changes nothing else |
| `AdmissionOutcomes.AdmittingBinds` | crates/ghinvite-workflows/src/admission.rs:474-496 | admitting binds it likewise, whatever the answer |
| `AdmissionOutcomes.OtherInputConflicts` | crates/ghinvite-workflows/src/admission.rs:395-473 | an operation bound to one input conflicts with every other one and nothing changes |
| `AdmissionOutcomes.AdmittedAsSubmitted` | crates/ghinvite-workflows/src/admission.rs:624-676 | an accepted operation's request holds its requester and the trimmed text submitted, none if absent or blank, to the end of every run |
| `AdmissionRuns.VerdictFollows` | crates/ghinvite-workflows/src/request_owner.rs:422-483 | an owner answers exactly the bound attempts of its own requester, changes nothing of the link, and an answer that does not block means the request is finished for good |
| `Admission.LinkAuthority.CallOwnerInitialize` | crates/ghinvite-workflows/src/request_owner.rs:350-419 | the first context binds the request and only the same context is accepted again |
| `AdmissionRuns.StepFollows` | crates/ghinvite-workflows/src/admission.rs:324-676 | every step keeps the invariant, takes nothing back, and consumes at most one use, only by an admission decided in favour |
| `AdmissionRuns.LaterFollows` | docs/request-lifecycle-v1.md:11-31 | from any moment of any run on: receipts, bound inputs, admissions and verdicts are unchanged, a retained hand-off stays or becomes its receipt, requests only leave the pending state, uses only grow |
| `AdmissionRuns.OwnerStepsCommute` | crates/ghinvite-workflows/src/request_owner.rs:422-638 | a request owner's decision, expiry or late call in the middle of an admission has the effect it has before or after it |
| `AdmissionRuns.OwnerStepsCommuteWithHandOff` | crates/ghinvite-workflows/src/admission.rs:651-671 | the same between the retained decision and the call of the new request's owner |
| `AdmissionRuns.OwnerStepsCommuteWithBinding` | crates/ghinvite-workflows/src/admission.rs:474-496 | the same of any owner's step between the binding of the attempt and the eligibility call |
| `AdmissionRuns.OwnerStepsCommuteWithReceipt` | crates/ghinvite-workflows/src/admission.rs:664-674 | the same of any owner's step, the new request's own too, between the owner's answer and the receipt |
| `AdmissionRuns.UnheldRequestsRest` | crates/ghinvite-workflows/src/request_owner.rs:173-179 | until it is initialised a request's owner changes nothing |
| `AdmissionRuns.RunsAreGood` | crates/ghinvite-workflows/src/admission.rs:437-676 | the invariant after every run of a link just created, whatever calls were lost |
| `AdmissionRuns.UsesAreAccountedFor` | docs/admission-v1.md:41-44 | uses are exactly the requests admitted, and the accepted operations, acknowledged or not, together with the uses lost to a failed send; they agree if and only if no such send failed; never above the limit; no two receipts name one request |
| `AdmissionRuns.FailedSendLosesTheUse` | crates/ghinvite-workflows/src/admission.rs:632-661 | a concrete run in which the only use of a link goes to nobody and the same operation, retried, finds the link used up |
| `AdmissionRuns.AcceptedIsInitialized` | docs/admission-v1.md:46-52 | an accepted receipt exists only once the owner holds the request, as admitted and with the deadline the policy requires |
| `AdmissionRuns.OneLiveRequest` | crates/ghinvite-workflows/src/admission.rs:483-515 | no requester ever has two requests that are pending or approved |
| `AdmissionRuns.ReceiptsAreReplayed` | docs/admission-v1.md:41-44 | once answered, an operation's later calls change nothing: the same input gets the original receipt whatever has expired, been revoked or used up since, another input conflicts |
| `AdmissionRuns.HandOffsResume` | crates/ghinvite-workflows/src/admission.rs:453-473 | a retained decision is neither lost nor taken again: a retry with the owner reachable, at any later moment, gets it and consumes no use |
| `AdmissionRuns.AnsweredExactly` | docs/admission-v1.md:46-52 | with every call answered and sent and usable evidence, a new operation is answered exactly when no earlier hand-off of its requester is interrupted; otherwise it stays uncertain |
| `AdmissionRuns.InterruptedHandOffBlocks` | docs/admission-v1.md:50-51 | such an interruption is reached by a concrete run, and then nothing lets another operation through |
| `AdmissionRuns.BlockingVerdictsBind` | docs/request-lifecycle-v1.md:25-31 | a blocking verdict decides its attempt as of the original evaluation, even if the request ended in between |
| `AdmissionRuns.UsesNeedEvidence` | crates/ghinvite-workflows/src/admission.rs:517-575 | every use is consumed on an active link with valid availability evidence, unless the clock stepped back over the expiration |
| `AdmissionRuns.UncheckedExactly` | crates/ghinvite-workflows/src/admission.rs:517-575 | a new operation without such evidence consumes a use exactly when the clock stepped back like that, on a link neither revoked nor used up, and the requester's earlier request, if any, is answered to have ended |
| `AdmissionRuns.SteppedBackClockAdmitsUnchecked` | crates/ghinvite-workflows/src/admission.rs:517-575 | a concrete admission decided without evidence |
| `AdmissionRuns.StoppedLinksAdmitNoMore` | crates/ghinvite-workflows/src/admission.rs:324-357 | a link revoked, used up, or expired for every reading to come consumes no further use and admits no further request in any run |
| `AdmissionRuns.DecidedInTime` | crates/ghinvite-workflows/src/request_owner.rs:557-638 | a request that needed approval is approved or declined only by a decision taken while it was pending and strictly before its deadline |
| `AdmissionOutcomes.DecisionsStand` | crates/ghinvite-workflows/src/request_owner.rs:557-638 | a decision on a pending request takes effect before its deadline, expires it from then on, and either stands to the end of every run |
| `AdmissionOutcomes.ExpiryStands` | crates/ghinvite-workflows/src/request_owner.rs:193-209 | a pending request looked at from its deadline on is expired for good, and before that is left alone |
| `AdmissionOutcomes.RevocationStands` | crates/ghinvite-workflows/src/admission.rs:324-357 | a link keeps its first revocation, and from a revocation on no use is consumed and nobody admitted in any run |
| `AdmissionOutcomes.RevisionTellsTheLink` | crates/ghinvite-workflows/src/admission.rs:324-357 | along every run the link's revision counts up by no more than one a step, and equal revisions are equal links |
| `AdmissionOutcomes.LateCallArrives` | crates/ghinvite-workflows/src/request_owner.rs:350-419 | a call carried out after its caller gave up takes effect once: the new request is held as admitted, a held one stays as it is, no other changes |
| `AdmissionOutcomes.LateVerdictArrives` | crates/ghinvite-workflows/src/request_owner.rs:422-483 | a late eligibility call records the verdict on the request as it then is |

## Left out

- `LinkHeader.ReadsPrintedHeader`: printed links have no angle bracket or semicolon in URLs and quoted values, and parameter values are whitespace-free or quoted; the parser does not aim at the rest of section 3 of RFC 8288. The other laws of the header cover every text.
- `LinkForm.SubmitForm`: dioform runs the registered validators in registration order; that library is not part of this model, which applies the rules in that order. Days after the present come from a calendar given as a parameter.
- `Ulid.DecodeAliases`: the decoder of the `ulid` crate is not part of the repository; it is modelled as shifting five bits a symbol into 128 bits, losing what is shifted out.
- `Continuations.AttemptContinuations.Retain`: sealing is ideal and payloads are values; serialisation of payload types and base64 are not modelled. Storage errors other than a missing read-back are not modelled.
- `ContinuationRuns.RetainFailsExactly`: is about retains whose own clock reading is before their session's deadline, which the session store checks when the request begins; a request that outlasts its deadline may fail besides.
- `Redact.BoundNeverBinds`: sizes are below 2^64, as `usize` makes them.
- `LinkList.PageOfNumeral`: the width of `usize` is a parameter.
- `Json.PrintReadsBack`: a number is its token; formatting of floating-point numbers is not modelled.
- `Admission.LinkAuthority.AdmitRequest`: journaling is modelled by its effect, a handler that runs once to a returned answer or error and whose writes before an error stay; availability evidence is an input; projections, audit events and delivery are not modelled. Identities of requests are fresh, as random ULIDs are taken to be.
- Link creation, key and administrator checks, and the context checks of `initialize`, which the contexts built by `admit` meet.
- Decision receipts, delivery of repository invitations, its recovery and settlement: other protocols over the same objects.
- Components, pages, browser takeover, OAuth redirects, JWT signing, HTTP transport: input and output.
- Rate-limit classification, collaborator additions, delivery status table, token cache, enum spellings: finite tables settled by reading.
- Resolution of dot segments in built paths by an HTTP client.
- Unicode: the whitespace characters are listed; there is no normalisation or case folding beyond ASCII.
