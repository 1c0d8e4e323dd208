# Awards voting front end: a Dafny model

The system is the React front end of an awards vote. Each category has nominees. Signed-in voters cast one vote per category. An administrator maintains the categories and nominees, and a results page announces the winners. This project models the deterministic logic of the three pages and proves what that logic promises.

- **Results page** (`Winners.dfy`, module `Winners`). For each category the server sends:
  - a designated winner entry;
  - the full tally: id, name and vote count of every nominee.

  The page announces one of three things: "no votes" (when the winner has zero votes), a single winner, or a tie. A tie is announced when two or more tally rows reach the winner's count; their names are joined with `" & "` in tally order. The page also lists a breakdown: the rows with at least one vote, sorted by count, highest first, with equal counts kept in tally order. It highlights the rows that reach the maximum.
- **Admin page** (`Admin.dfy`, module `Admin`). The page loads three lists: categories, nominees and nomination links (the many-to-many join).
  - It stitches them into two lists: categories, each with its nominees, and a master list of nominees.
    - The nominee map is keyed by id, and a later record wins.
    - The links are grouped by category, in link order. A link to an unknown nominee is dropped.
    - The master list is the map's values, in the order the ids were first set.
  - The seven handlers update these two lists locally once their requests succeed: add a category, set a description, add a nominee, and rename or delete a category or a nominee. Some handlers first check their input: a selected category, a non-empty name, at least one category, a confirmed prompt. Adding a category checks nothing.
  - The stitching loops are methods proved against specification functions. The handlers are pure functions on the page state.
- **Voting page** (`PublicVoting.dfy`, module `PublicVoting`). The page keeps two maps from category id to nominee id: the voter's current picks (`selectedVotes`) and the votes known to be recorded (`votedCategories`).
  - Loading folds the voter's recorded votes into both maps.
  - Picking a nominee is ignored in a voted category.
  - Submitting records the pick when the server accepts it, or when it rejects it with a message saying "already voted".
  - A voted category is locked: its pick cannot change, its submit button is disabled, and the voted nominee is the one checked.
  - The page state is the class `Ballot`. Its methods are tied to step functions on the two maps.

`Common.dfy` holds the identifier type, `Option` and the subsequence relation.

In the single-winner case the announced name comes from the server's winner entry (`Winners.jsx:58`), not from the tally row that reaches the maximum; the model does the same. `Winners.SingleWinnerIsTheLeader` proves that the two agree when the winner entry is well formed.

## Model

| member | source | states |
|---|---|---|
| Winners.WithCount | src/pages/Winners.jsx:62 | The tied rows are rows of the tally with exactly the given count, and every such tally row is among them. |
| Winners.Classify | src/pages/Winners.jsx:53-68 | "No votes" exactly when the winner's count is 0. A single winner is named from the winner entry. A tie has at least two rows at the maximum and names them, joined by " & " in tally order. |
| Winners.Names | src/pages/Winners.jsx:65 | Defines the list of names of the tied rows, in their order; used by `Classify` and fixed by `TieExample`. |
| Winners.Join | src/pages/Winners.jsx:65 | Defines `join(' & ')`: the parts in order with the separator between consecutive ones; used by `Classify` and fixed by `TieExample`. |
| Winners.WithCountKeepsTallyOrder | src/pages/Winners.jsx:62 | The tied rows form an order-preserving subsequence of the tally. Each row at the count occurs as often as in the tally, and no other row occurs. |
| Winners.TwoRowsWithCount | src/pages/Winners.jsx:62-63 | At least two rows have the count exactly when two distinct positions of the tally hold it. |
| Winners.TieIffTwoLeaders | src/pages/Winners.jsx:61-67 | With a positive maximum: a tie exactly when two distinct tally positions reach it, otherwise a single winner. |
| Winners.SingleWinnerIsTheLeader | src/pages/Winners.jsx:57-63 | For a well-formed item in which exactly one row reaches a positive maximum, the announced winner is that row's name. |
| Winners.Positive | src/pages/Winners.jsx:71 | The voted rows are tally rows with a positive count, and every such tally row is kept. |
| Winners.PositiveKeepsOccurrences | src/pages/Winners.jsx:71 | Each row with a positive count keeps its number of occurrences; the others have none. |
| Winners.PositiveKeepsCount | src/pages/Winners.jsx:71 | For a positive count, the filter keeps the rows with that count unchanged and in order. |
| Winners.Insert | src/pages/Winners.jsx:72 | Inserting a row adds exactly that row to the multiset of rows. |
| Winners.InsertKeepsDescending | src/pages/Winners.jsx:72 | Inserting into a list sorted highest-first keeps it sorted. |
| Winners.SortByVotesDescending | src/pages/Winners.jsx:72 | The sort is a permutation of its input and is sorted highest count first. |
| Winners.InsertIsStable | src/pages/Winners.jsx:72 | Inserting a row puts it in front of the rows with the same count and leaves their order alone. |
| Winners.SortIsStable | src/pages/Winners.jsx:72 | Rows of equal count appear in their input order after the sort. |
| Winners.Breakdown | src/pages/Winners.jsx:70-72 | Defines the breakdown as the voted rows, sorted. Its contract: a permutation of the voted rows, sorted highest first; the lemmas below add stability and the link to the tally. |
| Winners.BreakdownShowsOnlyVotedNominees | src/pages/Winners.jsx:70-71 | Every breakdown row is a tally row with at least one vote. |
| Winners.BreakdownIsPermutationOfVoted | src/pages/Winners.jsx:70-72 | The breakdown is a permutation of the voted rows: each occurs as often as in the tally. |
| Winners.BreakdownIsSortedAndStable | src/pages/Winners.jsx:70-72 | The breakdown is sorted highest count first, and rows sharing a positive count keep their tally order. |
| Winners.NoVotesIffEmptyBreakdown | src/pages/Winners.jsx:81-107 | For a well-formed item, "no votes" is shown exactly when the breakdown is empty. |
| Winners.HighlightedRowsAreTheLeaders | src/pages/Winners.jsx:97-102 | With votes cast, a breakdown row is highlighted exactly when it is a tally row at the maximum. The highlighted rows are the tied rows of the status line, in tally order. |
| Winners.Highlighted | src/pages/Winners.jsx:99-102 | Defines the highlight test: votes were cast and the row's count is the maximum. Its contract: a highlighted row has at least one vote; `HighlightedRowsAreTheLeaders` characterizes it. |
| Winners.HighlightedRowsComeFirst | src/pages/Winners.jsx:97-102 | For a well-formed item, the highlighted rows form a prefix of the breakdown. |
| Winners.TieExample | src/pages/Winners.jsx:61-67 | Two rows at 5 and one at 2 give the tie "A & B". |
| Winners.NoVotesExample | src/pages/Winners.jsx:54-55 | A winner with zero votes gives "no votes". |
| Winners.SingleWinnerExample | src/pages/Winners.jsx:57-63 | One row at the maximum gives a single winner. |
| Winners.BreakdownExample | src/pages/Winners.jsx:70-72 | Counts 2, 5, 5 are listed as 5, 5, 2, with the two 5s in tally order. |
| Winners.PositiveExample | src/pages/Winners.jsx:71 | Rows that all have votes are all kept, in order. |
| Winners.SortExample | src/pages/Winners.jsx:72 | A lower count listed first moves behind the two tied rows. |
| Winners.SortTiedPair | src/pages/Winners.jsx:72 | Two rows of equal count keep their order. |
| Winners.InsertBelowPair | src/pages/Winners.jsx:72 | A row with a lower count goes behind both rows. |
| Admin.NomineeIndex | src/pages/Admin.jsx:67-68 | Every key maps to a record with that id drawn from the list, and every listed id is a key. |
| Admin.KeyOrder | src/pages/Admin.jsx:67-68 | The key order lists exactly the map's keys, each once. |
| Admin.KeyHasRecord | src/pages/Admin.jsx:67-68 | Every listed key was set by some record of the list. |
| Admin.KeyOrderFollowsFirstSetAt | src/pages/Admin.jsx:67-89 | A record carrying a later key is preceded by a record carrying each earlier key. |
| Admin.KeyOrderFollowsFirstSet | src/pages/Admin.jsx:67-89 | The key order is the order in which ids were first set, as a JavaScript `Map` lists its keys. |
| Admin.UniqueNominees | src/pages/Admin.jsx:89 | Defines the master list as the map's values in key order. Its contract: entry k has the k-th key as its id and is a loaded record. |
| Admin.MasterListInFirstSetOrder | src/pages/Admin.jsx:67-89 | The master list is in the order ids were first set: every record with a later entry's id is preceded by one with an earlier entry's id. |
| Admin.Stitched | src/pages/Admin.jsx:66-89 | Defines the loaded state. Its contract: categories keep their order and their id, name and description; `Stitch`, `LinkedNomineesMembership` and `StitchedIsConsistent` characterize the rest. |
| Admin.LinkedNominees | src/pages/Admin.jsx:71-80 | A category gets at most one nominee per link. |
| Admin.BuildNomineeMap | src/pages/Admin.jsx:67-68 | The loop builds exactly the specified map and key order. |
| Admin.GroupLinks | src/pages/Admin.jsx:71-80 | A category has an entry exactly when some link names it, and the entry is its linked nominees in link order. |
| Admin.Stitch | src/pages/Admin.jsx:66-89 | The loaded state is the specified stitching. A category without links gets an empty list, and the master list is the map's values in key order. |
| Admin.NoLinksNoNominees | src/pages/Admin.jsx:83-86 | A category that no link names gets no nominees. |
| Admin.LinkedNomineesMembership | src/pages/Admin.jsx:71-80 | A nominee is listed under a category exactly when a link of that category names a known id whose record it is. |
| Admin.LinkedNomineesFollowLinkOrder | src/pages/Admin.jsx:72-79 | The nominees of a category follow link order: the list for two concatenated link lists is the two lists concatenated. |
| Admin.LaterRecordWins | src/pages/Admin.jsx:67-68 | When an id is duplicated, the map holds its last record. |
| Admin.MasterListHasDistinctIds | src/pages/Admin.jsx:89 | The master list has pairwise distinct ids. |
| Admin.MasterListCoversEveryId | src/pages/Admin.jsx:89 | Every loaded id has a master record, and every master record is a loaded record. |
| Admin.MasterListKeepsLastRecord | src/pages/Admin.jsx:67-89 | The last record of each id is the one in the master list. |
| Admin.StitchedIsConsistent | src/pages/Admin.jsx:66-92 | After loading, the master ids are distinct and every category nominee is a master record. |
| Admin.ListOrEmpty | src/pages/Admin.jsx:55-64 | A nominee or link fetch with an error status yields an empty list. |
| Admin.LoadPage | src/pages/Admin.jsx:40-99 | A failed category fetch, or a fetch that cannot reach the server, leaves the state unchanged. Full replies load the stitched state. |
| Admin.UnknownNomineesDropped | src/pages/Admin.jsx:76-79 | With no known nominees every category gets an empty list. |
| Admin.LoadWithoutNomineeList | src/pages/Admin.jsx:55-92 | An error status on the nominee fetch loads every category with no nominees and an empty master list. |
| Admin.LoadWithoutLinks | src/pages/Admin.jsx:64-92 | An error status on the link fetch loads every category with no nominees; the master list is still built. |
| Admin.LoadPageKeepsConsistent | src/pages/Admin.jsx:40-99 | However the three fetches end, loading keeps the invariant. |
| Admin.RenameNomineeIn | src/pages/Admin.jsx:338-341 | Same length and ids; entries with the id get the new name; the others are unchanged. |
| Admin.RemoveNomineeFrom | src/pages/Admin.jsx:374-378 | What remains is exactly the entries without the id. |
| Admin.RemoveNomineeKeepsCopies | src/pages/Admin.jsx:374-378 | Every entry without the id keeps all its copies, and no entry with the id is left. |
| Admin.RemoveNomineeKeepsOrder | src/pages/Admin.jsx:374-378 | The remaining entries keep their relative order. |
| Admin.RemoveAbsentNominee | src/pages/Admin.jsx:374-378 | Removing an id nobody has changes nothing. |
| Admin.RenameCategoryIn | src/pages/Admin.jsx:277 | Only the category with the id changes, and only its name. |
| Admin.DescribeCategoryIn | src/pages/Admin.jsx:174-178 | Only the category with the id changes, and only its description. |
| Admin.RemoveCategoryFrom | src/pages/Admin.jsx:306 | What remains is exactly the categories without the id. |
| Admin.RemoveCategoryKeepsCopies | src/pages/Admin.jsx:306 | Every category without the id keeps all its copies, and no category with the id is left. |
| Admin.RemoveCategoryKeepsOrder | src/pages/Admin.jsx:306 | The remaining categories keep their order. |
| Admin.RemoveAbsentCategory | src/pages/Admin.jsx:306 | Removing an id no category has changes nothing. |
| Admin.AddCategory | src/pages/Admin.jsx:103-150 | Unchanged unless the category is created and every link request gets an answer. Then the new category is appended, listing the whole master list. |
| Admin.AddDescription | src/pages/Admin.jsx:153-189 | Unchanged without a selected category or when the update fails. On success only the selected category's description changes. |
| Admin.AddNominee | src/pages/Admin.jsx:192-252 | Unchanged for an empty name, with no categories, or when creation or linking fails. Otherwise the new nominee is appended to the master list and to every category. |
| Admin.EditCategory | src/pages/Admin.jsx:257-286 | Unchanged when the prompt is cancelled or empty, or the request fails. Otherwise the category is renamed. |
| Admin.DeleteCategory | src/pages/Admin.jsx:288-315 | Unchanged unless confirmed and successful. Then the category is removed. |
| Admin.EditNominee | src/pages/Admin.jsx:318-351 | Unchanged when the prompt is cancelled or empty, or the request fails. Otherwise the nominee is renamed in the master list and in every category. |
| Admin.DeleteNominee | src/pages/Admin.jsx:354-389 | Unchanged unless confirmed and successful. Then the nominee is removed from the master list and from every category. |
| Admin.AddCategoryKeepsConsistent | src/pages/Admin.jsx:142 | Adding a category keeps the invariant. |
| Admin.AddDescriptionKeepsConsistent | src/pages/Admin.jsx:174-178 | Setting a description keeps the invariant. |
| Admin.AddNomineeKeepsConsistent | src/pages/Admin.jsx:239-243 | Adding a nominee with a fresh id keeps the invariant. |
| Admin.EditCategoryKeepsConsistent | src/pages/Admin.jsx:277 | Renaming a category keeps the invariant. |
| Admin.DeleteCategoryKeepsConsistent | src/pages/Admin.jsx:306 | Deleting a category keeps the invariant. |
| Admin.RenameKeepsMembership | src/pages/Admin.jsx:338-341 | A renamed list holds every entry, renamed when it has the id. |
| Admin.EditNomineeKeepsConsistent | src/pages/Admin.jsx:338-342 | Renaming a nominee everywhere keeps the invariant. |
| Admin.DeleteNomineeKeepsConsistent | src/pages/Admin.jsx:374-379 | Deleting a nominee everywhere keeps the invariant. |
| Admin.SubsequenceKeepsDistinctIds | src/pages/Admin.jsx:374 | Dropping entries keeps ids distinct. |
| Admin.DeleteNomineeUndoesAddNominee | src/pages/Admin.jsx:239-379 | Adding a nominee with a fresh id and then deleting it restores the state. |
| Admin.RemoveAppended | src/pages/Admin.jsx:239-374 | Removing the id of an appended fresh entry gives back the list. |
| Admin.DeleteCategoryUndoesAddCategory | src/pages/Admin.jsx:142-306 | Adding a category with a fresh id and then deleting it restores the state. |
| Admin.RemoveCategoryAppended | src/pages/Admin.jsx:142-306 | Removing the id of an appended fresh category gives back the list. |
| PublicVoting.VotesMap | src/pages/PublicVoting.jsx:105-108 | A category is a key exactly when some recorded vote names it. |
| PublicVoting.LastVoteWins | src/pages/PublicVoting.jsx:105-108 | When several votes name a category, the map holds the nominee of the last one. |
| PublicVoting.BuildVotesMap | src/pages/PublicVoting.jsx:105-108 | The loop builds exactly the specified map. |
| PublicVoting.SaysAlreadyVoted | src/pages/PublicVoting.jsx:172 | Defines the test: the lower-cased message contains "already voted". Its contract: a recognised message is at least as long as the phrase; `PhraseFoundInContext`, `CaseIsIgnored` and `SameLowerCaseSameVerdict` characterize it. |
| PublicVoting.PhraseFoundInContext | src/pages/PublicVoting.jsx:172 | A message that says "already voted" still says it with any text around it. |
| PublicVoting.CaseIsIgnored | src/pages/PublicVoting.jsx:172 | Any message that lower-cases to "already voted" is recognised, whatever the case of its letters. |
| PublicVoting.SameLowerCaseSameVerdict | src/pages/PublicVoting.jsx:172 | Two messages that differ only in letter case are both recognised or both not. |
| PublicVoting.UpperCaseMessageIsRecognised | src/pages/PublicVoting.jsx:172 | One instance of `CaseIsIgnored`: the all-capitals message "ALREADY VOTED" is recognised. |
| PublicVoting.SelectStep | src/pages/PublicVoting.jsx:228 | In a voted category the picks are unchanged. Otherwise the category's pick becomes the nominee, and the other categories are unchanged. |
| PublicVoting.SubmitStep | src/pages/PublicVoting.jsx:130-188 | With no pick, nothing changes. On acceptance, or a rejection saying "already voted", the category is recorded with its pick. On any other rejection or a network failure, nothing changes. Other categories are never touched. |
| PublicVoting.SelectKeepsInvariant | src/pages/PublicVoting.jsx:228 | Picking keeps every voted category's pick equal to its recorded vote. |
| PublicVoting.SubmitKeepsInvariant | src/pages/PublicVoting.jsx:160-177 | Submitting keeps every voted category's pick equal to its recorded vote. |
| PublicVoting.VoteIsFinal | src/pages/PublicVoting.jsx:130-188 | No submission removes or changes a recorded vote, whatever the server answers. |
| PublicVoting.VotedCategoryIsLocked | src/pages/PublicVoting.jsx:197-236 | In a voted category submit is disabled and picking changes nothing. Exactly the voted nominee is checked, and it is also the pick. |
| PublicVoting.HasVoted | src/pages/PublicVoting.jsx:197 | Defines "voted" as the category having a recorded vote; `VotedCategoryIsLocked` characterizes it. |
| PublicVoting.IsChecked | src/pages/PublicVoting.jsx:225 | Defines the checked radio button: the voted nominee once voted, otherwise the pick; `OneNomineeChecked` and `VotedCategoryIsLocked` characterize it. |
| PublicVoting.SubmitDisabled | src/pages/PublicVoting.jsx:236 | Defines the disabled submit button: voted, or nothing picked; `EnabledSubmitSendsCheckedNominee` characterizes it. |
| PublicVoting.OneNomineeChecked | src/pages/PublicVoting.jsx:225 | At most one radio button of a category is checked. |
| PublicVoting.EnabledSubmitSendsCheckedNominee | src/pages/PublicVoting.jsx:130-236 | An enabled submit button sends the pick, and the pick is exactly the checked nominee. |
| PublicVoting.AcceptedSubmissionLocks | src/pages/PublicVoting.jsx:160-236 | An accepted submission locks the category, with exactly the submitted nominee checked. |
| PublicVoting.Ballot.constructor | src/pages/PublicVoting.jsx:83-88 | Both maps start empty. |
| PublicVoting.Ballot.Load | src/pages/PublicVoting.jsx:90-125 | After a load both maps equal the folded vote list. A failed load leaves them unchanged. |
| PublicVoting.Ballot.Select | src/pages/PublicVoting.jsx:228 | The picks become the selection step of the old picks. |
| PublicVoting.Ballot.Submit | src/pages/PublicVoting.jsx:130-188 | The recorded votes become the submission step of the old ones, and the ballot invariant is kept. |

## Left out

- Network requests, HTTP statuses and JSON parsing: every response is an input value (`Reply`, `LoadOutcome`, `SubmitOutcome`).
- Modal alerts, the loading spinner, Bootstrap components and rendering in general. The form fields that handlers reset after success are not modelled either.
- The `Promise.all` batches that create nomination links are concurrent requests. A batch is modelled only as one flag, `linksReached`: every link request got an answer. A link request answered with an error status still counts as reached, as in the code.
- Caching of results and sessions in `localStorage`, and the routing in `src/App.jsx` and `src/components/Layout.jsx`: glue with no logic to state.
- The voter sign-in form, and the check that gates loading on a signed-in voter. The voting page's list of categories and nominees is passed straight to rendering and is not modelled.
- The admin login and its hard-coded credential comparison.
- Unicode: `toLowerCase` is modelled for the letters A to Z only.
- JavaScript coercions. Ids are one type of positive natural numbers (`Common.Id`), so `String(id)` comparison is plain equality. Every id is truthy by its type, so a key present in a map stands for `!!votedCategories[id]` and for `selectedVotes[categoryId]` being set (`PublicVoting.jsx:132, 197, 236`). A falsy id (0 or an empty string), which the page would treat as absent, cannot be expressed.
- Vote counts are natural numbers. The sort's comparator `b.voteCount - a.voteCount` is modelled as a stable sort by count, highest first.
- Asynchrony: the model does not interleave handlers or capture stale state. Each handler applies its update to the state it started from.
- A JavaScript `Map`'s key order is modelled explicitly, as the sequence of ids in the order they were first set.
- Admin.AddNomineeKeepsConsistent, Admin.DeleteNomineeUndoesAddNominee and Admin.DeleteCategoryUndoesAddCategory assume the server gives the created nominee or category a fresh id. The page itself never checks this.
