/** The voting page (src/pages/PublicVoting.jsx). A signed-in voter sees
    every category with its nominees, picks one nominee per category and
    submits it. The page keeps two maps from category id to nominee id:
    `selectedVotes`, the current pick, and `votedCategories`, the votes the
    page knows the server has recorded. A category present in
    `votedCategories` is locked. */
module PublicVoting {
  import opened Common

  /** A vote already recorded for the voter, as the server lists it. */
  datatype Vote = Vote(categoryId: Id, nomineeId: Id)

  /** How loading the voter's existing votes ended. */
  datatype LoadOutcome = Loaded(votes: seq<Vote>) | LoadFailed

  /** How a vote submission ended: the server accepted it, the server
      rejected it with a message (empty when it sent none), or the server
      could not be reached or its answer was not JSON. */
  datatype SubmitOutcome = Accepted | Rejected(message: string) | NetworkFailure

  // =====================================================================
  // Loading

  /** The map the page folds the vote list into: each vote sets its
      category's entry, so a later vote overrides an earlier one. */
  function VotesMap(votes: seq<Vote>): (m: map<Id, Id>)
    ensures forall c :: c in m <==> exists t :: 0 <= t < |votes| && votes[t].categoryId == c
    decreases |votes|
  {
    if votes == [] then map[]
    else
      var last := votes[|votes| - 1];
      VotesMap(votes[..|votes| - 1])[last.categoryId := last.nomineeId]
  }

  /** When the server lists several votes for one category, the last one counts. */
  lemma {:induction false} LastVoteWins(votes: seq<Vote>, j: nat)
    requires j < |votes|
    requires forall t :: j < t < |votes| ==> votes[t].categoryId != votes[j].categoryId
    ensures votes[j].categoryId in VotesMap(votes) && VotesMap(votes)[votes[j].categoryId] == votes[j].nomineeId
    decreases |votes|
  {
    if j < |votes| - 1 {
      var prefix := votes[..|votes| - 1];
      forall t | j < t < |prefix| ensures prefix[t].categoryId != prefix[j].categoryId {
        assert prefix[t] == votes[t];
      }
      LastVoteWins(prefix, j);
    }
  }

  /** Folds the vote list into a map, one vote at a time, in place. */
  method BuildVotesMap(existingVotes: seq<Vote>) returns (votesMap: map<Id, Id>)
    ensures votesMap == VotesMap(existingVotes)
  {
    votesMap := map[];
    var i := 0;
    while i < |existingVotes|
      invariant 0 <= i <= |existingVotes|
      invariant votesMap == VotesMap(existingVotes[..i])
    {
      assert existingVotes[..i + 1][..i] == existingVotes[..i];
      var vote := existingVotes[i];
      votesMap := votesMap[vote.categoryId := vote.nomineeId];
      i := i + 1;
    }
    assert existingVotes[..i] == existingVotes;
  }

  // =====================================================================
  // Recognising an "already voted" rejection

  /** Lower case for the letters A to Z; every other character is kept. */
  function LowerAscii(ch: char): char {
    if 'A' <= ch <= 'Z' then (ch as int + 32) as char else ch
  }

  function ToLowerAscii(s: string): string {
    seq(|s|, i requires 0 <= i < |s| => LowerAscii(s[i]))
  }

  /** `part` occurs in `s` starting at position `i`. */
  predicate OccursAt(s: string, part: string, i: int) {
    0 <= i && i + |part| <= |s| && s[i..i + |part|] == part
  }

  predicate Contains(s: string, part: string) {
    exists i :: 0 <= i <= |s| && OccursAt(s, part, i)
  }

  const AlreadyVotedPhrase: string := "already voted"

  /** The message contains "already voted", ignoring case. */
  predicate SaysAlreadyVoted(message: string)
    ensures SaysAlreadyVoted(message) ==> |message| >= |AlreadyVotedPhrase|
  {
    Contains(ToLowerAscii(message), AlreadyVotedPhrase)
  }

  lemma LowerCaseOfConcatenation(a: string, b: string)
    ensures ToLowerAscii(a + b) == ToLowerAscii(a) + ToLowerAscii(b)
  {
  }

  /** An occurrence survives text added on either side, shifted by the
      length of what comes before. */
  lemma OccursInContext(a: string, s: string, b: string, part: string, i: int)
    requires OccursAt(s, part, i)
    ensures OccursAt(a + s + b, part, |a| + i)
  {
    var whole := a + s + b;
    assert whole[|a| + i..|a| + i + |part|] == s[i..i + |part|];
  }

  /** The phrase is recognised whatever surrounds it. */
  lemma PhraseFoundInContext(before: string, message: string, after: string)
    requires SaysAlreadyVoted(message)
    ensures SaysAlreadyVoted(before + message + after)
  {
    var lowered := ToLowerAscii(message);
    var i :| 0 <= i <= |lowered| && OccursAt(lowered, AlreadyVotedPhrase, i);
    LowerCaseOfConcatenation(before, message);
    LowerCaseOfConcatenation(before + message, after);
    var prefix := ToLowerAscii(before);
    OccursInContext(prefix, lowered, ToLowerAscii(after), AlreadyVotedPhrase, i);
    assert ToLowerAscii(before + message + after) == prefix + lowered + ToLowerAscii(after);
    assert OccursAt(ToLowerAscii(before + message + after), AlreadyVotedPhrase, |prefix| + i);
  }

  /** Case is ignored: a message that lower-cases to the phrase is
      recognised, whatever the case of its letters. */
  lemma CaseIsIgnored(message: string)
    requires ToLowerAscii(message) == AlreadyVotedPhrase
    ensures SaysAlreadyVoted(message)
  {
    assert OccursAt(ToLowerAscii(message), AlreadyVotedPhrase, 0);
  }

  /** Two messages that differ only in the case of their letters get the
      same verdict. */
  lemma SameLowerCaseSameVerdict(a: string, b: string)
    requires ToLowerAscii(a) == ToLowerAscii(b)
    ensures SaysAlreadyVoted(a) <==> SaysAlreadyVoted(b)
  {
  }

  /** An all-capitals rejection message is recognised. */
  lemma UpperCaseMessageIsRecognised()
    ensures SaysAlreadyVoted("ALREADY VOTED")
  {
    assert ToLowerAscii("ALREADY VOTED") == AlreadyVotedPhrase;
    CaseIsIgnored("ALREADY VOTED");
  }

  // =====================================================================
  // The ballot's transitions, on the two maps

  /** Every category the page knows as voted still shows as picked the
      nominee it was voted for. */
  ghost predicate BallotInvariant(selected: map<Id, Id>, voted: map<Id, Id>) {
    forall c :: c in voted ==> c in selected && selected[c] == voted[c]
  }

  /** Picking a nominee: ignored once the category is voted. */
  function SelectStep(selected: map<Id, Id>, voted: map<Id, Id>, c: Id, n: Id): (r: map<Id, Id>)
    ensures c in voted ==> r == selected
    ensures c !in voted ==> c in r && r[c] == n
    ensures forall d :: d != c ==> (d in r <==> d in selected) && (d in r ==> r[d] == selected[d])
  {
    if c in voted then selected else selected[c := n]
  }

  /** The new `votedCategories` after submitting the pick of category `c`. */
  function SubmitStep(selected: map<Id, Id>, voted: map<Id, Id>, c: Id, outcome: SubmitOutcome): (r: map<Id, Id>)
    ensures c !in selected ==> r == voted
    ensures c in selected && (outcome.Accepted? || (outcome.Rejected? && SaysAlreadyVoted(outcome.message))) ==>
              c in r && r[c] == selected[c]
    ensures outcome.NetworkFailure? || (outcome.Rejected? && !SaysAlreadyVoted(outcome.message)) ==> r == voted
    ensures forall d :: d != c ==> (d in r <==> d in voted) && (d in r ==> r[d] == voted[d])
  {
    if c !in selected then voted
    else
      match outcome
      case Accepted => voted[c := selected[c]]
      case Rejected(message) => if SaysAlreadyVoted(message) then voted[c := selected[c]] else voted
      case NetworkFailure => voted
  }

  lemma SelectKeepsInvariant(selected: map<Id, Id>, voted: map<Id, Id>, c: Id, n: Id)
    requires BallotInvariant(selected, voted)
    ensures BallotInvariant(SelectStep(selected, voted, c, n), voted)
  {
  }

  lemma SubmitKeepsInvariant(selected: map<Id, Id>, voted: map<Id, Id>, c: Id, outcome: SubmitOutcome)
    requires BallotInvariant(selected, voted)
    ensures BallotInvariant(selected, SubmitStep(selected, voted, c, outcome))
  {
  }

  /** A recorded vote is final: no submission removes it or changes its
      nominee, whatever the server answers. */
  lemma VoteIsFinal(selected: map<Id, Id>, voted: map<Id, Id>, c: Id, outcome: SubmitOutcome)
    requires BallotInvariant(selected, voted)
    ensures forall d :: d in voted ==> d in SubmitStep(selected, voted, c, outcome) &&
                                       SubmitStep(selected, voted, c, outcome)[d] == voted[d]
  {
    var r := SubmitStep(selected, voted, c, outcome);
    if c in voted {
      assert selected[c] == voted[c];
    }
  }

  // =====================================================================
  // What the page shows for a category

  predicate HasVoted(voted: map<Id, Id>, c: Id) {
    c in voted
  }

  /** The radio button of nominee `n` in category `c` is checked. */
  predicate IsChecked(selected: map<Id, Id>, voted: map<Id, Id>, c: Id, n: Id) {
    if HasVoted(voted, c) then voted[c] == n else c in selected && selected[c] == n
  }

  /** The submit button is disabled once voted or while nothing is picked. */
  predicate SubmitDisabled(selected: map<Id, Id>, voted: map<Id, Id>, c: Id) {
    HasVoted(voted, c) || c !in selected
  }

  /** At most one radio button of a category is checked. */
  lemma OneNomineeChecked(selected: map<Id, Id>, voted: map<Id, Id>, c: Id, n: Id, m: Id)
    requires IsChecked(selected, voted, c, n) && IsChecked(selected, voted, c, m)
    ensures n == m
  {
  }

  /** An enabled submit button sends the nominee whose radio button is checked. */
  lemma EnabledSubmitSendsCheckedNominee(selected: map<Id, Id>, voted: map<Id, Id>, c: Id)
    requires !SubmitDisabled(selected, voted, c)
    ensures c in selected && IsChecked(selected, voted, c, selected[c])
    ensures forall n :: IsChecked(selected, voted, c, n) <==> n == selected[c]
  {
  }

  /** Once a category is voted, its radio buttons and submit button are
      disabled, its pick cannot change, and exactly the voted nominee is
      checked. */
  lemma VotedCategoryIsLocked(selected: map<Id, Id>, voted: map<Id, Id>, c: Id)
    requires BallotInvariant(selected, voted)
    requires HasVoted(voted, c)
    ensures SubmitDisabled(selected, voted, c)
    ensures forall n :: SelectStep(selected, voted, c, n) == selected
    ensures forall n :: IsChecked(selected, voted, c, n) <==> n == voted[c]
    ensures forall n :: IsChecked(selected, voted, c, n) <==> c in selected && selected[c] == n
  {
  }

  /** A successful submission locks the category on the submitted nominee. */
  lemma AcceptedSubmissionLocks(selected: map<Id, Id>, voted: map<Id, Id>, c: Id)
    requires BallotInvariant(selected, voted)
    requires !SubmitDisabled(selected, voted, c)
    ensures var after := SubmitStep(selected, voted, c, Accepted);
            HasVoted(after, c) && SubmitDisabled(selected, after, c) &&
            forall n :: IsChecked(selected, after, c, n) <==> n == selected[c]
  {
  }

  // =====================================================================
  // The page's state

  class Ballot {
    var selectedVotes: map<Id, Id>
    var votedCategories: map<Id, Id>

    ghost predicate Valid()
      reads this
    {
      BallotInvariant(selectedVotes, votedCategories)
    }

    /** Both maps start empty. */
    constructor ()
      ensures Valid()
      ensures selectedVotes == map[] && votedCategories == map[]
    {
      selectedVotes := map[];
      votedCategories := map[];
    }

    /** Loading the voter's votes sets both maps to the folded vote list;
        a failed load leaves them as they were. */
    method Load(outcome: LoadOutcome)
      requires Valid()
      modifies this
      ensures Valid()
      ensures outcome.Loaded? ==> votedCategories == VotesMap(outcome.votes) && selectedVotes == votedCategories
      ensures outcome.LoadFailed? ==> selectedVotes == old(selectedVotes) && votedCategories == old(votedCategories)
    {
      if outcome.Loaded? {
        var votesMap := BuildVotesMap(outcome.votes);
        votedCategories := votesMap;
        selectedVotes := votesMap;
      }
    }

    /** The voter picks nominee `nomineeId` in category `categoryId`. */
    method Select(categoryId: Id, nomineeId: Id)
      requires Valid()
      modifies this`selectedVotes
      ensures Valid()
      ensures selectedVotes == SelectStep(old(selectedVotes), votedCategories, categoryId, nomineeId)
    {
      if categoryId !in votedCategories {
        selectedVotes := selectedVotes[categoryId := nomineeId];
      }
    }

    /** Submits the pick of a category; the server's answer is `outcome`. */
    method Submit(categoryId: Id, outcome: SubmitOutcome)
      requires Valid()
      modifies this`votedCategories
      ensures Valid()
      ensures votedCategories == SubmitStep(selectedVotes, old(votedCategories), categoryId, outcome)
    {
      SubmitKeepsInvariant(selectedVotes, votedCategories, categoryId, outcome);
      if categoryId !in selectedVotes {
        return;
      }
      var nomineeId := selectedVotes[categoryId];
      match outcome {
        case Accepted =>
          votedCategories := votedCategories[categoryId := nomineeId];
        case Rejected(message) =>
          if SaysAlreadyVoted(message) && categoryId in selectedVotes {
            votedCategories := votedCategories[categoryId := selectedVotes[categoryId]];
          }
        case NetworkFailure =>
      }
    }
  }
}
