/** The results page (src/pages/Winners.jsx): for every category the server
    sends its designated winner and its full tally; the page announces
    "no votes", a single winner or a tie, and lists a breakdown of the
    nominees that received votes, highest count first. */
module Winners {
  import opened Common

  /** One row of a category's full tally, zero-vote nominees included. */
  datatype TallyEntry = TallyEntry(id: Id, name: string, voteCount: nat)

  /** The entry the server designates as the category's winner. */
  datatype WinnerEntry = WinnerEntry(name: string, voteCount: nat)

  /** One element of the winners response. */
  datatype ResultItem = ResultItem(categoryName: string, winner: WinnerEntry, fullTally: seq<TallyEntry>)

  /** What the card of one category announces. `Tie` carries the joined names. */
  datatype Status = NoVotes | SingleWinner(name: string) | Tie(names: string)

  const TieSeparator: string := " & "

  /** What the page relies on without checking it: the winner's count is the
      largest count of the tally, and the winner is one of the tally's rows. */
  ghost predicate WellFormed(item: ResultItem) {
    && (forall e :: e in item.fullTally ==> e.voteCount <= item.winner.voteCount)
    && (exists e :: e in item.fullTally && e.name == item.winner.name && e.voteCount == item.winner.voteCount)
  }

  // ---------------------------------------------------------------------
  // Filters over a tally

  /** The rows whose count is exactly `k`, in tally order. */
  function WithCount(tally: seq<TallyEntry>, k: nat): (r: seq<TallyEntry>)
    ensures forall e :: e in r ==> e in tally && e.voteCount == k
    ensures forall e :: e in tally && e.voteCount == k ==> e in r
  {
    if tally == [] then []
    else if tally[0].voteCount == k then [tally[0]] + WithCount(tally[1..], k)
    else WithCount(tally[1..], k)
  }

  /** The rows that received at least one vote, in tally order. */
  function Positive(tally: seq<TallyEntry>): (r: seq<TallyEntry>)
    ensures forall e :: e in r ==> e in tally && e.voteCount > 0
    ensures forall e :: e in tally && e.voteCount > 0 ==> e in r
  {
    if tally == [] then []
    else if tally[0].voteCount > 0 then [tally[0]] + Positive(tally[1..])
    else Positive(tally[1..])
  }

  function Names(rows: seq<TallyEntry>): seq<string> {
    seq(|rows|, i requires 0 <= i < |rows| => rows[i].name)
  }

  /** The parts, in order, with `sep` between consecutive ones. */
  function Join(parts: seq<string>, sep: string): string {
    if |parts| == 0 then ""
    else if |parts| == 1 then parts[0]
    else parts[0] + sep + Join(parts[1..], sep)
  }

  // ---------------------------------------------------------------------
  // Winner / tie classification

  /** The status of one category. The winner's count is taken as the
      maximum; a tie is declared when more than one tally row reaches it. */
  function Classify(item: ResultItem): (s: Status)
    ensures s == NoVotes <==> item.winner.voteCount == 0
    ensures s.SingleWinner? ==> s.name == item.winner.name
    ensures s.Tie? ==>
              |WithCount(item.fullTally, item.winner.voteCount)| >= 2 &&
              s.names == Join(Names(WithCount(item.fullTally, item.winner.voteCount)), TieSeparator)
  {
    var maxVotes := item.winner.voteCount;
    if maxVotes == 0 then NoVotes
    else
      var tied := WithCount(item.fullTally, maxVotes);
      if |tied| > 1 then Tie(Join(Names(tied), TieSeparator))
      else SingleWinner(item.winner.name)
  }

  /** The rows with count `k` are the tally's own rows with that count, in
      tally order, every occurrence kept and nothing else added. */
  lemma {:induction false} WithCountKeepsTallyOrder(tally: seq<TallyEntry>, k: nat)
    ensures IsSubsequence(WithCount(tally, k), tally)
    ensures forall e :: multiset(WithCount(tally, k))[e] == if e.voteCount == k then multiset(tally)[e] else 0
  {
    if tally != [] {
      WithCountKeepsTallyOrder(tally[1..], k);
      var rest := WithCount(tally[1..], k);
      assert tally == [tally[0]] + tally[1..];
      if tally[0].voteCount == k {
        assert ([tally[0]] + rest)[1..] == rest;
      }
    }
  }

  /** Two distinct positions of the tally hold count `k`. */
  ghost predicate TwoPositionsWithCount(tally: seq<TallyEntry>, k: nat) {
    exists i, j :: 0 <= i < j < |tally| && tally[i].voteCount == k && tally[j].voteCount == k
  }

  lemma {:induction false} TwoRowsFromTwoPositions(tally: seq<TallyEntry>, k: nat)
    requires TwoPositionsWithCount(tally, k)
    ensures |WithCount(tally, k)| >= 2
  {
    var i, j :| 0 <= i < j < |tally| && tally[i].voteCount == k && tally[j].voteCount == k;
    var tail := tally[1..];
    if i == 0 {
      assert tail[j - 1] == tally[j];
      assert tally[j] in WithCount(tail, k);
    } else {
      assert tail[i - 1] == tally[i] && tail[j - 1] == tally[j];
      assert TwoPositionsWithCount(tail, k);
      TwoRowsFromTwoPositions(tail, k);
    }
  }

  lemma {:induction false} TwoPositionsFromTwoRows(tally: seq<TallyEntry>, k: nat)
    requires |WithCount(tally, k)| >= 2
    ensures TwoPositionsWithCount(tally, k)
  {
    var tail := tally[1..];
    var rest := WithCount(tail, k);
    if tally[0].voteCount == k {
      assert WithCount(tally, k) == [tally[0]] + rest;
      var e := rest[0];
      assert e in rest;
      assert e in tail && e.voteCount == k;
      var j :| 0 <= j < |tail| && tail[j] == e;
      assert tally[j + 1] == e;
      assert 0 < j + 1 < |tally| && tally[0].voteCount == k && tally[j + 1].voteCount == k;
    } else {
      assert WithCount(tally, k) == rest;
      TwoPositionsFromTwoRows(tail, k);
      var i, j :| 0 <= i < j < |tail| && tail[i].voteCount == k && tail[j].voteCount == k;
      assert tally[i + 1] == tail[i] && tally[j + 1] == tail[j];
      assert 0 <= i + 1 < j + 1 < |tally| && tally[i + 1].voteCount == k && tally[j + 1].voteCount == k;
    }
  }

  /** At least two rows have count `k` exactly when two distinct positions of
      the tally hold count `k`. */
  lemma TwoRowsWithCount(tally: seq<TallyEntry>, k: nat)
    ensures |WithCount(tally, k)| >= 2 <==> TwoPositionsWithCount(tally, k)
  {
    if |WithCount(tally, k)| >= 2 {
      TwoPositionsFromTwoRows(tally, k);
    }
    if TwoPositionsWithCount(tally, k) {
      TwoRowsFromTwoPositions(tally, k);
    }
  }

  /** With votes cast, the page declares a tie exactly when two distinct
      tally rows reach the maximum, and a single winner otherwise. */
  lemma TieIffTwoLeaders(item: ResultItem)
    requires item.winner.voteCount > 0
    ensures Classify(item).Tie? <==> TwoPositionsWithCount(item.fullTally, item.winner.voteCount)
    ensures Classify(item).SingleWinner? <==> !TwoPositionsWithCount(item.fullTally, item.winner.voteCount)
  {
    TwoRowsWithCount(item.fullTally, item.winner.voteCount);
  }

  /** When exactly one row reaches a positive maximum, the announced winner
      is that row's nominee. */
  lemma SingleWinnerIsTheLeader(item: ResultItem, i: nat)
    requires WellFormed(item)
    requires i < |item.fullTally| && item.fullTally[i].voteCount == item.winner.voteCount > 0
    requires forall j :: 0 <= j < |item.fullTally| && j != i ==>
                         item.fullTally[j].voteCount != item.winner.voteCount
    ensures Classify(item) == SingleWinner(item.fullTally[i].name)
  {
    TieIffTwoLeaders(item);
    var e :| e in item.fullTally && e.name == item.winner.name && e.voteCount == item.winner.voteCount;
    var m :| 0 <= m < |item.fullTally| && item.fullTally[m] == e;
    assert m == i;
  }

  // ---------------------------------------------------------------------
  // The vote breakdown: positive rows, sorted by count, highest first

  ghost predicate DescendingByVotes(rows: seq<TallyEntry>) {
    forall i, j :: 0 <= i < j < |rows| ==> rows[i].voteCount >= rows[j].voteCount
  }

  /** Inserts `x` in front of the first row whose count does not exceed its own. */
  function Insert(x: TallyEntry, sorted: seq<TallyEntry>): (r: seq<TallyEntry>)
    ensures multiset(r) == multiset(sorted) + multiset{x}
  {
    if sorted == [] || x.voteCount >= sorted[0].voteCount then [x] + sorted
    else
      assert sorted == [sorted[0]] + sorted[1..];
      [sorted[0]] + Insert(x, sorted[1..])
  }

  lemma {:induction false} InsertKeepsDescending(x: TallyEntry, sorted: seq<TallyEntry>)
    requires DescendingByVotes(sorted)
    ensures DescendingByVotes(Insert(x, sorted))
  {
    if sorted != [] && x.voteCount < sorted[0].voteCount {
      var tail := sorted[1..];
      assert DescendingByVotes(tail) by {
        forall i, j | 0 <= i < j < |tail| ensures tail[i].voteCount >= tail[j].voteCount {
          assert tail[i] == sorted[i + 1] && tail[j] == sorted[j + 1];
        }
      }
      InsertKeepsDescending(x, tail);
      var inserted := Insert(x, tail);
      forall e | e in tail ensures e.voteCount <= sorted[0].voteCount {
        var m :| 0 <= m < |tail| && tail[m] == e;
        assert sorted[m + 1] == e;
      }
      InsertKeepsBound(x, tail, sorted[0].voteCount);
      var r := [sorted[0]] + inserted;
      forall i, j | 0 <= i < j < |r| ensures r[i].voteCount >= r[j].voteCount {
        assert r[j] == inserted[j - 1];
        assert inserted[j - 1] in inserted;
        if i > 0 {
          assert r[i] == inserted[i - 1];
        }
      }
    }
  }

  /** Inserting a row keeps every count under a bound both sides respect. */
  lemma InsertKeepsBound(x: TallyEntry, rows: seq<TallyEntry>, bound: nat)
    requires x.voteCount <= bound
    requires forall e :: e in rows ==> e.voteCount <= bound
    ensures forall e :: e in Insert(x, rows) ==> e.voteCount <= bound
  {
    var inserted := Insert(x, rows);
    forall e | e in inserted ensures e.voteCount <= bound {
      assert e in multiset(inserted);
      if e != x {
        assert e in multiset(rows);
      }
    }
  }

  /** A stable sort by count, highest first: a row moves in front of a
      later row only when its count is strictly larger. */
  function SortByVotesDescending(rows: seq<TallyEntry>): (r: seq<TallyEntry>)
    ensures multiset(r) == multiset(rows)
    ensures DescendingByVotes(r)
  {
    if rows == [] then []
    else
      var rest := SortByVotesDescending(rows[1..]);
      InsertKeepsDescending(rows[0], rest);
      assert rows == [rows[0]] + rows[1..];
      Insert(rows[0], rest)
  }

  lemma {:induction false} InsertIsStable(x: TallyEntry, sorted: seq<TallyEntry>, k: nat)
    ensures WithCount(Insert(x, sorted), k) ==
            if x.voteCount == k then [x] + WithCount(sorted, k) else WithCount(sorted, k)
  {
    if sorted != [] && x.voteCount < sorted[0].voteCount {
      InsertIsStable(x, sorted[1..], k);
      var r := Insert(x, sorted);
      assert r[0] == sorted[0] && r[1..] == Insert(x, sorted[1..]);
    } else {
      assert ([x] + sorted)[1..] == sorted;
    }
  }

  /** Among rows of equal count the sort keeps their original order. */
  lemma {:induction false} SortIsStable(rows: seq<TallyEntry>, k: nat)
    ensures WithCount(SortByVotesDescending(rows), k) == WithCount(rows, k)
  {
    if rows != [] {
      SortIsStable(rows[1..], k);
      InsertIsStable(rows[0], SortByVotesDescending(rows[1..]), k);
    }
  }

  /** The breakdown list of one category. */
  function Breakdown(tally: seq<TallyEntry>): (r: seq<TallyEntry>)
    ensures multiset(r) == multiset(Positive(tally))
    ensures DescendingByVotes(r)
  {
    SortByVotesDescending(Positive(tally))
  }

  lemma {:induction false} PositiveKeepsOccurrences(tally: seq<TallyEntry>)
    ensures forall e :: multiset(Positive(tally))[e] == if e.voteCount > 0 then multiset(tally)[e] else 0
  {
    if tally != [] {
      PositiveKeepsOccurrences(tally[1..]);
      assert tally == [tally[0]] + tally[1..];
    }
  }

  lemma {:induction false} PositiveKeepsCount(tally: seq<TallyEntry>, k: nat)
    requires k > 0
    ensures WithCount(Positive(tally), k) == WithCount(tally, k)
  {
    if tally != [] {
      PositiveKeepsCount(tally[1..], k);
      if tally[0].voteCount > 0 {
        assert ([tally[0]] + Positive(tally[1..]))[1..] == Positive(tally[1..]);
      }
    }
  }

  /** The breakdown never lists a nominee without votes. */
  lemma BreakdownShowsOnlyVotedNominees(tally: seq<TallyEntry>)
    ensures forall e :: e in Breakdown(tally) ==> e in tally && e.voteCount > 0
  {
    forall e | e in Breakdown(tally) ensures e in tally && e.voteCount > 0 {
      assert e in multiset(Breakdown(tally));
      assert e in multiset(Positive(tally));
    }
  }

  /** The breakdown loses no voted row and adds none: every row with a
      positive count occurs in it exactly as often as in the tally. */
  lemma BreakdownIsPermutationOfVoted(tally: seq<TallyEntry>)
    ensures forall e :: multiset(Breakdown(tally))[e] == if e.voteCount > 0 then multiset(tally)[e] else 0
  {
    PositiveKeepsOccurrences(tally);
  }

  /** The breakdown is sorted by count, highest first, and rows of equal
      count appear in their tally order. */
  lemma BreakdownIsSortedAndStable(tally: seq<TallyEntry>)
    ensures DescendingByVotes(Breakdown(tally))
    ensures forall k :: k > 0 ==> WithCount(Breakdown(tally), k) == WithCount(tally, k)
  {
    forall k | k > 0 ensures WithCount(Breakdown(tally), k) == WithCount(tally, k) {
      SortIsStable(Positive(tally), k);
      PositiveKeepsCount(tally, k);
    }
  }

  /** The page shows "no votes" exactly when the breakdown is empty. */
  lemma NoVotesIffEmptyBreakdown(item: ResultItem)
    requires WellFormed(item)
    ensures Classify(item) == NoVotes <==> Breakdown(item.fullTally) == []
  {
    BreakdownIsPermutationOfVoted(item.fullTally);
    var e :| e in item.fullTally && e.name == item.winner.name && e.voteCount == item.winner.voteCount;
    if item.winner.voteCount > 0 {
      assert multiset(item.fullTally)[e] > 0;
      assert multiset(Breakdown(item.fullTally))[e] > 0;
    } else {
      var rows := Breakdown(item.fullTally);
      forall r: TallyEntry ensures multiset(rows)[r] == 0 {
        if r.voteCount > 0 {
          assert r !in item.fullTally;
        }
      }
      assert multiset(rows) == multiset{};
    }
  }

  // ---------------------------------------------------------------------
  // Highlighting of breakdown rows

  /** A breakdown row is shown in bold green when the category has votes and
      the row's count equals the maximum. */
  predicate Highlighted(item: ResultItem, row: TallyEntry)
    ensures Highlighted(item, row) ==> row.voteCount > 0
  {
    item.winner.voteCount != 0 && row.voteCount == item.winner.voteCount
  }

  /** The highlighted rows, in breakdown order, are the tied rows in tally
      order: exactly the nominees the status line names. */
  lemma HighlightedRowsAreTheLeaders(item: ResultItem)
    requires item.winner.voteCount > 0
    ensures forall e :: e in Breakdown(item.fullTally) && Highlighted(item, e) <==>
                        e in item.fullTally && e.voteCount == item.winner.voteCount
    ensures WithCount(Breakdown(item.fullTally), item.winner.voteCount) ==
            WithCount(item.fullTally, item.winner.voteCount)
  {
    BreakdownIsSortedAndStable(item.fullTally);
    BreakdownShowsOnlyVotedNominees(item.fullTally);
    var k := item.winner.voteCount;
    forall e | e in item.fullTally && e.voteCount == k ensures e in Breakdown(item.fullTally) {
      assert e in WithCount(item.fullTally, k);
    }
  }

  /** With a well-formed item the highlighted rows form a prefix of the breakdown. */
  lemma HighlightedRowsComeFirst(item: ResultItem)
    requires WellFormed(item)
    ensures forall i, j :: 0 <= i < j < |Breakdown(item.fullTally)| &&
                           Highlighted(item, Breakdown(item.fullTally)[j]) ==>
                           Highlighted(item, Breakdown(item.fullTally)[i])
  {
    var rows := Breakdown(item.fullTally);
    BreakdownShowsOnlyVotedNominees(item.fullTally);
    forall i, j | 0 <= i < j < |rows| && Highlighted(item, rows[j]) ensures Highlighted(item, rows[i]) {
      assert rows[i] in rows;
    }
  }

  /** The worked examples of the results page. */
  lemma TieExample()
    ensures Classify(ResultItem("Best", WinnerEntry("A", 5),
                                [TallyEntry(1, "A", 5), TallyEntry(2, "B", 5), TallyEntry(3, "C", 2)]))
            == Tie("A & B")
  {
  }

  lemma NoVotesExample()
    ensures Classify(ResultItem("Best", WinnerEntry("A", 0),
                                [TallyEntry(1, "A", 0), TallyEntry(2, "B", 0)]))
            == NoVotes
  {
  }

  lemma SingleWinnerExample()
    ensures Classify(ResultItem("Best", WinnerEntry("A", 3),
                                [TallyEntry(1, "A", 3), TallyEntry(2, "B", 1)]))
            == SingleWinner("A")
  {
  }

  lemma BreakdownExample()
    ensures Breakdown([TallyEntry(3, "C", 2), TallyEntry(1, "A", 5), TallyEntry(2, "B", 5)])
            == [TallyEntry(1, "A", 5), TallyEntry(2, "B", 5), TallyEntry(3, "C", 2)]
  {
    var c, a, b := TallyEntry(3, "C", 2), TallyEntry(1, "A", 5), TallyEntry(2, "B", 5);
    PositiveExample(c, a, b);
    SortExample(c, a, b);
  }

  lemma PositiveExample(c: TallyEntry, a: TallyEntry, b: TallyEntry)
    requires c.voteCount == 2 && a.voteCount == 5 && b.voteCount == 5
    ensures Positive([c, a, b]) == [c, a, b]
  {
    assert [c, a, b][1..] == [a, b] && [a, b][1..] == [b] && [b][1..] == [];
    assert Positive([b]) == [b] + Positive([]);
    assert Positive([a, b]) == [a] + Positive([b]);
    assert Positive([c, a, b]) == [c] + Positive([a, b]);
  }

  lemma SortExample(c: TallyEntry, a: TallyEntry, b: TallyEntry)
    requires c.voteCount == 2 && a.voteCount == 5 && b.voteCount == 5
    ensures SortByVotesDescending([c, a, b]) == [a, b, c]
  {
    assert [c, a, b][1..] == [a, b];
    SortTiedPair(a, b);
    InsertBelowPair(c, a, b);
  }

  lemma SortTiedPair(a: TallyEntry, b: TallyEntry)
    requires a.voteCount == b.voteCount
    ensures SortByVotesDescending([a, b]) == [a, b]
  {
    assert [a, b][1..] == [b] && [b][1..] == [];
    assert SortByVotesDescending([b]) == Insert(b, []);
  }

  lemma InsertBelowPair(c: TallyEntry, a: TallyEntry, b: TallyEntry)
    requires c.voteCount < a.voteCount && c.voteCount < b.voteCount
    ensures Insert(c, [a, b]) == [a, b, c]
  {
    assert [a, b][1..] == [b] && [b][1..] == [];
    assert Insert(c, [b]) == [b] + Insert(c, []);
  }
}
