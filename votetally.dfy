/**
 * Vote tally of commands/endvoting.js and commands/stopvoting.js: each
 * submission's message is fetched, its reaction count less the bot's own
 * reaction is its vote count, submissions whose fetch failed are dropped, and
 * the rest are ranked by votes (stable) and cut to the top three.
 * `/endvoting` looks the reaction up under 👍. `/stopvoting` looks it up under
 * a mis-encoded key that no reaction is cached under (`MisKeyed`), so there
 * every fetched submission has 0 votes and the results keep query order.
 * The type of submissions is a parameter, so that each command can tally
 * whatever rows its query returned.
 */
module VoteTally {

  import opened Wrappers
  import opened Seqs
  import opened Ranking

  /** What fetching a submission's message showed: the 👍 reaction's count, if it has one. */
  datatype Fetch = Failed | Fetched(thumbsUp: Option<nat>)

  /** `reaction ? reaction.count - 1 : 0` */
  function Votes(thumbsUp: Option<nat>): (v: int)
    ensures thumbsUp.None? ==> v == 0
    ensures thumbsUp.Some? ==> v + 1 == thumbsUp.value
  {
    match thumbsUp
    case Some(count) => count - 1
    case None => 0
  }

  datatype Entry<S> = Entry(submission: S, votes: int)

  /** The entries the loop pushes, in query order; a failed fetch pushes nothing. */
  function Tally<S>(subs: seq<S>, observe: S -> Fetch): seq<Entry<S>>
    decreases |subs|
  {
    if subs == [] then []
    else
      var last := subs[|subs| - 1];
      Tally(subs[..|subs| - 1], observe)
        + match observe(last)
          case Failed => []
          case Fetched(t) => [Entry(last, Votes(t))]
  }

  /** Entries of the tally are exactly the fetched submissions with their votes. */
  lemma {:induction false} TallyEntries<S>(subs: seq<S>, observe: S -> Fetch)
    ensures |Tally(subs, observe)| <= |subs|
    ensures forall e :: e in Tally(subs, observe) ==>
      e.submission in subs && observe(e.submission).Fetched?
      && e.votes == Votes(observe(e.submission).thumbsUp)
    ensures forall k :: 0 <= k < |subs| && observe(subs[k]).Fetched? ==>
      Entry(subs[k], Votes(observe(subs[k]).thumbsUp)) in Tally(subs, observe)
    decreases |subs|
  {
    if subs != [] {
      var init := subs[..|subs| - 1];
      TallyEntries(init, observe);
      forall k | 0 <= k < |subs| - 1 ensures subs[k] == init[k] { }
    }
  }

  /** When every fetch succeeds, every submission is tallied. */
  lemma {:induction false} TallyAllFetched<S>(subs: seq<S>, observe: S -> Fetch)
    requires forall k :: 0 <= k < |subs| ==> observe(subs[k]).Fetched?
    ensures |Tally(subs, observe)| == |subs|
    decreases |subs|
  {
    if subs != [] {
      TallyAllFetched(subs[..|subs| - 1], observe);
    }
  }

  /**
   * What `/stopvoting` observes of a message when only whether its fetch
   * succeeded is known: stopvoting.js:69 asks the reaction cache for the
   * text U+00F0 U+0178 U+2018, the first three bytes of 👍 read as
   * Windows-1252, and a Unicode reaction is cached under its emoji, so no
   * message ever shows one.
   */
  function MisKeyed<S>(fetched: S -> bool): S -> Fetch {
    s => if fetched(s) then Fetched(None) else Failed
  }

  /** Each row as an entry with no votes, in order. */
  function Unvoted<S>(subs: seq<S>): seq<Entry<S>> {
    seq(|subs|, k requires 0 <= k < |subs| => Entry(subs[k], 0))
  }

  lemma {:induction false} MisKeyedTally<S>(subs: seq<S>, fetched: S -> bool)
    ensures Tally(subs, MisKeyed(fetched)) == Unvoted(Filter(subs, fetched))
    decreases |subs|
  {
    if subs != [] {
      var init, last := subs[..|subs| - 1], subs[|subs| - 1];
      MisKeyedTally(init, fetched);
      assert subs == init + [last];
      FilterAppend(init, [last], fetched);
      var a, b := Filter(init, fetched), Filter([last], fetched);
      assert b == if fetched(last) then [last] else [];
      assert Unvoted(a + b) == Unvoted(a) + Unvoted(b);
    }
  }

  /** Entries that all have 0 votes are already ranked. */
  lemma UnvotedIsRanked<S>(subs: seq<S>)
    ensures Rank(Unvoted(subs)) == Unvoted(subs)
  {
    var es := Unvoted(subs);
    var sorted := Rank(es);
    SortDescStable(es, EntryVotes, 0);
    WithKeyAll(es, EntryVotes, 0);
    forall k | 0 <= k < |sorted| ensures EntryVotes(sorted[k]) == 0 {
      assert sorted[k] in multiset(es);
    }
    WithKeyAll(sorted, EntryVotes, 0);
  }

  /**
   * `/stopvoting`'s results are the first min(3, n) of the n fetched
   * submissions, in the order the query returned them, each with 0 votes,
   * whatever reactions the messages carry.
   */
  lemma StopVotingPlacesFirstFetched<S>(subs: seq<S>, fetched: S -> bool)
    ensures var kept := Filter(subs, fetched);
      var r := Results(subs, MisKeyed(fetched));
      && |r| == (if |kept| < 3 then |kept| else 3)
      && forall k :: 0 <= k < |r| ==> r[k] == Placed(k + 1, kept[k], 0)
  {
    MisKeyedTally(subs, fetched);
    UnvotedIsRanked(Filter(subs, fetched));
  }

  /** The loop over the query rows that fills `submissionVotes`. */
  method CollectVotes<S>(subs: seq<S>, observe: S -> Fetch) returns (votes: seq<Entry<S>>)
    ensures votes == Tally(subs, observe)
  {
    votes := [];
    var i := 0;
    while i < |subs|
      invariant 0 <= i <= |subs|
      invariant votes == Tally(subs[..i], observe)
    {
      var s := subs[i];
      assert subs[..i + 1][..i] == subs[..i];
      match observe(s) {
        case Failed =>
        case Fetched(t) =>
          votes := votes + [Entry(s, Votes(t))];
      }
      i := i + 1;
    }
    assert subs[..|subs|] == subs;
  }

  function EntryVotes<S>(e: Entry<S>): int { e.votes }

  /** `submissionVotes.sort((a, b) => b.votes - a.votes)` */
  function Rank<S>(entries: seq<Entry<S>>): seq<Entry<S>> {
    SortDesc(entries, EntryVotes)
  }

  /** A result line: `Rank k` with the submission and its votes. */
  datatype Placed<S> = Placed(rank: nat, submission: S, votes: int)

  /** `ranked.slice(0, 3)`, numbered from 1. */
  function TopThree<S>(ranked: seq<Entry<S>>): (r: seq<Placed<S>>)
    ensures |r| == if |ranked| < 3 then |ranked| else 3
    ensures forall k :: 0 <= k < |r| ==>
      r[k] == Placed(k + 1, ranked[k].submission, ranked[k].votes)
  {
    var top := Take(ranked, 3);
    seq(|top|, k requires 0 <= k < |top| => Placed(k + 1, top[k].submission, top[k].votes))
  }

  /** What the command announces for the rows its query returned. */
  function Results<S>(subs: seq<S>, observe: S -> Fetch): seq<Placed<S>> {
    TopThree(Rank(Tally(subs, observe)))
  }

  /**
   * The results are ranks 1..k, k = min(3, number of fetched submissions), in
   * non-increasing order of votes; no tallied entry left out of the results
   * has more votes than any placed one; and the ranking is a permutation of
   * the tally. That ties keep the tally's order is RankIsStable.
   */
  lemma ResultsAreTopThree<S>(subs: seq<S>, observe: S -> Fetch)
    ensures var tally := Tally(subs, observe);
      var r := Results(subs, observe);
      && |r| == (if |tally| < 3 then |tally| else 3)
      && (forall k :: 0 <= k < |r| ==> r[k].rank == k + 1)
      && (forall i, j :: 0 <= i < j < |r| ==> r[i].votes >= r[j].votes)
      && (forall j, k :: 0 <= j < |r| && |r| <= k < |tally| ==> Rank(tally)[k].votes <= r[j].votes)
      && multiset(Rank(tally)) == multiset(tally)
  {
    var tally := Tally(subs, observe);
    SortDescOrders(tally, EntryVotes);
  }

  /** Ties: among entries with equal votes, the ranking keeps the query order. */
  lemma RankIsStable<S>(entries: seq<Entry<S>>, v: int)
    ensures WithKey(Rank(entries), EntryVotes, v) == WithKey(entries, EntryVotes, v)
  {
    SortDescStable(entries, EntryVotes, v);
  }

  /** Submissions 1, 2 and 3 with 4, 6 and 2 👍 reactions, the bot's own included. */
  function AllFetched(s: int): Fetch {
    Fetched(Some(if s == 1 then 4 else if s == 2 then 6 else 2))
  }

  function ThirdFails(s: int): Fetch {
    if s == 3 then Failed else AllFetched(s)
  }

  /** Three submissions with 3, 5 and 1 votes rank as the second, first, third. */
  lemma ThreeSubmissionsExample()
    ensures Results([1, 2, 3], AllFetched) == [Placed(1, 2, 5), Placed(2, 1, 3), Placed(3, 3, 1)]
  {
    TallyOfAllFetched();
    RankOfThree();
    TopThreeOfThree();
  }

  /** When the third one's message cannot be fetched it is left out, not ranked with 0. */
  lemma FailedFetchExample()
    ensures Results([1, 2, 3], ThirdFails) == [Placed(1, 2, 5), Placed(2, 1, 3)]
  {
    TallyOfThirdFails();
    RankOfTwo();
    TopThreeOfTwo();
  }

  lemma TallyOfFirstTwo(observe: int -> Fetch)
    requires observe(1) == AllFetched(1) && observe(2) == AllFetched(2)
    ensures Tally([1, 2], observe) == [Entry(1, 3), Entry(2, 5)]
  {
    assert [1, 2][..1] == [1] && [1][..0] == [];
    assert Tally([1], observe) == [Entry(1, 3)];
  }

  lemma TallyOfAllFetched()
    ensures Tally([1, 2, 3], AllFetched) == [Entry(1, 3), Entry(2, 5), Entry(3, 1)]
  {
    assert [1, 2, 3][..2] == [1, 2];
    TallyOfFirstTwo(AllFetched);
  }

  lemma TallyOfThirdFails()
    ensures Tally([1, 2, 3], ThirdFails) == [Entry(1, 3), Entry(2, 5)]
  {
    assert [1, 2, 3][..2] == [1, 2];
    TallyOfFirstTwo(ThirdFails);
  }

  lemma RankOfTwo()
    ensures Rank([Entry(1, 3), Entry(2, 5)]) == [Entry(2, 5), Entry(1, 3)]
  {
    var es := [Entry(1, 3), Entry(2, 5)];
    assert es[1..] == [Entry(2, 5)];
    assert SortDesc(es[1..], EntryVotes) == [Entry(2, 5)];
  }

  lemma RankOfThree()
    ensures Rank([Entry(1, 3), Entry(2, 5), Entry(3, 1)]) == [Entry(2, 5), Entry(1, 3), Entry(3, 1)]
  {
    var es := [Entry(1, 3), Entry(2, 5), Entry(3, 1)];
    assert es[1..] == [Entry(2, 5), Entry(3, 1)];
    assert es[1..][1..] == [Entry(3, 1)];
    assert SortDesc([Entry(3, 1)], EntryVotes) == [Entry(3, 1)];
    assert SortDesc(es[1..], EntryVotes) == [Entry(2, 5), Entry(3, 1)];
  }

  lemma TopThreeOfThree()
    ensures TopThree([Entry(2, 5), Entry(1, 3), Entry(3, 1)]) == [Placed(1, 2, 5), Placed(2, 1, 3), Placed(3, 3, 1)]
  {
    var top := TopThree([Entry(2, 5), Entry(1, 3), Entry(3, 1)]);
    assert |top| == 3 && top[0] == Placed(1, 2, 5) && top[1] == Placed(2, 1, 3) && top[2] == Placed(3, 3, 1);
  }

  lemma TopThreeOfTwo()
    ensures TopThree([Entry(2, 5), Entry(1, 3)]) == [Placed(1, 2, 5), Placed(2, 1, 3)]
  {
    var top := TopThree([Entry(2, 5), Entry(1, 3)]);
    assert |top| == 2 && top[0] == Placed(1, 2, 5) && top[1] == Placed(2, 1, 3);
  }
}
