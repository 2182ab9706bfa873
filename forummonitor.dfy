/**
 * The Steam forum monitor's check: from the topics scraped off the
 * discussions page, queue the recent ones not seen before, post them and
 * remember their links so that each discussion is posted once.
 */
module ForumMonitor {

  import opened Wrappers
  import opened Text
  import opened SteamText

  /** One topic as the page pattern captures it; the hover text is already extracted and decoded. */
  datatype Topic = Topic(
    id: string,
    rawTitle: string,
    author: string,
    link: string,
    lastPost: string,
    hoverText: Option<string>)

  /** A discussion queued for posting. */
  datatype Discussion = Discussion(
    id: string,
    title: string,
    author: string,
    time: string,
    link: string,
    minutesAgo: nat,
    content: string)

  /**
   * What a topic becomes when it is worth posting: a non-empty title (the
   * cleaned title is already trimmed, so `!title.trim()` is `title == ""`,
   * see `CleanHtmlIsTrimmed`) and a
   * last post time that passes the recency test and parses to minutes. The
   * check against the known links comes on top of this.
   */
  function Candidate(t: Topic): (r: Option<Discussion>)
    ensures r.Some? ==>
      && r.value.link == t.link
      && r.value.title != []
      && IsRecent(r.value.time)
      && ParseTimeAgo(r.value.time) == Some(r.value.minutesAgo)
  {
    var title := CleanHtml(t.rawTitle);
    var time := CleanHtml(t.lastPost);
    var content := match t.hoverText case None => [] case Some(h) => CleanHtml(h);
    if title == [] then None
    else if !IsRecent(time) then None
    else match ParseTimeAgo(time)
      case None => None
      case Some(m) => Some(Discussion(t.id, title, CleanHtml(t.author), time, t.link, m, content))
  }

  /** The candidate of every topic of the page, in page order. */
  function Candidates(ts: seq<Topic>): (cs: seq<Option<Discussion>>)
    ensures |cs| == |ts|
    ensures forall k :: 0 <= k < |ts| ==> cs[k] == Candidate(ts[k])
  {
    seq(|ts|, k requires 0 <= k < |ts| => Candidate(ts[k]))
  }

  /**
   * The loop's test on each candidate: it is pushed when there is one and its
   * link is not already known.
   */
  function Fresh(cs: seq<Option<Discussion>>, known: set<string>): (r: seq<Discussion>)
    ensures forall k :: 0 <= k < |r| ==> r[k].link !in known
    ensures |r| <= |cs|
  {
    if cs == [] then []
    else
      var last := cs[|cs| - 1];
      Fresh(cs[..|cs| - 1], known) + (if last.Some? && last.value.link !in known then [last.value] else [])
  }

  /** The discussions the loop pushes, in page order. */
  function NewDiscussions(ts: seq<Topic>, known: set<string>): seq<Discussion> {
    Fresh(Candidates(ts), known)
  }

  /** Every candidate with an unknown link is pushed. */
  lemma {:induction false} FreshKeepsUnknown(cs: seq<Option<Discussion>>, known: set<string>)
    ensures forall k :: 0 <= k < |cs| && cs[k].Some? && cs[k].value.link !in known ==> cs[k].value in Fresh(cs, known)
  {
    if cs != [] {
      var init := cs[..|cs| - 1];
      FreshKeepsUnknown(init, known);
      forall k | 0 <= k < |cs| - 1 ensures cs[k] == init[k] { }
    }
  }

  /** Everything pushed is a candidate with an unknown link. */
  lemma {:induction false} FreshFromCandidates(cs: seq<Option<Discussion>>, known: set<string>)
    ensures forall d :: d in Fresh(cs, known) ==> exists k :: 0 <= k < |cs| && cs[k] == Some(d)
  {
    if cs != [] {
      var init := cs[..|cs| - 1];
      FreshFromCandidates(init, known);
      forall d | d in Fresh(cs, known) ensures exists k :: 0 <= k < |cs| && cs[k] == Some(d) {
        if d in Fresh(init, known) {
          var k :| 0 <= k < |init| && init[k] == Some(d);
          assert cs[k] == init[k];
        } else {
          assert cs[|cs| - 1] == Some(d);
        }
      }
    }
  }

  /**
   * A discussion is queued exactly when its topic has a non-empty title, a
   * recent time that parses and a link not seen before.
   */
  lemma QueuedIffQualifies(ts: seq<Topic>, known: set<string>)
    ensures forall k :: 0 <= k < |ts| && Candidate(ts[k]).Some? && ts[k].link !in known ==>
      Candidate(ts[k]).value in NewDiscussions(ts, known)
    ensures forall d :: d in NewDiscussions(ts, known) ==>
      && d.link !in known
      && (exists k :: 0 <= k < |ts| && Candidate(ts[k]) == Some(d))
      && d.title != [] && IsRecent(d.time) && ParseTimeAgo(d.time) == Some(d.minutesAgo)
  {
    QualifyingIsQueued(ts, known);
    QueuedQualifies(ts, known);
  }

  lemma QualifyingIsQueued(ts: seq<Topic>, known: set<string>)
    ensures forall k :: 0 <= k < |ts| && Candidate(ts[k]).Some? && ts[k].link !in known ==>
      Candidate(ts[k]).value in NewDiscussions(ts, known)
  {
    FreshKeepsUnknown(Candidates(ts), known);
  }

  lemma QueuedQualifies(ts: seq<Topic>, known: set<string>)
    ensures forall d :: d in NewDiscussions(ts, known) ==>
      && d.link !in known
      && (exists k :: 0 <= k < |ts| && Candidate(ts[k]) == Some(d))
      && d.title != [] && IsRecent(d.time) && ParseTimeAgo(d.time) == Some(d.minutesAgo)
  {
    var cs := Candidates(ts);
    FreshFromCandidates(cs, known);
    forall d | d in Fresh(cs, known)
      ensures && (exists k :: 0 <= k < |ts| && Candidate(ts[k]) == Some(d))
              && d.title != [] && IsRecent(d.time) && ParseTimeAgo(d.time) == Some(d.minutesAgo)
    {
      var k :| 0 <= k < |cs| && cs[k] == Some(d);
      CandidateQualifies(ts[k], d);
    }
  }

  lemma CandidateQualifies(t: Topic, d: Discussion)
    requires Candidate(t) == Some(d)
    ensures  d.title != [] && IsRecent(d.time) && ParseTimeAgo(d.time) == Some(d.minutesAgo)
  {
  }

  /** The links of a run of discussions. */
  function LinksOf(ds: seq<Discussion>): set<string> {
    if ds == [] then {} else LinksOf(ds[..|ds| - 1]) + {ds[|ds| - 1].link}
  }

  /** A link is remembered exactly when one of the discussions has it. */
  lemma {:induction false} LinksOfIsTheLinks(ds: seq<Discussion>)
    ensures forall k :: 0 <= k < |ds| ==> ds[k].link in LinksOf(ds)
    ensures forall l :: l in LinksOf(ds) ==> exists k :: 0 <= k < |ds| && ds[k].link == l
  {
    if ds != [] {
      var init := ds[..|ds| - 1];
      LinksOfIsTheLinks(init);
      assert forall k :: 0 <= k < |ds| - 1 ==> ds[k] == init[k];
    }
  }

  /**
   * Once the links of a check are remembered, the same page queues nothing
   * more: each discussion is posted once.
   */
  lemma {:induction false} SecondCheckQueuesNothing(cs: seq<Option<Discussion>>, known: set<string>, later: set<string>)
    requires known + LinksOf(Fresh(cs, known)) <= later
    ensures Fresh(cs, later) == []
  {
    if cs != [] {
      var init := cs[..|cs| - 1];
      var last := cs[|cs| - 1];
      var before := Fresh(init, known);
      var tail := if last.Some? && last.value.link !in known then [last.value] else [];
      LinksOfAppend(before, tail);
      SecondCheckQueuesNothing(init, known, later);
    }
  }

  /** The same on pages of topics. */
  lemma SamePageTwice(ts: seq<Topic>, known: set<string>)
    ensures NewDiscussions(ts, known + LinksOf(NewDiscussions(ts, known))) == []
  {
    SecondCheckQueuesNothing(Candidates(ts), known, known + LinksOf(NewDiscussions(ts, known)));
  }

  lemma LinksOfAppend(a: seq<Discussion>, b: seq<Discussion>)
    ensures LinksOf(a + b) == LinksOf(a) + LinksOf(b)
  {
    var ab := a + b;
    LinksOfIsTheLinks(a);
    LinksOfIsTheLinks(b);
    LinksOfIsTheLinks(ab);
    forall l | l in LinksOf(ab) ensures l in LinksOf(a) + LinksOf(b) {
      var k :| 0 <= k < |ab| && ab[k].link == l;
      if k < |a| { assert ab[k] == a[k]; } else { assert ab[k] == b[k - |a|]; }
    }
    forall l | l in LinksOf(a) + LinksOf(b) ensures l in LinksOf(ab) {
      if l in LinksOf(a) {
        var k :| 0 <= k < |a| && a[k].link == l;
        assert ab[k] == a[k];
      } else {
        var k :| 0 <= k < |b| && b[k].link == l;
        assert ab[|a| + k] == b[k];
      }
    }
  }

  /** The `while (match = topicPattern.exec(...))` loop over the captured topics. */
  method CollectNew(ts: seq<Topic>, known: set<string>) returns (ds: seq<Discussion>)
    ensures ds == NewDiscussions(ts, known)
  {
    ghost var cs := Candidates(ts);
    ds := [];
    var i := 0;
    while i < |ts|
      invariant i <= |ts|
      invariant ds == Fresh(cs[..i], known)
    {
      var t := ts[i];
      assert cs[..i + 1][..i] == cs[..i];
      var candidate := Candidate(t);
      if candidate.Some? && t.link !in known {
        ds := ds + [candidate.value];
      }
      i := i + 1;
    }
    assert cs[..|ts|] == cs;
  }

  /** The module-level state of the monitor. */
  class Monitor {
    var known: set<string>
    var isFirstRun: bool

    constructor ()
      ensures known == {} && isFirstRun
    {
      known := {};
      isFirstRun := true;
    }

    /**
     * `checkSteamForum`: a failed fetch changes nothing; otherwise the new
     * discussions are posted and their links remembered. The first run differs
     * from later ones only in clearing the first-run flag.
     */
    method Check(page: Option<seq<Topic>>) returns (posted: seq<Discussion>)
      modifies this
      ensures page.None? ==> posted == [] && unchanged(this)
      ensures page.Some? ==>
        && posted == NewDiscussions(page.value, old(known))
        && known == old(known) + LinksOf(posted)
        && isFirstRun == (old(isFirstRun) && posted == [])
      ensures old(known) <= known
    {
      if page.None? {
        return [];
      }
      var discussions := CollectNew(page.value, known);
      posted := discussions;
      if |discussions| > 0 {
        if isFirstRun {
          Remember(discussions);
          isFirstRun := false;
        } else {
          Remember(discussions);
        }
      }
    }

    /** `discussions.forEach(d => lastKnownDiscussions.add(d.link))` */
    method Remember(ds: seq<Discussion>)
      modifies this`known
      ensures known == old(known) + LinksOf(ds)
    {
      var i := 0;
      while i < |ds|
        invariant i <= |ds|
        invariant known == old(known) + LinksOf(ds[..i])
      {
        assert ds[..i + 1] == ds[..i] + [ds[i]];
        LinksOfAppend(ds[..i], [ds[i]]);
        known := known + {ds[i].link};
        i := i + 1;
      }
      assert ds[..|ds|] == ds;
    }
  }
}
