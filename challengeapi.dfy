/**
 * The dashboard's challenge route: the listing it returns, its soft delete,
 * and what its insert does to the one-open-challenge rule.
 */
module ChallengeApi {

  import opened Wrappers
  import opened Seqs
  import opened Ranking
  import opened ChallengeTables

  /** One element of the GET response. */
  datatype Listed = Listed(id: nat, title: string, status: string, created: string, active: int, isActive: bool)

  /** The status shown: 'Inactive' for an inactive row, else the state, with 'Submissions' for an empty one. */
  function Status(c: Challenge): (r: string)
    ensures c.active == 0 ==> r == "Inactive"
    ensures c.active != 0 && c.state != [] ==> r == c.state
    ensures c.active != 0 && c.state == [] ==> r == SUBMISSIONS
  {
    if c.active == 0 then "Inactive" else OrDefault(c.state, SUBMISSIONS)
  }

  /** The response element for a row; `now` is the ISO time used when the close time is empty. */
  function Project(c: Challenge, now: string): (r: Listed)
    ensures r.id == c.id && r.title == c.theme && r.status == Status(c)
    ensures r.active == c.active && (r.isActive <==> c.active != 0)
    ensures r.created == (if c.submissionsClose == [] then now else c.submissionsClose)
  {
    Listed(c.id, c.theme, Status(c), OrDefault(c.submissionsClose, now), c.active, c.active != 0)
  }

  function RowId(c: Challenge): int { c.id }

  /** `SELECT ... FROM challenges ORDER BY id DESC`, formatted. */
  function List(cs: seq<Challenge>, now: string): (r: seq<Listed>)
    ensures |r| == |cs|
  {
    var sorted := SortDesc(cs, RowId);
    seq(|sorted|, k requires 0 <= k < |sorted| => Project(sorted[k], now))
  }

  /** With unique ids the listing is in strictly decreasing id order. */
  lemma ListedByIdDescending(cs: seq<Challenge>, now: string)
    requires Distinct(cs, ChallengeKey)
    ensures var r := List(cs, now);
      forall i, j :: 0 <= i < j < |r| ==> r[i].id > r[j].id
  {
    var sorted := SortDesc(cs, RowId);
    var r := List(cs, now);
    SortDescOrders(cs, RowId);
    forall i, j | 0 <= i < j < |r| ensures r[i].id > r[j].id {
      assert sorted[i].id >= sorted[j].id;
      DistinctPositions(cs, sorted, i, j);
    }
  }

  /** The listing shows every row of the table and nothing else. */
  lemma ListedIsTable(cs: seq<Challenge>, now: string)
    ensures var r := List(cs, now);
      && (forall m :: 0 <= m < |cs| ==> Project(cs[m], now) in r)
      && (forall k :: 0 <= k < |r| ==> exists m :: 0 <= m < |cs| && r[k] == Project(cs[m], now))
  {
    var sorted := SortDesc(cs, RowId);
    var r := List(cs, now);
    assert multiset(sorted) == multiset(cs);
    forall m | 0 <= m < |cs| ensures Project(cs[m], now) in r {
      assert cs[m] in multiset(sorted);
      var k :| 0 <= k < |sorted| && sorted[k] == cs[m];
      assert r[k] == Project(cs[m], now);
    }
    forall k | 0 <= k < |r| ensures exists m :: 0 <= m < |cs| && r[k] == Project(cs[m], now) {
      assert sorted[k] in multiset(cs);
      var m :| 0 <= m < |cs| && cs[m] == sorted[k];
      assert r[k] == Project(cs[m], now);
    }
  }

  /** Two positions of a permutation of a table with unique ids hold different ids. */
  lemma DistinctPositions(cs: seq<Challenge>, sorted: seq<Challenge>, i: nat, j: nat)
    requires Distinct(cs, ChallengeKey)
    requires multiset(sorted) == multiset(cs)
    requires i < j < |sorted|
    ensures sorted[i].id != sorted[j].id
  {
    if sorted[i].id == sorted[j].id {
      assert sorted[i] in multiset(cs) && sorted[j] in multiset(cs);
      var a :| 0 <= a < |cs| && cs[a] == sorted[i];
      var b :| 0 <= b < |cs| && cs[b] == sorted[j];
      if a == b {
        assert sorted[i] == sorted[j];
        SameRowTwice(cs, sorted, i, j);
      }
    }
  }

  /** A permutation of a table with unique ids holds no row twice. */
  lemma SameRowTwice(cs: seq<Challenge>, sorted: seq<Challenge>, i: nat, j: nat)
    requires Distinct(cs, ChallengeKey)
    requires multiset(sorted) == multiset(cs)
    requires i < j < |sorted|
    ensures sorted[i] != sorted[j]
  {
    if sorted[i] == sorted[j] {
      var x := sorted[i];
      assert multiset(sorted)[x] >= 2 by {
        assert sorted == sorted[..i] + [x] + sorted[i + 1..j] + [x] + sorted[j + 1..];
      }
      OnceInTable(cs, x);
    }
  }

  /** With unique ids every row occurs at most once. */
  lemma {:induction false} OnceInTable(cs: seq<Challenge>, x: Challenge)
    requires Distinct(cs, ChallengeKey)
    ensures multiset(cs)[x] <= 1
    decreases |cs|
  {
    if cs != [] {
      assert cs == [cs[0]] + cs[1..];
      OnceInTable(cs[1..], x);
      if cs[0] == x {
        assert x !in cs[1..] by {
          forall k | 0 <= k < |cs[1..]| ensures cs[1..][k] != x {
            assert cs[1 + k].id != cs[0].id;
          }
        }
      }
    }
  }

  /** `UPDATE challenges SET active = 0 WHERE id = ?`, with the id read from text. */
  function Deactivated(cs: seq<Challenge>, id: Option<nat>): (r: seq<Challenge>)
    ensures |r| == |cs|
  {
    seq(|cs|, k requires 0 <= k < |cs| => if Some(cs[k].id) == id then cs[k].(active := 0) else cs[k])
  }

  /**
   * The soft delete removes no row: the row with that id is listed as
   * 'Inactive', and every other row is listed as before.
   */
  lemma DeactivatedListing(cs: seq<Challenge>, id: nat, now: string)
    ensures var r := Deactivated(cs, Some(id));
      && |r| == |cs|
      && (forall k :: 0 <= k < |cs| && cs[k].id == id ==>
            Status(r[k]) == "Inactive" && !Project(r[k], now).isActive && r[k].(active := cs[k].active) == cs[k])
      && (forall k :: 0 <= k < |cs| && cs[k].id != id ==> r[k] == cs[k])
  {
  }

  /**
   * The dashboard's insert does not check for an open challenge: on a table
   * with one open challenge, appending its row leaves two open.
   */
  lemma CreateCanOpenSecond(cs: seq<Challenge>, row: Challenge)
    requires AnyOpen(cs)
    requires row.state == SUBMISSIONS
    ensures !AtMostOneOpen(cs + [row])
  {
    AppendOpenKeepsOne(cs, row);
  }
}
