/**
 * The `challenges` and `submissions` tables as values, and the row queries the
 * challenge commands run against them. The tables are kept in primary-key
 * order; a `LIMIT 1` query returns the first matching row in that order.
 */
module ChallengeTables {

  import opened Wrappers
  import opened Seqs

  const SUBMISSIONS := "Submissions"
  const VOTING := "Voting"
  const CLOSED := "Closed"

  const DEFAULT_THEME := "The possibilities are endless!"
  const DEFAULT_DESCRIPTION := "No description provided."

  /** One row of `challenges`; the three times are the text the moderator typed. */
  datatype Challenge = Challenge(
    id: nat,
    theme: string,
    description: string,
    submissionsClose: string,
    votingBegins: string,
    votingEnds: string,
    threadId: Option<string>,
    state: string,
    active: int)

  /** One row of `submissions`. */
  datatype Submission = Submission(
    id: nat,
    userId: string,
    challengeId: nat,
    url: string,
    description: string,
    submitted: int,
    messageId: Option<string>)

  function ChallengeKey(c: Challenge): nat { c.id }
  function SubmissionKey(s: Submission): nat { s.id }
  /** Each member has at most one submission per challenge. */
  function EntrantKey(s: Submission): (string, nat) { (s.userId, s.challengeId) }

  /**
   * The invariant of the two tables: primary keys are unique and below the
   * next auto-increment value, and no (user, challenge) pair occurs twice.
   */
  predicate WellFormed(cs: seq<Challenge>, ss: seq<Submission>, nextChallenge: nat, nextSubmission: nat) {
    && Distinct(cs, ChallengeKey)
    && Distinct(ss, SubmissionKey)
    && Distinct(ss, EntrantKey)
    && (forall k :: 0 <= k < |cs| ==> cs[k].id < nextChallenge)
    && (forall k :: 0 <= k < |ss| ==> ss[k].id < nextSubmission)
  }

  /** A non-empty string is truthy; null and "" are not. */
  predicate Truthy(v: Option<string>) { v.Some? && v.value != [] }

  /** JavaScript's `value || fallback` on a string: the empty string is falsy. */
  function OrDefault(value: string, fallback: string): (r: string)
    ensures r == value || r == fallback
    ensures r == fallback <==> value == [] || value == fallback
  {
    if value == [] then fallback else value
  }

  /** `value || fallback` on an optional string option. */
  function OptionOrDefault(value: Option<string>, fallback: string): (r: string)
    ensures value.Some? && value.value != [] ==> r == value.value
    ensures value.None? || value.value == [] ==> r == fallback
  {
    match value
    case None => fallback
    case Some(v) => OrDefault(v, fallback)
  }

  predicate IsOpen(c: Challenge) { c.state == SUBMISSIONS }
  predicate IsVoting(c: Challenge) { c.state == VOTING }
  predicate IsActiveRow(c: Challenge) { c.active == 1 }

  function HasId(id: int): Challenge -> bool { (c: Challenge) => c.id == id }
  function HasSubmissionId(id: int): Submission -> bool { (s: Submission) => s.id == id }
  function OpenWithId(id: int): Challenge -> bool { (c: Challenge) => c.id == id && IsOpen(c) }
  function ByEntrant(userId: string, challengeId: nat): Submission -> bool {
    (s: Submission) => s.userId == userId && s.challengeId == challengeId
  }

  /** `SELECT * FROM submissions WHERE challenge_id = ?` */
  function OfChallenge(ss: seq<Submission>, challengeId: nat): (r: seq<Submission>)
    ensures forall k :: 0 <= k < |r| ==> r[k] in ss && r[k].challengeId == challengeId
    ensures forall k :: 0 <= k < |ss| && ss[k].challengeId == challengeId ==> ss[k] in r
  {
    Filter(ss, (s: Submission) => s.challengeId == challengeId)
  }

  /** `SELECT * FROM submissions WHERE challenge_id = ? AND submitted = 1` */
  function Finalized(ss: seq<Submission>, challengeId: nat): (r: seq<Submission>)
    ensures forall k :: 0 <= k < |r| ==> r[k] in ss && r[k].challengeId == challengeId && r[k].submitted == 1
    ensures forall k :: 0 <= k < |ss| && ss[k].challengeId == challengeId && ss[k].submitted == 1 ==> ss[k] in r
  {
    Filter(ss, (s: Submission) => s.challengeId == challengeId && s.submitted == 1)
  }

  function ChallengeIdIsNot(id: int): Challenge -> bool { (c: Challenge) => c.id != id }
  function ChallengeOfEntryIsNot(id: int): Submission -> bool { (s: Submission) => s.challengeId != id }
  function SubmissionIdIsNot(id: int): Submission -> bool { (s: Submission) => s.id != id }

  /** `DELETE FROM challenges WHERE id = ?` */
  function WithoutChallenge(cs: seq<Challenge>, id: int): (r: seq<Challenge>)
    ensures forall c :: c in r <==> c in cs && c.id != id
  {
    Filter(cs, ChallengeIdIsNot(id))
  }

  /** `DELETE FROM submissions WHERE challenge_id = ?` */
  function WithoutEntriesOf(ss: seq<Submission>, challengeId: int): (r: seq<Submission>)
    ensures forall s :: s in r <==> s in ss && s.challengeId != challengeId
  {
    Filter(ss, ChallengeOfEntryIsNot(challengeId))
  }

  /** `DELETE FROM submissions WHERE id = ?` */
  function WithoutSubmission(ss: seq<Submission>, id: int): (r: seq<Submission>)
    ensures forall s :: s in r <==> s in ss && s.id != id
  {
    Filter(ss, SubmissionIdIsNot(id))
  }

  /** Deleting rows keeps the table invariant. */
  lemma DeletionsKeepWellFormed(cs: seq<Challenge>, ss: seq<Submission>, nc: nat, ns: nat,
                                cp: Challenge -> bool, sp: Submission -> bool)
    requires WellFormed(cs, ss, nc, ns)
    ensures WellFormed(Filter(cs, cp), Filter(ss, sp), nc, ns)
  {
    FilterKeepsDistinct(cs, cp, ChallengeKey);
    FilterKeepsDistinct(ss, sp, SubmissionKey);
    FilterKeepsDistinct(ss, sp, EntrantKey);
    var fc, fs := Filter(cs, cp), Filter(ss, sp);
    forall k | 0 <= k < |fc| ensures fc[k].id < nc {
      var m :| 0 <= m < |cs| && cs[m] == fc[k];
    }
    forall k | 0 <= k < |fs| ensures fs[k].id < ns {
      var m :| 0 <= m < |ss| && ss[m] == fs[k];
    }
  }

  /** The cascade delete of a challenge keeps the invariant. */
  lemma CascadeKeepsWellFormed(cs: seq<Challenge>, ss: seq<Submission>, nc: nat, ns: nat, id: int)
    requires WellFormed(cs, ss, nc, ns)
    ensures WellFormed(WithoutChallenge(cs, id), WithoutEntriesOf(ss, id), nc, ns)
  {
    DeletionsKeepWellFormed(cs, ss, nc, ns, ChallengeIdIsNot(id), ChallengeOfEntryIsNot(id));
  }

  /** Deleting one submission keeps the invariant. */
  lemma SubmissionDeleteKeepsWellFormed(cs: seq<Challenge>, ss: seq<Submission>, nc: nat, ns: nat, id: int)
    requires WellFormed(cs, ss, nc, ns)
    ensures WellFormed(cs, WithoutSubmission(ss, id), nc, ns)
  {
    DeletionsKeepWellFormed(cs, ss, nc, ns, (c: Challenge) => true, SubmissionIdIsNot(id));
    FilterAll(cs, (c: Challenge) => true);
  }

  /** Rewriting one challenge row without changing its id keeps the invariant. */
  lemma RowUpdateKeepsWellFormed(cs: seq<Challenge>, ss: seq<Submission>, nc: nat, ns: nat, i: nat, c: Challenge)
    requires WellFormed(cs, ss, nc, ns)
    requires i < |cs| && c.id == cs[i].id
    ensures WellFormed(cs[i := c], ss, nc, ns)
  {
    var u := cs[i := c];
    forall a, b | 0 <= a < b < |u| ensures ChallengeKey(u[a]) != ChallengeKey(u[b]) {
      assert ChallengeKey(u[a]) == ChallengeKey(cs[a]) && ChallengeKey(u[b]) == ChallengeKey(cs[b]);
    }
    forall k | 0 <= k < |u| ensures u[k].id < nc {
      assert u[k].id == cs[k].id;
    }
  }

  /** Some challenge accepts submissions. */
  predicate AnyOpen(cs: seq<Challenge>) {
    exists k :: 0 <= k < |cs| && IsOpen(cs[k])
  }

  /** At most one challenge accepts submissions at a time. */
  predicate AtMostOneOpen(cs: seq<Challenge>) {
    forall i, j :: 0 <= i < |cs| && 0 <= j < |cs| && IsOpen(cs[i]) && IsOpen(cs[j]) ==> i == j
  }

  /**
   * Appending an open challenge keeps at most one open exactly when none was
   * open before: the guard of the start command is what keeps the property.
   */
  lemma AppendOpenKeepsOne(cs: seq<Challenge>, c: Challenge)
    requires IsOpen(c)
    ensures AtMostOneOpen(cs + [c]) <==> forall k :: 0 <= k < |cs| ==> !IsOpen(cs[k])
  {
    var t := cs + [c];
    if !forall k :: 0 <= k < |cs| ==> !IsOpen(cs[k]) {
      var k :| 0 <= k < |cs| && IsOpen(cs[k]);
      assert IsOpen(t[k]) && IsOpen(t[|cs|]);
    }
  }
}
