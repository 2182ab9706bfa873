/**
 * The challenge commands and the dashboard's challenge routes as operations on
 * one database holding the `challenges` and `submissions` tables. Each
 * operation runs atomically. What happens outside the database is a parameter:
 * whether the forum thread could be created or fetched, whether the
 * announcements were posted, how a submission's message fetch turned out.
 */
module ChallengeDatabase {

  import opened Wrappers
  import opened Text
  import opened Seqs
  import opened Roles
  import opened Reminders
  import opened VoteTally
  import opened ChallengeTables
  import opened ChallengeUpdates
  import opened ChallengeApi

  /** An uploaded attachment: its URL and the MIME type Discord reports, if any. */
  datatype Attachment = Attachment(url: string, contentType: Option<string>)

  const ALLOWED_TYPES: seq<string> := ["image/png", "image/jpeg", "image/jpg", "image/gif"]

  datatype StartReply = StartDenied | AlreadyOpen | StartFailed | Started(id: nat)
  datatype SubmitReply =
    | MissingImage | WrongType | NoOpenChallenge | SubmitFailed
    | SubmissionUpdated | AlreadyFinal | SubmissionReceived(id: nat)
  datatype UpdateReply = UpdateDenied | NotUpdatable | NoUpdates | UpdateFailed | ChallengeUpdated
  datatype DeleteReply = DeleteDenied | ChallengeNotFound | DeleteFailed | ChallengeDeleted(theme: string)
  datatype RemoveReply = RemoveDenied | SubmissionNotFound | RemoveFailed | SubmissionRemoved
  datatype CloseReply = CloseDenied | NothingToClose | ThreadUnavailable | NoSubmissions | CloseFailed | VotingClosed

  class Database {
    var challenges: seq<Challenge>
    var submissions: seq<Submission>
    var nextChallengeId: nat
    var nextSubmissionId: nat

    ghost predicate Valid()
      reads this
    {
      WellFormed(challenges, submissions, nextChallengeId, nextSubmissionId)
    }

    /**
     * A database in any well-formed state, including rows in "Voting" and
     * finalized submissions, which no command modelled here writes.
     */
    constructor (cs: seq<Challenge>, ss: seq<Submission>, nc: nat, ns: nat)
      requires WellFormed(cs, ss, nc, ns)
      ensures Valid()
      ensures challenges == cs && submissions == ss && nextChallengeId == nc && nextSubmissionId == ns
    {
      challenges, submissions, nextChallengeId, nextSubmissionId := cs, ss, nc, ns;
    }

    /**
     * `/startchallenge`. `thread` is the id of the thread the bot created, or
     * None when creating it failed; `announced` says whether the posts made
     * after the insert went through. Reminders are scheduled only on success.
     */
    method StartChallenge(memberRoles: set<string>, moderatorSetting: string,
                          theme: string, description: string,
                          submissionsClose: string, votingBegins: string, votingEnds: string,
                          thread: Option<string>, announced: bool,
                          now: int, closeTime: Option<int>)
      returns (reply: StartReply, reminders: seq<Reminder>)
      requires Valid()
      modifies this
      ensures Valid()
      ensures AtMostOneOpen(old(challenges)) ==> AtMostOneOpen(challenges)
      ensures submissions == old(submissions) && nextSubmissionId == old(nextSubmissionId)
      ensures !HasListedRole(memberRoles, moderatorSetting) ==> reply == StartDenied && unchanged(this)
      ensures HasListedRole(memberRoles, moderatorSetting) && AnyOpen(old(challenges)) ==>
        reply == AlreadyOpen && unchanged(this)
      ensures HasListedRole(memberRoles, moderatorSetting) && !AnyOpen(old(challenges)) && thread.None? ==>
        reply == StartFailed && unchanged(this)
      ensures HasListedRole(memberRoles, moderatorSetting) && !AnyOpen(old(challenges)) && thread.Some? ==>
        && challenges == old(challenges) + [Challenge(old(nextChallengeId),
             OrDefault(theme, DEFAULT_THEME), OrDefault(description, DEFAULT_DESCRIPTION),
             submissionsClose, votingBegins, votingEnds, thread, SUBMISSIONS, 1)]
        && nextChallengeId == old(nextChallengeId) + 1
        && reply == (if announced then Started(old(nextChallengeId)) else StartFailed)
      ensures reminders == if reply.Started? && closeTime.Some? then ScheduleReminders(now, closeTime.value) else []
    {
      reminders := [];
      if !HasListedRole(memberRoles, moderatorSetting) {
        return StartDenied, [];
      }
      var open := FirstIndex(challenges, IsOpen);
      if open.Some? {
        return AlreadyOpen, [];
      }
      if thread.None? {
        return StartFailed, [];
      }
      var row := Challenge(nextChallengeId,
        OrDefault(theme, DEFAULT_THEME), OrDefault(description, DEFAULT_DESCRIPTION),
        submissionsClose, votingBegins, votingEnds, thread, SUBMISSIONS, 1);
      AppendOpenKeepsOne(challenges, row);
      challenges := challenges + [row];
      nextChallengeId := nextChallengeId + 1;
      if !announced {
        return StartFailed, [];
      }
      reply := Started(row.id);
      if closeTime.Some? {
        reminders := ScheduleReminders(now, closeTime.value);
      }
    }

    /**
     * `/submit`. `auditReachable` says whether fetching the audit channel
     * succeeded; that fetch happens before any write.
     */
    method Submit(userId: string, image: Option<Attachment>, description: Option<string>, auditReachable: bool)
      returns (reply: SubmitReply)
      requires Valid()
      modifies this
      ensures Valid()
      ensures challenges == old(challenges) && nextChallengeId == old(nextChallengeId)
      ensures image.None? || !Truthy(image.value.contentType) ==> reply == MissingImage && unchanged(this)
      ensures image.Some? && Truthy(image.value.contentType) && image.value.contentType.value !in ALLOWED_TYPES ==>
        reply == WrongType && unchanged(this)
      ensures image.Some? && image.value.contentType.Some? && image.value.contentType.value in ALLOWED_TYPES ==>
        var desc := OptionOrDefault(description, DEFAULT_DESCRIPTION);
        if !AnyOpen(old(challenges)) then reply == NoOpenChallenge && unchanged(this)
        else
          var cid := old(challenges)[FirstIndex(old(challenges), IsOpen).value].id;
          if !auditReachable then reply == SubmitFailed && unchanged(this)
          else match FirstIndex(old(submissions), ByEntrant(userId, cid))
            case Some(i) =>
              if old(submissions)[i].submitted == 0 then
                && reply == SubmissionUpdated
                && submissions == old(submissions)[i := old(submissions)[i].(url := image.value.url, description := desc)]
                && nextSubmissionId == old(nextSubmissionId)
              else reply == AlreadyFinal && unchanged(this)
            case None =>
              && reply == SubmissionReceived(old(nextSubmissionId))
              && submissions == old(submissions) + [Submission(old(nextSubmissionId), userId, cid, image.value.url, desc, 0, None)]
              && nextSubmissionId == old(nextSubmissionId) + 1
    {
      var desc := OptionOrDefault(description, DEFAULT_DESCRIPTION);
      if image.None? || image.value.contentType.None? || image.value.contentType.value == [] {
        return MissingImage;
      }
      if image.value.contentType.value !in ALLOWED_TYPES {
        return WrongType;
      }
      var open := FirstIndex(challenges, IsOpen);
      if open.None? {
        return NoOpenChallenge;
      }
      var cid := challenges[open.value].id;
      var existing := FirstIndex(submissions, ByEntrant(userId, cid));
      if !auditReachable {
        return SubmitFailed;
      }
      match existing {
        case Some(i) =>
          if submissions[i].submitted == 0 {
            submissions := submissions[i := submissions[i].(url := image.value.url, description := desc)];
            reply := SubmissionUpdated;
          } else {
            reply := AlreadyFinal;
          }
        case None =>
          var row := Submission(nextSubmissionId, userId, cid, image.value.url, desc, 0, None);
          submissions := submissions + [row];
          nextSubmissionId := nextSubmissionId + 1;
          reply := SubmissionReceived(row.id);
      }
    }

    /**
     * `/updatechallenge`. `notified` says whether the posts after the UPDATE
     * went through; the row is updated either way. The thread rename is
     * attempted exactly when the theme is among the updates.
     */
    method UpdateChallenge(memberRoles: set<string>, moderatorSetting: string, id: int, o: UpdateOptions, notified: bool)
      returns (reply: UpdateReply, renameAttempted: bool)
      requires Valid()
      modifies this`challenges
      ensures Valid()
      ensures !HasListedRole(memberRoles, moderatorSetting) ==> reply == UpdateDenied && unchanged(this)
      ensures HasListedRole(memberRoles, moderatorSetting) ==>
        match FirstIndex(old(challenges), OpenWithId(id))
        case None => reply == NotUpdatable && unchanged(this)
        case Some(i) =>
          var updates := Collected(o, FIELDS);
          if updates == [] then reply == NoUpdates && unchanged(this)
          else
            && challenges == old(challenges)[i := Applied(old(challenges)[i], updates)]
            && reply == (if notified then ChallengeUpdated else UpdateFailed)
      ensures renameAttempted <==> (reply == ChallengeUpdated || reply == UpdateFailed) && RenamesThread(Collected(o, FIELDS))
    {
      renameAttempted := false;
      if !HasListedRole(memberRoles, moderatorSetting) {
        return UpdateDenied, false;
      }
      var found := FirstIndex(challenges, OpenWithId(id));
      if found.None? {
        return NotUpdatable, false;
      }
      var i := found.value;
      var updates := CollectUpdates(o, FIELDS);
      if updates == [] {
        return NoUpdates, false;
      }
      AppliedKeepsIdentity(challenges[i], updates);
      challenges := challenges[i := Applied(challenges[i], updates)];
      renameAttempted := Lookup(updates, Theme).Some?;
      reply := if notified then ChallengeUpdated else UpdateFailed;
    }

    /**
     * `/deletechallenge`: the challenge row and all of its submissions, in any
     * state. The thread deletion is attempted only for a truthy thread id and
     * its failure is ignored; `auditPosted` only decides the reply.
     */
    method DeleteChallenge(memberRoles: set<string>, moderatorSetting: string, id: int, auditPosted: bool)
      returns (reply: DeleteReply, threadDeleteAttempted: bool)
      requires Valid()
      modifies this`challenges, this`submissions
      ensures Valid()
      ensures !HasListedRole(memberRoles, moderatorSetting) ==>
        reply == DeleteDenied && !threadDeleteAttempted && unchanged(this)
      ensures HasListedRole(memberRoles, moderatorSetting) ==>
        match FirstIndex(old(challenges), HasId(id))
        case None => reply == ChallengeNotFound && !threadDeleteAttempted && unchanged(this)
        case Some(i) =>
          && challenges == WithoutChallenge(old(challenges), id)
          && submissions == WithoutEntriesOf(old(submissions), id)
          && threadDeleteAttempted == Truthy(old(challenges)[i].threadId)
          && reply == (if auditPosted then ChallengeDeleted(old(challenges)[i].theme) else DeleteFailed)
    {
      if !HasListedRole(memberRoles, moderatorSetting) {
        return DeleteDenied, false;
      }
      var found := FirstIndex(challenges, HasId(id));
      if found.None? {
        return ChallengeNotFound, false;
      }
      var row := challenges[found.value];
      threadDeleteAttempted := row.threadId.Some? && row.threadId.value != [];
      CascadeKeepsWellFormed(challenges, submissions, nextChallengeId, nextSubmissionId, id);
      challenges := WithoutChallenge(challenges, id);
      submissions := WithoutEntriesOf(submissions, id);
      reply := if auditPosted then ChallengeDeleted(row.theme) else DeleteFailed;
    }

    /**
     * `/deletesubmission`, behind the single-role check. The id option is
     * text; it matches the row whose id it spells in decimal. The member is
     * sent a direct message only when `notifyUser` is true; `afterwardsOk`
     * says whether the steps after the delete went through.
     */
    method DeleteSubmission(memberRoles: set<string>, moderatorSetting: string, idText: string,
                            notifyUser: Option<bool>, afterwardsOk: bool)
      returns (reply: RemoveReply, dmAttempted: bool)
      requires Valid()
      modifies this`submissions
      ensures Valid()
      ensures !HasRole(memberRoles, moderatorSetting) ==> reply == RemoveDenied && !dmAttempted && unchanged(this)
      ensures HasRole(memberRoles, moderatorSetting) ==>
        var found := if ParseDecimal(idText).Some? then FirstIndex(old(submissions), HasSubmissionId(ParseDecimal(idText).value)) else None;
        if found.None? then reply == SubmissionNotFound && !dmAttempted && unchanged(this)
        else
          && submissions == WithoutSubmission(old(submissions), ParseDecimal(idText).value)
          && dmAttempted == (notifyUser == Some(true))
          && reply == (if afterwardsOk then SubmissionRemoved else RemoveFailed)
    {
      if !HasRole(memberRoles, moderatorSetting) {
        return RemoveDenied, false;
      }
      var id := ParseDecimal(idText);
      if id.None? {
        return SubmissionNotFound, false;
      }
      var found := FirstIndex(submissions, HasSubmissionId(id.value));
      if found.None? {
        return SubmissionNotFound, false;
      }
      SubmissionDeleteKeepsWellFormed(challenges, submissions, nextChallengeId, nextSubmissionId, id.value);
      submissions := WithoutSubmission(submissions, id.value);
      dmAttempted := notifyUser.GetOr(false);
      reply := if afterwardsOk then SubmissionRemoved else RemoveFailed;
    }

    /**
     * `/endvoting`: the first challenge in "Voting", its finalized submissions
     * ranked by votes. `threadFetched` says whether the forum thread could be
     * fetched; `posted` whether the results were posted. Only then does the
     * challenge become "Closed" and inactive.
     */
    method EndVoting(memberRoles: set<string>, moderatorSetting: string,
                     threadFetched: bool, observe: Submission -> Fetch, posted: bool)
      returns (reply: CloseReply, results: seq<Placed<Submission>>)
      requires Valid()
      modifies this`challenges
      ensures Valid()
      ensures !HasRole(memberRoles, moderatorSetting) ==> reply == CloseDenied && results == [] && unchanged(this)
      ensures HasRole(memberRoles, moderatorSetting) ==>
        match FirstIndex(old(challenges), IsVoting)
        case None => reply == NothingToClose && results == [] && unchanged(this)
        case Some(i) =>
          var entries := Finalized(submissions, old(challenges)[i].id);
          if !threadFetched then reply == ThreadUnavailable && results == [] && unchanged(this)
          else if entries == [] then reply == NoSubmissions && results == [] && unchanged(this)
          else
            && results == Results(entries, observe)
            && (if posted then
                  reply == VotingClosed && challenges == old(challenges)[i := old(challenges)[i].(state := CLOSED, active := 0)]
                else reply == CloseFailed && unchanged(this))
    {
      results := [];
      if !HasRole(memberRoles, moderatorSetting) {
        return CloseDenied, [];
      }
      var found := FirstIndex(challenges, IsVoting);
      if found.None? {
        return NothingToClose, [];
      }
      var i := found.value;
      if !threadFetched {
        return ThreadUnavailable, [];
      }
      var entries := Finalized(submissions, challenges[i].id);
      if entries == [] {
        return NoSubmissions, [];
      }
      var votes := CollectVotes(entries, observe);
      results := TopThree(Rank(votes));
      if !posted {
        return CloseFailed, results;
      }
      RowUpdateKeepsWellFormed(challenges, submissions, nextChallengeId, nextSubmissionId, i, challenges[i].(state := CLOSED, active := 0));
      challenges := challenges[i := challenges[i].(state := CLOSED, active := 0)];
      reply := VotingClosed;
    }

    /**
     * `/stopvoting`: the first challenge with active = 1 and all of its
     * submissions, whatever their submitted flag. `fetched` says whether each
     * submission's message could be fetched; the reaction count is never
     * found (`MisKeyed`). `announced` says whether the
     * notice in the challenge channel, sent before the tally, went through;
     * `posted` whether the results reached the audit channel. Only after both
     * is active set to 0, leaving the state as it was.
     */
    method StopVoting(memberRoles: set<string>, moderatorSetting: string, announced: bool,
                      fetched: Submission -> bool, posted: bool)
      returns (reply: CloseReply, results: seq<Placed<Submission>>)
      requires Valid()
      modifies this`challenges
      ensures Valid()
      ensures !HasRole(memberRoles, moderatorSetting) ==> reply == CloseDenied && results == [] && unchanged(this)
      ensures HasRole(memberRoles, moderatorSetting) ==>
        match FirstIndex(old(challenges), IsActiveRow)
        case None => reply == NothingToClose && results == [] && unchanged(this)
        case Some(i) =>
          var entries := OfChallenge(submissions, old(challenges)[i].id);
          if entries == [] then reply == NoSubmissions && results == [] && unchanged(this)
          else if !announced then reply == CloseFailed && results == [] && unchanged(this)
          else
            && results == Results(entries, MisKeyed(fetched))
            && (if posted then
                  reply == VotingClosed && challenges == old(challenges)[i := old(challenges)[i].(active := 0)]
                else reply == CloseFailed && unchanged(this))
    {
      results := [];
      if !HasRole(memberRoles, moderatorSetting) {
        return CloseDenied, [];
      }
      var found := FirstIndex(challenges, IsActiveRow);
      if found.None? {
        return NothingToClose, [];
      }
      var i := found.value;
      var entries := OfChallenge(submissions, challenges[i].id);
      if entries == [] {
        return NoSubmissions, [];
      }
      if !announced {
        return CloseFailed, [];
      }
      var votes := CollectVotes(entries, MisKeyed(fetched));
      results := TopThree(Rank(votes));
      if !posted {
        return CloseFailed, results;
      }
      RowUpdateKeepsWellFormed(challenges, submissions, nextChallengeId, nextSubmissionId, i, challenges[i].(active := 0));
      challenges := challenges[i := challenges[i].(active := 0)];
      reply := VotingClosed;
    }

    /** The dashboard's DELETE: no row is removed; every row with that id becomes inactive. */
    method Deactivate(idText: string)
      requires Valid()
      modifies this`challenges
      ensures Valid()
      ensures challenges == Deactivated(old(challenges), ParseDecimal(idText))
    {
      challenges := Deactivated(challenges, ParseDecimal(idText));
    }

    /**
     * The dashboard's POST: an open, active challenge without a thread. Unlike
     * `/startchallenge` it does not look for another open challenge.
     */
    method Create(title: string, description: string, submissionsClose: string, votingBegins: string, votingEnds: string)
      requires Valid()
      modifies this`challenges, this`nextChallengeId
      ensures Valid()
      ensures challenges == old(challenges) + [Challenge(old(nextChallengeId), title, description,
        submissionsClose, votingBegins, votingEnds, None, SUBMISSIONS, 1)]
      ensures nextChallengeId == old(nextChallengeId) + 1
    {
      challenges := challenges + [Challenge(nextChallengeId, title, description,
        submissionsClose, votingBegins, votingEnds, None, SUBMISSIONS, 1)];
      nextChallengeId := nextChallengeId + 1;
    }
  }
}
