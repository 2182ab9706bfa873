/**
 * The `predefined_warnings` table (id → description) and the `warnings`
 * table of warnings issued to members, as values, with the row queries the
 * warning commands run against them.
 */
module WarningTables {

  import opened Wrappers
  import opened Text
  import opened Seqs

  /** One row of `predefined_warnings`. */
  datatype Predefined = Predefined(id: nat, description: string)

  /**
   * One row of `warnings`: the warned member, the predefined id as the
   * moderator typed it, the description copied at issue time, the optional
   * context and the moderator who issued it.
   */
  datatype Issued = Issued(
    id: nat,
    userId: string,
    warningId: string,
    description: string,
    context: Option<string>,
    moderatorId: string)

  function PredefinedKey(p: Predefined): nat { p.id }
  function IssuedKey(w: Issued): nat { w.id }

  /** Primary keys are unique and below the next auto-increment value. */
  predicate WellFormed(ps: seq<Predefined>, ws: seq<Issued>, nextPredefined: nat, nextIssued: nat) {
    && Distinct(ps, PredefinedKey)
    && Distinct(ws, IssuedKey)
    && (forall k :: 0 <= k < |ps| ==> ps[k].id < nextPredefined)
    && (forall k :: 0 <= k < |ws| ==> ws[k].id < nextIssued)
  }

  function PredefinedWithId(id: int): Predefined -> bool { (p: Predefined) => p.id == id }
  function PredefinedIdIsNot(id: int): Predefined -> bool { (p: Predefined) => p.id != id }
  function UserIsNot(userId: string): Issued -> bool { (w: Issued) => w.userId != userId }

  /**
   * `SELECT * FROM predefined_warnings WHERE id = ?` with the id given as
   * text: only a decimal numeral names a row.
   */
  function LookupText(ps: seq<Predefined>, idText: string): (r: Option<nat>)
    ensures r.Some? ==> r.value < |ps| && ParseDecimal(idText) == Some(ps[r.value].id)
    ensures r.None? ==>
      ParseDecimal(idText).None? || forall k :: 0 <= k < |ps| ==> ps[k].id != ParseDecimal(idText).value
  {
    match ParseDecimal(idText)
    case None => None
    case Some(n) => FirstIndex(ps, PredefinedWithId(n))
  }

  /** `context || null`: an absent or empty context is stored as null. */
  function ContextOrNull(context: Option<string>): (r: Option<string>)
    ensures r.Some? <==> context.Some? && context.value != []
    ensures r.Some? ==> r == context
  {
    if context.Some? && context.value != [] then context else None
  }

  /** `UPDATE predefined_warnings SET description = ? WHERE id = ?` on every matching row. */
  function Described(ps: seq<Predefined>, id: int, d: string): (r: seq<Predefined>)
    ensures |r| == |ps|
    ensures forall k :: 0 <= k < |ps| ==> r[k].id == ps[k].id
    ensures forall k :: 0 <= k < |ps| && ps[k].id != id ==> r[k] == ps[k]
    ensures forall k :: 0 <= k < |ps| && ps[k].id == id ==> r[k].description == d
  {
    if ps == [] then []
    else [if ps[0].id == id then ps[0].(description := d) else ps[0]] + Described(ps[1..], id, d)
  }

  /** With unique ids the update changes exactly the row the lookup found. */
  lemma DescribedIsPointUpdate(ps: seq<Predefined>, id: int, d: string, i: nat)
    requires Distinct(ps, PredefinedKey)
    requires i < |ps| && ps[i].id == id
    ensures Described(ps, id, d) == ps[i := Predefined(id, d)]
  {
    var r := Described(ps, id, d);
    forall k | 0 <= k < |ps| ensures r[k] == ps[i := Predefined(id, d)][k] {
      if k != i {
        assert PredefinedKey(ps[k]) != PredefinedKey(ps[i]) by {
          if k < i { assert PredefinedKey(ps[k]) != PredefinedKey(ps[i]); }
        }
      }
    }
  }

  /** The description update keeps the table invariant. */
  lemma DescribedKeepsWellFormed(ps: seq<Predefined>, ws: seq<Issued>, np: nat, nw: nat, id: int, d: string)
    requires WellFormed(ps, ws, np, nw)
    ensures WellFormed(Described(ps, id, d), ws, np, nw)
  {
    var r := Described(ps, id, d);
    forall i, j | 0 <= i < j < |r| ensures PredefinedKey(r[i]) != PredefinedKey(r[j]) {
      assert PredefinedKey(ps[i]) != PredefinedKey(ps[j]);
    }
  }

  /** `DELETE FROM predefined_warnings WHERE id = ?` */
  function WithoutPredefined(ps: seq<Predefined>, id: int): (r: seq<Predefined>)
    ensures forall p :: p in r <==> p in ps && p.id != id
  {
    Filter(ps, PredefinedIdIsNot(id))
  }

  /** The number of rows the delete reports as affected. */
  function DeletedCount(ps: seq<Predefined>, id: int): (r: int)
    ensures r >= 0
  {
    FilterIsSubsequence(ps, PredefinedIdIsNot(id));
    |ps| - |WithoutPredefined(ps, id)|
  }

  /** A delete of an id the table holds reports at least one affected row. */
  lemma DeleteOfPresentIdAffectsRows(ps: seq<Predefined>, i: nat)
    requires i < |ps|
    ensures DeletedCount(ps, ps[i].id) > 0
  {
    FilterDropsFailing(ps, PredefinedIdIsNot(ps[i].id), i);
  }

  /** A delete of an id the table does not hold changes nothing. */
  lemma DeleteOfAbsentIdKeepsTable(ps: seq<Predefined>, id: int)
    requires forall k :: 0 <= k < |ps| ==> ps[k].id != id
    ensures WithoutPredefined(ps, id) == ps && DeletedCount(ps, id) == 0
  {
    FilterAll(ps, PredefinedIdIsNot(id));
  }

  /**
   * The delete reports affected rows exactly when the table holds the id,
   * which is what the success reply of the delete command tests.
   */
  lemma DeletedCountIffPresent(ps: seq<Predefined>, id: int)
    ensures DeletedCount(ps, id) > 0 <==> exists k :: 0 <= k < |ps| && ps[k].id == id
  {
    if exists k :: 0 <= k < |ps| && ps[k].id == id {
      var k :| 0 <= k < |ps| && ps[k].id == id;
      DeleteOfPresentIdAffectsRows(ps, k);
    } else {
      DeleteOfAbsentIdKeepsTable(ps, id);
    }
  }

  /** Deleting predefined rows keeps the table invariant. */
  lemma DeleteKeepsWellFormed(ps: seq<Predefined>, ws: seq<Issued>, np: nat, nw: nat, id: int)
    requires WellFormed(ps, ws, np, nw)
    ensures WellFormed(WithoutPredefined(ps, id), ws, np, nw)
  {
    var r := WithoutPredefined(ps, id);
    FilterKeepsDistinct(ps, PredefinedIdIsNot(id), PredefinedKey);
    forall k | 0 <= k < |r| ensures r[k].id < np {
      var m :| 0 <= m < |ps| && ps[m] == r[k];
    }
  }

  /** `DELETE FROM warnings WHERE user_id = ?` */
  function ClearedFor(ws: seq<Issued>, userId: string): (r: seq<Issued>)
    ensures forall w :: w in r <==> w in ws && w.userId != userId
  {
    Filter(ws, UserIsNot(userId))
  }

  /** Clearing keeps every other member's warnings, in their order. */
  lemma ClearKeepsOthersInOrder(ws: seq<Issued>, userId: string)
    ensures IsSubsequence(ClearedFor(ws, userId), ws)
    ensures forall k :: 0 <= k < |ws| && ws[k].userId != userId ==> ws[k] in ClearedFor(ws, userId)
    ensures forall w :: w in ClearedFor(ws, userId) ==> w.userId != userId
  {
    FilterIsSubsequence(ws, UserIsNot(userId));
  }

  /** Clearing twice is clearing once. */
  lemma ClearIdempotent(ws: seq<Issued>, userId: string)
    ensures ClearedFor(ClearedFor(ws, userId), userId) == ClearedFor(ws, userId)
  {
    FilterIdempotent(ws, UserIsNot(userId));
  }

  /** Clearing a member who has no warnings leaves the table as it was. */
  lemma ClearWithoutWarningsKeepsTable(ws: seq<Issued>, userId: string)
    requires forall k :: 0 <= k < |ws| ==> ws[k].userId != userId
    ensures ClearedFor(ws, userId) == ws
  {
    FilterAll(ws, UserIsNot(userId));
  }

  /** Clearing issued warnings keeps the table invariant. */
  lemma ClearKeepsWellFormed(ps: seq<Predefined>, ws: seq<Issued>, np: nat, nw: nat, userId: string)
    requires WellFormed(ps, ws, np, nw)
    ensures WellFormed(ps, ClearedFor(ws, userId), np, nw)
  {
    var r := ClearedFor(ws, userId);
    FilterKeepsDistinct(ws, UserIsNot(userId), IssuedKey);
    forall k | 0 <= k < |r| ensures r[k].id < nw {
      var m :| 0 <= m < |ws| && ws[m] == r[k];
    }
  }

  /** Inserting a predefined warning under the next id keeps the invariant, and the next id moves on. */
  lemma PredefinedInsertKeepsWellFormed(ps: seq<Predefined>, ws: seq<Issued>, np: nat, nw: nat, p: Predefined)
    requires WellFormed(ps, ws, np, nw)
    requires p.id == np
    ensures WellFormed(ps + [p], ws, np + 1, nw)
  {
    var ps' := ps + [p];
    forall i, j | 0 <= i < j < |ps'| ensures PredefinedKey(ps'[i]) != PredefinedKey(ps'[j]) {
      if j < |ps| { assert PredefinedKey(ps[i]) != PredefinedKey(ps[j]); }
    }
  }

  /** Issuing a warning under the next id keeps the invariant, and the next id moves on. */
  lemma IssuedInsertKeepsWellFormed(ps: seq<Predefined>, ws: seq<Issued>, np: nat, nw: nat, w: Issued)
    requires WellFormed(ps, ws, np, nw)
    requires w.id == nw
    ensures WellFormed(ps, ws + [w], np, nw + 1)
  {
    var ws' := ws + [w];
    forall i, j | 0 <= i < j < |ws'| ensures IssuedKey(ws'[i]) != IssuedKey(ws'[j]) {
      if j < |ws| { assert IssuedKey(ws[i]) != IssuedKey(ws[j]); }
    }
  }
}

/**
 * The six warning commands over a store holding both warning tables. The
 * direct message, the moderator channel and the audit channel are outside
 * the store: whether each of them went through is a parameter.
 */
module Warnings {

  import opened Wrappers
  import opened Text
  import opened Seqs
  import opened Roles
  import opened WarningTables
  import opened WarningPages

  const DM_SENT := "Warning sent via DM."
  const DM_FAILED := "Unable to send warning via DM. User may have DMs disabled."

  datatype WarnReply =
    | MissingWarningId
    | WarnDenied
    | UnknownWarning(warningId: string)
    | WarningIssued(description: string, dmStatus: string)
    | WarnFailed

  datatype AddReply = AddDenied | WarningAdded(id: nat) | AddFailed

  datatype EditReply = EditDenied | EditNotFound(id: int) | WarningEdited(id: int)

  /** What the audit channel is told about an edit. */
  datatype EditAudit = EditAudit(id: int, oldDescription: string, newDescription: string)

  datatype RemoveReply = RemoveDenied | RemoveNotFound(id: int) | WarningRemoved(id: int) | RemoveFailed

  datatype ClearReply = ClearDenied | WarningsCleared(userId: string)

  datatype ListReply = ListDenied | NoWarnings | WarningList(pages: seq<Page>)

  /** The footer of the confirmation: whether the direct message reached the member. */
  function DmStatus(delivered: bool): string {
    if delivered then DM_SENT else DM_FAILED
  }

  class WarningStore {
    var predefined: seq<Predefined>
    var issued: seq<Issued>
    var nextPredefinedId: nat
    var nextIssuedId: nat

    ghost predicate Valid()
      reads this
    {
      WellFormed(predefined, issued, nextPredefinedId, nextIssuedId)
    }

    constructor (ps: seq<Predefined>, ws: seq<Issued>, np: nat, nw: nat)
      requires WellFormed(ps, ws, np, nw)
      ensures Valid()
      ensures predefined == ps && issued == ws && nextPredefinedId == np && nextIssuedId == nw
    {
      predefined, issued := ps, ws;
      nextPredefinedId, nextIssuedId := np, nw;
    }

    /**
     * `/warn`: an empty warning id is refused before anything else, then the
     * moderator roles are checked, then the predefined warning is looked up
     * and a copy of its description is recorded against the member. A direct
     * message that cannot be delivered only changes the status text; when the
     * moderator channel cannot be reached the reply is an error but the
     * warning stays recorded.
     */
    method Warn(memberRoles: set<string>, moderatorSetting: string, targetUser: string, warningId: string,
                context: Option<string>, moderatorId: string, dmDelivered: bool, modChannelPosted: bool)
      returns (reply: WarnReply)
      requires Valid()
      modifies this`issued, this`nextIssuedId
      ensures Valid()
      ensures predefined == old(predefined)
      ensures warningId == [] ==> reply == MissingWarningId && unchanged(this)
      ensures warningId != [] && !HasListedRole(memberRoles, moderatorSetting) ==>
        reply == WarnDenied && unchanged(this)
      ensures warningId != [] && HasListedRole(memberRoles, moderatorSetting) ==>
        match LookupText(old(predefined), warningId)
        case None => reply == UnknownWarning(warningId) && unchanged(this)
        case Some(i) =>
          var d := old(predefined)[i].description;
          && issued == old(issued) + [Issued(old(nextIssuedId), targetUser, warningId, d, ContextOrNull(context), moderatorId)]
          && nextIssuedId == old(nextIssuedId) + 1
          && reply == (if modChannelPosted then WarningIssued(d, DmStatus(dmDelivered)) else WarnFailed)
    {
      var storedContext := ContextOrNull(context);
      if warningId == [] {
        return MissingWarningId;
      }
      if !HasListedRole(memberRoles, moderatorSetting) {
        return WarnDenied;
      }
      var found := LookupText(predefined, warningId);
      if found.None? {
        return UnknownWarning(warningId);
      }
      var description := predefined[found.value].description;
      var row := Issued(nextIssuedId, targetUser, warningId, description, storedContext, moderatorId);
      IssuedInsertKeepsWellFormed(predefined, issued, nextPredefinedId, nextIssuedId, row);
      issued := issued + [row];
      nextIssuedId := nextIssuedId + 1;
      var dmStatus := DM_SENT;
      if !dmDelivered {
        dmStatus := DM_FAILED;
      }
      reply := if modChannelPosted then WarningIssued(description, dmStatus) else WarnFailed;
    }

    /** `/addwarning`: inserts one predefined warning and reports its new id. */
    method AddWarning(memberRoles: set<string>, moderatorSetting: string, description: string)
      returns (reply: AddReply)
      requires Valid()
      modifies this`predefined, this`nextPredefinedId
      ensures Valid()
      ensures issued == old(issued)
      ensures !HasRole(memberRoles, moderatorSetting) ==> reply == AddDenied && unchanged(this)
      ensures HasRole(memberRoles, moderatorSetting) ==>
        && predefined == old(predefined) + [Predefined(old(nextPredefinedId), description)]
        && nextPredefinedId == old(nextPredefinedId) + 1
        && reply == WarningAdded(old(nextPredefinedId))
    {
      if !HasRole(memberRoles, moderatorSetting) {
        return AddDenied;
      }
      var before := |predefined|;
      var insertId := nextPredefinedId;
      var row := Predefined(insertId, description);
      PredefinedInsertKeepsWellFormed(predefined, issued, nextPredefinedId, nextIssuedId, row);
      predefined := predefined + [row];
      nextPredefinedId := nextPredefinedId + 1;
      var affectedRows := |predefined| - before;
      reply := if affectedRows > 0 then WarningAdded(insertId) else AddFailed;
    }

    /**
     * `/editwarning`: replaces the description of one predefined warning;
     * the audit channel, when it can be reached, is told the old and the new
     * description.
     */
    method EditWarning(memberRoles: set<string>, moderatorSetting: string, id: int, newDescription: string,
                       auditPosted: bool)
      returns (reply: EditReply, audit: Option<EditAudit>)
      requires Valid()
      modifies this`predefined
      ensures Valid()
      ensures issued == old(issued)
      ensures !HasListedRole(memberRoles, moderatorSetting) ==>
        reply == EditDenied && audit == None && unchanged(this)
      ensures HasListedRole(memberRoles, moderatorSetting) ==>
        match FirstIndex(old(predefined), PredefinedWithId(id))
        case None => reply == EditNotFound(id) && audit == None && unchanged(this)
        case Some(i) =>
          && predefined == old(predefined)[i := Predefined(id, newDescription)]
          && reply == WarningEdited(id)
          && audit == (if auditPosted then Some(EditAudit(id, old(predefined)[i].description, newDescription)) else None)
    {
      if !HasListedRole(memberRoles, moderatorSetting) {
        return EditDenied, None;
      }
      var found := FirstIndex(predefined, PredefinedWithId(id));
      if found.None? {
        return EditNotFound(id), None;
      }
      var oldDescription := predefined[found.value].description;
      DescribedKeepsWellFormed(predefined, issued, nextPredefinedId, nextIssuedId, id, newDescription);
      DescribedIsPointUpdate(predefined, id, newDescription, found.value);
      predefined := Described(predefined, id, newDescription);
      reply := WarningEdited(id);
      audit := if auditPosted then Some(EditAudit(id, oldDescription, newDescription)) else None;
    }

    /** `/deletewarning`: removes one predefined warning; issued warnings are kept. */
    method DeleteWarning(memberRoles: set<string>, moderatorSetting: string, id: int)
      returns (reply: RemoveReply)
      requires Valid()
      modifies this`predefined
      ensures Valid()
      ensures issued == old(issued)
      ensures !HasRole(memberRoles, moderatorSetting) ==> reply == RemoveDenied && unchanged(this)
      ensures HasRole(memberRoles, moderatorSetting) ==>
        match FirstIndex(old(predefined), PredefinedWithId(id))
        case None => reply == RemoveNotFound(id) && unchanged(this)
        case Some(i) => predefined == WithoutPredefined(old(predefined), id) && reply == WarningRemoved(id)
    {
      if !HasRole(memberRoles, moderatorSetting) {
        return RemoveDenied;
      }
      var found := FirstIndex(predefined, PredefinedWithId(id));
      if found.None? {
        return RemoveNotFound(id);
      }
      DeleteOfPresentIdAffectsRows(predefined, found.value);
      DeleteKeepsWellFormed(predefined, issued, nextPredefinedId, nextIssuedId, id);
      var affectedRows := DeletedCount(predefined, id);
      predefined := WithoutPredefined(predefined, id);
      reply := if affectedRows > 0 then WarningRemoved(id) else RemoveFailed;
    }

    /** `/clearwarnings`: removes every warning issued to one member. */
    method ClearWarnings(memberRoles: set<string>, moderatorSetting: string, targetUser: string)
      returns (reply: ClearReply)
      requires Valid()
      modifies this`issued
      ensures Valid()
      ensures predefined == old(predefined)
      ensures !HasRole(memberRoles, moderatorSetting) ==> reply == ClearDenied && unchanged(this)
      ensures HasRole(memberRoles, moderatorSetting) ==>
        issued == ClearedFor(old(issued), targetUser) && reply == WarningsCleared(targetUser)
    {
      if !HasRole(memberRoles, moderatorSetting) {
        return ClearDenied;
      }
      ClearKeepsWellFormed(predefined, issued, nextPredefinedId, nextIssuedId, targetUser);
      issued := ClearedFor(issued, targetUser);
      reply := WarningsCleared(targetUser);
    }

    /** `/listwarnings`: the predefined warnings, 25 to a page. */
    method ListWarnings(memberRoles: set<string>, moderatorSetting: string) returns (reply: ListReply)
      ensures !HasListedRole(memberRoles, moderatorSetting) ==> reply == ListDenied
      ensures HasListedRole(memberRoles, moderatorSetting) && predefined == [] ==> reply == NoWarnings
      ensures HasListedRole(memberRoles, moderatorSetting) && predefined != [] ==>
        reply.WarningList? && reply.pages != [] && IsPagination(reply.pages, predefined)
    {
      if !HasListedRole(memberRoles, moderatorSetting) {
        return ListDenied;
      }
      if predefined == [] {
        return NoWarnings;
      }
      var pages := BuildPages(predefined);
      reply := WarningList(pages);
    }
  }
}
