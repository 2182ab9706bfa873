/**
 * The moderator gate in front of every moderator command. The member's roles
 * are an abstract set of role ids; the configured moderator role is the text
 * of the MODERATOR_ROLE_ID setting. Commands use one of two checks: a
 * comma-separated list of which any one role suffices, or the whole setting
 * taken as a single role id.
 */
module Roles {

  import opened Text

  /** `setting.split(',').some(id => roles.has(id))` */
  predicate HasListedRole(memberRoles: set<string>, setting: string) {
    exists k :: 0 <= k < |Split(setting, ',')| && Split(setting, ',')[k] in memberRoles
  }

  /** `roles.has(setting)` */
  predicate HasRole(memberRoles: set<string>, setting: string) {
    setting in memberRoles
  }

  /**
   * For a setting written as the comma-joined list `ids`, the list check
   * admits exactly the members who hold one of the listed roles.
   */
  lemma ListedRoleIff(memberRoles: set<string>, ids: seq<string>)
    requires |ids| >= 1
    requires forall k :: 0 <= k < |ids| ==> ',' !in ids[k]
    ensures HasListedRole(memberRoles, Join(ids, ','))
        <==> exists k :: 0 <= k < |ids| && ids[k] in memberRoles
  {
    SplitJoin(ids, ',');
  }

  /** With a single id configured, both checks agree. */
  lemma SingleIdChecksAgree(memberRoles: set<string>, setting: string)
    requires ',' !in setting
    ensures HasListedRole(memberRoles, setting) <==> HasRole(memberRoles, setting)
  {
    SplitWithoutSeparator(setting, ',');
    assert Split(setting, ',')[0] == setting;
  }

  /**
   * The single-id check rejects every member when the setting is a list of
   * two or more ids (a role id holds no comma), whereas the list check admits
   * a holder of any listed role.
   */
  lemma SingleIdCheckRejectsLists(memberRoles: set<string>, ids: seq<string>)
    requires |ids| >= 2
    requires forall k :: 0 <= k < |ids| ==> ',' !in ids[k]
    requires forall r :: r in memberRoles ==> ',' !in r
    ensures !HasRole(memberRoles, Join(ids, ','))
  {
    assert Join(ids, ',') == ids[0] + [','] + Join(ids[1..], ',');
    assert Join(ids, ',')[|ids[0]|] == ',';
  }
}
