/**
 * The pure part of the update-challenge command: which options become column
 * updates, the SQL SET clause built from them, what the UPDATE does to the
 * row, and the human-readable field labels of the change notice.
 */
module ChallengeUpdates {

  import opened Wrappers
  import opened Text
  import opened Seqs
  import opened ChallengeTables

  /** The updatable columns. */
  datatype Field = Theme | Description | SubmissionsClose | VotingBegins | VotingEnds

  /** The column name, which is also the option name. */
  function Name(f: Field): string {
    match f
    case Theme => "theme"
    case Description => "description"
    case SubmissionsClose => "submissions_close"
    case VotingBegins => "voting_begins"
    case VotingEnds => "voting_ends"
  }

  /** The columns in the order the command examines them. */
  const FIELDS: seq<Field> := [Theme, Description, SubmissionsClose, VotingBegins, VotingEnds]

  /** The five optional string options of the command. */
  datatype UpdateOptions = UpdateOptions(
    theme: Option<string>,
    description: Option<string>,
    submissionsClose: Option<string>,
    votingBegins: Option<string>,
    votingEnds: Option<string>)

  /** `interaction.options.getString(field)` */
  function OptionFor(o: UpdateOptions, f: Field): Option<string> {
    match f
    case Theme => o.theme
    case Description => o.description
    case SubmissionsClose => o.submissionsClose
    case VotingBegins => o.votingBegins
    case VotingEnds => o.votingEnds
  }

  /** A column and its new value; the `updates` object is kept in insertion order. */
  type Update = (Field, string)

  function UpdateKey(u: Update): Field { u.0 }

  /** The updates that examining `fields` in order adds to `updates`. */
  function Collected(o: UpdateOptions, fields: seq<Field>): seq<Update>
    decreases |fields|
  {
    if fields == [] then []
    else
      var v := OptionFor(o, fields[0]);
      (if Truthy(v) then [(fields[0], v.value)] else []) + Collected(o, fields[1..])
  }

  /** The updated columns, in order. */
  function Columns(u: seq<Update>): (r: seq<Field>)
    ensures |r| == |u| && forall k :: 0 <= k < |u| ==> r[k] == u[k].0
  {
    seq(|u|, k requires 0 <= k < |u| => u[k].0)
  }

  /** `Object.keys(updates)` */
  function Keys(u: seq<Update>): (r: seq<string>)
    ensures |r| == |u| && forall k :: 0 <= k < |u| ==> r[k] == Name(u[k].0)
  {
    seq(|u|, k requires 0 <= k < |u| => Name(u[k].0))
  }

  /** `Object.values(updates)` */
  function Values(u: seq<Update>): (r: seq<string>)
    ensures |r| == |u| && forall k :: 0 <= k < |u| ==> r[k] == u[k].1
  {
    seq(|u|, k requires 0 <= k < |u| => u[k].1)
  }

  /** The forEach over `fields` that fills `updates`. */
  method CollectUpdates(o: UpdateOptions, fields: seq<Field>) returns (updates: seq<Update>)
    ensures updates == Collected(o, fields)
  {
    updates := [];
    var i := 0;
    while i < |fields|
      invariant 0 <= i <= |fields|
      invariant updates == Collected(o, fields[..i])
    {
      var value := OptionFor(o, fields[i]);
      assert fields[..i + 1] == fields[..i] + [fields[i]];
      CollectedAppend(o, fields[..i], [fields[i]]);
      if value.Some? && value.value != [] {
        updates := updates + [(fields[i], value.value)];
      }
      i := i + 1;
    }
    assert fields[..i] == fields;
  }

  /** Examining more fields appends their updates. */
  lemma {:induction false} CollectedAppend(o: UpdateOptions, a: seq<Field>, b: seq<Field>)
    ensures Collected(o, a + b) == Collected(o, a) + Collected(o, b)
    decreases |a|
  {
    if a == [] {
      assert a + b == b;
    } else {
      assert (a + b)[0] == a[0] && (a + b)[1..] == a[1..] + b;
      CollectedAppend(o, a[1..], b);
    }
  }

  /**
   * An update is collected exactly for each examined field whose option is
   * truthy, with that option's value, and the keys keep the fields' order.
   */
  lemma {:induction false} CollectedExactly(o: UpdateOptions, fields: seq<Field>)
    ensures forall u :: u in Collected(o, fields) <==>
      u.0 in fields && Truthy(OptionFor(o, u.0)) && OptionFor(o, u.0) == Some(u.1)
    ensures IsSubsequence(Columns(Collected(o, fields)), fields)
    decreases |fields|
  {
    if fields != [] {
      CollectedExactly(o, fields[1..]);
      var v := OptionFor(o, fields[0]);
      var c := Collected(o, fields);
      var rest := Collected(o, fields[1..]);
      assert forall f :: f in fields <==> f == fields[0] || f in fields[1..] by {
        assert fields == [fields[0]] + fields[1..];
      }
      if Truthy(v) {
        assert c == [(fields[0], v.value)] + rest;
        assert Columns(c)[0] == fields[0] && Columns(c)[1..] == Columns(rest);
      } else {
        assert c == rest;
        assert Columns(c) != [] ==> Columns(c)[0] != fields[0];
      }
    }
  }

  /** No column occurs twice in `updates` when the examined fields are distinct. */
  lemma {:induction false} CollectedKeysDistinct(o: UpdateOptions, fields: seq<Field>)
    requires forall i, j :: 0 <= i < j < |fields| ==> fields[i] != fields[j]
    ensures Distinct(Collected(o, fields), UpdateKey)
    decreases |fields|
  {
    if fields != [] {
      CollectedKeysDistinct(o, fields[1..]);
      CollectedExactly(o, fields[1..]);
      var rest := Collected(o, fields[1..]);
      forall k | 0 <= k < |rest| ensures rest[k].0 != fields[0] {
        assert rest[k] in rest;
      }
    }
  }

  /** The SET clause: one `key = ?` per key, joined by ", ". */
  function SetClause(keys: seq<string>): string
    decreases |keys|
  {
    if keys == [] then ""
    else if |keys| == 1 then keys[0] + " = ?"
    else keys[0] + " = ?, " + SetClause(keys[1..])
  }

  /** The statement the command executes. */
  function UpdateQuery(keys: seq<string>): string {
    "UPDATE challenges SET " + SetClause(keys) + " WHERE id = ?"
  }

  /** The bound values: the update values followed by the id. */
  function BoundValues(u: seq<Update>, id: string): (r: seq<string>)
    ensures |r| == |u| + 1 && r[|u|] == id
    ensures forall k :: 0 <= k < |u| ==> r[k] == u[k].1
  {
    Values(u) + [id]
  }

  lemma {:induction false} SetClausePlaceholders(keys: seq<string>)
    requires forall k :: 0 <= k < |keys| ==> '?' !in keys[k]
    ensures CountChar(SetClause(keys), '?') == |keys|
    decreases |keys|
  {
    if keys == [] {
    } else if |keys| == 1 {
      CountCharAppend(keys[0], " = ?", '?');
      assert CountChar(keys[0], '?') == 0 by { NoCharCountsZero(keys[0], '?'); }
    } else {
      SetClausePlaceholders(keys[1..]);
      CountCharAppend(keys[0] + " = ?, ", SetClause(keys[1..]), '?');
      CountCharAppend(keys[0], " = ?, ", '?');
      NoCharCountsZero(keys[0], '?');
    }
  }

  lemma {:induction false} NoCharCountsZero(s: string, c: char)
    requires c !in s
    ensures CountChar(s, c) == 0
    decreases |s|
  {
    if s != [] {
      NoCharCountsZero(s[1..], c);
    }
  }

  /**
   * The placeholders of the executed statement and the bound values agree in
   * number, for every combination of options.
   */
  lemma PlaceholdersMatchValues(o: UpdateOptions, fields: seq<Field>, id: string)
    ensures var u := Collected(o, fields);
      CountChar(UpdateQuery(Keys(u)), '?') == |BoundValues(u, id)|
  {
    var u := Collected(o, fields);
    forall k | 0 <= k < |Keys(u)| ensures '?' !in Keys(u)[k] {
      NameHasNoPlaceholder(u[k].0);
    }
    SetClausePlaceholders(Keys(u));
    QueryPlaceholders(SetClause(Keys(u)));
  }

  lemma NameHasNoPlaceholder(f: Field)
    ensures '?' !in Name(f)
  {
  }

  /** The statement text adds the one placeholder of the WHERE clause. */
  lemma QueryPlaceholders(clause: string)
    ensures CountChar("UPDATE challenges SET " + clause + " WHERE id = ?", '?') == CountChar(clause, '?') + 1
  {
    HeadHasNoPlaceholder();
    TailHasOnePlaceholder();
    CountCharAppend("UPDATE challenges SET " + clause, " WHERE id = ?", '?');
    CountCharAppend("UPDATE challenges SET ", clause, '?');
  }

  lemma HeadHasNoPlaceholder()
    ensures CountChar("UPDATE challenges SET ", '?') == 0
  {
    NoCharCountsZero("UPDATE challenges SET ", '?');
  }

  lemma TailHasOnePlaceholder()
    ensures CountChar(" WHERE id = ?", '?') == 1
  {
    var tail := " WHERE id = ?";
    assert tail == tail[..12] + [tail[12]];
    CountCharAppend(tail[..12], [tail[12]], '?');
    NoCharCountsZero(tail[..12], '?');
  }

  /** The column `f` of a row. */
  function Column(c: Challenge, f: Field): string {
    match f
    case Theme => c.theme
    case Description => c.description
    case SubmissionsClose => c.submissionsClose
    case VotingBegins => c.votingBegins
    case VotingEnds => c.votingEnds
  }

  function SetColumn(c: Challenge, f: Field, v: string): Challenge {
    match f
    case Theme => c.(theme := v)
    case Description => c.(description := v)
    case SubmissionsClose => c.(submissionsClose := v)
    case VotingBegins => c.(votingBegins := v)
    case VotingEnds => c.(votingEnds := v)
  }

  /** The row after `UPDATE challenges SET <key = ?>... WHERE id = ?` with these updates. */
  function Applied(c: Challenge, u: seq<Update>): Challenge
    decreases |u|
  {
    if u == [] then c else Applied(SetColumn(c, u[0].0, u[0].1), u[1..])
  }

  /** The value given for `field`, if any. */
  function Lookup(u: seq<Update>, field: Field): (r: Option<string>)
    ensures r.Some? ==> (field, r.value) in u
    ensures r.None? ==> forall k :: 0 <= k < |u| ==> u[k].0 != field
    decreases |u|
  {
    if u == [] then None else if u[0].0 == field then Some(u[0].1) else Lookup(u[1..], field)
  }

  /** An UPDATE of the five columns never touches the id, thread, state or active flag. */
  lemma {:induction false} AppliedKeepsIdentity(c: Challenge, u: seq<Update>)
    ensures Applied(c, u).id == c.id && Applied(c, u).threadId == c.threadId
    ensures Applied(c, u).state == c.state && Applied(c, u).active == c.active
    decreases |u|
  {
    if u != [] {
      AppliedKeepsIdentity(SetColumn(c, u[0].0, u[0].1), u[1..]);
    }
  }

  /**
   * With distinct keys, each listed column takes its new value and every
   * other column keeps its value.
   */
  lemma {:induction false} AppliedChangesOnlyListed(c: Challenge, u: seq<Update>, field: Field)
    requires Distinct(u, UpdateKey)
    ensures Column(Applied(c, u), field) == Lookup(u, field).GetOr(Column(c, field))
    decreases |u|
  {
    if u != [] {
      AppliedChangesOnlyListed(SetColumn(c, u[0].0, u[0].1), u[1..], field);
      if u[0].0 == field {
        assert Lookup(u[1..], field).None? by {
          forall k | 0 <= k < |u[1..]| ensures u[1..][k].0 != field {
            assert u[0].0 != u[1 + k].0;
          }
        }
      }
    }
  }

  /** The updated row, for the options the command received. */
  lemma UpdatedRow(c: Challenge, o: UpdateOptions, fields: seq<Field>, field: Field)
    requires forall i, j :: 0 <= i < j < |fields| ==> fields[i] != fields[j]
    requires field in fields
    ensures var r := Applied(c, Collected(o, fields));
      && Column(r, field) == (if Truthy(OptionFor(o, field)) then OptionFor(o, field).value else Column(c, field))
      && r.id == c.id && r.threadId == c.threadId && r.state == c.state && r.active == c.active
  {
    var u := Collected(o, fields);
    CollectedExactly(o, fields);
    CollectedKeysDistinct(o, fields);
    AppliedChangesOnlyListed(c, u, field);
    AppliedKeepsIdentity(c, u);
    if Truthy(OptionFor(o, field)) {
      assert (field, OptionFor(o, field).value) in u;
    }
  }

  /** Only an update of the theme renames the thread. */
  predicate RenamesThread(u: seq<Update>) { exists k :: 0 <= k < |u| && u[k].0 == Theme }

  lemma RenameIffTheme(o: UpdateOptions, fields: seq<Field>)
    requires Theme in fields
    ensures RenamesThread(Collected(o, fields)) <==> Truthy(o.theme)
  {
    var u := Collected(o, fields);
    CollectedExactly(o, fields);
    if Truthy(o.theme) {
      assert (Theme, o.theme.value) in u;
    }
    if RenamesThread(u) {
      var k :| 0 <= k < |u| && u[k].0 == Theme;
      assert u[k] in u;
    }
  }

  // ---------------------------------------------------------------------------
  // field labels: `key.replace(/_/g, ' ').replace(/\b\w/g, l => l.toUpperCase())`

  /** `\w`: ASCII letters, digits and the underscore. */
  predicate IsWordChar(c: char) {
    'a' <= c <= 'z' || 'A' <= c <= 'Z' || '0' <= c <= '9' || c == '_'
  }

  /** A word character at the start of the string or after a non-word character. */
  predicate WordStart(s: string, k: nat)
    requires k < |s|
  {
    IsWordChar(s[k]) && (k == 0 || !IsWordChar(s[k - 1]))
  }

  /** `replace(/\b\w/g, l => l.toUpperCase())` */
  function CapitalizeWords(s: string): (r: string)
    ensures |r| == |s|
  {
    seq(|s|, k requires 0 <= k < |s| => if WordStart(s, k) then UpperChar(s[k]) else s[k])
  }

  /**
   * Capitalising keeps the text up to ASCII case, changes only the first
   * character of each word, and leaves no word starting with a lower-case
   * letter.
   */
  lemma CapitalizeWordsShape(s: string)
    ensures var r := CapitalizeWords(s);
      && (forall k :: 0 <= k < |s| ==> LowerChar(r[k]) == LowerChar(s[k]))
      && (forall k :: 0 <= k < |s| && !WordStart(s, k) ==> r[k] == s[k])
      && (forall k :: 0 <= k < |s| && WordStart(s, k) ==> !IsLowerAscii(r[k]))
  {
    forall k | 0 <= k < |s| ensures LowerChar(CapitalizeWords(s)[k]) == LowerChar(s[k]) {
      UpperThenLower(s[k]);
    }
  }

  /** Upper-casing a character does not change it up to case. */
  lemma UpperThenLower(c: char)
    ensures LowerChar(UpperChar(c)) == LowerChar(c)
  {
  }

  function FieldLabel(key: string): string {
    CapitalizeWords(ReplaceAll(key, "_", " "))
  }

  /**
   * Where a word of the label starts, read off the key itself: a letter or
   * digit at the start or after an underscore or another non-word character.
   */
  predicate KeyWordStart(key: string, k: nat)
    requires k < |key|
  {
    IsWordChar(key[k]) && key[k] != '_' && (k == 0 || key[k - 1] == '_' || !IsWordChar(key[k - 1]))
  }

  /**
   * The label of a key: same length, each underscore a space, the first
   * character of each word upper-cased, and every other character kept.
   */
  lemma FieldLabelShape(key: string)
    ensures var r := FieldLabel(key);
      && |r| == |key|
      && (forall k :: 0 <= k < |r| ==> r[k] != '_')
      && (forall k :: 0 <= k < |key| && key[k] == '_' ==> r[k] == ' ')
      && (forall k :: 0 <= k < |key| && KeyWordStart(key, k) ==> r[k] == UpperChar(key[k]))
      && (forall k :: 0 <= k < |key| && key[k] != '_' && !KeyWordStart(key, k) ==> r[k] == key[k])
  {
    var spaced := ReplaceAll(key, "_", " ");
    ReplaceCharPointwise(key, '_', ' ');
    var r := CapitalizeWords(spaced);
    CapitalizeWordsShape(spaced);
    forall k | 0 <= k < |key|
      ensures WordStart(spaced, k) <==> KeyWordStart(key, k)
    {
      if k > 0 {
        assert spaced[k - 1] == if key[k - 1] == '_' then ' ' else key[k - 1];
      }
    }
    forall k | 0 <= k < |key| && KeyWordStart(key, k) ensures r[k] == UpperChar(key[k]) {
      UpperIsTheOnly(r[k], key[k]);
    }
  }

  /** The only character equal to c up to case that is not lower-case is UpperChar(c). */
  lemma UpperIsTheOnly(d: char, c: char)
    requires LowerChar(d) == LowerChar(c) && !IsLowerAscii(d)
    ensures d == UpperChar(c)
  {
  }

  /** The labels the change notice shows for the five columns. */
  lemma FieldLabelsOfFields()
    ensures FieldLabel(Name(Theme)) == "Theme"
    ensures FieldLabel(Name(Description)) == "Description"
    ensures FieldLabel(Name(SubmissionsClose)) == "Submissions Close"
    ensures FieldLabel(Name(VotingBegins)) == "Voting Begins"
    ensures FieldLabel(Name(VotingEnds)) == "Voting Ends"
  {
    ThemeLabel();
    DescriptionLabel();
    SubmissionsCloseLabel();
    VotingBeginsLabel();
    VotingEndsLabel();
  }

  lemma ThemeLabel() ensures FieldLabel("theme") == "Theme" {
    LabelOfOneWord("theme", "Theme");
  }

  lemma DescriptionLabel() ensures FieldLabel("description") == "Description" {
    LabelOfOneWord("description", "Description");
  }

  lemma SubmissionsCloseLabel() ensures FieldLabel("submissions_close") == "Submissions Close" {
    LabelOfTwoWords("submissions", "close", "Submissions", "Close");
    assert "submissions" + "_" + "close" == "submissions_close";
    assert "Submissions" + " " + "Close" == "Submissions Close";
  }

  lemma VotingBeginsLabel() ensures FieldLabel("voting_begins") == "Voting Begins" {
    LabelOfTwoWords("voting", "begins", "Voting", "Begins");
    assert "voting" + "_" + "begins" == "voting_begins";
    assert "Voting" + " " + "Begins" == "Voting Begins";
  }

  lemma VotingEndsLabel() ensures FieldLabel("voting_ends") == "Voting Ends" {
    LabelOfTwoWords("voting", "ends", "Voting", "Ends");
    assert "voting" + "_" + "ends" == "voting_ends";
    assert "Voting" + " " + "Ends" == "Voting Ends";
  }

  /** A run of lower-case letters. */
  predicate LowerWord(w: string) {
    |w| > 0 && forall k :: 0 <= k < |w| ==> IsLowerAscii(w[k])
  }

  /** `w` with its first letter capitalised. */
  predicate Capitalized(w: string, cap: string) {
    |cap| == |w| > 0 && cap[0] == UpperChar(w[0]) && cap[1..] == w[1..]
  }

  lemma LabelOfOneWord(w: string, cap: string)
    requires LowerWord(w) && Capitalized(w, cap)
    ensures FieldLabel(w) == cap
  {
    ReplaceAllWithoutLead(w, "_", " ");
    var r := FieldLabel(w);
    forall k | 0 <= k < |w| ensures r[k] == cap[k] {
      if k > 0 { assert cap[k] == cap[1..][k - 1]; }
    }
  }

  lemma LabelOfTwoWords(a: string, b: string, capA: string, capB: string)
    requires LowerWord(a) && LowerWord(b) && Capitalized(a, capA) && Capitalized(b, capB)
    ensures FieldLabel(a + "_" + b) == capA + " " + capB
  {
    var key := a + "_" + b;
    ReplaceCharPointwise(key, '_', ' ');
    var spaced := ReplaceAll(key, "_", " ");
    assert spaced == a + " " + b by {
      forall k | 0 <= k < |key| ensures spaced[k] == (a + " " + b)[k] {
        if k < |a| { assert key[k] == a[k]; }
        else if k > |a| { assert key[k] == b[k - |a| - 1]; }
      }
    }
    var r := FieldLabel(key);
    var want := capA + " " + capB;
    forall k | 0 <= k < |key| ensures r[k] == want[k] {
      if 0 < k < |a| { assert want[k] == capA[1..][k - 1]; }
      else if k > |a| + 1 { assert want[k] == capB[1..][k - |a| - 2]; }
    }
  }
}
