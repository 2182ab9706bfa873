/**
 * The dashboard's `.env` route: GET reads the file into a key/value map,
 * POST sets one `key=value` line, replacing the first line for that key or
 * appending one. The file itself is a parameter: its text when it could be
 * read, None when reading failed.
 */
module EnvFile {

  import opened Wrappers
  import opened Text
  import opened Seqs

  /** What GET takes from one line: nothing, or a trimmed key and value. */
  function EntryOf(line: string): (r: Option<(string, string)>)
    ensures r.Some? ==> line != [] && line[0] != '#' && '=' in line
  {
    if line == [] || line[0] == '#' then None
    else
      var parts := Split(line, '=');
      if parts[0] != [] && |parts| >= 2 && parts[1] != [] then
        assert '=' in line by { SplitHasMoreOnlyWithSeparator(line, '='); }
        Some((Trim(parts[0]), Trim(parts[1])))
      else None
  }

  /** A text without the separator splits into one piece, so more pieces mean a separator. */
  lemma SplitHasMoreOnlyWithSeparator(s: string, sep: char)
    requires |Split(s, sep)| >= 2
    ensures sep in s
  {
    if sep !in s {
      SplitWithoutSeparator(s, sep);
    }
  }

  /** The key GET reads from a line, if any. */
  function KeyOf(line: string): Option<string> {
    match EntryOf(line)
    case None => None
    case Some(e) => Some(e.0)
  }

  /** The map GET builds from the lines: each entry in turn, a later key overwriting an earlier one. */
  function Parsed(lines: seq<string>): map<string, string>
  {
    if lines == [] then map[]
    else
      var m := Parsed(lines[..|lines| - 1]);
      match EntryOf(lines[|lines| - 1])
      case None => m
      case Some(e) => m[e.0 := e.1]
  }

  /** Whether no line at or after position i carries key k. */
  predicate NoLaterKey(lines: seq<string>, i: nat, k: string) {
    forall j :: i < j < |lines| ==> KeyOf(lines[j]) != Some(k)
  }

  /** A key is in the map exactly when some line carries it. */
  lemma {:induction false} ParsedKeys(lines: seq<string>, k: string)
    ensures k in Parsed(lines) <==> exists i :: 0 <= i < |lines| && KeyOf(lines[i]) == Some(k)
    decreases |lines|
  {
    if lines != [] {
      var init := lines[..|lines| - 1];
      ParsedKeys(init, k);
      assert k in Parsed(lines) <==> k in Parsed(init) || KeyOf(lines[|lines| - 1]) == Some(k);
      if exists i :: 0 <= i < |init| && KeyOf(init[i]) == Some(k) {
        var i :| 0 <= i < |init| && KeyOf(init[i]) == Some(k);
        assert lines[i] == init[i];
      }
      if exists i :: 0 <= i < |lines| && KeyOf(lines[i]) == Some(k) {
        var i :| 0 <= i < |lines| && KeyOf(lines[i]) == Some(k);
        if i < |init| { assert lines[i] == init[i]; }
      }
    }
  }

  /** The value of a key is the one on the last line that carries it. */
  lemma {:induction false} LastLineWins(lines: seq<string>, i: nat, k: string, v: string)
    requires i < |lines| && EntryOf(lines[i]) == Some((k, v))
    requires NoLaterKey(lines, i, k)
    ensures k in Parsed(lines) && Parsed(lines)[k] == v
    decreases |lines|
  {
    var init := lines[..|lines| - 1];
    if i < |lines| - 1 {
      assert init[i] == lines[i];
      assert KeyOf(lines[|lines| - 1]) != Some(k);
      forall j | i < j < |init| ensures KeyOf(init[j]) != Some(k) {
        assert init[j] == lines[j];
      }
      LastLineWins(init, i, k, v);
    }
  }

  /** Empty lines and comments add nothing. */
  lemma IgnoredLine(lines: seq<string>, line: string)
    requires line == [] || line[0] == '#'
    ensures Parsed(lines + [line]) == Parsed(lines)
  {
    assert (lines + [line])[..|lines|] == lines;
  }

  /**
   * A line `k=v`, with no `=` in either piece, gives an entry exactly when it
   * does not start a comment and both pieces are non-empty before trimming;
   * the entry is the two pieces trimmed.
   */
  lemma EntryOfPair(k: string, v: string)
    requires '=' !in k && '=' !in v
    ensures EntryOf(k + "=" + v)
         == if k != [] && k[0] != '#' && v != [] then Some((Trim(k), Trim(v))) else None
  {
    var line := k + "=" + v;
    assert line == k + ['='] + v;
    SplitAfterPiece(k, '=', v);
    SplitWithoutSeparator(v, '=');
    assert line[0] == if k == [] then '=' else k[0];
  }

  /** A line `k=v` with a plain key and value gives exactly that entry. */
  lemma PlainLine(k: string, v: string)
    requires k != [] && k[0] != '#' && '=' !in k && Trim(k) == k
    requires v != [] && '=' !in v && Trim(v) == v
    ensures EntryOf(k + "=" + v) == Some((k, v))
  {
    SplitAfterPiece(k, '=', v);
    SplitWithoutSeparator(v, '=');
    assert k + "=" + v == k + ['='] + v;
  }

  /** Text after a second `=` is dropped: `k=v=w` reads as `k=v`. */
  lemma SecondSeparatorDropsRest(k: string, v: string, w: string)
    requires k != [] && k[0] != '#' && '=' !in k && Trim(k) == k
    requires v != [] && '=' !in v && Trim(v) == v
    ensures EntryOf(k + "=" + v + "=" + w) == Some((k, v))
  {
    SplitAfterPiece(k, '=', v + "=" + w);
    SplitAfterPiece(v, '=', w);
    assert k + "=" + v + "=" + w == k + ['='] + (v + ['='] + w);
  }

  /** GET: the result of reading the file. */
  datatype EnvReply = EnvVars(vars: map<string, string>) | ReadFailed

  /** GET's `forEach` over the lines of the file, filling `envVars`. */
  method ReadEnv(file: Option<string>) returns (reply: EnvReply)
    ensures file.None? ==> reply == ReadFailed
    ensures file.Some? ==> reply == EnvVars(Parsed(Split(file.value, '\n')))
  {
    if file.None? {
      return ReadFailed;
    }
    var lines := Split(file.value, '\n');
    var envVars := map[];
    var i := 0;
    while i < |lines|
      invariant i <= |lines|
      invariant envVars == Parsed(lines[..i])
    {
      assert lines[..i + 1][..i] == lines[..i];
      var entry := EntryOf(lines[i]);
      if entry.Some? {
        envVars := envVars[entry.value.0 := entry.value.1];
      }
      i := i + 1;
    }
    assert lines[..|lines|] == lines;
    reply := EnvVars(envVars);
  }

  /** POST's test for the line of a key. */
  function LineOfKey(key: string): string -> bool {
    line => StartsWith(line, key + "=")
  }

  /** The lines after POST: the first line of the key replaced by `key=value`, or that line appended. */
  function Upserted(lines: seq<string>, key: string, value: string): seq<string> {
    match FirstIndex(lines, LineOfKey(key))
    case Some(i) => lines[i := key + "=" + value]
    case None => lines + [key + "=" + value]
  }

  /**
   * POST touches one line: the first line of the key when there is one, or a
   * new last line; every other line stays where it was.
   */
  lemma UpsertTouchesOneLine(lines: seq<string>, key: string, value: string)
    ensures var u := Upserted(lines, key, value);
      && (|u| == |lines| || |u| == |lines| + 1)
      && (|u| == |lines| <==> exists i :: 0 <= i < |lines| && StartsWith(lines[i], key + "="))
      && (exists i :: 0 <= i < |u| && u[i] == key + "=" + value
            && (forall j :: 0 <= j < i ==> u[j] == lines[j] && !StartsWith(lines[j], key + "="))
            && (forall j :: i < j < |lines| ==> u[j] == lines[j]))
  {
    var u := Upserted(lines, key, value);
    match FirstIndex(lines, LineOfKey(key))
    case Some(i) =>
      assert LineOfKey(key)(lines[i]);
      assert u[i] == key + "=" + value;
      forall j | 0 <= j < i ensures !StartsWith(lines[j], key + "=") {
        assert !LineOfKey(key)(lines[j]);
      }
    case None =>
      forall j | 0 <= j < |lines| ensures !StartsWith(lines[j], key + "=") {
        assert !LineOfKey(key)(lines[j]);
      }
      assert u[|lines|] == key + "=" + value;
  }

  /**
   * Setting a plain key to a plain value and reading the file back gives that
   * value, when the only line that may carry the key is the first line that
   * starts with `key=`, the one POST overwrites.
   */
  lemma SetThenGet(lines: seq<string>, key: string, value: string)
    requires key != [] && key[0] != '#' && '=' !in key && Trim(key) == key
    requires value != [] && '=' !in value && Trim(value) == value
    requires forall j :: 0 <= j < |lines| && KeyOf(lines[j]) == Some(key) ==> FirstIndex(lines, LineOfKey(key)) == Some(j)
    ensures key in Parsed(Upserted(lines, key, value)) && Parsed(Upserted(lines, key, value))[key] == value
  {
    var u := Upserted(lines, key, value);
    PlainLine(key, value);
    match FirstIndex(lines, LineOfKey(key))
    case Some(i) =>
      assert u[i] == key + "=" + value;
      forall j | i < j < |u| ensures KeyOf(u[j]) != Some(key) {
        assert u[j] == lines[j];
      }
      LastLineWins(u, i, key, value);
    case None =>
      assert u[|lines|] == key + "=" + value;
      LastLineWins(u, |lines|, key, value);
  }

  /** POST: the outcome of updating the file. */
  datatype UpdateReply = Updated | UpdateFailed

  /**
   * POST: read the file, find the first line of the key (`findIndex`),
   * overwrite it or push a new line, and write the lines back. The text
   * written is returned; a failed read writes nothing and a failed write
   * answers with the error. `socketAttached` says whether a socket.io server
   * is attached: the emit that follows the write then calls a function the
   * route does not define, so the request answers with the error although
   * the file was written.
   */
  method UpdateEnv(file: Option<string>, key: string, value: string, writeSucceeds: bool, socketAttached: bool)
    returns (reply: UpdateReply, written: Option<string>)
    ensures file.None? ==> reply == UpdateFailed && written.None?
    ensures file.Some? ==>
      && written == Some(Join(Upserted(Split(file.value, '\n'), key, value), '\n'))
      && (reply == Updated <==> writeSucceeds && !socketAttached)
  {
    if file.None? {
      return UpdateFailed, None;
    }
    var envLines := Split(file.value, '\n');
    var keyIndex := -1;
    var i := 0;
    while i < |envLines| && keyIndex == -1
      invariant i <= |envLines|
      invariant keyIndex == -1 ==> forall k :: 0 <= k < i ==> !LineOfKey(key)(envLines[k])
      invariant keyIndex != -1 ==> FirstIndex(envLines, LineOfKey(key)) == Some(keyIndex)
    {
      if StartsWith(envLines[i], key + "=") {
        keyIndex := i;
        FirstIs(envLines, LineOfKey(key), i);
      }
      i := i + 1;
    }
    if keyIndex != -1 {
      envLines := envLines[keyIndex := key + "=" + value];
    } else {
      NoneIsFirst(envLines, LineOfKey(key));
      envLines := envLines + [key + "=" + value];
    }
    written := Some(Join(envLines, '\n'));
    reply := if writeSucceeds && !socketAttached then Updated else UpdateFailed;
  }
}
