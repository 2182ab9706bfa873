/**
 * The text helpers of the Steam forum monitor: entity decoding, tag
 * stripping and whitespace clean-up of scraped HTML fragments, the parser for
 * Steam's relative "N minutes ago" times and the month-name lookup.
 */
module SteamText {

  import opened Wrappers
  import opened Text
  import opened Seqs

  // ---------------------------------------------------------------------------
  // entities and tags

  /**
   * `decodeHtml`: the four entities are replaced one after another, each in a
   * single left-to-right pass, `&amp;` last.
   */
  function DecodeHtml(s: string): string {
    ReplaceAll(ReplaceAll(ReplaceAll(ReplaceAll(s, "&lt;", "<"), "&gt;", ">"), "&quot;", "\""), "&amp;", "&")
  }

  /** Text without an ampersand holds no entity and is left alone. */
  lemma DecodeWithoutAmpersand(s: string)
    requires '&' !in s
    ensures DecodeHtml(s) == s
  {
    ReplaceAllWithoutLead(s, "&lt;", "<");
    ReplaceAllWithoutLead(s, "&gt;", ">");
    ReplaceAllWithoutLead(s, "&quot;", "\"");
    ReplaceAllWithoutLead(s, "&amp;", "&");
  }

  /** A string whose only occurrence of the pattern's first character is at its head, and which does not start with the pattern, is left alone. */
  lemma ReplaceMissAtHead(s: string, pat: string, rep: string)
    requires |pat| > 0 && s != [] && !StartsWith(s, pat) && pat[0] !in s[1..]
    ensures ReplaceAll(s, pat, rep) == s
  {
    ReplaceAllWithoutLead(s[1..], pat, rep);
    assert [s[0]] + s[1..] == s;
  }

  /**
   * Decoding is a single pass per entity: `&amp;` before text without an
   * ampersand becomes `&`, and the text after it is not decoded again, so
   * `&amp;lt;` becomes `&lt;` and not `<`.
   */
  lemma {:induction false} DecodeIsSinglePass(t: string)
    requires '&' !in t
    ensures DecodeHtml("&amp;" + t) == "&" + t
  {
    var s := "&amp;" + t;
    assert s[1] == 'a';
    assert s[1..] == "amp;" + t;
    assert '&' !in s[1..];
    ReplaceMissAtHead(s, "&lt;", "<");
    ReplaceMissAtHead(s, "&gt;", ">");
    ReplaceMissAtHead(s, "&quot;", "\"");
    assert StartsWith(s, "&amp;") && s[5..] == t;
    ReplaceAllWithoutLead(t, "&amp;", "&");
  }

  lemma EscapedEntityStaysEscaped()
    ensures DecodeHtml("&amp;lt;") == "&lt;"
  {
    DecodeIsSinglePass("lt;");
    assert "&amp;" + "lt;" == "&amp;lt;";
  }

  /** No '<' is followed, anywhere later, by a '>': the text holds no tag. */
  predicate NoTagOpen(s: string) {
    forall i, j :: 0 <= i < j < |s| && s[i] == '<' ==> s[j] != '>'
  }

  /** The position of the first `c` at or after `i`. */
  function FirstFrom(s: string, i: nat, c: char): (r: nat)
    requires i <= |s| && c in s[i..]
    ensures i <= r < |s| && s[r] == c
    ensures forall k :: i <= k < r ==> s[k] != c
    decreases |s| - i
  {
    if s[i] == c then i else FirstFrom(s, i + 1, c)
  }

  /**
   * `.replace(/<[^>]*>/g, '')`: a '<' with a '>' somewhere after it starts a
   * tag that runs to the first such '>' and is dropped; a '<' with no '>'
   * after it stays.
   */
  function StripTags(s: string): (r: string)
    ensures forall c :: c in r ==> c in s
    ensures NoTagOpen(r)
    ensures '<' !in s ==> r == s
    decreases |s|
  {
    if s == [] then []
    else if s[0] == '<' && '>' in s[1..] then
      var close := FirstFrom(s, 1, '>');
      assert forall c :: c in s[close + 1..] ==> c in s;
      StripTags(s[close + 1..])
    else
      var rest := StripTags(s[1..]);
      assert forall c :: c in s[1..] ==> c in s;
      var r := [s[0]] + rest;
      assert forall j :: 0 < j < |r| ==> r[j] == rest[j - 1];
      assert s[0] == '<' ==> '>' !in rest;
      assert '<' !in s ==> [s[0]] + s[1..] == s;
      r
  }

  /** Text before the first '<' is kept as it is. */
  lemma {:induction false} StripTagsKeepsPlainPrefix(a: string, b: string)
    requires '<' !in a
    ensures StripTags(a + b) == a + StripTags(b)
    decreases |a|
  {
    if a != [] {
      var s := a + b;
      assert s[0] != '<' by { assert s[0] == a[0]; }
      assert s[1..] == a[1..] + b;
      assert '<' !in a[1..] by { assert forall k :: 0 <= k < |a| - 1 ==> a[1..][k] == a[k + 1]; }
      StripTagsKeepsPlainPrefix(a[1..], b);
      StripTagsOfPlainHead(s);
      assert StripTags(s) == [a[0]] + (a[1..] + StripTags(b));
      assert [a[0]] + (a[1..] + StripTags(b)) == ([a[0]] + a[1..]) + StripTags(b);
      assert [a[0]] + a[1..] == a;
    } else {
      assert a + b == b && a + StripTags(b) == StripTags(b);
    }
  }

  lemma StripTagsOfPlainHead(s: string)
    requires s != [] && s[0] != '<'
    ensures StripTags(s) == [s[0]] + StripTags(s[1..])
  {
  }

  /** A tag, from '<' to the first '>' after it, is dropped whole. */
  lemma StripTagsDropsTag(t: string, b: string)
    requires '>' !in t
    ensures StripTags("<" + t + ">" + b) == StripTags(b)
  {
    var s := "<" + t + ">" + b;
    assert s[0] == '<';
    assert s[1..][|t|] == '>';
    var close := FirstFrom(s, 1, '>');
    forall k | 1 <= k <= |t| ensures s[k] != '>' {
      assert s[k] == t[k - 1];
    }
    assert close == |t| + 1;
    assert s[close + 1..] == b;
  }

  /** Stripping keeps the text before a tag and drops the tag itself. */
  lemma StripTagsContent(a: string, t: string, b: string)
    requires '<' !in a && '>' !in t
    ensures StripTags(a + "<" + t + ">" + b) == a + StripTags(b)
  {
    var tag := "<" + t + ">" + b;
    StripTagsKeepsPlainPrefix(a, tag);
    StripTagsDropsTag(t, b);
    ConcatAssoc(a, "<", t, ">", b);
  }

  lemma ConcatAssoc(a: string, x: string, t: string, y: string, b: string)
    ensures a + x + t + y + b == a + (x + t + y + b)
  {
  }

  /** A '<' with no '>' after it starts no tag: text without '>' is kept whole. */
  lemma {:induction false} StripTagsWithoutClose(s: string)
    requires '>' !in s
    ensures StripTags(s) == s
    decreases |s|
  {
    if s != [] {
      assert '>' !in s[1..] by { assert forall c :: c in s[1..] ==> c in s; }
      StripTagsWithoutClose(s[1..]);
      assert [s[0]] + s[1..] == s;
    }
  }

  /** `.replace(/c/g, '')` removes every `c`, adds nothing and keeps the text free of tags. */
  lemma {:induction false} RemoveCharFacts(s: string, c: char)
    ensures c !in ReplaceAll(s, [c], [])
    ensures forall d :: d in ReplaceAll(s, [c], []) ==> d in s
    ensures NoTagOpen(s) ==> NoTagOpen(ReplaceAll(s, [c], []))
    decreases |s|
  {
    if s != [] {
      RemoveCharFacts(s[1..], c);
      var rest := ReplaceAll(s[1..], [c], []);
      assert StartsWith(s, [c]) <==> s[0] == c;
      assert forall d :: d in s[1..] ==> d in s;
      if s[0] != c {
        var r := [s[0]] + rest;
        assert forall j :: 0 < j < |r| ==> r[j] == rest[j - 1];
        if NoTagOpen(s) && s[0] == '<' {
          assert '>' !in s[1..];
        }
      }
    }
  }

  /** A slice of tag-free text is tag-free. */
  lemma SliceNoTagOpen(s: string, i: nat, j: nat)
    requires i <= j <= |s| && NoTagOpen(s)
    ensures NoTagOpen(s[i..j])
  {
    var t := s[i..j];
    forall a, b | 0 <= a < b < |t| && t[a] == '<' ensures t[b] != '>' {
      assert t[a] == s[i + a] && t[b] == s[i + b];
    }
  }

  /**
   * `cleanHtml`: decode the entities, strip the tags, drop tabs, turn line
   * breaks into spaces and trim. The result has no tab or line break, no
   * whitespace at either end and no tag.
   */
  function CleanHtml(s: string): (r: string)
    ensures '\t' !in r && '\n' !in r
    ensures r != [] ==> !IsJsWhitespace(r[0]) && !IsJsWhitespace(r[|r| - 1])
    ensures NoTagOpen(r)
  {
    var spaced := ReplaceAll(ReplaceAll(StripTags(DecodeHtml(s)), "\t", ""), "\n", " ");
    SpacingFacts(StripTags(DecodeHtml(s)));
    var r := Trim(spaced);
    TrimFacts(spaced);
    r
  }

  /**
   * Without entities, tabs or line breaks, cleaning is stripping the tags and
   * trimming: the text outside the tags survives.
   */
  lemma CleanHtmlOfPlainMarkup(s: string)
    requires '&' !in s && '\t' !in s && '\n' !in s
    ensures CleanHtml(s) == Trim(StripTags(s))
  {
    DecodeWithoutAmpersand(s);
    var stripped := StripTags(s);
    assert '\t' !in stripped && '\n' !in stripped;
    ReplaceAllWithoutLead(stripped, "\t", "");
    ReplaceAllWithoutLead(stripped, "\n", " ");
  }

  /** Text with no entity, tag, tab or line break and no whitespace at either end is clean already. */
  lemma CleanHtmlOfCleanText(s: string)
    requires '&' !in s && '<' !in s && '\t' !in s && '\n' !in s
    requires s != [] ==> !IsJsWhitespace(s[0]) && !IsJsWhitespace(s[|s| - 1])
    ensures CleanHtml(s) == s
  {
    CleanHtmlOfPlainMarkup(s);
    TrimOfTrimmed(s);
  }

  /** The cleaned text is already trimmed, so trimming it again changes nothing. */
  lemma CleanHtmlIsTrimmed(s: string)
    ensures Trim(CleanHtml(s)) == CleanHtml(s)
  {
    TrimOfTrimmed(CleanHtml(s));
  }

  /** After the tab and line-break passes there is no tab, no line break and still no tag. */
  lemma SpacingFacts(stripped: string)
    requires NoTagOpen(stripped)
    ensures var spaced := ReplaceAll(ReplaceAll(stripped, "\t", ""), "\n", " ");
      '\t' !in spaced && '\n' !in spaced && NoTagOpen(spaced)
  {
    var noTabs := ReplaceAll(stripped, "\t", "");
    var spaced := ReplaceAll(noTabs, "\n", " ");
    RemoveCharFacts(stripped, '\t');
    ReplaceCharPointwise(noTabs, '\n', ' ');
    forall k | 0 <= k < |spaced| ensures spaced[k] != '\t' && spaced[k] != '\n' {
      assert noTabs[k] in noTabs;
    }
    forall i, j | 0 <= i < j < |spaced| && spaced[i] == '<' ensures spaced[j] != '>' {
      assert noTabs[i] == '<';
    }
  }

  /** Trimming keeps the text free of tabs, line breaks and tags, and leaves no whitespace at either end. */
  lemma TrimFacts(s: string)
    requires '\t' !in s && '\n' !in s && NoTagOpen(s)
    ensures var r := Trim(s);
      && '\t' !in r && '\n' !in r && NoTagOpen(r)
      && (r != [] ==> !IsJsWhitespace(r[0]) && !IsJsWhitespace(r[|r| - 1]))
  {
    var r := Trim(s);
    TrimIsSlice(s);
    SliceNoTagOpen(s, TrimmedFrom(s), TrimmedFrom(s) + |r|);
    assert forall c :: c in r ==> c in s;
  }

  // ---------------------------------------------------------------------------
  // relative times

  /** `t` occurs at position p of s up to ASCII case, as a `/i` regex compares. */
  predicate StartsWithCI(s: string, p: nat, t: string)
    decreases |t|
  {
    t == [] || (p < |s| && LowerChar(s[p]) == t[0] && StartsWithCI(s, p + 1, t[1..]))
  }

  /** The character-by-character reading of the comparison above. */
  lemma {:induction false} StartsWithCIPointwise(s: string, p: nat, t: string)
    requires p <= |s|
    ensures StartsWithCI(s, p, t) <==> p + |t| <= |s| && forall k :: 0 <= k < |t| ==> LowerChar(s[p + k]) == t[k]
    decreases |t|
  {
    if t != [] && p < |s| {
      StartsWithCIPointwise(s, p + 1, t[1..]);
      if StartsWithCI(s, p, t) {
        assert p < |s| && LowerChar(s[p]) == t[0] && StartsWithCI(s, p + 1, t[1..]);
        forall k | 0 <= k < |t| ensures LowerChar(s[p + k]) == t[k] {
          if k > 0 { assert LowerChar(s[p + 1 + (k - 1)]) == t[1..][k - 1]; }
        }
      }
      if p + |t| <= |s| && forall k :: 0 <= k < |t| ==> LowerChar(s[p + k]) == t[k] {
        assert LowerChar(s[p + 0]) == t[0];
        forall k | 0 <= k < |t| - 1 ensures LowerChar(s[p + 1 + k]) == t[1..][k] {
          assert LowerChar(s[p + (k + 1)]) == t[k + 1];
        }
        assert StartsWithCI(s, p + 1, t[1..]);
      }
    }
  }

  /** The length of the run of digits at p (`\d+` is greedy). */
  function DigitRun(s: string, p: nat): (n: nat)
    requires p <= |s|
    ensures p + n <= |s|
    ensures forall k :: p <= k < p + n ==> IsDigit(s[k])
    ensures p + n < |s| ==> !IsDigit(s[p + n])
    decreases |s| - p
  {
    if p < |s| && IsDigit(s[p]) then 1 + DigitRun(s, p + 1) else 0
  }

  /** The position after the run of whitespace at p (`\s*` is greedy). */
  function SkipSpace(s: string, p: nat): (q: nat)
    requires p <= |s|
    ensures p <= q <= |s|
    ensures forall k :: p <= k < q ==> IsJsWhitespace(s[k])
    ensures q < |s| ==> !IsJsWhitespace(s[q])
    decreases |s| - p
  {
    if p < |s| && IsJsWhitespace(s[p]) then SkipSpace(s, p + 1) else p
  }

  /** `\s*ago` at q. */
  predicate AgoAt(s: string, q: nat)
    requires q <= |s|
  {
    StartsWithCI(s, SkipSpace(s, q), "ago")
  }

  /** `(w|ws)\s*ago` at u, for the unit word w. */
  predicate UnitAgoAt(s: string, u: nat, w: string)
    requires u <= |s|
  {
    && u + |w| <= |s|
    && StartsWithCI(s, u, w)
    && (AgoAt(s, u + |w|) || (u + |w| < |s| && LowerChar(s[u + |w|]) == 's' && AgoAt(s, u + |w| + 1)))
  }

  /**
   * The pattern `(\d+)\s*(minute|minutes|hour|hours)\s*ago`, case-insensitive,
   * tried at position p: the amount in minutes when it matches there.
   */
  function RelativeAt(s: string, p: nat): Option<nat> {
    if p < |s| && IsDigit(s[p]) then
      var e := p + DigitRun(s, p);
      var u := SkipSpace(s, e);
      var n := DigitsValue(s[p..e]);
      if UnitAgoAt(s, u, "minute") then Some(n)
      else if UnitAgoAt(s, u, "hour") then Some(n * 60)
      else None
    else None
  }

  /** The value at the first position from p below end where f has one. */
  function FirstSome<T>(f: nat -> Option<T>, p: nat, end: nat): (r: Option<T>)
    requires p <= end
    ensures r.Some? ==> exists q :: p <= q < end && f(q) == r && forall k :: p <= k < q ==> f(k).None?
    ensures r.None? ==> forall q :: p <= q < end ==> f(q).None?
    decreases end - p
  {
    if p == end then None
    else if f(p).Some? then f(p)
    else FirstSome(f, p + 1, end)
  }

  /** `String.prototype.match` with the pattern above: the leftmost position where it matches. */
  function FindRelative(s: string): Option<nat> {
    FirstSome(RelativeIn(s), 0, |s|)
  }

  function RelativeIn(s: string): nat -> Option<nat> { (q: nat) => RelativeAt(s, q) }

  const JUST_NOW := "just now"

  /**
   * `time.match(/(?:just now|\d+\s*(?:minutes?|hours?)\s*ago)/i)`: the
   * forum monitor's test that a post is recent.
   */
  predicate IsRecent(s: string) {
    Contains(ToLower(s), JUST_NOW) || FindRelative(s).Some?
  }

  /**
   * `parseTimeAgo`: the whole text "just now" in any case is 0 minutes, the
   * first "N minute(s) ago" is N and the first "N hour(s) ago" is 60·N;
   * anything else has no value. A text with a value always passes the
   * recency test.
   */
  function ParseTimeAgo(s: string): (r: Option<nat>)
    ensures ToLower(s) == JUST_NOW ==> r == Some(0)
    ensures r.Some? ==> IsRecent(s)
  {
    if ToLower(s) == JUST_NOW then
      assert StartsWith(ToLower(s), JUST_NOW);
      Some(0)
    else FindRelative(s)
  }

  /** A text with no digit other than "just now" has no value. */
  lemma NoDigitsNoTime(s: string)
    requires ToLower(s) != JUST_NOW
    requires forall k :: 0 <= k < |s| ==> !IsDigit(s[k])
    ensures ParseTimeAgo(s) == None
  {
  }

  /** Steam's relative time: the amount, a space, the unit word, an optional plural "s" and " ago". */
  function RelativeText(ds: string, hours: bool, plural: bool): string {
    ds + " " + (if hours then "hour" else "minute") + (if plural then "s ago" else " ago")
  }

  /** " ago" at the end of the text matches `\s*ago`. */
  lemma AgoTail(s: string, q: nat)
    requires q <= |s| && s[q..] == " ago"
    ensures AgoAt(s, q)
  {
    assert s[q] == ' ' && s[q + 1] == 'a';
    assert SkipSpace(s, q) == q + 1 by { assert SkipSpace(s, q + 1) == q + 1; }
    assert s[q + 1..q + 4] == "ago";
    assert forall k :: 0 <= k < 3 ==> s[q + 1 + k] == "ago"[k];
    StartsWithCIPointwise(s, q + 1, "ago");
  }

  /** A unit word, an optional plural "s", a space and "ago" at u: the unit pattern matches there. */
  lemma UnitTextMatches(s: string, u: nat, w: string, plural: bool)
    requires forall k :: 0 <= k < |w| ==> !IsUpperAscii(w[k])
    requires u + |w| <= |s| && s[u..u + |w|] == w
    requires plural ==> s[u + |w|..] == "s ago"
    requires !plural ==> s[u + |w|..] == " ago"
    ensures UnitAgoAt(s, u, w)
  {
    assert forall k :: 0 <= k < |w| ==> s[u + k] == w[k];
    StartsWithCIPointwise(s, u, w);
    var e := u + |w|;
    if plural {
      assert s[e] == 's' && s[e + 1..] == " ago";
      AgoTail(s, e + 1);
    } else {
      AgoTail(s, e);
    }
  }

  /** The pattern read at position 0 once its pieces are known: the amount, one space, the unit. */
  lemma AmountMatches(s: string, n: nat, w: string)
    requires w == "minute" || w == "hour"
    requires 0 < n && n + 1 <= |s| && IsDigit(s[0])
    requires DigitRun(s, 0) == n && SkipSpace(s, n) == n + 1
    requires UnitAgoAt(s, n + 1, w)
    requires w == "hour" ==> !UnitAgoAt(s, n + 1, "minute")
    ensures RelativeAt(s, 0) == Some(if w == "hour" then DigitsValue(s[..n]) * 60 else DigitsValue(s[..n]))
  {
    assert s[0..n] == s[..n];
  }

  /** One space and then a non-space: `\s*` stops after the space. */
  lemma SkipOneSpace(s: string, n: nat)
    requires n + 1 < |s| && s[n] == ' ' && !IsJsWhitespace(s[n + 1])
    ensures SkipSpace(s, n) == n + 1
  {
    assert SkipSpace(s, n + 1) == n + 1;
  }

  /** A text whose unit starts with 'h' does not match the minute unit there. */
  lemma HourIsNotMinute(s: string, u: nat)
    requires u < |s| && s[u] == 'h'
    ensures !UnitAgoAt(s, u, "minute")
  {
    assert LowerChar(s[u]) == 'h';
  }

  /**
   * Steam's own text reads back as its amount in minutes:
   * "N minute(s) ago" gives N and "N hour(s) ago" gives 60·N.
   */
  lemma RelativeTextParses(ds: string, hours: bool, plural: bool)
    requires ds != [] && forall k :: 0 <= k < |ds| ==> IsDigit(ds[k])
    ensures ParseTimeAgo(RelativeText(ds, hours, plural)) ==
      Some(if hours then DigitsValue(ds) * 60 else DigitsValue(ds))
  {
    var s := RelativeText(ds, hours, plural);
    RelativeTextAtHead(ds, hours, plural);
    ParseAtHead(s);
  }

  /** The pattern matches Steam's relative-time text at its first position. */
  lemma RelativeTextAtHead(ds: string, hours: bool, plural: bool)
    requires ds != [] && forall k :: 0 <= k < |ds| ==> IsDigit(ds[k])
    ensures var s := RelativeText(ds, hours, plural);
      s != [] && IsDigit(s[0]) && RelativeAt(s, 0) == Some(if hours then DigitsValue(ds) * 60 else DigitsValue(ds))
  {
    var w := if hours then "hour" else "minute";
    var tail := if plural then "s ago" else " ago";
    var s := ds + " " + w + tail;
    assert s == RelativeText(ds, hours, plural);
    Layout(ds, w, tail);
    PiecesMatch(s, |ds|, w, tail, plural);
  }

  /** The same, for a text given by where its pieces sit. */
  lemma PiecesMatch(s: string, n: nat, w: string, tail: string, plural: bool)
    requires w == "minute" || w == "hour"
    requires plural ==> tail == "s ago"
    requires !plural ==> tail == " ago"
    requires 0 < n && |s| == n + 1 + |w| + |tail|
    requires forall k :: 0 <= k < n ==> IsDigit(s[..n][k])
    requires s[n] == ' ' && s[n + 1..n + 1 + |w|] == w && s[n + 1 + |w|..] == tail
    ensures IsDigit(s[0]) && RelativeAt(s, 0) == Some(if w == "hour" then DigitsValue(s[..n]) * 60 else DigitsValue(s[..n]))
  {
    forall k | 0 <= k < n ensures IsDigit(s[k]) {
      assert s[k] == s[..n][k];
    }
    assert s[n + 1] == w[0];
    DigitRunOf(s, 0, n);
    SkipOneSpace(s, n);
    UnitTextMatches(s, n + 1, w, plural);
    if w == "hour" {
      HourIsNotMinute(s, n + 1);
    }
    AmountMatches(s, n, w);
  }

  /** Where the pieces of the relative-time text sit. */
  lemma Layout(ds: string, w: string, tail: string)
    ensures var s := ds + " " + w + tail;
      && s[..|ds|] == ds && s[|ds|] == ' '
      && s[|ds| + 1..|ds| + 1 + |w|] == w
      && s[|ds| + 1 + |w|..] == tail
  {
    var mid := ds + " " + w;
    var s := mid + tail;
    assert s[..|mid|] == mid;
    assert mid[|ds| + 1..] == w;
  }

  /** A text that is not "just now" and matches at its first position is read from there. */
  lemma ParseAtHead(s: string)
    requires s != [] && IsDigit(s[0]) && RelativeAt(s, 0).Some?
    ensures ParseTimeAgo(s) == RelativeAt(s, 0)
  {
    assert ToLower(s)[0] == LowerChar(s[0]) == s[0];
    assert RelativeIn(s)(0) == RelativeAt(s, 0);
  }

  lemma DigitRunOf(s: string, p: nat, e: nat)
    requires p <= e < |s| && !IsDigit(s[e])
    requires forall k :: p <= k < e ==> IsDigit(s[k])
    ensures DigitRun(s, p) == e - p
    decreases e - p
  {
    if p < e {
      DigitRunOf(s, p + 1, e);
    }
  }

  // ---------------------------------------------------------------------------
  // months

  const MONTHS: seq<string> := ["jan", "feb", "mar", "apr", "may", "jun", "jul", "aug", "sep", "oct", "nov", "dec"]

  /** `substring(0, 3)`: at most the first three characters. */
  function Prefix3(s: string): (r: string)
    ensures |r| <= 3 && StartsWith(s, r)
  {
    if |s| >= 3 then s[..3] else s
  }

  function IsMonthKey(key: string): string -> bool { (m: string) => m == key }

  /**
   * `getMonthNumber`: the month of a name judged by its first three letters
   * in lower case, from 0 for January to 11 for December; an unknown name
   * gives 0.
   */
  function GetMonthNumber(name: string): (r: nat)
    ensures r < 12
    ensures forall i :: 0 <= i < |MONTHS| && Prefix3(ToLower(name)) == MONTHS[i] ==> r == i
    ensures (forall i :: 0 <= i < |MONTHS| ==> Prefix3(ToLower(name)) != MONTHS[i]) ==> r == 0
  {
    var key := Prefix3(ToLower(name));
    match FirstIndex(MONTHS, IsMonthKey(key))
    case None => 0
    case Some(i) =>
      MonthsDistinct(i, key);
      i
  }

  /** The twelve keys differ from each other: a key is at one position only. */
  lemma MonthsDistinct(i: nat, key: string)
    requires i < |MONTHS| && MONTHS[i] == key
    ensures forall j :: 0 <= j < |MONTHS| && MONTHS[j] == key ==> j == i
  {
  }
}
