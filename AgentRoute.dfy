/**
  The `POST /api/agent` handler: request validation, the fold of
  first-occurrence replacements over the target file, and the fallback
  parser for SEARCH/REPLACE blocks.

  The language-model calls are not modelled: the reply of the first call
  arrives as a `Completion` (its text, what `JSON.parse` made of it, and
  what each fallback regular expression matched in it), and the text the
  second (summary) call yields arrives as a plain string.
*/
module AgentRoute {
  import opened Text

  /** `{ name, content }` of a request file. */
  datatype FileInput = FileInput(name: string, content: string)

  // ---------------------------------------------------------------------------
  // Mode
  // ---------------------------------------------------------------------------

  datatype Mode = PatchMode | RewriteMode

  /** `body.mode === 'patch' ? 'patch' : 'rewrite'`; `None` is an absent mode. */
  function ModeOf(requested: Option<string>): Mode {
    if requested == Some("patch") then PatchMode else RewriteMode
  }

  /** Patch mode is chosen exactly when it is requested; anything else,
      including no mode at all, means rewrite. */
  lemma ModeIsPatchOnlyWhenRequested(requested: Option<string>)
    ensures ModeOf(requested) == PatchMode <==> requested == Some("patch")
    ensures requested.None? ==> ModeOf(requested) == RewriteMode
  {
  }

  // ---------------------------------------------------------------------------
  // Changes and the apply loop
  // ---------------------------------------------------------------------------

  /** One proposed change: `{ search, replace, description? }`. */
  datatype Change = Change(search: string, replace: string, description: Option<string>)

  /** `s.substring(0, n)` */
  function Prefix(s: string, n: nat): string {
    if |s| <= n then s else s[..n]
  }

  /** `s.replace(/\n/g, '↵')` */
  function MarkNewlines(s: string): string {
    seq(|s|, i requires 0 <= i < |s| => if s[i] == '\n' then '↵' else s[i])
  }

  /** The preview kept for a change that did not apply. */
  function Preview(search: string): string {
    MarkNewlines(Prefix(search, 80))
  }

  /** A preview shows at most the first 80 characters of the search, with every
      line feed drawn as `↵`, and contains no line feed. */
  lemma PreviewShape(search: string)
    ensures |Preview(search)| == if |search| <= 80 then |search| else 80
    ensures forall i :: 0 <= i < |Preview(search)| ==>
              Preview(search)[i] == (if search[i] == '\n' then '↵' else search[i])
    ensures '\n' !in Preview(search)
  {
  }

  /** The loop state: `modifiedContent`, `appliedCount`, `failedDiffs` and
      `appliedDiffs`. */
  datatype Applied = Applied(content: string, appliedCount: nat, failed: seq<string>, applied: seq<Change>)

  /** One iteration: a change whose search occurs in the running content
      replaces its first occurrence; any other change is recorded as failed. */
  function Step(st: Applied, d: Change): Applied {
    if Contains(st.content, d.search) then
      Applied(ReplaceFirst(st.content, d.search, d.replace), st.appliedCount + 1, st.failed, st.applied + [d])
    else
      Applied(st.content, st.appliedCount, st.failed + [Preview(d.search)], st.applied)
  }

  /** The loop over `diffs`, starting from the file's content. */
  function ApplyChanges(content: string, diffs: seq<Change>): Applied
    decreases |diffs|
  {
    if diffs == [] then Applied(content, 0, [], [])
    else Step(ApplyChanges(content, diffs[..|diffs| - 1]), diffs[|diffs| - 1])
  }

  /** The diff-apply loop of the handler. */
  method ApplyDiffs(content: string, diffs: seq<Change>)
    returns (modifiedContent: string, appliedCount: nat, failedDiffs: seq<string>, appliedDiffs: seq<Change>)
    ensures Applied(modifiedContent, appliedCount, failedDiffs, appliedDiffs) == ApplyChanges(content, diffs)
  {
    modifiedContent := content;
    appliedCount := 0;
    failedDiffs := [];
    appliedDiffs := [];
    for i := 0 to |diffs|
      invariant Applied(modifiedContent, appliedCount, failedDiffs, appliedDiffs) == ApplyChanges(content, diffs[..i])
    {
      assert diffs[..i + 1][..i] == diffs[..i];
      var diff := diffs[i];
      if Contains(modifiedContent, diff.search) {
        modifiedContent := ReplaceFirst(modifiedContent, diff.search, diff.replace);
        appliedCount := appliedCount + 1;
        appliedDiffs := appliedDiffs + [diff];
      } else {
        var preview := MarkNewlines(Prefix(diff.search, 80));
        failedDiffs := failedDiffs + [preview];
      }
    }
    assert diffs[..|diffs|] == diffs;
  }

  /** Replacing the first occurrence of each search in turn, without looking. */
  function ReplaceEach(content: string, diffs: seq<Change>): string
    decreases |diffs|
  {
    if diffs == [] then content
    else ReplaceFirst(ReplaceEach(content, diffs[..|diffs| - 1]), diffs[|diffs| - 1].search, diffs[|diffs| - 1].replace)
  }

  /** Every change is either applied or failed, the applied changes keep their
      order, the failed previews are one per failed change, and the resulting
      content is each applied change replacing its first occurrence in turn.
      A failed change leaves the content as it was, so the result is also the
      plain fold of `replace` over all changes. */
  lemma {:induction false} ApplyChangesCounts(content: string, diffs: seq<Change>)
    ensures var r := ApplyChanges(content, diffs);
            r.appliedCount + |r.failed| == |diffs|
            && r.appliedCount == |r.applied|
            && IsSubsequence(r.applied, diffs)
            && r.content == ReplaceEach(content, r.applied)
            && r.content == ReplaceEach(content, diffs)
    decreases |diffs|
  {
    if diffs == [] {
    } else {
      var init := diffs[..|diffs| - 1];
      var d := diffs[|diffs| - 1];
      LastSplit(diffs);
      ApplyChangesCounts(content, init);
      ApplyChangesSnoc(content, init, d);
      ApplyChangesCountsStep(content, init, d, ApplyChanges(content, init));
    }
  }

  /** The counts and contents of `ApplyChangesCounts` carried over one more change. */
  lemma ApplyChangesCountsStep(content: string, init: seq<Change>, d: Change, st: Applied)
    requires st.appliedCount + |st.failed| == |init| && st.appliedCount == |st.applied|
    requires IsSubsequence(st.applied, init)
    requires st.content == ReplaceEach(content, st.applied) && st.content == ReplaceEach(content, init)
    ensures var r := Step(st, d);
            r.appliedCount + |r.failed| == |init + [d]|
            && r.appliedCount == |r.applied|
            && IsSubsequence(r.applied, init + [d])
            && r.content == ReplaceEach(content, r.applied)
            && r.content == ReplaceEach(content, init + [d])
  {
    ReplaceEachSnoc(content, init, d);
    if Contains(st.content, d.search) {
      SubsequenceRefl([d]);
      SubsequenceConcat(st.applied, init, [d], [d]);
      ReplaceEachSnoc(content, st.applied, d);
    } else {
      SubsequenceEmpty([d]);
      SubsequenceConcat(st.applied, init, [], [d]);
      assert st.applied + [] == st.applied;
      assert ReplaceFirst(st.content, d.search, d.replace) == st.content;
    }
  }

  lemma ReplaceEachSnoc(content: string, diffs: seq<Change>, d: Change)
    ensures ReplaceEach(content, diffs + [d]) == ReplaceFirst(ReplaceEach(content, diffs), d.search, d.replace)
  {
    assert (diffs + [d])[..|diffs + [d]| - 1] == diffs;
  }

  /** A change whose search no longer occurs in the running content (for
      instance because an earlier change consumed it) is counted as failed and
      leaves the content unchanged. */
  lemma FailedChangeLeavesContent(content: string, diffs: seq<Change>, d: Change)
    requires !Contains(ApplyChanges(content, diffs).content, d.search)
    ensures ApplyChanges(content, diffs + [d]).content == ApplyChanges(content, diffs).content
    ensures ApplyChanges(content, diffs + [d]).failed == ApplyChanges(content, diffs).failed + [Preview(d.search)]
    ensures ApplyChanges(content, diffs + [d]).applied == ApplyChanges(content, diffs).applied
  {
    assert (diffs + [d])[..|diffs + [d]| - 1] == diffs;
  }

  /** A change whose search occurs in the running content is applied there at
      its first occurrence. */
  lemma MatchingChangeApplies(content: string, diffs: seq<Change>, d: Change)
    requires Contains(ApplyChanges(content, diffs).content, d.search)
    ensures var cur := ApplyChanges(content, diffs).content;
            exists i :: OccursAt(cur, d.search, i)
                     && (forall j :: 0 <= j < i ==> !OccursAt(cur, d.search, j))
                     && ApplyChanges(content, diffs + [d]).content == cur[..i] + d.replace + cur[i + |d.search|..]
    ensures ApplyChanges(content, diffs + [d]).applied == ApplyChanges(content, diffs).applied + [d]
  {
    var cur := ApplyChanges(content, diffs).content;
    ApplyChangesSnoc(content, diffs, d);
    ReplaceFirstSplits(cur, d.search, d.replace);
  }

  /** The loop over `diffs + [d]` is one more step after the loop over `diffs`. */
  lemma ApplyChangesSnoc(content: string, diffs: seq<Change>, d: Change)
    ensures ApplyChanges(content, diffs + [d]) == Step(ApplyChanges(content, diffs), d)
  {
    assert (diffs + [d])[..|diffs + [d]| - 1] == diffs;
  }

  // ---------------------------------------------------------------------------
  // Validation
  // ---------------------------------------------------------------------------

  /** `diffs.filter(d => content.includes(d.search)).length` */
  function MatchableCount(content: string, diffs: seq<Change>): nat
    decreases |diffs|
  {
    if diffs == [] then 0
    else MatchableCount(content, diffs[..|diffs| - 1]) + (if Contains(content, diffs[|diffs| - 1].search) then 1 else 0)
  }

  /** No change matches the original content exactly when the count is 0. */
  lemma {:induction false} MatchableCountZero(content: string, diffs: seq<Change>)
    ensures MatchableCount(content, diffs) == 0 <==> forall i :: 0 <= i < |diffs| ==> !Contains(content, diffs[i].search)
    decreases |diffs|
  {
    if diffs != [] {
      MatchableCountZero(content, diffs[..|diffs| - 1]);
    }
  }

  /** If some change matches the original content, the first such change sees
      the original content still untouched and is applied: at least one change
      is applied. */
  lemma {:induction false} SomeChangeApplies(content: string, diffs: seq<Change>)
    requires MatchableCount(content, diffs) > 0
    ensures ApplyChanges(content, diffs).appliedCount >= 1
    decreases |diffs|
  {
    var init := diffs[..|diffs| - 1];
    var d := diffs[|diffs| - 1];
    if MatchableCount(content, init) > 0 {
      SomeChangeApplies(content, init);
    } else {
      NoneAppliedKeepsContent(content, init);
    }
  }

  lemma {:induction false} NoneAppliedKeepsContent(content: string, diffs: seq<Change>)
    requires MatchableCount(content, diffs) == 0
    ensures ApplyChanges(content, diffs).content == content
    ensures ApplyChanges(content, diffs).appliedCount == 0
    decreases |diffs|
  {
    if diffs != [] {
      NoneAppliedKeepsContent(content, diffs[..|diffs| - 1]);
    }
  }

  // ---------------------------------------------------------------------------
  // parseLegacyDiffs
  // ---------------------------------------------------------------------------

  /** The two capture groups of one regular-expression match. */
  datatype RawMatch = RawMatch(search: string, replace: string)

  /** The change a match yields, both parts trimmed. */
  function LegacyChange(m: RawMatch): Change {
    Change(Trim(m.search), Trim(m.replace), Some("Legacy format change"))
  }

  /** A match is kept when its trimmed search is longer than 20 characters. */
  predicate LongEnough(m: RawMatch) {
    |Trim(m.search)| > 20
  }

  /** The changes one pattern yields, in match order. */
  function KeepLong(ms: seq<RawMatch>): seq<Change>
    decreases |ms|
  {
    if ms == [] then []
    else KeepLong(ms[..|ms| - 1]) + (if LongEnough(ms[|ms| - 1]) then [LegacyChange(ms[|ms| - 1])] else [])
  }

  /** The changes of the first pattern that yields any; none if no pattern does. */
  function ParseLegacy(patterns: seq<seq<RawMatch>>): seq<Change>
    decreases |patterns|
  {
    if patterns == [] then []
    else if KeepLong(patterns[0]) != [] then KeepLong(patterns[0])
    else ParseLegacy(patterns[1..])
  }

  /** `parseLegacyDiffs`: `patterns[k]` lists the matches the k-th regular
      expression finds in the reply, in order. */
  method ParseLegacyDiffs(patterns: seq<seq<RawMatch>>) returns (diffs: seq<Change>)
    ensures diffs == ParseLegacy(patterns)
  {
    diffs := [];
    var k := 0;
    while k < |patterns|
      invariant 0 <= k <= |patterns|
      invariant diffs == []
      invariant ParseLegacy(patterns) == ParseLegacy(patterns[k..])
    {
      var ms := patterns[k];
      var j := 0;
      while j < |ms|
        invariant 0 <= j <= |ms|
        invariant diffs == KeepLong(ms[..j])
      {
        assert ms[..j + 1][..j] == ms[..j];
        var m := ms[j];
        var search := Trim(m.search);
        var replace := Trim(m.replace);
        if |search| > 20 {
          diffs := diffs + [Change(search, replace, Some("Legacy format change"))];
        }
        j := j + 1;
      }
      assert ms[..|ms|] == ms;
      if |diffs| > 0 {
        return;
      }
      assert patterns[k..][1..] == patterns[k + 1..];
      k := k + 1;
    }
  }

  /** Membership in what one pattern yields: exactly the trimmed pairs of the
      matches whose trimmed search is longer than 20 characters. */
  lemma {:induction false} KeepLongMembers(ms: seq<RawMatch>, c: Change)
    ensures c in KeepLong(ms) <==> exists m :: m in ms && LongEnough(m) && c == LegacyChange(m)
    decreases |ms|
  {
    if ms != [] {
      var init := ms[..|ms| - 1];
      KeepLongMembers(init, c);
      assert ms == init + [ms[|ms| - 1]];
    }
  }

  /** The fallback parser returns the changes of the first pattern that yields
      any, and every earlier pattern yields none. */
  lemma {:induction false} ParseLegacyFirstPattern(patterns: seq<seq<RawMatch>>)
    ensures ParseLegacy(patterns) == [] <==> forall k :: 0 <= k < |patterns| ==> KeepLong(patterns[k]) == []
    ensures ParseLegacy(patterns) != [] ==>
              exists k :: 0 <= k < |patterns| && ParseLegacy(patterns) == KeepLong(patterns[k])
                       && forall j :: 0 <= j < k ==> KeepLong(patterns[j]) == []
    decreases |patterns|
  {
    if patterns != [] && KeepLong(patterns[0]) == [] {
      ParseLegacyFirstPattern(patterns[1..]);
      if ParseLegacy(patterns) != [] {
        var k :| 0 <= k < |patterns[1..]| && ParseLegacy(patterns[1..]) == KeepLong(patterns[1..][k])
                 && forall j :: 0 <= j < k ==> KeepLong(patterns[1..][j]) == [];
        assert ParseLegacy(patterns) == KeepLong(patterns[k + 1]);
        forall j | 0 <= j < k + 1 ensures KeepLong(patterns[j]) == [] {
          if j > 0 {
            assert patterns[j] == patterns[1..][j - 1];
          }
        }
      }
      forall k | 0 <= k < |patterns| && k > 0 ensures patterns[k] == patterns[1..][k - 1] {
      }
    }
  }

  /** Every change the fallback parser returns has a trimmed search longer than
      20 characters and comes from some match. */
  lemma ParseLegacyOnlyLong(patterns: seq<seq<RawMatch>>, c: Change)
    requires c in ParseLegacy(patterns)
    ensures |c.search| > 20
    ensures exists k, m :: 0 <= k < |patterns| && m in patterns[k] && c == LegacyChange(m)
  {
    ParseLegacyFirstPattern(patterns);
    var k :| 0 <= k < |patterns| && ParseLegacy(patterns) == KeepLong(patterns[k])
             && forall j :: 0 <= j < k ==> KeepLong(patterns[j]) == [];
    KeepLongMembers(patterns[k], c);
  }

  // ---------------------------------------------------------------------------
  // The handler
  // ---------------------------------------------------------------------------

  /** What `JSON.parse` made of the reply: `changes` (`None` when absent) and
      `summary` (`""` when absent). */
  datatype Parsed = Parsed(changes: Option<seq<Change>>, summary: string)

  /** The first model call: an error response with its text, or the reply text
      with its JSON parse (`None` when parsing throws) and the matches of the
      three fallback patterns in it. */
  datatype Completion =
    | CallFailed(errorText: string)
    | Replied(text: string, parsed: Option<Parsed>, legacyMatches: seq<seq<RawMatch>>)

  /** The response bodies, each with its HTTP status (`Status`). */
  datatype Outcome =
    | MissingApiKey                                  // 500
    | BadRequestBody                                 // 500: `body.files` is absent
    | NoFile                                         // 400
    | ModelError(text: string)                       // 500
    | NotJson(replyStart: string)                    // 200
    | NoChanges(replyStart: string)                  // 200
    | NoMatch(searchPreviews: seq<string>)           // 200
    | Rewritten(file: FileInput, summary: string, appliedCount: nat, failedCount: nat) // 200

  function Status(o: Outcome): nat {
    match o
    case NoFile => 400
    case MissingApiKey | BadRequestBody | ModelError(_) => 500
    case _ => 200
  }

  /** The changes the handler works on: the parsed list (or none), or, when the
      reply is not JSON, the fallback parse. `None` when there is neither. */
  function ChangesOf(parsed: Option<Parsed>, legacyMatches: seq<seq<RawMatch>>): Option<(seq<Change>, string)> {
    match parsed
    case Some(p) => Some((if p.changes.Some? then p.changes.value else [], p.summary))
    case None =>
      var legacy := ParseLegacy(legacyMatches);
      if |legacy| > 0 then Some((legacy, "")) else None
  }

  /** The summary kept: the parsed one when it has at least 10 characters,
      otherwise `generated`, the value `summaryText` holds once the summary
      call is over: the call's trimmed reply (`""` when it has none), or,
      when the call throws, the short parsed summary itself, which the
      `catch` leaves in place. */
  function SummaryOf(parsed: string, generated: string): string {
    if |parsed| < 10 then generated else parsed
  }

  /** The whole handler, from the request and the model's replies to the
      response body. */
  function Respond(apiKey: bool, files: Option<seq<FileInput>>, ai: Completion, generated: string): Outcome {
    if !apiKey then MissingApiKey
    else if files.None? then BadRequestBody
    else if files.value == [] then NoFile
    else
      var target := files.value[0];
      match ai
      case CallFailed(text) => ModelError(text)
      case Replied(text, parsed, legacyMatches) =>
        match ChangesOf(parsed, legacyMatches)
        case None => NotJson(Prefix(text, 500))
        case Some((diffs, summary)) =>
          if diffs == [] then NoChanges(Prefix(text, 500))
          else if MatchableCount(target.content, diffs) == 0 then
            NoMatch(seq(|diffs|, i requires 0 <= i < |diffs| => Prefix(diffs[i].search, 100)))
          else
            var r := ApplyChanges(target.content, diffs);
            Rewritten(FileInput(target.name, r.content), SummaryOf(summary, generated), r.appliedCount, |r.failed|)
  }

  /** The handler, running the apply loop and the fallback parser. */
  method Post(apiKey: bool, files: Option<seq<FileInput>>, ai: Completion, generated: string) returns (o: Outcome)
    ensures o == Respond(apiKey, files, ai, generated)
  {
    if !apiKey {
      return MissingApiKey;
    }
    if files.None? {
      return BadRequestBody;
    }
    if files.value == [] {
      return NoFile;
    }
    var target := files.value[0];
    if ai.CallFailed? {
      return ModelError(ai.errorText);
    }
    var diffs: seq<Change>;
    var summary: string;
    if ai.parsed.Some? {
      diffs := if ai.parsed.value.changes.Some? then ai.parsed.value.changes.value else [];
      summary := ai.parsed.value.summary;
    } else {
      var legacy := ParseLegacyDiffs(ai.legacyMatches);
      if |legacy| == 0 {
        return NotJson(Prefix(ai.text, 500));
      }
      diffs, summary := legacy, "";
    }
    if |diffs| == 0 {
      return NoChanges(Prefix(ai.text, 500));
    }
    if MatchableCount(target.content, diffs) == 0 {
      return NoMatch(seq(|diffs|, i requires 0 <= i < |diffs| => Prefix(diffs[i].search, 100)));
    }
    var modified, applied, failed, appliedDiffs := ApplyDiffs(target.content, diffs);
    var summaryText := if |summary| < 10 then generated else summary;
    o := Rewritten(FileInput(target.name, modified), summaryText, applied, |failed|);
  }

  // ---------------------------------------------------------------------------
  // Properties of the handler
  // ---------------------------------------------------------------------------

  /** A request with a key but no first file is answered 400 before any model
      call; a missing key is answered 500 before anything else. */
  lemma NoFileIsBadRequest(apiKey: bool, ai: Completion, generated: string)
    ensures Status(Respond(apiKey, Some([]), ai, generated)) == (if apiKey then 400 else 500)
  {
  }

  /** A rewritten file is only returned when the change list is non-empty and
      some change matches the original content; then it is the first request
      file, under its own name, with every change counted once as applied or
      failed, and at least one applied. */
  lemma RewrittenOnlyWithMatches(apiKey: bool, files: Option<seq<FileInput>>, ai: Completion, generated: string)
    requires Respond(apiKey, files, ai, generated).Rewritten?
    ensures apiKey && files.Some? && |files.value| > 0 && ai.Replied?
    ensures var o := Respond(apiKey, files, ai, generated);
            var (diffs, _) := ChangesOf(ai.parsed, ai.legacyMatches).value;
            diffs != []
            && MatchableCount(files.value[0].content, diffs) > 0
            && o.file.name == files.value[0].name
            && o.file.content == ReplaceEach(files.value[0].content, diffs)
            && o.appliedCount + o.failedCount == |diffs|
            && o.appliedCount >= 1
  {
    var (diffs, _) := ChangesOf(ai.parsed, ai.legacyMatches).value;
    ApplyChangesCounts(files.value[0].content, diffs);
    SomeChangeApplies(files.value[0].content, diffs);
  }

  /** Short searches are only warned about: with a key, a first file and a
      parsed, non-empty change list, the file is rewritten exactly when some
      change matches the original, whether or not every search is longer than
      20 characters. */
  lemma ShortSearchesNotRejected(files: seq<FileInput>, text: string, p: Parsed, matches: seq<seq<RawMatch>>, generated: string)
    requires files != [] && p.changes.Some? && p.changes.value != []
    ensures var o := Respond(true, Some(files), Replied(text, Some(p), matches), generated);
            o.Rewritten? <==> MatchableCount(files[0].content, p.changes.value) > 0
  {
  }

  /** With no change matching the original content the handler answers with
      one search preview per change and rewrites nothing. */
  lemma NoMatchAppliesNothing(files: seq<FileInput>, text: string, p: Parsed, matches: seq<seq<RawMatch>>, generated: string)
    requires files != [] && p.changes.Some? && p.changes.value != []
    requires forall i :: 0 <= i < |p.changes.value| ==> !Contains(files[0].content, p.changes.value[i].search)
    ensures var o := Respond(true, Some(files), Replied(text, Some(p), matches), generated);
            o.NoMatch? && |o.searchPreviews| == |p.changes.value|
            && forall i :: 0 <= i < |p.changes.value| ==> StartsWith(p.changes.value[i].search, o.searchPreviews[i])
  {
    MatchableCountZero(files[0].content, p.changes.value);
  }

  /** An empty change list, parsed or absent, never rewrites the file. */
  lemma EmptyChangesNoFile(files: seq<FileInput>, text: string, p: Parsed, matches: seq<seq<RawMatch>>, generated: string)
    requires files != [] && (p.changes.None? || p.changes.value == [])
    ensures Respond(true, Some(files), Replied(text, Some(p), matches), generated) == NoChanges(Prefix(text, 500))
  {
  }

  /** The summary of a parsed reply: a parsed summary of at least 10
      characters is kept, anything shorter (the missing one included) is
      replaced by the generated one. */
  lemma ParsedSummaryChoice(files: seq<FileInput>, text: string, p: Parsed, matches: seq<seq<RawMatch>>, generated: string)
    requires files != [] && p.changes.Some?
    requires MatchableCount(files[0].content, p.changes.value) > 0
    ensures Respond(true, Some(files), Replied(text, Some(p), matches), generated).Rewritten?
    ensures |p.summary| >= 10 ==> Respond(true, Some(files), Replied(text, Some(p), matches), generated).summary == p.summary
    ensures |p.summary| < 10 ==> Respond(true, Some(files), Replied(text, Some(p), matches), generated).summary == generated
  {
  }

  /** The summary of a reply read by the fallback parser: it carries no
      summary, so the generated one is always used. */
  lemma SummaryChoice(files: seq<FileInput>, text: string, matches: seq<seq<RawMatch>>, generated: string)
    requires files != [] && ParseLegacy(matches) != []
    requires MatchableCount(files[0].content, ParseLegacy(matches)) > 0
    ensures Respond(true, Some(files), Replied(text, None, matches), generated).summary == generated
  {
  }
}
