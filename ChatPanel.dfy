/**
  The chat panel's `handleSend` narrows the project's file map to the files
  sent to the agent: the selected file (or the first file), plus, for an
  HTML file, the style sheets and scripts it refers to, resolved against the
  map. `formatElementContext` renders the element picked in the preview as
  text lines.

  The `href`/`src` values are taken from the HTML by regular expressions;
  here they are an input, in the order the page lists them.
*/
module ChatPanel {
  import opened Text
  import opened FileMaps
  import opened Paths

  // ---------------------------------------------------------------------------
  // The selected file
  // ---------------------------------------------------------------------------

  /** Every entry of `n` is an entry of `fm`, with the same content. */
  predicate SubMap(n: FileMap, fm: FileMap) {
    forall k :: k in n.contents ==> k in fm.contents && n.contents[k] == fm.contents[k]
  }

  /** `narrowedMap` before related assets: the selected file when it is a key,
      otherwise the first key when it is not `""`. */
  function Initial(fm: FileMap, selected: string): FileMap
    requires Valid(fm)
  {
    if selected != "" && selected in fm.contents then Assign(Empty(), selected, fm.contents[selected])
    else if fm.keys != [] && fm.keys[0] != "" then
      assert fm.keys[0] in fm.keys;
      Assign(Empty(), fm.keys[0], fm.contents[fm.keys[0]])
    else Empty()
  }

  /** At most one file is chosen, the selected one when it is a key and the
      first key otherwise, with its content from the map. */
  lemma InitialSpec(fm: FileMap, selected: string)
    requires Valid(fm)
    ensures Valid(Initial(fm, selected)) && SubMap(Initial(fm, selected), fm)
    ensures selected != "" && selected in fm.contents ==> Initial(fm, selected).keys == [selected]
    ensures !(selected != "" && selected in fm.contents) && fm.keys != [] && fm.keys[0] != "" ==>
              Initial(fm, selected).keys == [fm.keys[0]]
    ensures !(selected != "" && selected in fm.contents) && (fm.keys == [] || fm.keys[0] == "") ==>
              Initial(fm, selected).keys == []
  {
    if selected != "" && selected in fm.contents {
      InitialOne(fm, selected);
    } else if fm.keys != [] && fm.keys[0] != "" {
      assert fm.keys[0] in fm.keys;
      InitialOne(fm, fm.keys[0]);
    }
  }

  /** A single key of `fileMap` with its content. */
  lemma InitialOne(fm: FileMap, k: string)
    requires Valid(fm) && k in fm.contents
    ensures var n := Assign(Empty(), k, fm.contents[k]);
            Valid(n) && SubMap(n, fm) && n.keys == [k]
  {
    AssignSpec(Empty(), k, fm.contents[k]);
  }

  // ---------------------------------------------------------------------------
  // Resolving a reference: toCandidates and tryResolve
  // ---------------------------------------------------------------------------

  /** `toCandidates(ref)`: the reference without its query, normalised against
      `dir` when there is one; the same without leading slashes; and the
      first without leading slashes. */
  function Candidates(dir: string, ref: string): (c: seq<string>)
    ensures |c| == 3
  {
    var clean := StripQuery(ref);
    var rel := if dir != "" then Normalized(dir + "/" + clean) else clean;
    [rel, StripLeadingSlashes(clean), StripLeadingSlashes(rel)]
  }

  /** `toCandidates`, with `normalize` as its stack loop. */
  method ToCandidates(dir: string, ref: string) returns (c: seq<string>)
    ensures c == Candidates(dir, ref)
  {
    var clean := StripQuery(ref);
    var rel := clean;
    if dir != "" {
      rel := NormalizePath(dir + "/" + clean);
    }
    var direct := StripLeadingSlashes(clean);
    c := [rel, direct, StripLeadingSlashes(rel)];
  }

  /** The first candidate that is a key (`fileMap[cand] !== undefined`). */
  function FirstKey(fm: FileMap, cands: seq<string>): Option<string>
    decreases |cands|
  {
    if cands == [] then None
    else if cands[0] in fm.contents then Some(cands[0])
    else FirstKey(fm, cands[1..])
  }

  lemma {:induction false} FirstKeySpec(fm: FileMap, cands: seq<string>)
    ensures FirstKey(fm, cands).None? <==> forall i :: 0 <= i < |cands| ==> cands[i] !in fm.contents
    ensures forall i :: 0 <= i < |cands| && cands[i] in fm.contents
                        && (forall j :: 0 <= j < i ==> cands[j] !in fm.contents)
                        ==> FirstKey(fm, cands) == Some(cands[i])
    decreases |cands|
  {
    if cands != [] && cands[0] !in fm.contents {
      FirstKeySpec(fm, cands[1..]);
      assert forall i :: 1 <= i < |cands| ==> cands[i] == cands[1..][i - 1];
    }
  }

  /** `tryResolve(ref)`: the first candidate that is a key, otherwise the
      longest key ending with the raw reference or the first candidate. */
  function Resolve(fm: FileMap, dir: string, ref: string): Option<string> {
    var cands := Candidates(dir, ref);
    match FirstKey(fm, cands)
    case Some(c) => Some(c)
    case None => BestSuffix(fm.keys, ref, cands[0])
  }

  /** `tryResolve`, with its two loops. */
  method TryResolve(fm: FileMap, dir: string, ref: string) returns (r: Option<string>)
    ensures r == Resolve(fm, dir, ref)
  {
    var cands := ToCandidates(dir, ref);
    for i := 0 to |cands|
      invariant FirstKey(fm, cands) == FirstKey(fm, cands[i..])
    {
      if cands[i] in fm.contents {
        return Some(cands[i]);
      }
      assert cands[i..][1..] == cands[i + 1..];
    }
    r := BestSuffixMatch(fm.keys, ref, cands[0]);
  }

  /** Whatever is resolved is a key of the map; the candidates are tried in
      order; only when none is a key does the suffix match decide, and it
      picks a longest matching key, the earliest of equal length. */
  lemma ResolveSpec(fm: FileMap, dir: string, ref: string)
    requires Valid(fm)
    ensures var r := Resolve(fm, dir, ref);
            r.Some? ==> r.value in fm.contents
    ensures var c := Candidates(dir, ref);
            forall i :: 0 <= i < 3 && c[i] in fm.contents && (forall j :: 0 <= j < i ==> c[j] !in fm.contents)
              ==> Resolve(fm, dir, ref) == Some(c[i])
    ensures var c := Candidates(dir, ref);
            (forall i :: 0 <= i < 3 ==> c[i] !in fm.contents)
              ==> Resolve(fm, dir, ref) == BestSuffix(fm.keys, ref, c[0])
  {
    var c := Candidates(dir, ref);
    FirstKeySpec(fm, c);
    BestSuffixSpec(fm.keys, ref, c[0]);
  }

  // ---------------------------------------------------------------------------
  // Adding the related assets
  // ---------------------------------------------------------------------------

  /** One reference: a resolved key that is not `""` and not yet in the
      narrowed map is added with its content from `fileMap`. */
  function AddRef(fm: FileMap, dir: string, n: FileMap, ref: string): FileMap
    requires Valid(fm)
  {
    var r := Resolve(fm, dir, ref);
    if r.Some? && r.value != "" && r.value !in n.contents then
      assert r.value in fm.contents by { ResolveSpec(fm, dir, ref); }
      Assign(n, r.value, fm.contents[r.value])
    else n
  }

  /** The loop over the references, in order. */
  function AddRefs(fm: FileMap, dir: string, n: FileMap, refs: seq<string>): FileMap
    requires Valid(fm)
    decreases |refs|
  {
    if refs == [] then n
    else AddRef(fm, dir, AddRefs(fm, dir, n, refs[..|refs| - 1]), refs[|refs| - 1])
  }

  /** Adding references keeps the map valid and inside `fileMap`, never
      overwrites or reorders an entry already there, and adds exactly the
      resolved keys: every resolved reference ends up in the map, and every
      new key is the resolution of some reference. */
  lemma {:induction false} AddRefsSpec(fm: FileMap, dir: string, n: FileMap, refs: seq<string>)
    requires Valid(fm) && Valid(n) && SubMap(n, fm)
    ensures var m := AddRefs(fm, dir, n, refs);
            Valid(m) && SubMap(m, fm)
            && |n.keys| <= |m.keys| && m.keys[..|n.keys|] == n.keys
            && (forall k :: k in n.contents ==> k in m.contents && m.contents[k] == n.contents[k])
            && (forall i :: 0 <= i < |refs| && Resolve(fm, dir, refs[i]).Some? && Resolve(fm, dir, refs[i]).value != ""
                  ==> Resolve(fm, dir, refs[i]).value in m.contents)
            && (forall k :: k in m.contents ==>
                  k in n.contents || exists i :: 0 <= i < |refs| && Resolve(fm, dir, refs[i]) == Some(k))
    decreases |refs|
  {
    if refs != [] {
      var init := refs[..|refs| - 1];
      AddRefsSpec(fm, dir, n, init);
      AddRefsStep(fm, dir, n, refs);
    }
  }

  /** The facts of `AddRefsSpec` carried over the last reference. */
  lemma AddRefsStep(fm: FileMap, dir: string, n: FileMap, refs: seq<string>)
    requires Valid(fm) && Valid(n) && SubMap(n, fm) && refs != []
    requires var init := refs[..|refs| - 1];
             var p := AddRefs(fm, dir, n, init);
             Valid(p) && SubMap(p, fm)
             && |n.keys| <= |p.keys| && p.keys[..|n.keys|] == n.keys
             && (forall k :: k in n.contents ==> k in p.contents && p.contents[k] == n.contents[k])
             && (forall i :: 0 <= i < |init| && Resolve(fm, dir, init[i]).Some? && Resolve(fm, dir, init[i]).value != ""
                   ==> Resolve(fm, dir, init[i]).value in p.contents)
             && (forall k :: k in p.contents ==>
                   k in n.contents || exists i :: 0 <= i < |init| && Resolve(fm, dir, init[i]) == Some(k))
    ensures var m := AddRefs(fm, dir, n, refs);
            Valid(m) && SubMap(m, fm)
            && |n.keys| <= |m.keys| && m.keys[..|n.keys|] == n.keys
            && (forall k :: k in n.contents ==> k in m.contents && m.contents[k] == n.contents[k])
            && (forall i :: 0 <= i < |refs| && Resolve(fm, dir, refs[i]).Some? && Resolve(fm, dir, refs[i]).value != ""
                  ==> Resolve(fm, dir, refs[i]).value in m.contents)
            && (forall k :: k in m.contents ==>
                  k in n.contents || exists i :: 0 <= i < |refs| && Resolve(fm, dir, refs[i]) == Some(k))
  {
    var init := refs[..|refs| - 1];
    var last := refs[|refs| - 1];
    var p := AddRefs(fm, dir, n, init);
    var m := AddRefs(fm, dir, n, refs);
    AddRefSpec(fm, dir, p, last);
    PrefixOfPrefix(n.keys, p.keys, m.keys);
    ResolvedStep(fm, dir, refs, p, m);
    OriginStep(fm, dir, n.contents, refs, p, m);
  }

  lemma ResolvedStep(fm: FileMap, dir: string, refs: seq<string>, p: FileMap, m: FileMap)
    requires Valid(fm) && refs != []
    requires var init := refs[..|refs| - 1];
             forall i :: 0 <= i < |init| && Resolve(fm, dir, init[i]).Some? && Resolve(fm, dir, init[i]).value != ""
               ==> Resolve(fm, dir, init[i]).value in p.contents
    requires forall k :: k in p.contents ==> k in m.contents
    requires var r := Resolve(fm, dir, refs[|refs| - 1]);
             r.Some? && r.value != "" ==> r.value in m.contents
    ensures forall i :: 0 <= i < |refs| && Resolve(fm, dir, refs[i]).Some? && Resolve(fm, dir, refs[i]).value != ""
              ==> Resolve(fm, dir, refs[i]).value in m.contents
  {
    var init := refs[..|refs| - 1];
    forall i | 0 <= i < |refs| && Resolve(fm, dir, refs[i]).Some? && Resolve(fm, dir, refs[i]).value != ""
      ensures Resolve(fm, dir, refs[i]).value in m.contents
    {
      if i < |init| {
        assert refs[i] == init[i];
      }
    }
  }

  lemma OriginStep(fm: FileMap, dir: string, n: map<string, string>, refs: seq<string>, p: FileMap, m: FileMap)
    requires Valid(fm) && refs != []
    requires var init := refs[..|refs| - 1];
             forall k :: k in p.contents ==> k in n || exists i :: 0 <= i < |init| && Resolve(fm, dir, init[i]) == Some(k)
    requires forall k :: k in m.contents ==> k in p.contents || Resolve(fm, dir, refs[|refs| - 1]) == Some(k)
    ensures forall k :: k in m.contents ==> k in n || exists i :: 0 <= i < |refs| && Resolve(fm, dir, refs[i]) == Some(k)
  {
    var init := refs[..|refs| - 1];
    forall k | k in m.contents
      ensures k in n || exists i :: 0 <= i < |refs| && Resolve(fm, dir, refs[i]) == Some(k)
    {
      if k !in p.contents {
        assert Resolve(fm, dir, refs[|refs| - 1]) == Some(k);
      } else if k !in n {
        var i :| 0 <= i < |init| && Resolve(fm, dir, init[i]) == Some(k);
        assert refs[i] == init[i];
      }
    }
  }

  lemma PrefixOfPrefix(a: seq<string>, b: seq<string>, c: seq<string>)
    requires |a| <= |b| && b[..|a|] == a
    requires |b| <= |c| && c[..|b|] == b
    ensures |a| <= |c| && c[..|a|] == a
  {
    assert c[..|a|] == c[..|b|][..|a|];
  }

  /** One reference: the map stays valid and inside `fileMap`, keeps its
      entries and their order, gains the resolved key, and gains nothing else. */
  lemma AddRefSpec(fm: FileMap, dir: string, p: FileMap, ref: string)
    requires Valid(fm) && Valid(p) && SubMap(p, fm)
    ensures var m := AddRef(fm, dir, p, ref);
            var r := Resolve(fm, dir, ref);
            Valid(m) && SubMap(m, fm)
            && |p.keys| <= |m.keys| && m.keys[..|p.keys|] == p.keys
            && (forall k :: k in p.contents ==> k in m.contents && m.contents[k] == p.contents[k])
            && (r.Some? && r.value != "" ==> r.value in m.contents)
            && (forall k :: k in m.contents ==> k in p.contents || r == Some(k))
  {
    var r := Resolve(fm, dir, ref);
    if r.Some? && r.value != "" && r.value !in p.contents {
      ResolveSpec(fm, dir, ref);
      AssignSpec(p, r.value, fm.contents[r.value]);
    }
  }

  /** The files sent to the agent. */
  function Narrowed(fm: FileMap, selected: string, includeRelated: bool, refs: seq<string>): FileMap
    requires Valid(fm)
  {
    var start := Initial(fm, selected);
    if includeRelated && start.keys != [] && start.keys[0] != "" && IsHtmlName(start.keys[0]) then
      AddRefs(fm, Dirname(start.keys[0]), start, refs)
    else start
  }

  /** Every sent file is a file of the map with its own content; the chosen
      file comes first; related references are followed only from an HTML
      file, resolved against that file's directory. */
  lemma NarrowedSpec(fm: FileMap, selected: string, includeRelated: bool, refs: seq<string>)
    requires Valid(fm)
    ensures var start := Initial(fm, selected);
            var m := Narrowed(fm, selected, includeRelated, refs);
            Valid(m) && SubMap(m, fm)
            && |start.keys| <= |m.keys| && m.keys[..|start.keys|] == start.keys
            && (start.keys == [] ==> m == start)
            && (start.keys != [] && !(includeRelated && IsHtmlName(start.keys[0])) ==> m == start)
            && (includeRelated && start.keys != [] && start.keys[0] != "" && IsHtmlName(start.keys[0]) ==>
                  forall i :: 0 <= i < |refs| ==>
                    var r := Resolve(fm, Dirname(start.keys[0]), refs[i]);
                    r.Some? && r.value != "" ==> r.value in m.contents)
  {
    InitialSpec(fm, selected);
    var start := Initial(fm, selected);
    if includeRelated && start.keys != [] && start.keys[0] != "" && IsHtmlName(start.keys[0]) {
      AddRefsSpec(fm, Dirname(start.keys[0]), start, refs);
    }
  }

  // ---------------------------------------------------------------------------
  // totalChars
  // ---------------------------------------------------------------------------

  /** `keys.reduce((acc, k) => acc + (contents[k]?.length || 0), 0)` */
  function SumLengths(keys: seq<string>, contents: map<string, string>): nat
    decreases |keys|
  {
    if keys == [] then 0
    else
      var k := keys[|keys| - 1];
      SumLengths(keys[..|keys| - 1], contents) + (if k in contents then |contents[k]| else 0)
  }

  /** The characters of all files of a map. */
  function TotalChars(fm: FileMap): nat {
    SumLengths(fm.keys, fm.contents)
  }

  lemma {:induction false} SumLengthsFrame(keys: seq<string>, contents: map<string, string>, k: string, v: string)
    requires k !in keys
    ensures SumLengths(keys, contents[k := v]) == SumLengths(keys, contents)
    decreases |keys|
  {
    if keys != [] {
      assert keys[|keys| - 1] in keys;
      assert forall x :: x in keys[..|keys| - 1] ==> x in keys;
      SumLengthsFrame(keys[..|keys| - 1], contents, k, v);
    }
  }

  /** The empty map has no characters, and adding a new file adds exactly its
      length. */
  lemma TotalCharsAssign(n: FileMap, k: string, v: string)
    requires Valid(n) && k !in n.contents
    ensures TotalChars(Empty()) == 0
    ensures TotalChars(Assign(n, k, v)) == TotalChars(n) + |v|
  {
    var keys := n.keys + [k];
    assert keys[..|keys| - 1] == n.keys;
    SumLengthsFrame(n.keys, n.contents, k, v);
  }

  /** The part of `handleSend` that builds `narrowedMap`, `sentFiles` and
      `totalChars`. */
  method NarrowFiles(fm: FileMap, selected: string, includeRelated: bool, refs: seq<string>)
    returns (narrowed: FileMap, sentFiles: seq<string>, totalChars: nat)
    requires Valid(fm)
    ensures narrowed == Narrowed(fm, selected, includeRelated, refs)
    ensures sentFiles == narrowed.keys
    ensures totalChars == TotalChars(narrowed)
  {
    narrowed := ChooseInitial(fm, selected);
    if includeRelated && |narrowed.keys| > 0 {
      var key := narrowed.keys[0];
      if key != "" && IsHtmlName(key) {
        narrowed := FollowRefs(fm, Dirname(key), narrowed, refs);
      }
    }
    sentFiles := narrowed.keys;
    totalChars := CountChars(narrowed);
  }

  /** The selected file, or else the first file, as the start of `narrowedMap`. */
  method ChooseInitial(fm: FileMap, selected: string) returns (narrowed: FileMap)
    requires Valid(fm)
    ensures narrowed == Initial(fm, selected)
  {
    narrowed := Empty();
    if selected != "" && selected in fm.contents {
      narrowed := Assign(narrowed, selected, fm.contents[selected]);
    } else if |fm.keys| > 0 {
      var first := fm.keys[0];
      if first != "" {
        assert first in fm.keys;
        narrowed := Assign(narrowed, first, fm.contents[first]);
      }
    }
  }

  /** The loop adding every resolved reference not yet in `narrowedMap`. */
  method FollowRefs(fm: FileMap, dir: string, start: FileMap, refs: seq<string>) returns (narrowed: FileMap)
    requires Valid(fm)
    ensures narrowed == AddRefs(fm, dir, start, refs)
  {
    narrowed := start;
    for i := 0 to |refs|
      invariant narrowed == AddRefs(fm, dir, start, refs[..i])
    {
      assert refs[..i + 1][..i] == refs[..i];
      var resolved := TryResolve(fm, dir, refs[i]);
      if resolved.Some? && resolved.value != "" && resolved.value !in narrowed.contents {
        ResolveSpec(fm, dir, refs[i]);
        narrowed := Assign(narrowed, resolved.value, fm.contents[resolved.value]);
      }
    }
    assert refs[..|refs|] == refs;
  }

  /** The loop summing the lengths of the sent files. */
  method CountChars(narrowed: FileMap) returns (totalChars: nat)
    ensures totalChars == TotalChars(narrowed)
  {
    var sentFiles := narrowed.keys;
    totalChars := 0;
    for i := 0 to |sentFiles|
      invariant totalChars == SumLengths(sentFiles[..i], narrowed.contents)
    {
      assert sentFiles[..i + 1][..i] == sentFiles[..i];
      var k := sentFiles[i];
      totalChars := totalChars + (if k in narrowed.contents then |narrowed.contents[k]| else 0);
    }
    assert sentFiles[..|sentFiles|] == sentFiles;
  }

  // ---------------------------------------------------------------------------
  // formatElementContext
  // ---------------------------------------------------------------------------

  /** The element picked in the preview. Absent optional fields are `""`
      (or `0` for the line), which is how the function tests them. */
  datatype Element = Element(
    tagName: string,
    id: string,
    className: string,
    innerText: string,
    selector: string,
    sourceFile: string,
    approximateLine: int,
    outerHTML: string)

  const Header: string := "[선택된 요소 정보]"

  /** The tag line, with the tag name lower-cased. */
  function TagLine(e: Element): string {
    "- 태그: <" + Lower(e.tagName) + ">"
  }

  function SelectorLine(e: Element): string {
    "- CSS 선택자: " + e.selector
  }

  /** `outerHTML` cut to 200 characters, marked with `...` when cut. */
  function HtmlPreview(outer: string): string {
    if |outer| > 200 then outer[..200] + "..." else outer
  }

  /** The preview never exceeds 203 characters, keeps the first 200 of the
      markup, and is the markup itself exactly when that fits. */
  lemma HtmlPreviewSpec(outer: string)
    ensures |HtmlPreview(outer)| <= 203
    ensures |outer| <= 200 ==> HtmlPreview(outer) == outer
    ensures |outer| > 200 ==>
              |HtmlPreview(outer)| == 203 && HtmlPreview(outer)[..200] == outer[..200]
    ensures StartsWith(HtmlPreview(outer), outer[..if |outer| > 200 then 200 else |outer|])
  {
    if |outer| > 200 {
      var p := HtmlPreview(outer);
      assert p[..200] == outer[..200];
    }
  }

  /** The lines `parts` holds before they are joined. */
  function ContextLines(e: Element): seq<string> {
    [Header, TagLine(e)]
    + (if e.id != "" then ["- ID: #" + e.id] else [])
    + (if e.className != "" then ["- 클래스: " + e.className] else [])
    + (if e.innerText != "" && Trim(e.innerText) != "" then ["- 텍스트: \"" + Trim(e.innerText) + "\""] else [])
    + [SelectorLine(e)]
    + (if e.sourceFile != "" then ["- 파일: " + e.sourceFile] else [])
    + (if e.approximateLine != 0 then ["- 코드 위치: 약 " + IntToString(e.approximateLine) + "줄 근처"] else [])
    + (if e.outerHTML != "" then ["- HTML 미리보기:\n" + HtmlPreview(e.outerHTML)] else [])
  }

  /** `formatElementContext`: pushes the lines and joins them with newlines. */
  method FormatElementContext(e: Element) returns (text: string)
    ensures text == Join(ContextLines(e), "\n")
  {
    var parts := [Header, "- 태그: <" + Lower(e.tagName) + ">"];
    if e.id != "" {
      parts := parts + ["- ID: #" + e.id];
    }
    assert parts == [Header, TagLine(e)] + (if e.id != "" then ["- ID: #" + e.id] else []);
    ghost var p1 := parts;
    if e.className != "" {
      parts := parts + ["- 클래스: " + e.className];
    }
    assert parts == p1 + (if e.className != "" then ["- 클래스: " + e.className] else []);
    ghost var p2 := parts;
    if e.innerText != "" && Trim(e.innerText) != "" {
      parts := parts + ["- 텍스트: \"" + Trim(e.innerText) + "\""];
    }
    assert parts == p2 + (if e.innerText != "" && Trim(e.innerText) != "" then ["- 텍스트: \"" + Trim(e.innerText) + "\""] else []);
    parts := parts + ["- CSS 선택자: " + e.selector];
    ghost var p3 := parts;
    if e.sourceFile != "" {
      parts := parts + ["- 파일: " + e.sourceFile];
    }
    assert parts == p3 + (if e.sourceFile != "" then ["- 파일: " + e.sourceFile] else []);
    ghost var p4 := parts;
    if e.approximateLine != 0 {
      parts := parts + ["- 코드 위치: 약 " + IntToString(e.approximateLine) + "줄 근처"];
    }
    assert parts == p4 + (if e.approximateLine != 0 then ["- 코드 위치: 약 " + IntToString(e.approximateLine) + "줄 근처"] else []);
    ghost var p5 := parts;
    if e.outerHTML != "" {
      var preview := if |e.outerHTML| > 200 then e.outerHTML[..200] + "..." else e.outerHTML;
      parts := parts + ["- HTML 미리보기:\n" + preview];
    }
    assert parts == p5 + (if e.outerHTML != "" then ["- HTML 미리보기:\n" + HtmlPreview(e.outerHTML)] else []);
    assert parts == ContextLines(e);
    text := Join(parts, "\n");
  }

  /** The number of optional lines present. */
  function OptionalCount(e: Element): nat {
    (if e.id != "" then 1 else 0)
    + (if e.className != "" then 1 else 0)
    + (if e.innerText != "" && Trim(e.innerText) != "" then 1 else 0)
    + (if e.sourceFile != "" then 1 else 0)
    + (if e.approximateLine != 0 then 1 else 0)
    + (if e.outerHTML != "" then 1 else 0)
  }

  /** The text always opens with the header and the tag line and always holds
      the selector line; one more line per optional field that is set. */
  lemma FormatElementContextSpec(e: Element)
    ensures |ContextLines(e)| == 3 + OptionalCount(e)
    ensures ContextLines(e)[0] == Header && ContextLines(e)[1] == TagLine(e)
    ensures SelectorLine(e) in ContextLines(e)
    ensures Join(ContextLines(e), "\n") == Header + "\n" + TagLine(e) + "\n" + Join(ContextLines(e)[2..], "\n")
  {
    var lines := ContextLines(e);
    assert lines[1..][1..] == lines[2..];
    assert Join(lines[1..], "\n") == TagLine(e) + "\n" + Join(lines[2..], "\n");
  }
}
