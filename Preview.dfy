/**
  The path logic of the preview builder in `lib/files.ts`: choosing the HTML
  entry, removing Cafe24 variables, resolving an asset reference to a key of
  the file map, the relative path from the entry's directory to a key, and
  the choice of style sheets and scripts to inject automatically.

  Blob URLs, the regular-expression rewriting of the HTML text and the
  injected inspection script are not modelled; the set of `href`/`src`
  values already present in the page is an input.
*/
module Preview {
  import opened Text
  import opened FileMaps
  import opened Paths

  // ---------------------------------------------------------------------------
  // pickDefaultHtmlFile and the entry choice
  // ---------------------------------------------------------------------------

  /** The keys whose lower-cased name ends with `.html` or `.htm`, in order. */
  function HtmlKeys(keys: seq<string>): seq<string>
    decreases |keys|
  {
    if keys == [] then []
    else (if IsHtmlName(keys[0]) then [keys[0]] else []) + HtmlKeys(keys[1..])
  }

  lemma {:induction false} HtmlKeysMembers(keys: seq<string>)
    ensures forall k :: k in HtmlKeys(keys) <==> k in keys && IsHtmlName(k)
    decreases |keys|
  {
    if keys != [] {
      HtmlKeysMembers(keys[1..]);
      assert keys == [keys[0]] + keys[1..];
    }
  }

  /** `pickDefaultHtmlFile` */
  function PickDefaultHtmlFile(fm: FileMap): string {
    if "index.html" in fm.contents then "index.html"
    else if "index.htm" in fm.contents then "index.htm"
    else
      var htmls := SortStrings(HtmlKeys(fm.keys));
      if htmls == [] then "" else htmls[0]
  }

  /** `index.html` wins, then `index.htm`; otherwise the HTML key that sorts
      first, and `""` exactly when there is no HTML key. */
  lemma PickDefaultHtmlFileSpec(fm: FileMap)
    requires Valid(fm)
    ensures var r := PickDefaultHtmlFile(fm);
            ("index.html" in fm.contents ==> r == "index.html")
            && ("index.html" !in fm.contents && "index.htm" in fm.contents ==> r == "index.htm")
            && ("index.html" !in fm.contents && "index.htm" !in fm.contents ==>
                  (r == "" <==> forall k :: k in fm.contents ==> !IsHtmlName(k))
                  && (r != "" ==> r in fm.contents && IsHtmlName(r)
                                  && forall k :: k in fm.contents && IsHtmlName(k) ==> LexLeq(r, k)))
  {
    if "index.html" !in fm.contents && "index.htm" !in fm.contents {
      var hs := HtmlKeys(fm.keys);
      var htmls := SortStrings(hs);
      HtmlKeysMembers(fm.keys);
      SortStringsFirst(hs);
      if htmls != [] {
        assert htmls[0] in htmls;
      }
    }
  }

  /** `entry && fileMap[entry] ? entry : pickDefaultHtmlFile(fileMap)` */
  function ChooseEntry(fm: FileMap, entry: Option<string>): string {
    if entry.Some? && entry.value != "" && Truthy(fm, entry.value) then entry.value
    else PickDefaultHtmlFile(fm)
  }

  /** The requested entry is used exactly when it names a file with content;
      otherwise the default is, and with no HTML file at all the choice is
      `""` (no preview). Whatever is chosen, when not `""`, is a key. */
  lemma ChooseEntrySpec(fm: FileMap, entry: Option<string>)
    requires Valid(fm)
    ensures entry.Some? && entry.value != "" && Truthy(fm, entry.value) ==> ChooseEntry(fm, entry) == entry.value
    ensures !(entry.Some? && entry.value != "" && Truthy(fm, entry.value)) ==> ChooseEntry(fm, entry) == PickDefaultHtmlFile(fm)
    ensures !(entry.Some? && entry.value != "" && Truthy(fm, entry.value)) && (forall k :: k in fm.contents ==> !IsHtmlName(k))
            ==> ChooseEntry(fm, entry) == ""
    ensures ChooseEntry(fm, entry) != "" ==> ChooseEntry(fm, entry) in fm.contents
  {
    PickDefaultHtmlFileSpec(fm);
    IndexNamesAreHtml();
  }

  lemma IndexNamesAreHtml()
    ensures IsHtmlName("index.html") && IsHtmlName("index.htm")
  {
    assert Lower("index.html") == "index.html";
    assert Lower("index.htm") == "index.htm";
  }

  // ---------------------------------------------------------------------------
  // stripCafe24Vars
  // ---------------------------------------------------------------------------

  /** The first `}` at or after `i`. */
  function CloseBrace(s: string, i: nat): (r: Option<nat>)
    requires i <= |s|
    ensures r.Some? ==> i <= r.value < |s| && s[r.value] == '}'
    ensures r.None? ==> forall k :: i <= k < |s| ==> s[k] != '}'
    decreases |s| - i
  {
    if i == |s| then None else if s[i] == '}' then Some(i) else CloseBrace(s, i + 1)
  }

  /** The length of the `{$…}` variable at the start of `s`, or 0 when the
      pattern `/\{\$[^}]+\}/` does not match there (it needs at least one
      character before the first `}`). */
  function VarLength(s: string): (n: nat)
    ensures n <= |s|
  {
    if |s| >= 2 && s[0] == '{' && s[1] == '$' then
      match CloseBrace(s, 2)
      case Some(j) => if j > 2 then j + 1 else 0
      case None => 0
    else 0
  }

  /** `s.replace(/\{\$[^}]+\}/g, '')`: scanning left to right, every match is
      removed and the scan resumes after it. */
  function StripCafe24Vars(s: string): string
    decreases |s|
  {
    if s == [] then []
    else if VarLength(s) > 0 then StripCafe24Vars(s[VarLength(s)..])
    else [s[0]] + StripCafe24Vars(s[1..])
  }

  /** Removing variables only deletes characters: the result is a subsequence
      of the input. */
  lemma {:induction false} StripCafe24VarsSubsequence(s: string)
    ensures IsSubsequence(StripCafe24Vars(s), s)
    decreases |s|
  {
    if s == [] {
    } else if VarLength(s) > 0 {
      var n := VarLength(s);
      StripCafe24VarsSubsequence(s[n..]);
      DropPrefixSubsequence(StripCafe24Vars(s[n..]), s, n);
    } else {
      StripCafe24VarsSubsequence(s[1..]);
      assert ([s[0]] + StripCafe24Vars(s[1..]))[1..] == StripCafe24Vars(s[1..]);
    }
  }

  lemma {:induction false} DropPrefixSubsequence(a: string, s: string, n: nat)
    requires n <= |s| && IsSubsequence(a, s[n..])
    ensures IsSubsequence(a, s)
    decreases n
  {
    if n > 0 {
      assert s[1..][n - 1..] == s[n..];
      DropPrefixSubsequence(a, s[1..], n - 1);
    }
  }

  /** Text in which no `{` is directly followed by `$` is left as it is. */
  lemma {:induction false} StripCafe24VarsNoVariable(s: string)
    requires forall i :: 0 <= i < |s| - 1 ==> !(s[i] == '{' && s[i + 1] == '$')
    ensures StripCafe24Vars(s) == s
    decreases |s|
  {
    if s != [] {
      assert VarLength(s) == 0;
      StripCafe24VarsNoVariable(s[1..]);
    }
  }

  /** A complete variable at the front is removed whole. */
  lemma StripCafe24VarsRemovesVariable(name: string, rest: string)
    requires |name| > 0 && '}' !in name
    ensures StripCafe24Vars("{$" + name + "}" + rest) == StripCafe24Vars(rest)
  {
    var s := "{$" + name + "}" + rest;
    assert s[2 + |name|] == '}';
    assert forall k :: 2 <= k < 2 + |name| ==> s[k] == name[k - 2];
    CloseBraceAt(s, 2, 2 + |name|);
    assert s[VarLength(s)..] == rest;
  }

  /** Text with no `{$` in it, followed by text that does not start with `$`,
      is passed over unchanged and the scan goes on behind it. */
  lemma {:induction false} StripCafe24VarsKeepsPlainPrefix(p: string, x: string)
    requires forall i :: 0 <= i < |p| - 1 ==> !(p[i] == '{' && p[i + 1] == '$')
    requires x != [] ==> x[0] != '$'
    ensures StripCafe24Vars(p + x) == p + StripCafe24Vars(x)
    decreases |p|
  {
    if p == [] {
      assert p + x == x;
    } else {
      var s := p + x;
      assert s[0] == p[0];
      assert VarLength(s) == 0 by {
        if |s| >= 2 && s[0] == '{' {
          if |p| >= 2 {
            assert s[1] == p[1];
          } else {
            assert s[1] == x[0];
          }
        }
      }
      assert s[1..] == p[1..] + x;
      StripCafe24VarsKeepsPlainPrefix(p[1..], x);
      assert p == [p[0]] + p[1..];
    }
  }

  /** A complete variable after text with no `{$` in it is removed whole,
      and the text before it stays. */
  lemma StripCafe24VarsRemovesVariableAfter(p: string, name: string, rest: string)
    requires forall i :: 0 <= i < |p| - 1 ==> !(p[i] == '{' && p[i + 1] == '$')
    requires |name| > 0 && '}' !in name
    ensures StripCafe24Vars(p + ("{$" + name + "}" + rest)) == p + StripCafe24Vars(rest)
  {
    StripCafe24VarsKeepsPlainPrefix(p, "{$" + name + "}" + rest);
    StripCafe24VarsRemovesVariable(name, rest);
  }

  /** The scan stops at the first `}`. */
  lemma {:induction false} CloseBraceAt(s: string, i: nat, j: nat)
    requires i <= j < |s| && s[j] == '}'
    requires forall k :: i <= k < j ==> s[k] != '}'
    ensures CloseBrace(s, i) == Some(j)
    decreases j - i
  {
    if i < j {
      CloseBraceAt(s, i + 1, j);
    }
  }

  // ---------------------------------------------------------------------------
  // resolveAssetPath
  // ---------------------------------------------------------------------------

  /** `/^(https?:)?\/\//i`: an absolute URL or a protocol-relative one. */
  predicate IsExternal(raw: string) {
    StartsWith(Lower(raw), "http://") || StartsWith(Lower(raw), "https://") || StartsWith(raw, "//")
  }

  /** `/^data:/i` */
  predicate IsDataUrl(raw: string) {
    StartsWith(Lower(raw), "data:")
  }

  /** The first form tried: root-relative references lose their leading
      slashes, others are normalised against the entry's directory. */
  function Candidate(entryDir: string, clean: string): string {
    if |clean| > 0 && clean[0] == '/' then StripLeadingSlashes(clean)
    else Normalized((if entryDir != "" then entryDir + "/" else "") + clean)
  }

  /** `resolveAssetPath(entryDir, href)`; `None` is `null`. */
  function ResolveAsset(fm: FileMap, entryDir: string, href: string): Option<string> {
    var raw := Trim(href);
    if raw == "" || IsExternal(raw) || IsDataUrl(raw) then None
    else
      var clean := StripQuery(raw);
      var candidate := Candidate(entryDir, clean);
      if Truthy(fm, candidate) then Some(candidate)
      else
        var direct := StripLeadingSlashes(clean);
        if Truthy(fm, direct) then Some(direct)
        else BestSuffix(fm.keys, candidate, direct)
  }

  /** `resolveAssetPath`, with its suffix loop. */
  method ResolveAssetPath(fm: FileMap, entryDir: string, href: string) returns (r: Option<string>)
    ensures r == ResolveAsset(fm, entryDir, href)
  {
    var raw := Trim(href);
    if raw == "" || IsExternal(raw) || IsDataUrl(raw) {
      return None;
    }
    var clean := StripQuery(raw);
    var candidate: string;
    if |clean| > 0 && clean[0] == '/' {
      candidate := StripLeadingSlashes(clean);
    } else {
      candidate := NormalizePath((if entryDir != "" then entryDir + "/" else "") + clean);
    }
    if Truthy(fm, candidate) {
      return Some(candidate);
    }
    var direct := StripLeadingSlashes(clean);
    if Truthy(fm, direct) {
      return Some(direct);
    }
    r := BestSuffixMatch(fm.keys, candidate, direct);
  }

  /** Blank, external and `data:` references resolve to nothing; anything
      resolved is a key of the map; the normalised candidate is preferred to
      the direct form, and both to the longest suffix match. */
  lemma ResolveAssetSpec(fm: FileMap, entryDir: string, href: string)
    requires Valid(fm)
    ensures var raw := Trim(href);
            (raw == "" || IsExternal(raw) || IsDataUrl(raw)) ==> ResolveAsset(fm, entryDir, href).None?
    ensures ResolveAsset(fm, entryDir, href).Some? ==> ResolveAsset(fm, entryDir, href).value in fm.contents
    ensures var raw := Trim(href);
            var clean := StripQuery(raw);
            var candidate := Candidate(entryDir, clean);
            var direct := StripLeadingSlashes(clean);
            !(raw == "" || IsExternal(raw) || IsDataUrl(raw)) ==>
              ResolveAsset(fm, entryDir, href)
                == if Truthy(fm, candidate) then Some(candidate)
                   else if Truthy(fm, direct) then Some(direct)
                   else BestSuffix(fm.keys, candidate, direct)
  {
    var raw := Trim(href);
    if !(raw == "" || IsExternal(raw) || IsDataUrl(raw)) {
      var clean := StripQuery(raw);
      BestSuffixSpec(fm.keys, Candidate(entryDir, clean), StripLeadingSlashes(clean));
    }
  }

  // ---------------------------------------------------------------------------
  // getRelativePath
  // ---------------------------------------------------------------------------

  /** The length of the common leading run of two segment lists. */
  function CommonLength(f: seq<string>, t: seq<string>): nat
    decreases |f|
  {
    if f == [] || t == [] || f[0] != t[0] then 0 else 1 + CommonLength(f[1..], t[1..])
  }

  lemma {:induction false} CommonLengthSpec(f: seq<string>, t: seq<string>)
    ensures var n := CommonLength(f, t);
            n <= |f| && n <= |t| && f[..n] == t[..n]
            && (n < |f| && n < |t| ==> f[n] != t[n])
    decreases |f|
  {
    if !(f == [] || t == [] || f[0] != t[0]) {
      CommonLengthSpec(f[1..], t[1..]);
      var n := CommonLength(f, t);
      assert f[..n] == [f[0]] + f[1..][..n - 1];
      assert t[..n] == [t[0]] + t[1..][..n - 1];
    }
  }

  /** `s.repeat(n)` */
  function Repeat(s: string, n: nat): string {
    if n == 0 then "" else s + Repeat(s, n - 1)
  }

  /** `getRelativePath(fromDir, toPath)` */
  function RelativePath(fromDir: string, toPath: string): string {
    if fromDir == "" then toPath
    else
      var f := Segments(fromDir);
      var t := Segments(toPath);
      var n := CommonLength(f, t);
      assert n <= |f| && n <= |t| by { CommonLengthSpec(f, t); }
      var r := Repeat("../", |f| - n) + Join(t[n..], "/");
      if r == "" then "./" else r
  }

  /** `getRelativePath`, with its `while` loop over the common segments. */
  method GetRelativePath(fromDir: string, toPath: string) returns (r: string)
    ensures r == RelativePath(fromDir, toPath)
  {
    if fromDir == "" {
      return toPath;
    }
    var fromParts := Segments(fromDir);
    var toParts := Segments(toPath);
    var i := 0;
    while i < |fromParts| && i < |toParts| && fromParts[i] == toParts[i]
      invariant 0 <= i <= |fromParts| && i <= |toParts|
      invariant CommonLength(fromParts, toParts) == i + CommonLength(fromParts[i..], toParts[i..])
      decreases |fromParts| - i
    {
      assert fromParts[i..][1..] == fromParts[i + 1..];
      assert toParts[i..][1..] == toParts[i + 1..];
      i := i + 1;
    }
    var up := |fromParts| - i;
    var down := Join(toParts[i..], "/");
    r := (if up > 0 then Repeat("../", up) else "") + down;
    if r == "" {
      r := "./";
    }
  }

  /** Segments of `n` copies of `../` followed by `x`. */
  lemma {:induction false} SegmentsOfUps(n: nat, x: string)
    ensures Segments(Repeat("../", n) + x) == Ups(n) + Segments(x)
    decreases n
  {
    if n == 0 {
      assert Repeat("../", n) + x == x;
    } else {
      SegmentsOfUps(n - 1, x);
      var y := Repeat("../", n - 1) + x;
      RepeatUpsStep(n, x);
      SegmentsAfterUp(y);
      ConcatAssoc([".."], Ups(n - 1), Segments(x));
    }
  }

  lemma RepeatUpsStep(n: nat, x: string)
    requires n > 0
    ensures Repeat("../", n) + x == ".." + "/" + (Repeat("../", n - 1) + x)
  {
    assert "../" == ".." + "/";
    ConcatAssoc("../", Repeat("../", n - 1), x);
  }

  /** A leading `../` contributes one `..` segment. */
  lemma SegmentsAfterUp(y: string)
    ensures Segments(".." + "/" + y) == [".."] + Segments(y)
  {
    SegmentsConcat("..", y);
    SplitNoSep("..", '/');
    assert NonEmpty([".."]) == [".."] + NonEmpty([]);
  }

  lemma DotSlashSegments()
    ensures Segments("./") == ["."]
  {
    assert "./" == "." + "/" + "";
    SegmentsConcat(".", "");
    SplitNoSep(".", '/');
    assert Split("", '/') == [""];
  }

  lemma JoinNonEmpty(parts: seq<string>)
    requires parts != [] && parts[0] != ""
    ensures Join(parts, "/") != ""
  {
  }

  /** The path `getRelativePath` builds before its `'./'` fallback: its
      segments are one `..` per unshared directory followed by the unshared
      rest of `toPath`, and it is empty exactly when the segments agree. */
  lemma RelativeSegments(fromDir: string, toPath: string)
    ensures var f := Segments(fromDir);
            var t := Segments(toPath);
            var n := CommonLength(f, t);
            n <= |f| && n <= |t| && f[..n] == t[..n]
            && var r := Repeat("../", |f| - n) + Join(t[n..], "/");
               Segments(r) == Ups(|f| - n) + t[n..]
               && (r == "" <==> f == t)
  {
    var f := Segments(fromDir);
    var t := Segments(toPath);
    CommonLengthSpec(f, t);
    var n := CommonLength(f, t);
    var down := Join(t[n..], "/");
    DownSegments(toPath, n);
    SegmentsOfUps(|f| - n, down);
    RelativeEmptyIff(f, t, n, Repeat("../", |f| - n) + down);
  }

  /** The unshared rest of the target, joined, splits back into itself. */
  lemma DownSegments(toPath: string, n: nat)
    requires n <= |Segments(toPath)|
    ensures var t := Segments(toPath);
            Segments(Join(t[n..], "/")) == t[n..]
  {
    var t := Segments(toPath);
    SegmentsShape(toPath);
    assert forall p :: p in t[n..] ==> p in t;
    SegmentsOfJoin(t[n..]);
  }

  /** The built path is empty exactly when the two segment lists agree. */
  lemma RelativeEmptyIff(f: seq<string>, t: seq<string>, n: nat, r: string)
    requires n <= |f| && n <= |t| && f[..n] == t[..n]
    requires n < |f| && n < |t| ==> f[n] != t[n]
    requires Segments(r) == Ups(|f| - n) + t[n..]
    requires r == Repeat("../", |f| - n) + Join(t[n..], "/")
    ensures r == "" <==> f == t
  {
    if r == "" {
      assert Segments(r) == [];
      assert |f| - n == 0;
      assert t[n..] == [];
      assert f == f[..n] && t == t[..n];
    }
    if f == t {
      assert n == |f|;
    }
  }

  /** The built path is never `"./"` itself, so `"./"` comes only from the
      fallback. */
  lemma RelativeNotDotSlash(fromDir: string, toPath: string)
    ensures var f := Segments(fromDir);
            var t := Segments(toPath);
            var n := CommonLength(f, t);
            n <= |f| && n <= |t|
            && Repeat("../", |f| - n) + Join(t[n..], "/") != "./"
  {
    RelativeSegments(fromDir, toPath);
    DotSlashSegments();
    var f := Segments(fromDir);
    var t := Segments(toPath);
    var n := CommonLength(f, t);
    if |f| - n == 0 && t[n..] == ["."] {
      assert Repeat("../", |f| - n) + Join(t[n..], "/") == ".";
    }
  }

  /** A join starts with its first part. */
  lemma JoinStartsWithFirst(parts: seq<string>)
    requires parts != []
    ensures StartsWith(Join(parts, "/"), parts[0])
  {
    if |parts| > 1 {
      assert Join(parts, "/") == parts[0] + ("/" + Join(parts[1..], "/"));
    }
  }

  /** `..` steps followed by plain, slash-free segments never start with `./`. */
  lemma UpsThenPlainNoDotSlash(ups: nat, rest: seq<string>)
    requires forall s :: s in rest ==> Plain(s) && '/' !in s
    ensures !StartsWith(Repeat("../", ups) + Join(rest, "/"), "./")
  {
    var r := Repeat("../", ups) + Join(rest, "/");
    if ups > 0 {
      assert Repeat("../", ups) == "../" + Repeat("../", ups - 1);
      assert r[1] == '.';
    } else if rest != [] {
      var seg := rest[0];
      assert seg in rest;
      JoinStartsWithFirst(rest);
      assert r == Join(rest, "/");
      if |seg| >= 2 {
        assert r[1] == seg[1] != '/';
      } else {
        assert |seg| == 1 && seg != ".";
        assert r[0] == seg[0] != '.';
      }
    }
  }

  /** With a non-empty `fromDir` and a target whose segments are plain (none is
      `.` or `..`), the relative path starts with `./` only when it is the
      fallback `./` itself. A target holding a `.` segment breaks this:
      from `a` to `a/./x` the path is `./x`. */
  lemma RelativeOfPlainNoDotSlash(fromDir: string, toPath: string)
    requires fromDir != ""
    requires forall s :: s in Segments(toPath) ==> Plain(s)
    ensures RelativePath(fromDir, toPath) != "./" ==> !StartsWith(RelativePath(fromDir, toPath), "./")
  {
    var f := Segments(fromDir);
    var t := Segments(toPath);
    var n := CommonLength(f, t);
    CommonLengthSpec(f, t);
    SegmentsShape(toPath);
    assert forall s :: s in t[n..] ==> s in t;
    UpsThenPlainNoDotSlash(|f| - n, t[n..]);
  }

  /** The relative path is `"./"` exactly when both directories have the same
      segments; with an empty `fromDir` it is `toPath` itself. */
  lemma RelativePathDot(fromDir: string, toPath: string)
    ensures fromDir == "" ==> RelativePath(fromDir, toPath) == toPath
    ensures fromDir != "" ==> (RelativePath(fromDir, toPath) == "./" <==> Segments(fromDir) == Segments(toPath))
  {
    RelativeSegments(fromDir, toPath);
    RelativeNotDotSlash(fromDir, toPath);
  }

  /** On segment lists: the directory's segments, then the `..` steps and the
      rest of the target, run down to the target. */
  lemma RunRelative(f: seq<string>, t: seq<string>, n: nat)
    requires n <= |f| && n <= |t| && f[..n] == t[..n]
    requires forall s :: s in f ==> Plain(s)
    requires forall s :: s in t ==> Plain(s)
    ensures Run([], f + (Ups(|f| - n) + t[n..])) == t
  {
    var ups := Ups(|f| - n);
    var rest := t[n..];
    assert f + (ups + rest) == (f + ups) + rest;
    RunAppend([], f + ups, rest);
    RunUpFrom(f, n);
    RunDownTo(t, n);
  }

  /** Climbing from the directory's segments back to their first `n`. */
  lemma RunUpFrom(f: seq<string>, n: nat)
    requires n <= |f|
    requires forall s :: s in f ==> Plain(s)
    ensures Run([], f + Ups(|f| - n)) == f[..n]
  {
    var m := |f| - n;
    RunAppend([], f, Ups(m));
    RunOfPlain([], f);
    assert [] + f == f;
    RunUps(f, m);
    assert |f| - m == n;
  }

  /** Descending from the target's first `n` segments to the whole target. */
  lemma RunDownTo(t: seq<string>, n: nat)
    requires n <= |t|
    requires forall s :: s in t ==> Plain(s)
    ensures Run(t[..n], t[n..]) == t
  {
    assert forall p :: p in t[n..] ==> p in t;
    RunOfPlain(t[..n], t[n..]);
    assert t[..n] + t[n..] == t;
  }

  /** Following the relative path from `fromDir` leads to `toPath`: when
      neither directory has a `.` or `..` segment, normalising
      `fromDir + '/' + rel` gives the normalised `toPath`. */
  lemma RelativePathResolves(fromDir: string, toPath: string)
    requires fromDir != ""
    requires forall s :: s in Segments(fromDir) ==> Plain(s)
    requires forall s :: s in Segments(toPath) ==> Plain(s)
    ensures Normalized(fromDir + "/" + RelativePath(fromDir, toPath)) == Normalized(toPath)
  {
    var t := Segments(toPath);
    var rel := RelativePath(fromDir, toPath);
    RunToTarget(fromDir, toPath);
    NormalizedBySegments(fromDir + "/" + rel);
    NormalizedBySegments(toPath);
    RunOfPlain([], t);
    assert [] + t == t;
  }

  /** Resolving the segments of `fromDir + '/' + rel` gives the target's segments. */
  lemma RunToTarget(fromDir: string, toPath: string)
    requires fromDir != ""
    requires forall s :: s in Segments(fromDir) ==> Plain(s)
    requires forall s :: s in Segments(toPath) ==> Plain(s)
    ensures Run([], Segments(fromDir + "/" + RelativePath(fromDir, toPath))) == Segments(toPath)
  {
    var f := Segments(fromDir);
    var t := Segments(toPath);
    var rel := RelativePath(fromDir, toPath);
    SegmentsConcat(fromDir, rel);
    RelativeSegments(fromDir, toPath);
    if f == t {
      RunToSame(f, rel);
    } else {
      RunToOther(fromDir, toPath);
    }
  }

  /** Between different directories the path is the climb and the descent. */
  lemma RunToOther(fromDir: string, toPath: string)
    requires fromDir != "" && Segments(fromDir) != Segments(toPath)
    requires forall s :: s in Segments(fromDir) ==> Plain(s)
    requires forall s :: s in Segments(toPath) ==> Plain(s)
    ensures Run([], Segments(fromDir) + Segments(RelativePath(fromDir, toPath))) == Segments(toPath)
  {
    var f := Segments(fromDir);
    var t := Segments(toPath);
    var n := CommonLength(f, t);
    RelativeSegmentsOther(fromDir, toPath);
    var rel := Segments(RelativePath(fromDir, toPath));
    assert rel == Ups(|f| - n) + t[n..];
    RunRelative(f, t, n);
    assert f + rel == f + (Ups(|f| - n) + t[n..]);
  }

  lemma RelativeSegmentsOther(fromDir: string, toPath: string)
    requires fromDir != "" && Segments(fromDir) != Segments(toPath)
    ensures var f := Segments(fromDir);
            var t := Segments(toPath);
            var n := CommonLength(f, t);
            n <= |f| && n <= |t| && f[..n] == t[..n]
            && Segments(RelativePath(fromDir, toPath)) == Ups(|f| - n) + t[n..]
  {
    var f := Segments(fromDir);
    var t := Segments(toPath);
    var n := CommonLength(f, t);
    RelativeSegments(fromDir, toPath);
    var r := Repeat("../", |f| - n) + Join(t[n..], "/");
    assert r != "";
    assert RelativePath(fromDir, toPath) == r;
  }

  /** From a directory to itself the path is `./`, which resolves to the directory. */
  lemma RunToSame(f: seq<string>, rel: string)
    requires rel == "./"
    requires forall s :: s in f ==> Plain(s)
    ensures Run([], f + Segments(rel)) == f
  {
    DotSlashSegments();
    RunAppend([], f, ["."]);
    RunOfPlain([], f);
    assert [] + f == f;
  }

  // ---------------------------------------------------------------------------
  // Automatic injection of style sheets and scripts
  // ---------------------------------------------------------------------------

  /** `key.toLowerCase().endsWith('.css')` */
  predicate IsCss(key: string) {
    EndsWith(Lower(key), ".css")
  }

  /** `key.toLowerCase().endsWith('.js')` */
  predicate IsJs(key: string) {
    EndsWith(Lower(key), ".js")
  }

  /** `rel`: the key relative to the entry's directory. */
  function RelFor(entryDir: string, key: string): string {
    if entryDir != "" then RelativePath(entryDir, key) else key
  }

  /** `relDot`: `rel` with a leading `./` unless it already starts with `../`
      or `./`. */
  function DotRelative(rel: string): string {
    if StartsWith(rel, "../") || StartsWith(rel, "./") then rel else "./" + rel
  }

  /** The page already refers to the key by one of its four spellings. */
  predicate Referenced(included: set<string>, entryDir: string, key: string) {
    var rel := RelFor(entryDir, key);
    key in included || "/" + key in included || rel in included || DotRelative(rel) in included
  }

  /** A key goes to the style-sheet list (`css`) or the script list (`!css`). */
  predicate Injects(included: set<string>, entryDir: string, key: string, css: bool) {
    (if css then IsCss(key) else !IsCss(key) && IsJs(key)) && !Referenced(included, entryDir, key)
  }

  /** The list the loop builds, in key order, before sorting. */
  function Injected(keys: seq<string>, included: set<string>, entryDir: string, css: bool): seq<string>
    decreases |keys|
  {
    if keys == [] then []
    else Injected(keys[..|keys| - 1], included, entryDir, css)
         + (if Injects(included, entryDir, keys[|keys| - 1], css) then [keys[|keys| - 1]] else [])
  }

  /** Pass 3 of the preview builder: the keys to inject, each list sorted. */
  method AutoInjectLists(fm: FileMap, entryDir: string, included: set<string>)
    returns (autoCss: seq<string>, autoJs: seq<string>)
    ensures autoCss == SortStrings(Injected(fm.keys, included, entryDir, true))
    ensures autoJs == SortStrings(Injected(fm.keys, included, entryDir, false))
  {
    autoCss, autoJs := [], [];
    var keys := fm.keys;
    for i := 0 to |keys|
      invariant autoCss == Injected(keys[..i], included, entryDir, true)
      invariant autoJs == Injected(keys[..i], included, entryDir, false)
    {
      assert keys[..i + 1][..i] == keys[..i];
      var key := keys[i];
      var css, js := ClassifyKey(key, entryDir, included);
      if css {
        autoCss := autoCss + [key];
      } else if js {
        autoJs := autoJs + [key];
      }
    }
    assert keys[..|keys|] == keys;
    autoCss := SortStrings(autoCss);
    autoJs := SortStrings(autoJs);
  }

  /** One iteration of pass 3: whether `key` joins the style-sheet list or
      the script list. */
  method ClassifyKey(key: string, entryDir: string, included: set<string>) returns (css: bool, js: bool)
    ensures css == Injects(included, entryDir, key, true)
    ensures js == Injects(included, entryDir, key, false)
  {
    var isCss := IsCss(key);
    var isJs := IsJs(key);
    css, js := false, false;
    if !isCss && !isJs {
      return;
    }
    var rel: string;
    if entryDir != "" {
      rel := GetRelativePath(entryDir, key);
    } else {
      rel := key;
    }
    var relDot := if StartsWith(rel, "../") || StartsWith(rel, "./") then rel else "./" + rel;
    var already := key in included || "/" + key in included || rel in included || relDot in included;
    if already {
      return;
    }
    css, js := isCss, !isCss;
  }

  lemma {:induction false} InjectedMembers(keys: seq<string>, included: set<string>, entryDir: string, css: bool)
    ensures forall k :: k in Injected(keys, included, entryDir, css) <==> k in keys && Injects(included, entryDir, k, css)
    decreases |keys|
  {
    if keys != [] {
      InjectedMembers(keys[..|keys| - 1], included, entryDir, css);
      assert keys == keys[..|keys| - 1] + [keys[|keys| - 1]];
    }
  }

  /** The style-sheet list holds exactly the `.css` keys the page does not
      already refer to, the script list exactly the `.js` keys (that are not
      `.css`) it does not refer to, and each list is sorted. */
  lemma AutoInjectSpec(fm: FileMap, entryDir: string, included: set<string>)
    ensures var css := SortStrings(Injected(fm.keys, included, entryDir, true));
            var js := SortStrings(Injected(fm.keys, included, entryDir, false));
            SortedBy(css, LexLeq) && SortedBy(js, LexLeq)
            && (forall k :: k in css <==> k in fm.keys && IsCss(k) && !Referenced(included, entryDir, k))
            && (forall k :: k in js <==> k in fm.keys && !IsCss(k) && IsJs(k) && !Referenced(included, entryDir, k))
  {
    var a := Injected(fm.keys, included, entryDir, true);
    var b := Injected(fm.keys, included, entryDir, false);
    InjectedMembers(fm.keys, included, entryDir, true);
    InjectedMembers(fm.keys, included, entryDir, false);
    forall k ensures k in SortStrings(a) <==> k in a {
      assert k in SortStrings(a) <==> k in multiset(SortStrings(a));
      assert k in a <==> k in multiset(a);
    }
    forall k ensures k in SortStrings(b) <==> k in b {
      assert k in SortStrings(b) <==> k in multiset(SortStrings(b));
      assert k in b <==> k in multiset(b);
    }
  }
}
