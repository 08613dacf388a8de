/**
  Path helpers of the preview builder in `lib/files.ts`, whose logic the
  chat panel repeats: `dirname`, the `..`-stack normalisation, the
  query/hash cut, the HTML name test and the longest-suffix fallback.
*/
module Paths {
  import opened Text

  // ---------------------------------------------------------------------------
  // dirname
  // ---------------------------------------------------------------------------

  /** `dirname`: the text before the last `/`, or `""` when there is none. */
  function Dirname(p: string): string {
    var idx := LastIndexOf(p, '/');
    if idx == -1 then "" else p[..idx]
  }

  /** A path with a `/` is its directory, a `/` and a last part free of `/`;
      a path without one has the empty directory. */
  lemma DirnameSpec(p: string)
    ensures '/' !in p ==> Dirname(p) == ""
    ensures '/' in p ==> exists base :: '/' !in base && p == Dirname(p) + "/" + base
  {
    LastIndexOfSpec(p, '/');
    var idx := LastIndexOf(p, '/');
    if idx != -1 {
      var base := p[idx + 1..];
      assert p == p[..idx] + "/" + base;
      assert forall c :: c in base ==> c != '/';
    }
  }

  // ---------------------------------------------------------------------------
  // normalizePath
  // ---------------------------------------------------------------------------

  /** A segment the normalisation keeps. */
  predicate Plain(seg: string) {
    seg != "" && seg != "." && seg != ".."
  }

  /** One iteration of the stack loop: empty and `.` parts are skipped, `..`
      pops (nothing when the stack is empty), anything else is pushed. */
  function StackStep(stack: seq<string>, part: string): seq<string> {
    if part == "" || part == "." then stack
    else if part == ".." then (if stack == [] then [] else stack[..|stack| - 1])
    else stack + [part]
  }

  /** The stack after running the loop over `parts`, starting from `stack`. */
  function Run(stack: seq<string>, parts: seq<string>): seq<string>
    decreases |parts|
  {
    if parts == [] then stack else Run(StackStep(stack, parts[0]), parts[1..])
  }

  /** The stack after all parts, starting empty. */
  function Normalize(parts: seq<string>): seq<string> {
    Run([], parts)
  }

  /** `normalizePath(p)` as a value. */
  function Normalized(p: string): string {
    Join(Normalize(Split(p, '/')), "/")
  }

  /** Running over `a + b` is running over `a`, then over `b`. */
  lemma {:induction false} RunAppend(stack: seq<string>, a: seq<string>, b: seq<string>)
    ensures Run(stack, a + b) == Run(Run(stack, a), b)
    decreases |a|
  {
    if a == [] {
      assert a + b == b;
    } else {
      assert (a + b)[1..] == a[1..] + b;
      RunAppend(StackStep(stack, a[0]), a[1..], b);
    }
  }

  /** `normalizePath`: split on `/`, run the stack, join with `/`. */
  method NormalizePath(p: string) returns (r: string)
    ensures r == Normalized(p)
  {
    var parts := Split(p, '/');
    var stack: seq<string> := [];
    for i := 0 to |parts|
      invariant stack == Run([], parts[..i])
    {
      RunAppend([], parts[..i], [parts[i]]);
      assert parts[..i + 1] == parts[..i] + [parts[i]];
      var part := parts[i];
      if part == "" || part == "." {
        continue;
      }
      if part == ".." {
        if stack != [] {
          stack := stack[..|stack| - 1];
        }
      } else {
        stack := stack + [part];
      }
    }
    assert parts[..|parts|] == parts;
    r := Join(stack, "/");
  }

  /** Every segment on the stack was on it before or is a plain part. */
  lemma {:induction false} RunClean(stack: seq<string>, parts: seq<string>)
    ensures forall s :: s in Run(stack, parts) ==> s in stack || (Plain(s) && s in parts)
    decreases |parts|
  {
    if parts != [] {
      var next := StackStep(stack, parts[0]);
      RunClean(next, parts[1..]);
      assert forall s :: s in next ==> s in stack || (Plain(s) && s == parts[0]);
      assert forall s :: s in parts[1..] ==> s in parts;
    }
  }

  /** Every segment the normalisation yields is plain and was one of the parts. */
  lemma NormalizeClean(parts: seq<string>)
    ensures forall s :: s in Normalize(parts) ==> Plain(s) && s in parts
  {
    RunClean([], parts);
  }

  /** Plain parts are pushed one after another. */
  lemma {:induction false} RunOfPlain(stack: seq<string>, parts: seq<string>)
    requires forall s :: s in parts ==> Plain(s)
    ensures Run(stack, parts) == stack + parts
    decreases |parts|
  {
    if parts != [] {
      assert parts[0] in parts;
      assert forall s :: s in parts[1..] ==> s in parts;
      RunOfPlain(stack + [parts[0]], parts[1..]);
      assert stack + [parts[0]] + parts[1..] == stack + parts;
    }
  }

  /** Empty parts change nothing: running over the parts or over their
      non-empty ones gives the same stack. */
  lemma {:induction false} RunNonEmpty(stack: seq<string>, parts: seq<string>)
    ensures Run(stack, NonEmpty(parts)) == Run(stack, parts)
    decreases |parts|
  {
    if parts != [] {
      RunNonEmpty(StackStep(stack, parts[0]), parts[1..]);
      if parts[0] != "" {
        assert ([parts[0]] + NonEmpty(parts[1..]))[1..] == NonEmpty(parts[1..]);
      }
    }
  }

  /** Normalising a path only looks at its non-empty segments. */
  lemma NormalizedBySegments(p: string)
    ensures Normalized(p) == Join(Run([], Segments(p)), "/")
  {
    RunNonEmpty([], Split(p, '/'));
  }

  /** `n` parts `..` in a row. */
  function Ups(n: nat): seq<string> {
    if n == 0 then [] else [".."] + Ups(n - 1)
  }

  /** Each `..` takes back one segment. */
  lemma {:induction false} RunUps(stack: seq<string>, n: nat)
    requires n <= |stack|
    ensures Run(stack, Ups(n)) == stack[..|stack| - n]
    decreases n
  {
    if n > 0 {
      RunUps(stack[..|stack| - 1], n - 1);
      assert stack[..|stack| - 1][..|stack| - 1 - (n - 1)] == stack[..|stack| - n];
    }
  }

  /** Parts that are all plain come out unchanged. */
  lemma NormalizeOfPlain(parts: seq<string>)
    requires forall s :: s in parts ==> Plain(s)
    ensures Normalize(parts) == parts
  {
    RunOfPlain([], parts);
  }

  /** A non-empty output has no empty, `.` or `..` segment. */
  lemma NormalizedSegments(p: string)
    ensures Normalized(p) != "" ==> forall s :: s in Split(Normalized(p), '/') ==> Plain(s) && '/' !in s
  {
    var st := Normalize(Split(p, '/'));
    NormalizeClean(Split(p, '/'));
    SplitPartsFree(p, '/');
    if st != [] {
      SplitJoin(st, '/');
    }
  }

  /** Normalising twice is normalising once. */
  lemma NormalizedIdempotent(p: string)
    ensures Normalized(Normalized(p)) == Normalized(p)
  {
    var st := Normalize(Split(p, '/'));
    NormalizeClean(Split(p, '/'));
    SplitPartsFree(p, '/');
    if st == [] {
      assert Split("", '/') == [""];
      assert Run(StackStep([], ""), []) == [];
    } else {
      SplitJoin(st, '/');
      NormalizeOfPlain(st);
    }
  }

  // ---------------------------------------------------------------------------
  // Query and hash
  // ---------------------------------------------------------------------------

  /** `/[?#].*$/` matches at `i`: a `?` or `#` with no line terminator after it
      (`.` does not match one, and `$` is the end of the input). */
  predicate CutsAt(s: string, i: nat) {
    i < |s| && (s[i] == '?' || s[i] == '#')
    && forall j :: i < j < |s| ==> !IsLineTerminator(s[j])
  }

  /** The first position from `i` where the pattern matches, or `|s|`. */
  function FirstCut(s: string, i: nat): nat
    requires i <= |s|
    decreases |s| - i
  {
    if i == |s| then |s| else if CutsAt(s, i) then i else FirstCut(s, i + 1)
  }

  /** `s.replace(/[?#].*$/, '')` */
  function StripQuery(s: string): string {
    var n := FirstCut(s, 0);
    assert n <= |s| by { FirstCutSpec(s, 0); }
    s[..n]
  }

  lemma {:induction false} FirstCutSpec(s: string, i: nat)
    requires i <= |s|
    ensures i <= FirstCut(s, i) <= |s|
    ensures FirstCut(s, i) < |s| ==> CutsAt(s, FirstCut(s, i))
    ensures forall j :: i <= j < FirstCut(s, i) ==> !CutsAt(s, j)
    decreases |s| - i
  {
    if i < |s| && !CutsAt(s, i) {
      FirstCutSpec(s, i + 1);
    }
  }

  /** The query/hash cut keeps a prefix: all of `s` when no `?` or `#` starts
      a match, otherwise everything before the first one that does. With no
      line terminator in `s`, the kept prefix holds neither `?` nor `#`. */
  lemma StripQuerySpec(s: string)
    ensures StartsWith(s, StripQuery(s))
    ensures StripQuery(s) == s <==> forall j :: 0 <= j < |s| ==> !CutsAt(s, j)
    ensures |StripQuery(s)| < |s| ==> s[|StripQuery(s)|] == '?' || s[|StripQuery(s)|] == '#'
    ensures (forall j :: 0 <= j < |s| ==> !IsLineTerminator(s[j])) ==> '?' !in StripQuery(s) && '#' !in StripQuery(s)
  {
    FirstCutSpec(s, 0);
    var n := FirstCut(s, 0);
    if forall j :: 0 <= j < |s| ==> !IsLineTerminator(s[j]) {
      forall j | 0 <= j < n ensures s[j] != '?' && s[j] != '#' {
        assert !CutsAt(s, j);
      }
    }
  }

  // ---------------------------------------------------------------------------
  // Names
  // ---------------------------------------------------------------------------

  /** `/\.(html?|htm)$/i` and `n.toLowerCase().endsWith('.html' | '.htm')` */
  predicate IsHtmlName(n: string) {
    EndsWith(Lower(n), ".html") || EndsWith(Lower(n), ".htm")
  }

  // ---------------------------------------------------------------------------
  // Longest suffix match
  // ---------------------------------------------------------------------------

  /** The key, lower-cased, ends with one of the two lower-cased forms. */
  predicate Matches(key: string, a: string, b: string) {
    EndsWith(Lower(key), Lower(a)) || EndsWith(Lower(key), Lower(b))
  }

  /** The match test as a value, so that the loop below can be reasoned
      about for any test. */
  function MatchFor(a: string, b: string): string -> bool {
    key => Matches(key, a, b)
  }

  /** One iteration: a matching key replaces `best` when there is none yet,
      when `best` is the (falsy) empty key, or when it is strictly longer. */
  function BestStep(best: Option<string>, key: string, m: string -> bool): Option<string> {
    if m(key) && (best.None? || best.value == "" || |key| > |best.value|) then Some(key)
    else best
  }

  /** The loop over the keys in order, for the match test `m`. */
  function BestBy(keys: seq<string>, m: string -> bool): Option<string>
    decreases |keys|
  {
    if keys == [] then None else BestStep(BestBy(keys[..|keys| - 1], m), keys[|keys| - 1], m)
  }

  /** The longest-suffix fallback for the forms `a` and `b`. */
  function BestSuffix(keys: seq<string>, a: string, b: string): Option<string> {
    BestBy(keys, MatchFor(a, b))
  }

  /** The longest-suffix loop of `resolveAssetPath` and `tryResolve`. */
  method BestSuffixMatch(keys: seq<string>, a: string, b: string) returns (best: Option<string>)
    ensures best == BestSuffix(keys, a, b)
  {
    best := None;
    var la, lb := Lower(a), Lower(b);
    for i := 0 to |keys|
      invariant best == BestBy(keys[..i], MatchFor(a, b))
    {
      assert keys[..i + 1][..i] == keys[..i];
      var key := keys[i];
      var lk := Lower(key);
      if EndsWith(lk, la) || EndsWith(lk, lb) {
        if best.None? || best.value == "" || |key| > |best.value| {
          best := Some(key);
        }
      }
    }
    assert keys[..|keys|] == keys;
  }

  /** For any match test: nothing is found exactly when no key matches;
      otherwise a matching key at some position `i` is found, no matching key
      is longer, and every earlier non-empty matching key is strictly shorter. */
  lemma {:induction false} BestBySpec(keys: seq<string>, m: string -> bool)
    ensures var r := BestBy(keys, m);
            (r.None? <==> forall j :: 0 <= j < |keys| ==> !m(keys[j]))
            && (r.Some? ==>
                  m(r.value)
                  && (forall j :: 0 <= j < |keys| && m(keys[j]) ==> |keys[j]| <= |r.value|)
                  && exists i :: 0 <= i < |keys| && keys[i] == r.value
                              && forall j :: 0 <= j < i && m(keys[j]) && keys[j] != "" ==> |keys[j]| < |r.value|)
    decreases |keys|
  {
    if keys != [] {
      var init := keys[..|keys| - 1];
      var key := keys[|keys| - 1];
      BestBySpec(init, m);
      LastSplit(keys);
      BestStepKeepsBest(init, key, m, BestBy(init, m));
    }
  }

  /** What `BestBySpec` states of the result `r` over `keys`. */
  ghost predicate BestOf(keys: seq<string>, m: string -> bool, r: Option<string>) {
    (r.None? <==> forall j :: 0 <= j < |keys| ==> !m(keys[j]))
    && (r.Some? ==>
          m(r.value)
          && (forall j :: 0 <= j < |keys| && m(keys[j]) ==> |keys[j]| <= |r.value|)
          && exists i :: 0 <= i < |keys| && keys[i] == r.value
                      && forall j :: 0 <= j < i && m(keys[j]) && keys[j] != "" ==> |keys[j]| < |r.value|)
  }

  /** One more key keeps the best so far the best. */
  lemma BestStepKeepsBest(init: seq<string>, key: string, m: string -> bool, prev: Option<string>)
    requires BestOf(init, m, prev)
    ensures BestOf(init + [key], m, BestStep(prev, key, m))
  {
    var keys := init + [key];
    var r := BestStep(prev, key, m);
    if r != prev {
      assert keys[|keys| - 1] == r.value;
      forall j | 0 <= j < |keys| - 1 && m(keys[j]) && keys[j] != "" ensures |keys[j]| < |r.value| {
        assert init[j] == keys[j];
      }
      forall j | 0 <= j < |keys| && m(keys[j]) ensures |keys[j]| <= |r.value| {
        if j < |init| {
          assert init[j] == keys[j];
        }
      }
    } else if r.Some? {
      var i :| 0 <= i < |init| && init[i] == r.value
               && forall j :: 0 <= j < i && m(init[j]) && init[j] != "" ==> |init[j]| < |r.value|;
      assert keys[i] == r.value;
      forall j | 0 <= j < i && m(keys[j]) && keys[j] != "" ensures |keys[j]| < |r.value| {
        assert init[j] == keys[j];
      }
      forall j | 0 <= j < |keys| && m(keys[j]) ensures |keys[j]| <= |r.value| {
        if j < |init| {
          assert init[j] == keys[j];
        }
      }
    } else {
      forall j | 0 <= j < |keys| ensures !m(keys[j]) {
        if j < |init| {
          assert init[j] == keys[j];
        }
      }
    }
  }

  /** The longest-suffix fallback: nothing is found exactly when no key ends
      (ignoring ASCII case) with either form; otherwise the result is such a
      key, none is longer, and on equal length the earlier key wins. */
  lemma BestSuffixSpec(keys: seq<string>, a: string, b: string)
    ensures var r := BestSuffix(keys, a, b);
            (r.None? <==> forall j :: 0 <= j < |keys| ==> !Matches(keys[j], a, b))
            && (r.Some? ==>
                  Matches(r.value, a, b)
                  && (forall j :: 0 <= j < |keys| && Matches(keys[j], a, b) ==> |keys[j]| <= |r.value|)
                  && exists i :: 0 <= i < |keys| && keys[i] == r.value
                              && forall j :: 0 <= j < i && Matches(keys[j], a, b) && keys[j] != "" ==> |keys[j]| < |r.value|)
  {
    BestBySpec(keys, MatchFor(a, b));
  }
}
