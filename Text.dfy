/**
  String helpers shared by every modelled source file.

  A JavaScript string is a sequence of UTF-16 code units; here it is a
  `string`, a sequence of `char`. Case mapping (`toLowerCase`,
  `toUpperCase`) is modelled on ASCII letters only. The regular expressions
  the sources use for a prefix, a suffix or a run of slashes are written out
  as the functions below.
*/
module Text {

  datatype Option<+T> = None | Some(value: T)

  // ---------------------------------------------------------------------------
  // Prefixes, suffixes, occurrences
  // ---------------------------------------------------------------------------

  /** `s.startsWith(p)` */
  predicate StartsWith(s: string, p: string) {
    |p| <= |s| && s[..|p|] == p
  }

  /** `s.endsWith(p)` */
  predicate EndsWith(s: string, p: string) {
    |p| <= |s| && s[|s| - |p|..] == p
  }

  /** `pat` occurs in `s` at index `i`. */
  predicate OccursAt(s: string, pat: string, i: int) {
    0 <= i && i + |pat| <= |s| && s[i..i + |pat|] == pat
  }

  /** The first occurrence of `pat` in `s` at or after `k`. */
  function IndexFrom(s: string, pat: string, k: nat): (r: Option<nat>)
    requires k <= |s|
    ensures r.Some? ==> k <= r.value && OccursAt(s, pat, r.value)
    ensures r.Some? ==> forall j :: k <= j < r.value ==> !OccursAt(s, pat, j)
    ensures r.None? ==> forall j :: k <= j ==> !OccursAt(s, pat, j)
    decreases |s| - k
  {
    if OccursAt(s, pat, k) then Some(k)
    else if k == |s| then None
    else IndexFrom(s, pat, k + 1)
  }

  /** `s.indexOf(pat)`, with `None` for -1. */
  function IndexOf(s: string, pat: string): Option<nat> {
    IndexFrom(s, pat, 0)
  }

  /** `s.includes(pat)` */
  predicate Contains(s: string, pat: string) {
    IndexOf(s, pat).Some?
  }

  lemma ContainsIff(s: string, pat: string)
    ensures Contains(s, pat) <==> exists i :: OccursAt(s, pat, i)
  {
  }

  /**
    `s.replace(pat, rep)` with a string pattern: only the first occurrence is
    replaced. The replacement is literal (no `$` substitution patterns).
  */
  function ReplaceFirst(s: string, pat: string, rep: string): string {
    match IndexOf(s, pat)
    case None => s
    case Some(i) => s[..i] + rep + s[i + |pat|..]
  }

  /** Replacing the first occurrence: what precedes it is kept, the occurrence
      becomes `rep`, and what follows is kept. */
  lemma ReplaceFirstSplits(s: string, pat: string, rep: string)
    requires Contains(s, pat)
    ensures exists i :: OccursAt(s, pat, i)
                     && (forall j :: 0 <= j < i ==> !OccursAt(s, pat, j))
                     && ReplaceFirst(s, pat, rep) == s[..i] + rep + s[i + |pat|..]
  {
    var i := IndexOf(s, pat).value;
    assert OccursAt(s, pat, i);
  }

  // ---------------------------------------------------------------------------
  // Case mapping (ASCII)
  // ---------------------------------------------------------------------------

  function LowerChar(c: char): char {
    if 'A' <= c <= 'Z' then (c as int + 32) as char else c
  }

  function UpperChar(c: char): char {
    if 'a' <= c <= 'z' then (c as int - 32) as char else c
  }

  /** `s.toLowerCase()` on ASCII letters. */
  function Lower(s: string): (r: string)
    ensures |r| == |s|
    ensures forall i :: 0 <= i < |s| ==> r[i] == LowerChar(s[i])
  {
    seq(|s|, i requires 0 <= i < |s| => LowerChar(s[i]))
  }

  /** `s.toUpperCase()` on ASCII letters. */
  function Upper(s: string): (r: string)
    ensures |r| == |s|
    ensures forall i :: 0 <= i < |s| ==> r[i] == UpperChar(s[i])
  {
    seq(|s|, i requires 0 <= i < |s| => UpperChar(s[i]))
  }

  lemma LowerSlice(s: string, i: nat, j: nat)
    requires i <= j <= |s|
    ensures Lower(s[i..j]) == Lower(s)[i..j]
  {
  }

  lemma LowerAppend(a: string, b: string)
    ensures Lower(a + b) == Lower(a) + Lower(b)
  {
  }

  lemma LowerIdempotent(s: string)
    ensures Lower(Lower(s)) == Lower(s)
  {
  }

  /** A suffix of `s` stays a suffix after lower-casing both. */
  lemma LowerKeepsSuffix(s: string, t: string)
    requires EndsWith(s, t)
    ensures EndsWith(Lower(s), Lower(t))
  {
    LowerSlice(s, |s| - |t|, |s|);
  }

  lemma StartsWithTrans(s: string, t: string, u: string)
    requires StartsWith(s, t) && StartsWith(t, u)
    ensures StartsWith(s, u)
  {
    assert s[..|u|] == s[..|t|][..|u|];
  }

  lemma EndsWithTrans(s: string, t: string, u: string)
    requires EndsWith(s, t) && EndsWith(t, u)
    ensures EndsWith(s, u)
  {
    assert s[|s| - |u|..] == s[|s| - |t|..][|t| - |u|..];
  }

  // ---------------------------------------------------------------------------
  // Splitting and joining on one separator character
  // ---------------------------------------------------------------------------

  /** `s.split(sep)` for a one-character separator: never empty, and no part
      contains the separator. */
  function Split(s: string, sep: char): (parts: seq<string>)
    ensures |parts| >= 1
    decreases |s|
  {
    if |s| == 0 then [""]
    else
      var rest := Split(s[1..], sep);
      if s[0] == sep then [""] + rest
      else [[s[0]] + rest[0]] + rest[1..]
  }

  /** No part of a split holds the separator. */
  lemma {:induction false} SplitPartsFree(s: string, sep: char)
    ensures forall p :: p in Split(s, sep) ==> sep !in p
    decreases |s|
  {
    if |s| > 0 {
      SplitPartsFree(s[1..], sep);
      var rest := Split(s[1..], sep);
      assert rest[0] in rest;
      assert forall p :: p in rest[1..] ==> p in rest;
    }
  }

  /** `parts.join(sep)` */
  function Join(parts: seq<string>, sep: string): string
    decreases |parts|
  {
    if |parts| == 0 then ""
    else if |parts| == 1 then parts[0]
    else parts[0] + sep + Join(parts[1..], sep)
  }

  lemma {:induction false} JoinSplit(s: string, sep: char)
    ensures Join(Split(s, sep), [sep]) == s
    decreases |s|
  {
    if |s| > 0 {
      var rest := Split(s[1..], sep);
      JoinSplit(s[1..], sep);
      if s[0] == sep {
        assert s == [sep] + s[1..];
      } else {
        var parts := [[s[0]] + rest[0]] + rest[1..];
        if |rest| == 1 {
          assert s == [s[0]] + s[1..];
        } else {
          assert parts[1..] == rest[1..];
          assert Join(rest, [sep]) == rest[0] + [sep] + Join(rest[1..], [sep]);
          assert s == [s[0]] + s[1..];
        }
      }
    }
  }

  lemma {:induction false} SplitJoin(parts: seq<string>, sep: char)
    requires |parts| >= 1
    requires forall p :: p in parts ==> sep !in p
    ensures Split(Join(parts, [sep]), sep) == parts
    decreases |parts|
  {
    var p0 := parts[0];
    assert p0 in parts;
    SplitNoSep(p0, sep);
    if |parts| > 1 {
      var rest := parts[1..];
      assert forall p :: p in rest ==> p in parts;
      SplitJoin(rest, sep);
      assert Join(parts, [sep]) == p0 + [sep] + Join(rest, [sep]);
      SplitConcat(p0, Join(rest, [sep]), sep);
      assert [p0] + rest == parts;
    }
  }

  /** A join splits at any inner position into the two halves joined by the separator. */
  lemma {:induction false} JoinAt(parts: seq<string>, k: nat, sep: string)
    requires 0 < k < |parts|
    ensures Join(parts, sep) == Join(parts[..k], sep) + sep + Join(parts[k..], sep)
    decreases k
  {
    if k > 1 {
      JoinAt(parts[1..], k - 1, sep);
      assert parts[1..][..k - 1] == parts[..k][1..];
      assert parts[1..][k - 1..] == parts[k..];
      assert Join(parts[..k], sep) == parts[0] + sep + Join(parts[..k][1..], sep);
    }
  }

  /** The non-empty parts of `s.split('/')`, in order: `s.split('/').filter(Boolean)`. */
  function Segments(s: string): seq<string> {
    NonEmpty(Split(s, '/'))
  }

  /** `parts.filter(Boolean)` on strings. */
  function NonEmpty(parts: seq<string>): (r: seq<string>)
    ensures |r| <= |parts|
  {
    if |parts| == 0 then []
    else if parts[0] == "" then NonEmpty(parts[1..])
    else [parts[0]] + NonEmpty(parts[1..])
  }

  /** Filtering keeps exactly the non-empty parts. */
  lemma {:induction false} NonEmptyMembers(parts: seq<string>)
    ensures forall p :: p in NonEmpty(parts) <==> p != "" && p in parts
  {
    if |parts| > 0 {
      NonEmptyMembers(parts[1..]);
      assert parts == [parts[0]] + parts[1..];
    }
  }

  /** A leading separator starts a new, empty first part. */
  lemma SplitHeadSep(s: string, sep: char)
    requires |s| > 0 && s[0] == sep
    ensures Split(s, sep) == [""] + Split(s[1..], sep)
  {
  }

  /** Any other leading character joins the first part. */
  lemma SplitHeadOther(s: string, sep: char)
    requires |s| > 0 && s[0] != sep
    ensures Split(s, sep) == [[s[0]] + Split(s[1..], sep)[0]] + Split(s[1..], sep)[1..]
  {
  }

  /** Splitting around a separator splits each side. */
  lemma {:induction false} SplitConcat(a: string, b: string, sep: char)
    ensures Split(a + [sep] + b, sep) == Split(a, sep) + Split(b, sep)
    decreases |a|
  {
    var s := a + [sep] + b;
    if |a| == 0 {
      assert s[0] == sep && s[1..] == b;
      SplitHeadSep(s, sep);
    } else {
      assert s[0] == a[0] && s[1..] == a[1..] + [sep] + b;
      SplitConcat(a[1..], b, sep);
      SplitConcatStep(a, b, sep);
    }
  }

  /** One step of `SplitConcat`: the first character of `a` leads both splits. */
  lemma SplitConcatStep(a: string, b: string, sep: char)
    requires |a| > 0
    requires Split(a[1..] + [sep] + b, sep) == Split(a[1..], sep) + Split(b, sep)
    ensures Split(a + [sep] + b, sep) == Split(a, sep) + Split(b, sep)
  {
    var s := a + [sep] + b;
    assert s[0] == a[0] && s[1..] == a[1..] + [sep] + b;
    if a[0] == sep {
      SplitHeadSep(s, sep);
      SplitHeadSep(a, sep);
      ConcatAssoc([""], Split(a[1..], sep), Split(b, sep));
    } else {
      SplitHeadOther(s, sep);
      SplitHeadOther(a, sep);
      ConsFirstPart(a[0], Split(a[1..], sep), Split(b, sep));
    }
  }

  /** Gluing a character to the first part commutes with appending more parts. */
  lemma ConsFirstPart(c: char, ra: seq<string>, rb: seq<string>)
    requires |ra| > 0
    ensures var r := ra + rb;
            [[c] + r[0]] + r[1..] == ([[c] + ra[0]] + ra[1..]) + rb
  {
    var r := ra + rb;
    assert r[0] == ra[0];
    assert r[1..] == ra[1..] + rb;
    ConcatAssoc([[c] + ra[0]], ra[1..], rb);
  }

  /** Filtering out empty parts distributes over concatenation. */
  lemma {:induction false} NonEmptyAppend(p: seq<string>, q: seq<string>)
    ensures NonEmpty(p + q) == NonEmpty(p) + NonEmpty(q)
    decreases |p|
  {
    if |p| > 0 {
      NonEmptyAppend(p[1..], q);
      assert (p + q)[1..] == p[1..] + q;
    } else {
      assert p + q == q;
    }
  }

  /** A string without the separator splits into itself. */
  lemma {:induction false} SplitNoSep(s: string, sep: char)
    requires sep !in s
    ensures Split(s, sep) == [s]
    decreases |s|
  {
    if |s| > 0 {
      SplitNoSep(s[1..], sep);
      assert s == [s[0]] + s[1..];
    }
  }

  /** Segments of two strings joined by `/` are the segments of each. */
  lemma SegmentsConcat(a: string, b: string)
    ensures Segments(a + "/" + b) == Segments(a) + Segments(b)
  {
    SplitConcat(a, b, '/');
    NonEmptyAppend(Split(a, '/'), Split(b, '/'));
  }

  /** Non-empty parts free of `/`, joined with `/`, split back into themselves. */
  lemma SegmentsOfJoin(parts: seq<string>)
    requires forall p :: p in parts ==> p != "" && '/' !in p
    ensures Segments(Join(parts, "/")) == parts
  {
    if parts == [] {
      assert Split("", '/') == [""];
    } else {
      SplitJoin(parts, '/');
      NonEmptyOfFull(parts);
    }
  }

  lemma {:induction false} NonEmptyOfFull(parts: seq<string>)
    requires forall p :: p in parts ==> p != ""
    ensures NonEmpty(parts) == parts
    decreases |parts|
  {
    if |parts| > 0 {
      assert forall p :: p in parts[1..] ==> p in parts;
      NonEmptyOfFull(parts[1..]);
      assert parts[0] in parts;
    }
  }

  /** Every segment is non-empty and holds no `/`. */
  lemma SegmentsShape(s: string)
    ensures forall p :: p in Segments(s) ==> p != "" && '/' !in p
  {
    NonEmptyMembers(Split(s, '/'));
    SplitPartsFree(s, '/');
  }

  // ---------------------------------------------------------------------------
  // Dropping runs of characters at either end
  // ---------------------------------------------------------------------------

  /** `p.replace(/^\/+/, '')`: removes every leading `/` and nothing else. */
  function StripLeadingSlashes(s: string): string
    decreases |s|
  {
    if |s| > 0 && s[0] == '/' then StripLeadingSlashes(s[1..]) else s
  }

  /** Stripping leading slashes keeps a suffix that does not start with `/`,
      and drops only slashes. */
  lemma {:induction false} StripLeadingSlashesShape(s: string)
    ensures var r := StripLeadingSlashes(s);
            |r| <= |s| && r == s[|s| - |r|..]
            && (forall i :: 0 <= i < |s| - |r| ==> s[i] == '/')
            && (r == "" || r[0] != '/')
    decreases |s|
  {
    if |s| > 0 && s[0] == '/' {
      StripLeadingSlashesShape(s[1..]);
    }
  }

  /** `p.replace(/\/+$/, '')`: removes every trailing `/` and nothing else. */
  function StripTrailingSlashes(s: string): string
    decreases |s|
  {
    if |s| > 0 && s[|s| - 1] == '/' then StripTrailingSlashes(s[..|s| - 1]) else s
  }

  /** Stripping trailing slashes keeps a prefix that does not end with `/`,
      and drops only slashes. */
  lemma {:induction false} StripTrailingSlashesShape(s: string)
    ensures var r := StripTrailingSlashes(s);
            |r| <= |s| && r == s[..|r|]
            && (forall i :: |r| <= i < |s| ==> s[i] == '/')
            && (r == "" || r[|r| - 1] != '/')
    decreases |s|
  {
    if |s| > 0 && s[|s| - 1] == '/' {
      var p := s[..|s| - 1];
      StripTrailingSlashesShape(p);
      var r := StripTrailingSlashes(p);
      assert r == s[..|r|] by { assert p[..|r|] == s[..|r|]; }
    }
  }

  /** `p.replace(/^\/+|\/+$/g, '')`: removes the leading and the trailing run of `/`. */
  function TrimSlashes(s: string): string {
    StripTrailingSlashes(StripLeadingSlashes(s))
  }

  /** What trimming slashes keeps: the slice of `s` between a leading and a
      trailing run of `/`, starting and ending with another character. */
  lemma TrimSlashesSlice(s: string)
    ensures var r := TrimSlashes(s);
            var i := |s| - |StripLeadingSlashes(s)|;
            0 <= i && i + |r| <= |s| && r == s[i..i + |r|]
            && (forall k :: 0 <= k < i ==> s[k] == '/')
            && (forall k :: i + |r| <= k < |s| ==> s[k] == '/')
            && (r == "" || (r[0] != '/' && r[|r| - 1] != '/'))
  {
    var a := StripLeadingSlashes(s);
    StripLeadingSlashesShape(s);
    StripTrailingSlashesShape(a);
    var r := TrimSlashes(s);
    var i := |s| - |a|;
    assert r == a[..|r|];
    assert forall k :: i + |r| <= k < |s| ==> s[k] == a[k - i];
  }

  /** Trimming a string made only of slashes leaves nothing. */
  lemma TrimSlashesOfSlashes(s: string)
    requires forall k :: 0 <= k < |s| ==> s[k] == '/'
    ensures TrimSlashes(s) == ""
  {
    TrimSlashesSlice(s);
    var r := TrimSlashes(s);
    if |r| > 0 {
      assert false;
    }
  }

  /** A character `String.prototype.trim` removes: the ECMAScript WhiteSpace
      and LineTerminator code points. */
  predicate IsSpace(c: char) {
    c == '\t' || c == '\n' || c == '\r' || c == ' '
    || c == '\U{000B}' || c == '\U{000C}' || c == '\U{00A0}' || c == '\U{1680}'
    || ('\U{2000}' <= c <= '\U{200A}')
    || c == '\U{2028}' || c == '\U{2029}' || c == '\U{202F}' || c == '\U{205F}'
    || c == '\U{3000}' || c == '\U{FEFF}'
  }

  /** A character the regular-expression `.` does not match. */
  predicate IsLineTerminator(c: char) {
    c == '\n' || c == '\r' || c == '\U{2028}' || c == '\U{2029}'
  }

  /** `s.trim()` */
  function TrimStart(s: string): string
    decreases |s|
  {
    if |s| > 0 && IsSpace(s[0]) then TrimStart(s[1..]) else s
  }

  function TrimEnd(s: string): string
    decreases |s|
  {
    if |s| > 0 && IsSpace(s[|s| - 1]) then TrimEnd(s[..|s| - 1]) else s
  }

  function Trim(s: string): string {
    TrimEnd(TrimStart(s))
  }

  lemma {:induction false} TrimStartEmptyIff(s: string)
    ensures TrimStart(s) == "" <==> forall i :: 0 <= i < |s| ==> IsSpace(s[i])
    ensures TrimStart(s) != "" ==> !IsSpace(TrimStart(s)[0])
    decreases |s|
  {
    if |s| > 0 && IsSpace(s[0]) {
      TrimStartEmptyIff(s[1..]);
      assert forall i :: 1 <= i < |s| ==> s[i] == s[1..][i - 1];
    }
  }

  lemma {:induction false} TrimEndEmptyIff(s: string)
    ensures TrimEnd(s) == "" <==> forall i :: 0 <= i < |s| ==> IsSpace(s[i])
    decreases |s|
  {
    if |s| > 0 && IsSpace(s[|s| - 1]) {
      TrimEndEmptyIff(s[..|s| - 1]);
    }
  }

  /** A string trims to nothing exactly when every character is white space. */
  lemma TrimEmptyIff(s: string)
    ensures Trim(s) == "" <==> forall i :: 0 <= i < |s| ==> IsSpace(s[i])
  {
    TrimStartEmptyIff(s);
    TrimEndEmptyIff(TrimStart(s));
  }

  // ---------------------------------------------------------------------------
  // Last index of a character
  // ---------------------------------------------------------------------------

  /** `s.lastIndexOf(c)` for one character, -1 when absent. */
  function LastIndexOf(s: string, c: char): (r: int)
    ensures -1 <= r < |s|
    decreases |s|
  {
    if |s| == 0 then -1
    else if s[|s| - 1] == c then |s| - 1
    else LastIndexOf(s[..|s| - 1], c)
  }

  /** The last index of `c` holds `c` and no later position does; it is -1
      exactly when `c` does not occur. */
  lemma {:induction false} LastIndexOfSpec(s: string, c: char)
    ensures var r := LastIndexOf(s, c);
            (r >= 0 ==> s[r] == c)
            && (forall j :: r < j < |s| ==> s[j] != c)
            && (r == -1 <==> c !in s)
    decreases |s|
  {
    if |s| > 0 && s[|s| - 1] != c {
      var p := s[..|s| - 1];
      LastIndexOfSpec(p, c);
      assert s == p + [s[|s| - 1]];
    }
  }

  /** What follows the last occurrence of `c` holds no `c`. */
  lemma AfterLastIndexFree(s: string, c: char)
    ensures c !in s[LastIndexOf(s, c) + 1..]
  {
    var i := LastIndexOf(s, c);
    LastIndexOfSpec(s, c);
    var rest := s[i + 1..];
    forall j | 0 <= j < |rest| ensures rest[j] != c {
      assert rest[j] == s[i + 1 + j];
    }
  }

  // ---------------------------------------------------------------------------
  // Code-unit order (the default `Array.prototype.sort` on strings)
  // ---------------------------------------------------------------------------

  /** `a` sorts no later than `b` when strings are compared code unit by code unit. */
  predicate LexLeq(a: string, b: string)
    decreases |a|
  {
    |a| == 0 || (|b| > 0 && (a[0] < b[0] || (a[0] == b[0] && LexLeq(a[1..], b[1..]))))
  }

  lemma {:induction false} LexLeqTotal(a: string, b: string)
    ensures LexLeq(a, b) || LexLeq(b, a)
    decreases |a|
  {
    if |a| > 0 && |b| > 0 && a[0] == b[0] {
      LexLeqTotal(a[1..], b[1..]);
    }
  }

  lemma {:induction false} LexLeqTrans(a: string, b: string, c: string)
    requires LexLeq(a, b) && LexLeq(b, c)
    ensures LexLeq(a, c)
    decreases |a|
  {
    if |a| > 0 && |b| > 0 && |c| > 0 && a[0] == b[0] == c[0] {
      LexLeqTrans(a[1..], b[1..], c[1..]);
    }
  }

  lemma {:induction false} LexLeqAntisym(a: string, b: string)
    requires LexLeq(a, b) && LexLeq(b, a)
    ensures a == b
    decreases |a|
  {
    if |a| > 0 {
      LexLeqAntisym(a[1..], b[1..]);
      assert a == [a[0]] + a[1..] && b == [b[0]] + b[1..];
    }
  }

  // ---------------------------------------------------------------------------
  // A stable sort by a total preorder
  // ---------------------------------------------------------------------------

  ghost predicate TotalPreorder<T(!new)>(leq: (T, T) -> bool) {
    (forall a, b :: leq(a, b) || leq(b, a))
    && (forall a, b, c :: leq(a, b) && leq(b, c) ==> leq(a, c))
  }

  ghost predicate SortedBy<T>(s: seq<T>, leq: (T, T) -> bool) {
    forall i, j :: 0 <= i < j < |s| ==> leq(s[i], s[j])
  }

  /** Everything in a permutation of `x` and the tail of a sorted `s` follows
      the head of `s`, when `x` does not come before that head. */
  lemma FollowsHead<T(!new)>(x: T, s: seq<T>, rest: seq<T>, leq: (T, T) -> bool)
    requires TotalPreorder(leq) && SortedBy(s, leq) && |s| > 0 && !leq(x, s[0])
    requires multiset(rest) == multiset(s[1..]) + multiset{x}
    ensures forall j :: 0 <= j < |rest| ==> leq(s[0], rest[j])
  {
    forall j | 0 <= j < |rest| ensures leq(s[0], rest[j]) {
      var y := rest[j];
      assert y in multiset(rest);
      if y != x {
        assert y in multiset(s[1..]);
        var k :| 0 <= k < |s[1..]| && s[1..][k] == y;
        assert s[k + 1] == y;
      }
    }
  }

  /** Inserts `x` before the first element it does not follow. */
  function InsertBy<T(!new)>(x: T, s: seq<T>, leq: (T, T) -> bool): (r: seq<T>)
    requires TotalPreorder(leq) && SortedBy(s, leq)
    ensures SortedBy(r, leq)
    ensures multiset(r) == multiset(s) + multiset{x}
    decreases |s|
  {
    if |s| == 0 then [x]
    else if leq(x, s[0]) then
      assert forall j :: 0 < j < |s| ==> leq(s[0], s[j]);
      [x] + s
    else
      var rest := InsertBy(x, s[1..], leq);
      assert s == [s[0]] + s[1..];
      FollowsHead(x, s, rest, leq);
      [s[0]] + rest
  }

  /** `Array.prototype.sort(compare)` with a comparator that is a total
      preorder: a permutation of `s` sorted by `leq`. */
  function SortBy<T(!new)>(s: seq<T>, leq: (T, T) -> bool): (r: seq<T>)
    requires TotalPreorder(leq)
    ensures SortedBy(r, leq)
    ensures multiset(r) == multiset(s)
    decreases |s|
  {
    if |s| == 0 then []
    else
      assert s == [s[0]] + s[1..];
      InsertBy(s[0], SortBy(s[1..], leq), leq)
  }

  lemma LexLeqIsTotalPreorder()
    ensures TotalPreorder(LexLeq)
  {
    forall a, b ensures LexLeq(a, b) || LexLeq(b, a) { LexLeqTotal(a, b); }
    forall a, b, c | LexLeq(a, b) && LexLeq(b, c) ensures LexLeq(a, c) { LexLeqTrans(a, b, c); }
  }

  /** `strings.sort()`: sorted by code units, a permutation of the input. */
  function SortStrings(s: seq<string>): (r: seq<string>)
    ensures SortedBy(r, LexLeq)
    ensures multiset(r) == multiset(s)
  {
    LexLeqIsTotalPreorder();
    SortBy(s, LexLeq)
  }

  // ---------------------------------------------------------------------------
  /** Sorting keeps the same strings, and the first one precedes them all. */
  lemma SortStringsFirst(s: seq<string>)
    ensures forall k :: k in SortStrings(s) <==> k in s
    ensures SortStrings(s) != [] ==> forall k :: k in s ==> LexLeq(SortStrings(s)[0], k)
  {
    var r := SortStrings(s);
    forall k ensures k in r <==> k in s {
      assert k in r <==> k in multiset(r);
      assert k in s <==> k in multiset(s);
    }
    if r != [] {
      forall k | k in s ensures LexLeq(r[0], k) {
        assert k in r;
        var j :| 0 <= j < |r| && r[j] == k;
        if j == 0 {
          LexLeqTotal(k, k);
        }
      }
    }
  }

  /** A non-empty sequence is its front followed by its last element. */
  lemma LastSplit<T>(s: seq<T>)
    requires |s| > 0
    ensures s == s[..|s| - 1] + [s[|s| - 1]]
  {
  }

  /** Concatenation regroups freely. */
  lemma ConcatAssoc<T>(a: seq<T>, b: seq<T>, c: seq<T>)
    ensures a + (b + c) == (a + b) + c
  {
  }

  // Subsequences
  // ---------------------------------------------------------------------------

  /** `a` is `b` with some elements left out, the rest in their order. */
  predicate IsSubsequence<T(==)>(a: seq<T>, b: seq<T>)
    decreases |b|
  {
    if |b| == 0 then |a| == 0
    else (|a| > 0 && a[0] == b[0] && IsSubsequence(a[1..], b[1..])) || IsSubsequence(a, b[1..])
  }

  lemma {:induction false} SubsequenceRefl<T>(a: seq<T>)
    ensures IsSubsequence(a, a)
    decreases |a|
  {
    if |a| > 0 { SubsequenceRefl(a[1..]); }
  }

  lemma {:induction false} SubsequenceEmpty<T>(b: seq<T>)
    ensures IsSubsequence([], b)
    decreases |b|
  {
    if |b| > 0 { SubsequenceEmpty(b[1..]); }
  }

  lemma {:induction false} SubsequenceConcat<T>(a1: seq<T>, b1: seq<T>, a2: seq<T>, b2: seq<T>)
    requires IsSubsequence(a1, b1) && IsSubsequence(a2, b2)
    ensures IsSubsequence(a1 + a2, b1 + b2)
    decreases |b1|
  {
    if |b1| == 0 {
      assert a1 + a2 == a2 && b1 + b2 == b2;
    } else if |a1| > 0 && a1[0] == b1[0] && IsSubsequence(a1[1..], b1[1..]) {
      SubsequenceConcat(a1[1..], b1[1..], a2, b2);
      assert (a1 + a2)[1..] == a1[1..] + a2;
      assert (b1 + b2)[1..] == b1[1..] + b2;
    } else {
      SubsequenceConcat(a1, b1[1..], a2, b2);
      assert (b1 + b2)[1..] == b1[1..] + b2;
    }
  }

  // ---------------------------------------------------------------------------
  // Numbers as text
  // ---------------------------------------------------------------------------

  function DigitChar(d: nat): char
    requires d < 10
  {
    "0123456789"[d]
  }

  /** `String(n)` for a non-negative integer. */
  function NatToString(n: nat): (r: string)
    ensures |r| >= 1
    ensures forall i :: 0 <= i < |r| ==> '0' <= r[i] <= '9'
    ensures r[0] == '0' ==> n == 0
  {
    if n < 10 then [DigitChar(n)] else NatToString(n / 10) + [DigitChar(n % 10)]
  }

  /** `String(n)` for an integer. */
  function IntToString(n: int): string {
    if n < 0 then "-" + NatToString(-n) else NatToString(n)
  }
}
