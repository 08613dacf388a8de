/**
  The client-side patch helpers of `lib/agent.ts`.

  `applyPatchesToMap` works on a copy of the file map that a loop reassigns
  patch by patch; `fileMapToArray` lists the entries in key order.
*/
module Agent {
  import opened Text
  import opened FileMaps

  // ---------------------------------------------------------------------------
  // Removing a key
  // ---------------------------------------------------------------------------

  /** The key order with `k` taken out (the rest of a destructuring). */
  function Without(keys: seq<string>, k: string): seq<string> {
    if keys == [] then []
    else if keys[0] == k then Without(keys[1..], k)
    else [keys[0]] + Without(keys[1..], k)
  }

  lemma {:induction false} WithoutMembers(keys: seq<string>, k: string)
    ensures forall x :: x in Without(keys, k) <==> x in keys && x != k
    decreases |keys|
  {
    if keys != [] {
      WithoutMembers(keys[1..], k);
      assert keys == [keys[0]] + keys[1..];
    }
  }

  lemma {:induction false} WithoutDistinct(keys: seq<string>, k: string)
    requires Distinct(keys)
    ensures Distinct(Without(keys, k))
    decreases |keys|
  {
    if keys != [] {
      WithoutDistinct(keys[1..], k);
      WithoutMembers(keys[1..], k);
      if keys[0] != k {
        var r := Without(keys, k);
        forall i, j | 0 <= i < j < |r| ensures r[i] != r[j] {
          if i == 0 {
            assert r[j] in Without(keys[1..], k);
            assert keys[0] !in keys[1..];
          }
        }
      }
    }
  }

  lemma {:induction false} WithoutSubsequence(keys: seq<string>, k: string)
    ensures IsSubsequence(Without(keys, k), keys)
    decreases |keys|
  {
    if keys != [] {
      WithoutSubsequence(keys[1..], k);
      if keys[0] != k {
        assert Without(keys, k)[1..] == Without(keys[1..], k);
      }
    }
  }

  /** The map with `k` removed, other entries and their order untouched. */
  function Remove(fm: FileMap, k: string): FileMap {
    FileMap(Without(fm.keys, k), fm.contents - {k})
  }

  lemma RemoveValid(fm: FileMap, k: string)
    requires Valid(fm)
    ensures Valid(Remove(fm, k))
  {
    WithoutMembers(fm.keys, k);
    WithoutDistinct(fm.keys, k);
  }

  // ---------------------------------------------------------------------------
  // Patches
  // ---------------------------------------------------------------------------

  /** `action`: the two kinds the type names, and any other value, which the
      loop passes over. */
  datatype Action = SearchReplace | Delete | OtherAction

  /** An `AgentPatch`; `None` stands for a `search` or `replace` that is not a
      string. */
  datatype Patch = Patch(file: string, action: Action, search: Option<string>, replace: Option<string>)

  /** When a search/replace patch rewrites its file: the file holds non-empty
      content, both strings are present and the search occurs in it. */
  predicate Rewrites(fm: FileMap, p: Patch) {
    p.action == SearchReplace
    && p.file in fm.contents && fm.contents[p.file] != ""
    && p.search.Some? && p.replace.Some?
    && Contains(fm.contents[p.file], p.search.value)
  }

  /** One iteration of the loop in `applyPatchesToMap`. */
  function ApplyOne(fm: FileMap, p: Patch): FileMap {
    match p.action
    case Delete => Remove(fm, p.file)
    case SearchReplace =>
      if Rewrites(fm, p) then
        FileMap(fm.keys, fm.contents[p.file := ReplaceFirst(fm.contents[p.file], p.search.value, p.replace.value)])
      else fm
    case OtherAction => fm
  }

  /** The patches applied in sequence, each to the result of the earlier ones. */
  function ApplyAll(fm: FileMap, ps: seq<Patch>): FileMap
    decreases |ps|
  {
    if ps == [] then fm else ApplyOne(ApplyAll(fm, ps[..|ps| - 1]), ps[|ps| - 1])
  }

  /** `applyPatchesToMap`: `next` starts as a copy of the input (a value, so
      the caller's map is never changed) and is reassigned once per patch. */
  method ApplyPatchesToMap(fileMap: FileMap, patches: seq<Patch>) returns (next: FileMap)
    ensures next == ApplyAll(fileMap, patches)
  {
    next := fileMap;
    for i := 0 to |patches|
      invariant next == ApplyAll(fileMap, patches[..i])
    {
      assert patches[..i + 1][..i] == patches[..i];
      var p := patches[i];
      if p.action == Delete {
        next := FileMap(Without(next.keys, p.file), next.contents - {p.file});
      } else if p.action == SearchReplace {
        if p.file !in next.contents || next.contents[p.file] == "" {
          continue;
        }
        var current := next.contents[p.file];
        if p.search.None? || p.replace.None? {
          continue;
        }
        if Contains(current, p.search.value) {
          next := next.(contents := next.contents[p.file := ReplaceFirst(current, p.search.value, p.replace.value)]);
        }
      }
    }
    assert patches[..|patches|] == patches;
  }

  // ---------------------------------------------------------------------------
  // What one patch does
  // ---------------------------------------------------------------------------

  /** A delete removes exactly its key; every other entry keeps its content and
      the remaining keys keep their order. */
  lemma DeleteRemovesExactly(fm: FileMap, p: Patch)
    requires p.action == Delete
    ensures forall k :: k in ApplyOne(fm, p).contents <==> k in fm.contents && k != p.file
    ensures forall k :: k in ApplyOne(fm, p).contents ==> ApplyOne(fm, p).contents[k] == fm.contents[k]
    ensures IsSubsequence(ApplyOne(fm, p).keys, fm.keys)
    ensures p.file !in ApplyOne(fm, p).keys
  {
    WithoutSubsequence(fm.keys, p.file);
    WithoutMembers(fm.keys, p.file);
  }

  /** A search/replace that applies rewrites the first occurrence of the search
      in its file and nothing else: what precedes and follows it is kept, other
      files are untouched and the key order does not change. */
  lemma ReplaceRewritesFirstOccurrence(fm: FileMap, p: Patch)
    requires Rewrites(fm, p)
    ensures ApplyOne(fm, p).keys == fm.keys
    ensures ApplyOne(fm, p).contents.Keys == fm.contents.Keys
    ensures forall k :: k in fm.contents && k != p.file ==> ApplyOne(fm, p).contents[k] == fm.contents[k]
    ensures var s := fm.contents[p.file];
            var pat := p.search.value;
            exists i :: OccursAt(s, pat, i)
                     && (forall j :: 0 <= j < i ==> !OccursAt(s, pat, j))
                     && ApplyOne(fm, p).contents[p.file] == s[..i] + p.replace.value + s[i + |pat|..]
  {
    ReplaceFirstSplits(fm.contents[p.file], p.search.value, p.replace.value);
  }

  /** A search/replace leaves the map as it is when the file is missing or
      empty, when search or replace is not a string, or when the search does
      not occur; so does an unknown action. */
  lemma SkippedPatchIsNoOp(fm: FileMap, p: Patch)
    requires p.action == OtherAction
          || (p.action == SearchReplace
              && (p.file !in fm.contents || fm.contents[p.file] == ""
                  || p.search.None? || p.replace.None?
                  || !Contains(fm.contents[p.file], p.search.value)))
    ensures ApplyOne(fm, p) == fm
  {
  }

  lemma ApplyOneValid(fm: FileMap, p: Patch)
    requires Valid(fm)
    ensures Valid(ApplyOne(fm, p))
  {
    if p.action == Delete {
      RemoveValid(fm, p.file);
    }
  }

  // ---------------------------------------------------------------------------
  // What a sequence of patches does
  // ---------------------------------------------------------------------------

  /** Some patch in `ps` deletes `k`. */
  predicate Deletes(ps: seq<Patch>, k: string) {
    exists i :: 0 <= i < |ps| && ps[i].action == Delete && ps[i].file == k
  }

  /** A search/replace never adds a key: the keys after all patches are the
      original keys that no patch deletes, still in their original order. */
  lemma {:induction false} ApplyAllKeys(fm: FileMap, ps: seq<Patch>)
    ensures forall k :: k in ApplyAll(fm, ps).contents <==> k in fm.contents && !Deletes(ps, k)
    ensures IsSubsequence(ApplyAll(fm, ps).keys, fm.keys)
    decreases |ps|
  {
    if ps == [] {
      SubsequenceRefl(fm.keys);
    } else {
      var init := ps[..|ps| - 1];
      var p := ps[|ps| - 1];
      var before := ApplyAll(fm, init);
      ApplyAllKeys(fm, init);
      forall k ensures Deletes(ps, k) <==> Deletes(init, k) || (p.action == Delete && p.file == k) {
        if Deletes(ps, k) {
          var i :| 0 <= i < |ps| && ps[i].action == Delete && ps[i].file == k;
          if i < |ps| - 1 {
            assert init[i] == ps[i];
          }
        }
        if Deletes(init, k) {
          var i :| 0 <= i < |init| && init[i].action == Delete && init[i].file == k;
          assert ps[i] == init[i];
        }
      }
      if p.action == Delete {
        DeleteRemovesExactly(before, p);
        SubsequenceTrans(ApplyOne(before, p).keys, before.keys, fm.keys);
      }
    }
  }

  lemma {:induction false} SubsequenceTrans(a: seq<string>, b: seq<string>, c: seq<string>)
    requires IsSubsequence(a, b) && IsSubsequence(b, c)
    ensures IsSubsequence(a, c)
    decreases |c|
  {
    if |c| > 0 {
      if |b| > 0 && b[0] == c[0] && IsSubsequence(b[1..], c[1..]) {
        if |a| > 0 && a[0] == b[0] && IsSubsequence(a[1..], b[1..]) {
          SubsequenceTrans(a[1..], b[1..], c[1..]);
        } else {
          SubsequenceTrans(a, b[1..], c[1..]);
        }
      } else {
        SubsequenceTrans(a, b, c[1..]);
      }
    }
  }

  /** The loop keeps every map a valid object. */
  lemma {:induction false} ApplyAllValid(fm: FileMap, ps: seq<Patch>)
    requires Valid(fm)
    ensures Valid(ApplyAll(fm, ps))
    decreases |ps|
  {
    if ps != [] {
      ApplyAllValid(fm, ps[..|ps| - 1]);
      ApplyOneValid(ApplyAll(fm, ps[..|ps| - 1]), ps[|ps| - 1]);
    }
  }

  /** Applying `ps + qs` is applying `ps`, then `qs` to the result. */
  lemma {:induction false} ApplyAllAppend(fm: FileMap, ps: seq<Patch>, qs: seq<Patch>)
    ensures ApplyAll(fm, ps + qs) == ApplyAll(ApplyAll(fm, ps), qs)
    decreases |qs|
  {
    if qs == [] {
      assert ps + qs == ps;
    } else {
      assert (ps + qs)[..|ps + qs| - 1] == ps + qs[..|qs| - 1];
      ApplyAllAppend(fm, ps, qs[..|qs| - 1]);
    }
  }

  // ---------------------------------------------------------------------------
  // fileMapToArray
  // ---------------------------------------------------------------------------

  /** `{ name, content }` */
  datatype NamedFile = NamedFile(name: string, content: string)

  function Names(a: seq<NamedFile>): seq<string>
    decreases |a|
  {
    if a == [] then [] else Names(a[..|a| - 1]) + [a[|a| - 1].name]
  }

  lemma {:induction false} NamesAt(a: seq<NamedFile>)
    ensures |Names(a)| == |a|
    ensures forall i :: 0 <= i < |a| ==> Names(a)[i] == a[i].name
    decreases |a|
  {
    if a != [] {
      NamesAt(a[..|a| - 1]);
    }
  }

  /** No two entries share a name. */
  predicate DistinctNames(a: seq<NamedFile>) {
    forall i, j :: 0 <= i < j < |a| ==> a[i].name != a[j].name
  }

  /** The entries for the keys `ks`, in that order. */
  function Entries(ks: seq<string>, contents: map<string, string>): seq<NamedFile>
    requires forall k :: k in ks ==> k in contents
  {
    seq(|ks|, i requires 0 <= i < |ks| => NamedFile(ks[i], contents[ks[i]]))
  }

  /** `fileMapToArray`: one entry per key, in key order, with that key's content. */
  function FileMapToArray(fm: FileMap): seq<NamedFile>
    requires Valid(fm)
  {
    Entries(fm.keys, fm.contents)
  }

  /** A file map built from a list the way an object literal assignment does:
      a later entry with a name already present overwrites the content but
      keeps the first position. */
  function FromArray(a: seq<NamedFile>): FileMap
    decreases |a|
  {
    if a == [] then Empty()
    else Assign(FromArray(a[..|a| - 1]), a[|a| - 1].name, a[|a| - 1].content)
  }

  /** The entries name every key once, in order, each with its own content. */
  lemma FileMapToArrayEntries(fm: FileMap)
    requires Valid(fm)
    ensures Names(FileMapToArray(fm)) == fm.keys
    ensures forall i :: 0 <= i < |fm.keys| ==> FileMapToArray(fm)[i].content == fm.contents[fm.keys[i]]
    ensures forall k :: k in fm.contents <==> exists i :: 0 <= i < |FileMapToArray(fm)| && FileMapToArray(fm)[i].name == k
  {
    var a := FileMapToArray(fm);
    NamesAt(a);
    forall k | k in fm.contents ensures exists i :: 0 <= i < |a| && a[i].name == k {
      var i :| 0 <= i < |fm.keys| && fm.keys[i] == k;
      assert a[i].name == k;
    }
  }

  lemma {:induction false} FromEntries(ks: seq<string>, contents: map<string, string>)
    requires Distinct(ks)
    requires forall k :: k in ks ==> k in contents
    ensures FromArray(Entries(ks, contents)).keys == ks
    ensures forall k :: k in FromArray(Entries(ks, contents)).contents <==> k in ks
    ensures forall k :: k in ks ==> FromArray(Entries(ks, contents)).contents[k] == contents[k]
    decreases |ks|
  {
    if ks != [] {
      var init := ks[..|ks| - 1];
      var last := ks[|ks| - 1];
      LastSplit(ks);
      FromEntries(init, contents);
      FromEntriesLast(ks, contents);
      AssignNewKey(FromArray(Entries(init, contents)), init, last, contents);
    }
  }

  /** Assigning a key not yet present to a map holding `init` from `src`
      gives a map holding `init + [k]` from `src`. */
  lemma AssignNewKey(m: FileMap, init: seq<string>, k: string, src: map<string, string>)
    requires m.keys == init && k !in init && k in src
    requires forall x :: x in m.contents <==> x in init
    requires forall x :: x in init ==> x in src && m.contents[x] == src[x]
    ensures var r := Assign(m, k, src[k]);
            r.keys == init + [k]
            && (forall x :: x in r.contents <==> x in init + [k])
            && (forall x :: x in init + [k] ==> r.contents[x] == src[x])
  {
  }

  /** The last entry of a distinct key list is appended to the map of the others. */
  lemma FromEntriesLast(ks: seq<string>, contents: map<string, string>)
    requires ks != [] && Distinct(ks)
    requires forall k :: k in ks ==> k in contents
    ensures var init := ks[..|ks| - 1];
            var last := ks[|ks| - 1];
            FromArray(Entries(ks, contents)) == Assign(FromArray(Entries(init, contents)), last, contents[last])
            && last !in init
  {
    var a := Entries(ks, contents);
    var init := ks[..|ks| - 1];
    var last := ks[|ks| - 1];
    assert a[..|a| - 1] == Entries(init, contents);
    assert last !in init by {
      forall j | 0 <= j < |init| ensures init[j] != last {
        assert ks[j] != ks[|ks| - 1];
      }
    }
  }

  /** Listing a valid map and rebuilding it gives back the same map. */
  lemma FromArrayOfFileMapToArray(fm: FileMap)
    requires Valid(fm)
    ensures FromArray(FileMapToArray(fm)) == fm
  {
    FromEntries(fm.keys, fm.contents);
    assert FromArray(FileMapToArray(fm)).contents == fm.contents;
  }

  /** A list with distinct names rebuilds into a map whose keys are those
      names in list order, each holding its entry's content. */
  lemma {:induction false} FromArrayOfDistinct(a: seq<NamedFile>)
    requires DistinctNames(a)
    ensures FromArray(a).keys == Names(a)
    ensures forall k :: k in FromArray(a).contents <==> k in Names(a)
    ensures forall i :: 0 <= i < |a| ==> a[i].name in FromArray(a).contents && FromArray(a).contents[a[i].name] == a[i].content
    decreases |a|
  {
    if a != [] {
      var init := a[..|a| - 1];
      FromArrayOfDistinct(init);
      FromArrayOfDistinctStep(a);
    }
  }

  /** The facts of `FromArrayOfDistinct` carried from the front of a list to
      the whole list: its last name is new, so it is appended. */
  lemma FromArrayOfDistinctStep(a: seq<NamedFile>)
    requires a != [] && DistinctNames(a)
    requires var init := a[..|a| - 1];
             FromArray(init).keys == Names(init)
             && (forall k :: k in FromArray(init).contents <==> k in Names(init))
             && (forall i :: 0 <= i < |init| ==> init[i].name in FromArray(init).contents && FromArray(init).contents[init[i].name] == init[i].content)
    ensures FromArray(a).keys == Names(a)
    ensures forall k :: k in FromArray(a).contents <==> k in Names(a)
    ensures forall i :: 0 <= i < |a| ==> a[i].name in FromArray(a).contents && FromArray(a).contents[a[i].name] == a[i].content
  {
    var init := a[..|a| - 1];
    var e := a[|a| - 1];
    NamesAt(init);
    assert e.name !in Names(init) by {
      forall j | 0 <= j < |init| ensures Names(init)[j] != e.name {
        assert init[j] == a[j];
      }
    }
    forall i | 0 <= i < |a| - 1
      ensures a[i].name in FromArray(a).contents && FromArray(a).contents[a[i].name] == a[i].content
    {
      assert init[i] == a[i];
    }
  }

  /** Rebuilding a list with distinct names and listing it again gives back the
      same list. */
  lemma FileMapToArrayOfFromArray(a: seq<NamedFile>)
    requires DistinctNames(a)
    ensures Valid(FromArray(a))
    ensures FileMapToArray(FromArray(a)) == a
  {
    FromArrayOfDistinct(a);
    NamesAt(a);
  }
}
