/**
  The folder tree that the start page (`buildFolderTree`) and the studio's
  file tree build from `/`-separated file names: every name's non-empty
  segments become a chain of folders ending in one file leaf; folders are
  found or created, file leaves are always appended. Every children list is
  then sorted, folders first, each group by name.

  The source walks a cursor down mutable nodes and sorts the children arrays
  in place; here the tree is a value, the walk is a recursive insertion and
  the sort returns a new tree. `localeCompare` is locale-dependent, so the
  order of names is a parameter `leq`, any total preorder.
*/
module Tree {
  import opened Text

  /** A tree node: a file leaf or a folder with its children. */
  datatype Node =
    | File(name: string, path: string)
    | Folder(name: string, path: string, children: seq<Node>)

  /** `node.path ? node.path + '/' + part : part` */
  function ChildPath(parent: string, part: string): string {
    if parent != "" then parent + "/" + part else part
  }

  // ---------------------------------------------------------------------------
  // Counting over children lists
  // ---------------------------------------------------------------------------

  /** The union of `g` over the elements of `s`. */
  function MsSum<T>(s: seq<T>, g: T -> multiset<string>): multiset<string>
    decreases |s|
  {
    if s == [] then multiset{} else g(s[0]) + MsSum(s[1..], g)
  }

  lemma {:induction false} MsSumAppend<T>(a: seq<T>, b: seq<T>, g: T -> multiset<string>)
    ensures MsSum(a + b, g) == MsSum(a, g) + MsSum(b, g)
    decreases |a|
  {
    if a == [] {
      assert a + b == b;
    } else {
      assert (a + b)[0] == a[0];
      assert (a + b)[1..] == a[1..] + b;
      MsSumAppend(a[1..], b, g);
    }
  }

  /** Replacing one element swaps its share of the union. */
  lemma {:induction false} MsSumUpdate<T>(s: seq<T>, i: nat, x: T, g: T -> multiset<string>)
    requires i < |s|
    ensures MsSum(s[i := x], g) + g(s[i]) == MsSum(s, g) + g(x)
    decreases |s|
  {
    if i == 0 {
      assert s[i := x][1..] == s[1..];
    } else {
      assert s[i := x][0] == s[0];
      assert s[i := x][1..] == s[1..][i - 1 := x];
      assert s[1..][i - 1] == s[i];
      MsSumUpdate(s[1..], i - 1, x, g);
      assert MsSum(s[i := x], g) == g(s[0]) + MsSum(s[1..][i - 1 := x], g);
      assert MsSum(s, g) == g(s[0]) + MsSum(s[1..], g);
      forall y ensures (MsSum(s[i := x], g) + g(s[i]))[y] == (MsSum(s, g) + g(x))[y] {
        assert (MsSum(s[1..][i - 1 := x], g) + g(s[i]))[y] == (MsSum(s[1..], g) + g(x))[y];
      }
    }
  }

  /** The union does not depend on the order of the elements. */
  lemma {:induction false} MsSumPerm<T>(a: seq<T>, b: seq<T>, g: T -> multiset<string>)
    requires multiset(a) == multiset(b)
    ensures MsSum(a, g) == MsSum(b, g)
    decreases |a|
  {
    if a != [] {
      assert a[0] in multiset(b);
      var k :| 0 <= k < |b| && b[k] == a[0];
      var rest := b[..k] + b[k + 1..];
      RemoveAtMultiset(b, k);
      RemoveHeadMultiset(a);
      MsSumPerm(a[1..], rest, g);
      MsSumRemoveAt(b, k, g);
    }
  }

  lemma RemoveAtMultiset<T>(b: seq<T>, k: nat)
    requires k < |b|
    ensures multiset(b[..k] + b[k + 1..]) == multiset(b) - multiset{b[k]}
  {
    assert b == b[..k] + [b[k]] + b[k + 1..];
    assert multiset(b) == multiset(b[..k]) + multiset{b[k]} + multiset(b[k + 1..]);
  }

  lemma RemoveHeadMultiset<T>(a: seq<T>)
    requires a != []
    ensures multiset(a[1..]) == multiset(a) - multiset{a[0]}
  {
    assert a == [a[0]] + a[1..];
  }

  lemma MsSumRemoveAt<T>(b: seq<T>, k: nat, g: T -> multiset<string>)
    requires k < |b|
    ensures MsSum(b, g) == g(b[k]) + MsSum(b[..k] + b[k + 1..], g)
  {
    assert b == b[..k] + [b[k]] + b[k + 1..];
    MsSumAppend(b[..k] + [b[k]], b[k + 1..], g);
    MsSumAppend(b[..k], [b[k]], g);
    MsSumAppend(b[..k], b[k + 1..], g);
  }

  lemma {:induction false} MsSumMember<T>(s: seq<T>, i: nat, g: T -> multiset<string>)
    requires i < |s|
    ensures g(s[i]) <= MsSum(s, g)
    decreases |s|
  {
    if i > 0 {
      assert s[1..][i - 1] == s[i];
      MsSumMember(s[1..], i - 1, g);
    }
  }

  /** The name of a folder, nothing for a file. */
  function FolderName(n: Node): multiset<string> {
    if n.Folder? then multiset{n.name} else multiset{}
  }

  /** The names of the folders in a children list, with repetitions. */
  function FolderNames(ch: seq<Node>): multiset<string> {
    MsSum(ch, FolderName)
  }

  /** A name is among the folder names exactly when some folder child has it. */
  lemma {:induction false} FolderNamesMember(ch: seq<Node>, x: string)
    ensures x in FolderNames(ch) <==> exists i :: 0 <= i < |ch| && ch[i].Folder? && ch[i].name == x
    decreases |ch|
  {
    if ch != [] {
      FolderNamesMember(ch[1..], x);
      if exists i :: 0 <= i < |ch[1..]| && ch[1..][i].Folder? && ch[1..][i].name == x {
        var i :| 0 <= i < |ch[1..]| && ch[1..][i].Folder? && ch[1..][i].name == x;
        assert ch[i + 1] == ch[1..][i];
      }
      if exists i :: 0 < i < |ch| && ch[i].Folder? && ch[i].name == x {
        var i :| 0 < i < |ch| && ch[i].Folder? && ch[i].name == x;
        assert ch[1..][i - 1] == ch[i];
      }
    }
  }

  // ---------------------------------------------------------------------------
  // Leaves and countDescendants
  // ---------------------------------------------------------------------------

  /** The paths of the file leaves of a subtree. */
  function Leaves(n: Node): multiset<string>
    decreases n, 1
  {
    match n
    case File(_, path) => multiset{path}
    case Folder(_, _, ch) => LeavesAll(ch)
  }

  function LeavesAll(ch: seq<Node>): multiset<string>
    decreases ch, 0
  {
    if ch == [] then multiset{} else Leaves(ch[0]) + LeavesAll(ch[1..])
  }

  lemma {:induction false} LeavesAllIsSum(ch: seq<Node>)
    ensures LeavesAll(ch) == MsSum(ch, Leaves)
    decreases |ch|
  {
    if ch != [] {
      LeavesAllIsSum(ch[1..]);
    }
  }

  /** `countDescendants`: files count one, folders count their own. */
  function Count(n: Node): nat
    decreases n, 1
  {
    match n
    case File(_, _) => 0
    case Folder(_, _, ch) => CountAll(ch)
  }

  function CountAll(ch: seq<Node>): nat
    decreases ch, 0
  {
    if ch == [] then 0 else (if ch[0].File? then 1 else Count(ch[0])) + CountAll(ch[1..])
  }

  /** `countDescendants`, with its loop and recursive calls. */
  method CountDescendants(n: Node) returns (count: nat)
    ensures count == Count(n)
    decreases n
  {
    if n.File? || |n.children| == 0 {
      return 0;
    }
    var ch := n.children;
    count := 0;
    for i := 0 to |ch|
      invariant count + CountAll(ch[i..]) == CountAll(ch)
    {
      assert ch[i..][1..] == ch[i + 1..];
      if ch[i].File? {
        count := count + 1;
      } else {
        var c := CountDescendants(ch[i]);
        count := count + c;
      }
    }
  }

  /** A folder's count is the number of file leaves below it. */
  lemma {:induction false} CountIsLeaves(n: Node)
    ensures n.Folder? ==> Count(n) == |Leaves(n)|
    decreases n, 1
  {
    if n.Folder? {
      CountAllIsLeaves(n.children);
    }
  }

  lemma {:induction false} CountAllIsLeaves(ch: seq<Node>)
    ensures CountAll(ch) == |LeavesAll(ch)|
    decreases ch, 0
  {
    if ch != [] {
      CountIsLeaves(ch[0]);
      CountAllIsLeaves(ch[1..]);
    }
  }

  // ---------------------------------------------------------------------------
  // Building
  // ---------------------------------------------------------------------------

  /** `node.children.find(c => !c.isFile && c.name === part)`, as an index;
      `|children|` when there is none. */
  function FindFolder(children: seq<Node>, part: string): (i: nat)
    ensures i <= |children|
    ensures i < |children| ==> children[i].Folder? && children[i].name == part
    ensures forall j :: 0 <= j < i ==> !(children[j].Folder? && children[j].name == part)
    decreases |children|
  {
    if children == [] then 0
    else if children[0].Folder? && children[0].name == part then 0
    else 1 + FindFolder(children[1..], part)
  }

  /** One name's walk: the last part is appended as a file; every other part
      descends into the folder of that name, created at the end when absent. */
  function Insert(children: seq<Node>, parentPath: string, parts: seq<string>): seq<Node>
    requires parts != []
    decreases |parts|
  {
    var part := parts[0];
    if |parts| == 1 then children + [File(part, ChildPath(parentPath, part))]
    else
      var i := FindFolder(children, part);
      if i < |children| then
        var c := children[i];
        children[i := Folder(part, c.path, Insert(c.children, c.path, parts[1..]))]
      else
        var p := ChildPath(parentPath, part);
        children + [Folder(part, p, Insert([], p, parts[1..]))]
  }

  /** The root's children after the loop over the names, before sorting. */
  function BuildChildren(names: seq<string>): seq<Node>
    decreases |names|
  {
    if names == [] then []
    else
      var prev := BuildChildren(names[..|names| - 1]);
      var parts := Segments(names[|names| - 1]);
      if parts == [] then prev else Insert(prev, "", parts)
  }

  /** The path each name's leaf gets: its non-empty segments joined by `/`. */
  function LeafPaths(names: seq<string>): multiset<string>
    decreases |names|
  {
    if names == [] then multiset{}
    else
      var parts := Segments(names[|names| - 1]);
      LeafPaths(names[..|names| - 1]) + (if parts == [] then multiset{} else multiset{Join(parts, "/")})
  }

  /** The number of names that have at least one non-empty segment. */
  function NamedCount(names: seq<string>): nat
    decreases |names|
  {
    if names == [] then 0
    else NamedCount(names[..|names| - 1]) + (if Segments(names[|names| - 1]) == [] then 0 else 1)
  }

  // ---------------------------------------------------------------------------
  // Shape of a built tree
  // ---------------------------------------------------------------------------

  /** Within each children list at most one folder has a given name, no name
      is empty, and each child's path extends its parent's path by its name. */
  ghost predicate WellFormed(n: Node)
    decreases n, 1
  {
    match n
    case File(_, _) => true
    case Folder(_, path, ch) => WellFormedAll(ch, path)
  }

  ghost predicate WellFormedAll(ch: seq<Node>, parent: string)
    decreases ch, 0
  {
    (forall x :: FolderNames(ch)[x] <= 1)
    && forall i :: 0 <= i < |ch| ==>
         ch[i].name != "" && ch[i].path == ChildPath(parent, ch[i].name) && WellFormed(ch[i])
  }

  lemma FindFolderAbsent(children: seq<Node>, part: string)
    requires FindFolder(children, part) == |children|
    ensures FolderNames(children)[part] == 0
    decreases |children|
  {
    if children != [] {
      FindFolderAbsent(children[1..], part);
    }
  }

  lemma FolderNamesAppend(ch: seq<Node>, x: Node)
    ensures FolderNames(ch + [x]) == FolderNames(ch) + FolderName(x)
  {
    MsSumAppend(ch, [x], FolderName);
    assert [x][1..] == [];
  }

  /** Replacing a child by one of the same kind and name keeps the names. */
  lemma FolderNamesUpdate(ch: seq<Node>, i: nat, x: Node)
    requires i < |ch| && x.Folder? == ch[i].Folder? && x.name == ch[i].name
    ensures FolderNames(ch[i := x]) == FolderNames(ch)
  {
    MsSumUpdate(ch, i, x, FolderName);
    assert FolderName(x) == FolderName(ch[i]);
    forall y ensures FolderNames(ch[i := x])[y] == FolderNames(ch)[y] {
      assert (FolderNames(ch[i := x]) + FolderName(x))[y] == (FolderNames(ch) + FolderName(x))[y];
    }
  }

  lemma {:induction false} LeavesAllAppend(a: seq<Node>, b: seq<Node>)
    ensures LeavesAll(a + b) == LeavesAll(a) + LeavesAll(b)
    decreases |a|
  {
    if a == [] {
      assert a + b == b;
    } else {
      assert (a + b)[0] == a[0];
      assert (a + b)[1..] == a[1..] + b;
      LeavesAllAppend(a[1..], b);
    }
  }

  lemma LeavesAllOne(x: Node)
    ensures LeavesAll([x]) == Leaves(x)
  {
    assert [x][1..] == [];
  }

  lemma LeavesAllUpdate(ch: seq<Node>, i: nat, x: Node)
    requires i < |ch|
    ensures LeavesAll(ch[i := x]) + Leaves(ch[i]) == LeavesAll(ch) + Leaves(x)
  {
    LeavesAllIsSum(ch);
    LeavesAllIsSum(ch[i := x]);
    MsSumUpdate(ch, i, x, Leaves);
  }

  /** Appending a well-formed child whose name is new among the folders. */
  lemma WellFormedAppend(ch: seq<Node>, parent: string, x: Node)
    requires WellFormedAll(ch, parent)
    requires x.name != "" && x.path == ChildPath(parent, x.name) && WellFormed(x)
    requires x.Folder? ==> FolderNames(ch)[x.name] == 0
    ensures WellFormedAll(ch + [x], parent)
  {
    FolderNamesAppend(ch, x);
    var r := ch + [x];
    assert forall j :: 0 <= j < |ch| ==> r[j] == ch[j];
    assert r[|ch|] == x;
  }

  /** Replacing a child by a well-formed one of the same kind, name and path. */
  lemma WellFormedUpdate(ch: seq<Node>, parent: string, i: nat, x: Node)
    requires WellFormedAll(ch, parent) && i < |ch|
    requires x.Folder? == ch[i].Folder? && x.name == ch[i].name && x.path == ch[i].path && WellFormed(x)
    ensures WellFormedAll(ch[i := x], parent)
  {
    FolderNamesUpdate(ch, i, x);
    var r := ch[i := x];
    assert forall j :: 0 <= j < |ch| && j != i ==> r[j] == ch[j];
  }

  /** An insertion adds a folder named by the first part when there are more
      parts to come, and no other. */
  lemma {:induction false} InsertFolderNames(children: seq<Node>, parentPath: string, parts: seq<string>)
    requires parts != []
    ensures forall x :: x in FolderNames(Insert(children, parentPath, parts)) <==>
                        x in FolderNames(children) || (|parts| > 1 && x == parts[0])
  {
    var part := parts[0];
    if |parts| == 1 {
      FolderNamesAppend(children, File(part, ChildPath(parentPath, part)));
    } else {
      var i := FindFolder(children, part);
      if i < |children| {
        var c := children[i];
        var c2 := Folder(part, c.path, Insert(c.children, c.path, parts[1..]));
        FolderNamesUpdate(children, i, c2);
        MsSumMember(children, i, FolderName);
        assert FolderName(c) == multiset{part};
      } else {
        var p := ChildPath(parentPath, part);
        FolderNamesAppend(children, Folder(part, p, Insert([], p, parts[1..])));
      }
    }
  }

  /** An insertion keeps each list free of duplicate folder names and keeps
      every path the parent's path extended by the name. */
  lemma {:induction false} InsertWellFormed(children: seq<Node>, parentPath: string, parts: seq<string>)
    requires parts != [] && forall k :: 0 <= k < |parts| ==> parts[k] != ""
    requires WellFormedAll(children, parentPath)
    ensures WellFormedAll(Insert(children, parentPath, parts), parentPath)
    decreases |parts|
  {
    var part := parts[0];
    if |parts| == 1 {
      WellFormedAppend(children, parentPath, File(part, ChildPath(parentPath, part)));
    } else {
      var rest := parts[1..];
      assert forall k :: 0 <= k < |rest| ==> rest[k] == parts[k + 1];
      var i := FindFolder(children, part);
      if i < |children| {
        var c := children[i];
        assert WellFormed(c);
        InsertWellFormed(c.children, c.path, rest);
        WellFormedUpdate(children, parentPath, i, Folder(part, c.path, Insert(c.children, c.path, rest)));
      } else {
        var p := ChildPath(parentPath, part);
        assert WellFormedAll([], p) by {
          assert FolderNames([]) == multiset{};
        }
        InsertWellFormed([], p, rest);
        FindFolderAbsent(children, part);
        WellFormedAppend(children, parentPath, Folder(part, p, Insert([], p, rest)));
      }
    }
  }

  /** Cancelling a common part of two unions. */
  lemma MsCancel(a: multiset<string>, b: multiset<string>, c: multiset<string>, d: multiset<string>)
    requires a + c == b + (c + d)
    ensures a == b + d
  {
    forall y ensures a[y] == (b + d)[y] {
      assert (a + c)[y] == (b + (c + d))[y];
    }
  }

  /** A child's path extended by the rest of the parts is the parent's path
      extended by all of them. */
  lemma ChildPathJoin(parent: string, parts: seq<string>)
    requires |parts| > 1 && parts[0] != ""
    ensures ChildPath(ChildPath(parent, parts[0]), Join(parts[1..], "/")) == ChildPath(parent, Join(parts, "/"))
  {
    assert Join(parts, "/") == parts[0] + "/" + Join(parts[1..], "/");
  }

  /** An insertion adds exactly one leaf, at the parent's path extended by
      the parts joined with `/`. */
  lemma {:induction false} InsertLeaves(children: seq<Node>, parentPath: string, parts: seq<string>)
    requires parts != [] && forall k :: 0 <= k < |parts| ==> parts[k] != ""
    requires WellFormedAll(children, parentPath)
    ensures LeavesAll(Insert(children, parentPath, parts))
            == LeavesAll(children) + multiset{ChildPath(parentPath, Join(parts, "/"))}
    decreases |parts|, 1
  {
    var part := parts[0];
    if |parts| == 1 {
      var leaf := File(part, ChildPath(parentPath, part));
      LeavesAllAppend(children, [leaf]);
      LeavesAllOne(leaf);
    } else {
      var rest := parts[1..];
      assert forall k :: 0 <= k < |rest| ==> rest[k] == parts[k + 1];
      ChildPathJoin(parentPath, parts);
      var q := ChildPath(parentPath, Join(parts, "/"));
      var i := FindFolder(children, part);
      if i < |children| {
        InsertLeavesFound(children, parentPath, parts, i);
      } else {
        var p := ChildPath(parentPath, part);
        assert WellFormedAll([], p) by {
          assert FolderNames([]) == multiset{};
        }
        InsertLeaves([], p, rest);
        var c2 := Folder(part, p, Insert([], p, rest));
        LeavesAllAppend(children, [c2]);
        LeavesAllOne(c2);
        assert LeavesAll([]) == multiset{};
      }
    }
  }

  /** The step of `InsertLeaves` that descends into an existing folder. */
  lemma {:induction false} InsertLeavesFound(children: seq<Node>, parentPath: string, parts: seq<string>, i: nat)
    requires |parts| > 1 && forall k :: 0 <= k < |parts| ==> parts[k] != ""
    requires WellFormedAll(children, parentPath)
    requires i == FindFolder(children, parts[0]) && i < |children|
    ensures LeavesAll(Insert(children, parentPath, parts))
            == LeavesAll(children) + multiset{ChildPath(parentPath, Join(parts, "/"))}
    decreases |parts|, 0
  {
    var rest := parts[1..];
    assert forall k :: 0 <= k < |rest| ==> rest[k] == parts[k + 1];
    var c := children[i];
    assert WellFormed(c) && c.path == ChildPath(parentPath, parts[0]);
    ChildPathJoin(parentPath, parts);
    var q := ChildPath(parentPath, Join(parts, "/"));
    InsertLeaves(c.children, c.path, rest);
    var c2 := Folder(parts[0], c.path, Insert(c.children, c.path, rest));
    assert Insert(children, parentPath, parts) == children[i := c2];
    LeavesAllUpdate(children, i, c2);
    assert Leaves(c2) == Leaves(c) + multiset{q};
    MsCancel(LeavesAll(children[i := c2]), LeavesAll(children), Leaves(c), multiset{q});
  }

  lemma BuildStep(names: seq<string>)
    requires names != []
    ensures var parts := Segments(names[|names| - 1]);
            parts != [] ==> forall k :: 0 <= k < |parts| ==> parts[k] != ""
  {
    var parts := Segments(names[|names| - 1]);
    SegmentsShape(names[|names| - 1]);
    assert forall k :: 0 <= k < |parts| ==> parts[k] in parts;
  }

  /** The unsorted tree is well formed, and its leaves are the names' joined
      segments, one per name that has any. */
  lemma {:induction false} BuildChildrenLeaves(names: seq<string>)
    ensures WellFormedAll(BuildChildren(names), "")
    ensures LeavesAll(BuildChildren(names)) == LeafPaths(names)
    decreases |names|
  {
    if names != [] {
      var init := names[..|names| - 1];
      BuildChildrenLeaves(init);
      var parts := Segments(names[|names| - 1]);
      if parts != [] {
        BuildStep(names);
        InsertWellFormed(BuildChildren(init), "", parts);
        InsertLeaves(BuildChildren(init), "", parts);
      }
    }
  }

  /** A name opens a top-level folder when it has more than one segment. */
  predicate OpensFolder(name: string, x: string) {
    |Segments(name)| > 1 && Segments(name)[0] == x
  }

  /** Some name of `names` opens the folder `x`. */
  predicate OpensFolderIn(names: seq<string>, x: string) {
    exists k :: 0 <= k < |names| && OpensFolder(names[k], x)
  }

  /** The top-level folders of the unsorted tree are the first segments of
      the names that have more than one. */
  lemma {:induction false} BuildChildrenFolders(names: seq<string>)
    ensures forall x :: x in FolderNames(BuildChildren(names)) <==> OpensFolderIn(names, x)
    decreases |names|
  {
    if names != [] {
      var init := names[..|names| - 1];
      BuildChildrenFolders(init);
      BuildChildrenFoldersLast(names);
      OpensFolderSnoc(names);
    }
  }

  /** The last name adds its first segment as a folder exactly when it has more than one. */
  lemma BuildChildrenFoldersLast(names: seq<string>)
    requires names != []
    ensures forall x :: x in FolderNames(BuildChildren(names)) <==>
                        x in FolderNames(BuildChildren(names[..|names| - 1])) || OpensFolder(names[|names| - 1], x)
  {
    var parts := Segments(names[|names| - 1]);
    if parts != [] {
      InsertFolderNames(BuildChildren(names[..|names| - 1]), "", parts);
    }
  }

  lemma OpensFolderSnoc(names: seq<string>)
    requires names != []
    ensures forall x :: OpensFolderIn(names, x) <==>
                        OpensFolderIn(names[..|names| - 1], x) || OpensFolder(names[|names| - 1], x)
  {
    var init := names[..|names| - 1];
    forall x | OpensFolderIn(names, x)
      ensures OpensFolderIn(init, x) || OpensFolder(names[|names| - 1], x)
    {
      var k :| 0 <= k < |names| && OpensFolder(names[k], x);
      if k < |init| {
        assert init[k] == names[k];
      }
    }
    forall x | OpensFolderIn(init, x)
      ensures OpensFolderIn(names, x)
    {
      var k :| 0 <= k < |init| && OpensFolder(init[k], x);
      assert names[k] == init[k];
    }
  }

  /** One leaf per name with a non-empty segment. */
  lemma {:induction false} LeafPathsSize(names: seq<string>)
    ensures |LeafPaths(names)| == NamedCount(names)
    decreases |names|
  {
    if names != [] {
      LeafPathsSize(names[..|names| - 1]);
    }
  }

  // ---------------------------------------------------------------------------
  // sortNodes
  // ---------------------------------------------------------------------------

  /** The comparator: a folder before a file, otherwise by name. */
  function NodeOrder(leq: (string, string) -> bool): (Node, Node) -> bool {
    (a: Node, b: Node) => if a.File? != b.File? then a.Folder? else leq(a.name, b.name)
  }

  lemma NodeOrderIsTotalPreorder(leq: (string, string) -> bool)
    requires TotalPreorder(leq)
    ensures TotalPreorder(NodeOrder(leq))
  {
    var o := NodeOrder(leq);
    forall a: Node, b: Node, c: Node | o(a, b) && o(b, c) ensures o(a, c) {
      if a.File? == b.File? && b.File? == c.File? {
        assert leq(a.name, b.name) && leq(b.name, c.name);
      }
    }
    forall a: Node, b: Node ensures o(a, b) || o(b, a) {
      if a.File? == b.File? {
        assert leq(a.name, b.name) || leq(b.name, a.name);
      }
    }
  }

  /** `sortNodes`: every children list sorted, folders first, each group by
      name. */
  function SortNodes(n: Node, leq: (string, string) -> bool): Node
    requires TotalPreorder(leq)
    decreases n, 1
  {
    match n
    case File(_, _) => n
    case Folder(name, path, ch) =>
      NodeOrderIsTotalPreorder(leq);
      Folder(name, path, SortBy(SortAll(ch, leq), NodeOrder(leq)))
  }

  function SortAll(ch: seq<Node>, leq: (string, string) -> bool): (r: seq<Node>)
    requires TotalPreorder(leq)
    ensures |r| == |ch|
    decreases ch, 0
  {
    if ch == [] then [] else [SortNodes(ch[0], leq)] + SortAll(ch[1..], leq)
  }

  /** Every children list of the tree is ordered by `NodeOrder(leq)`. */
  ghost predicate Sorted(n: Node, leq: (string, string) -> bool)
    decreases n, 1
  {
    match n
    case File(_, _) => true
    case Folder(_, _, ch) => SortedBy(ch, NodeOrder(leq)) && SortedAll(ch, leq)
  }

  ghost predicate SortedAll(ch: seq<Node>, leq: (string, string) -> bool)
    decreases ch, 0
  {
    forall i :: 0 <= i < |ch| ==> Sorted(ch[i], leq)
  }

  /** Sorting inside a node keeps its name, path and kind, so the comparator
      sees the same thing before and after. */
  lemma SortNodesKeepsKey(n: Node, leq: (string, string) -> bool)
    requires TotalPreorder(leq)
    ensures SortNodes(n, leq).name == n.name && SortNodes(n, leq).path == n.path
    ensures SortNodes(n, leq).Folder? == n.Folder?
  {
  }

  lemma {:induction false} SortAllAt(ch: seq<Node>, leq: (string, string) -> bool)
    requires TotalPreorder(leq)
    ensures forall k :: 0 <= k < |ch| ==> SortAll(ch, leq)[k] == SortNodes(ch[k], leq)
    decreases |ch|
  {
    if ch != [] {
      SortAllAt(ch[1..], leq);
    }
  }

  lemma {:induction false} FolderNamesSortAll(ch: seq<Node>, leq: (string, string) -> bool)
    requires TotalPreorder(leq)
    ensures FolderNames(SortAll(ch, leq)) == FolderNames(ch)
    decreases |ch|
  {
    if ch != [] {
      FolderNamesSortAll(ch[1..], leq);
      SortNodesKeepsKey(ch[0], leq);
      assert FolderName(SortNodes(ch[0], leq)) == FolderName(ch[0]);
    }
  }

  /** A permutation of a well-formed list is well formed. */
  lemma WellFormedPerm(a: seq<Node>, b: seq<Node>, parent: string)
    requires multiset(a) == multiset(b) && WellFormedAll(b, parent)
    ensures WellFormedAll(a, parent)
  {
    MsSumPerm(a, b, FolderName);
    assert FolderNames(a) == FolderNames(b);
    forall j | 0 <= j < |a|
      ensures a[j].name != "" && a[j].path == ChildPath(parent, a[j].name) && WellFormed(a[j])
    {
      assert a[j] in multiset(b);
      var k :| 0 <= k < |b| && b[k] == a[j];
    }
  }

  /** A permutation of a list of sorted subtrees is one too. */
  lemma SortedAllPerm(a: seq<Node>, b: seq<Node>, leq: (string, string) -> bool)
    requires multiset(a) == multiset(b) && SortedAll(b, leq)
    ensures SortedAll(a, leq)
  {
    forall j | 0 <= j < |a| ensures Sorted(a[j], leq) {
      assert a[j] in multiset(b);
      var k :| 0 <= k < |b| && b[k] == a[j];
    }
  }

  /** Sorting keeps the leaves and the well-formedness of a subtree and
      leaves every children list in it sorted. */
  lemma {:induction false} SortNodesSpec(n: Node, leq: (string, string) -> bool)
    requires TotalPreorder(leq)
    ensures Leaves(SortNodes(n, leq)) == Leaves(n)
    ensures WellFormed(n) ==> WellFormed(SortNodes(n, leq))
    ensures Sorted(SortNodes(n, leq), leq)
    decreases n, 1
  {
    if n.Folder? {
      var ch := n.children;
      SortAllSpec(ch, n.path, leq);
      NodeOrderIsTotalPreorder(leq);
      var r := SortAll(ch, leq);
      var sorted := SortBy(r, NodeOrder(leq));
      LeavesAllIsSum(r);
      LeavesAllIsSum(sorted);
      MsSumPerm(sorted, r, Leaves);
      SortedAllPerm(sorted, r, leq);
      if WellFormed(n) {
        WellFormedPerm(sorted, r, n.path);
      }
    }
  }

  lemma {:induction false} SortAllSpec(ch: seq<Node>, parent: string, leq: (string, string) -> bool)
    requires TotalPreorder(leq)
    ensures LeavesAll(SortAll(ch, leq)) == LeavesAll(ch)
    ensures WellFormedAll(ch, parent) ==> WellFormedAll(SortAll(ch, leq), parent)
    ensures SortedAll(SortAll(ch, leq), leq)
    decreases ch, 0
  {
    var r := SortAll(ch, leq);
    SortAllAt(ch, leq);
    forall k | 0 <= k < |ch| ensures Sorted(r[k], leq) {
      SortNodesSpec(ch[k], leq);
    }
    if ch != [] {
      SortNodesSpec(ch[0], leq);
      SortAllSpec(ch[1..], parent, leq);
    }
    if WellFormedAll(ch, parent) {
      FolderNamesSortAll(ch, leq);
      forall k | 0 <= k < |ch|
        ensures r[k].name != "" && r[k].path == ChildPath(parent, r[k].name) && WellFormed(r[k])
      {
        SortNodesSpec(ch[k], leq);
        SortNodesKeepsKey(ch[k], leq);
      }
    }
  }

  /** A sorted children list has every folder before every file, and each
      group in the order of `leq`. */
  lemma SortedMeans(ch: seq<Node>, leq: (string, string) -> bool)
    requires SortedBy(ch, NodeOrder(leq))
    ensures forall i, j :: 0 <= i < j < |ch| && ch[i].File? ==> ch[j].File?
    ensures forall i, j :: 0 <= i < j < |ch| && ch[i].File? == ch[j].File? ==> leq(ch[i].name, ch[j].name)
  {
    forall i, j | 0 <= i < j < |ch| ensures NodeOrder(leq)(ch[i], ch[j]) {
    }
  }

  /** `sortNodes` sorts a list before descending into its children; sorting
      the children first gives the same list, because the comparator only
      reads names and kinds. */
  lemma {:induction false} InsertBySortAll(x: Node, s: seq<Node>, leq: (string, string) -> bool)
    requires TotalPreorder(leq) && TotalPreorder(NodeOrder(leq))
    requires SortedBy(s, NodeOrder(leq)) && SortedBy(SortAll(s, leq), NodeOrder(leq))
    ensures InsertBy(SortNodes(x, leq), SortAll(s, leq), NodeOrder(leq)) == SortAll(InsertBy(x, s, NodeOrder(leq)), leq)
    decreases |s|
  {
    SortNodesKeepsKey(x, leq);
    if s != [] {
      SortNodesKeepsKey(s[0], leq);
      var o := NodeOrder(leq);
      assert o(SortNodes(x, leq), SortNodes(s[0], leq)) == o(x, s[0]);
      assert SortAll(s, leq)[1..] == SortAll(s[1..], leq);
      if !o(x, s[0]) {
        InsertBySortAll(x, s[1..], leq);
        assert InsertBy(x, s, o) == [s[0]] + InsertBy(x, s[1..], o);
        assert SortAll([s[0]] + InsertBy(x, s[1..], o), leq)[1..] == SortAll(InsertBy(x, s[1..], o), leq);
      } else {
        assert SortAll([x] + s, leq)[1..] == SortAll(s, leq);
      }
    }
  }

  lemma {:induction false} SortedBySortAll(s: seq<Node>, leq: (string, string) -> bool)
    requires TotalPreorder(leq) && SortedBy(s, NodeOrder(leq))
    ensures SortedBy(SortAll(s, leq), NodeOrder(leq))
  {
    SortAllAt(s, leq);
    forall i, j | 0 <= i < j < |s|
      ensures NodeOrder(leq)(SortAll(s, leq)[i], SortAll(s, leq)[j])
    {
      SortNodesKeepsKey(s[i], leq);
      SortNodesKeepsKey(s[j], leq);
    }
  }

  /** Sorting a list and then each element's subtree, as the source does,
      gives the same list as the model's order of work. */
  lemma {:induction false} SortCommutes(ch: seq<Node>, leq: (string, string) -> bool)
    requires TotalPreorder(leq)
    ensures TotalPreorder(NodeOrder(leq))
    ensures SortBy(SortAll(ch, leq), NodeOrder(leq)) == SortAll(SortBy(ch, NodeOrder(leq)), leq)
    decreases |ch|
  {
    NodeOrderIsTotalPreorder(leq);
    if ch != [] {
      var o := NodeOrder(leq);
      SortCommutes(ch[1..], leq);
      assert SortAll(ch, leq)[1..] == SortAll(ch[1..], leq);
      var t := SortBy(ch[1..], o);
      SortedBySortAll(t, leq);
      InsertBySortAll(ch[0], t, leq);
    }
  }

  // ---------------------------------------------------------------------------
  // buildFolderTree
  // ---------------------------------------------------------------------------

  /** The tree `buildFolderTree(names)` returns. */
  function Build(names: seq<string>, leq: (string, string) -> bool): Node
    requires TotalPreorder(leq)
  {
    SortNodes(Folder("", "", BuildChildren(names)), leq)
  }

  /** `buildFolderTree`: the loop over the names, then `sortNodes`. */
  method BuildFolderTree(names: seq<string>, leq: (string, string) -> bool) returns (root: Node)
    requires TotalPreorder(leq)
    ensures root == Build(names, leq)
  {
    var children: seq<Node> := [];
    for i := 0 to |names|
      invariant children == BuildChildren(names[..i])
    {
      assert names[..i + 1][..i] == names[..i];
      var parts := Segments(names[i]);
      if parts != [] {
        children := Insert(children, "", parts);
      }
    }
    assert names[..|names|] == names;
    root := SortNodes(Folder("", "", children), leq);
  }

  /** The built tree is well formed (one folder per name in each list, every
      path its parent's path and its name); every children list is sorted;
      its leaves are the names' joined non-empty segments, one per name
      that has any, so `countDescendants` of the root counts those names;
      and its top-level folders are the first segments of the names with
      more than one segment. */
  lemma BuildFolderTreeSpec(names: seq<string>, leq: (string, string) -> bool)
    requires TotalPreorder(leq)
    ensures var t := Build(names, leq);
            t.Folder? && t.path == "" && WellFormed(t) && Sorted(t, leq)
            && Leaves(t) == LeafPaths(names)
            && Count(t) == NamedCount(names)
            && (forall x :: x in FolderNames(t.children) <==>
                  exists k :: 0 <= k < |names| && OpensFolder(names[k], x))
  {
    var ch := BuildChildren(names);
    var root := Folder("", "", ch);
    BuildChildrenLeaves(names);
    BuildChildrenFolders(names);
    SortNodesSpec(root, leq);
    var t := Build(names, leq);
    CountIsLeaves(t);
    LeafPathsSize(names);
    NodeOrderIsTotalPreorder(leq);
    var r := SortAll(ch, leq);
    FolderNamesSortAll(ch, leq);
    MsSumPerm(SortBy(r, NodeOrder(leq)), r, FolderName);
  }

  // ---------------------------------------------------------------------------
  // Toggling a path in a set
  // ---------------------------------------------------------------------------

  /** `next.has(path) ? next.delete(path) : next.add(path)` on a copy. */
  function Toggle(s: set<string>, path: string): set<string> {
    if path in s then s - {path} else s + {path}
  }

  /** A toggle flips the membership of its path only, and toggling twice is
      the identity. */
  lemma ToggleSpec(s: set<string>, path: string)
    ensures path in Toggle(s, path) <==> path !in s
    ensures forall q :: q != path ==> (q in Toggle(s, path) <==> q in s)
    ensures Toggle(Toggle(s, path), path) == s
  {
  }
}
