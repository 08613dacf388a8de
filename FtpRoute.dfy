/**
  The FTP/SFTP route of the studio (`/api/ftp`): POST fetches the web assets
  of a remote directory tree, PUT publishes files back.

  The transfer libraries are not modelled. The remote side is a finite tree of
  listings (`Listing`); what a download, an existence probe, a mkdir, an
  ensure-directory call or an upload answers is an oracle given with the
  remote host. Buffers and UTF-8 decoding are the identity on strings.
*/
module FtpRoute {
  import opened Text

  datatype Protocol = Ftp | Sftp

  /** What a listing says an entry is. FTP reports `isDirectory`; SFTP reports
      a type letter: 'd', '-', 'l' or another. */
  datatype Kind = Directory | RegularFile | SymbolicLink | OtherKind

  /** One entry of a directory listing; `contents` is what listing it yields
      (only read for directories). */
  datatype Entry = Entry(name: string, kind: Kind, contents: Listing)

  /** The answer to `list(dir)`: the entries in the server's order, or a throw. */
  datatype Listing = Listed(entries: seq<Entry>) | ListFailed

  /** `{ name, content }` as the route returns and accepts files. */
  datatype OutFile = OutFile(name: string, content: string)

  // ===========================================================================
  // Fetch: the depth-first walk
  // ===========================================================================

  /** The path of a listed entry: `dir + name` when `dir` ends with `/`,
      otherwise `dir + '/' + name`. */
  function ChildPath(dir: string, name: string): string {
    if EndsWith(dir, "/") then dir + name else dir + "/" + name
  }

  /** A child path extends its directory and ends with `/` and the entry's
      name, adding exactly one separator when the directory has none. */
  lemma ChildPathShape(dir: string, name: string)
    ensures var p := ChildPath(dir, name);
            StartsWith(p, dir) && EndsWith(p, "/" + name)
            && |p| == |dir| + |name| + (if EndsWith(dir, "/") then 0 else 1)
  {
    var p := ChildPath(dir, name);
    if EndsWith(dir, "/") {
      assert dir == dir[..|dir| - 1] + "/";
      assert p == dir[..|dir| - 1] + ("/" + name);
    } else {
      assert p == dir + ("/" + name);
    }
    assert p[..|dir|] == dir;
  }

  /** `/\.(html?|css|js)$/i` tested on the lower-cased entry name. */
  predicate IsWebAsset(name: string) {
    var l := Lower(name);
    EndsWith(l, ".html") || EndsWith(l, ".htm") || EndsWith(l, ".css") || EndsWith(l, ".js")
  }

  /** An entry that is not a directory reaches the download step when its name
      passes the filter; SFTP also requires a regular file ('-'). */
  predicate ReachesDownload(mode: Protocol, e: Entry) {
    e.kind != Directory && IsWebAsset(e.name) && (mode == Sftp ==> e.kind == RegularFile)
  }

  /** An entry the walk lists, with the full path it is reached under. */
  datatype Item = Item(path: string, entry: Entry)

  /** What a listed entry that is not descended into pushes: nothing when it
      does not reach the download step or the download throws, otherwise the
      file under its path without leading slashes. */
  function Leaf(mode: Protocol, it: Item, download: string -> Option<string>): seq<OutFile> {
    if !ReachesDownload(mode, it.entry) then []
    else match download(it.path)
      case None => []
      case Some(c) => [OutFile(StripLeadingSlashes(it.path), c)]
  }

  function FetchLeaf(mode: Protocol, download: string -> Option<string>): Item -> seq<OutFile> {
    it => Leaf(mode, it, download)
  }

  /** What one `walk(dir)` call contributes: the files pushed, and whether it
      returned normally (false: a listing threw and the throw ends the fetch). */
  datatype WalkOut = WalkOut(files: seq<OutFile>, complete: bool)

  /** The files the walk pushes for entries `i..` of listing `l` of `dir`,
      descending into directories in listing order; `leaf` says what an entry
      that is not a directory pushes. */
  function WalkWith(dir: string, l: Listing, i: nat, leaf: Item -> seq<OutFile>): WalkOut
    decreases l, if l.Listed? then |l.entries| - i else 0
  {
    match l
    case ListFailed => WalkOut([], false)
    case Listed(es) =>
      if i >= |es| then WalkOut([], true)
      else
        var e := es[i];
        assert e in es;
        var full := ChildPath(dir, e.name);
        var head :=
          if e.kind == Directory then WalkWith(full, e.contents, 0, leaf)
          else WalkOut(leaf(Item(full, e)), true);
        if !head.complete then head
        else
          var tail := WalkWith(dir, l, i + 1, leaf);
          WalkOut(head.files + tail.files, tail.complete)
  }

  /** `walk(dir)` of the fetch, over the listing `l` that `list(dir)` answers. */
  function WalkFrom(mode: Protocol, dir: string, l: Listing, download: string -> Option<string>): WalkOut {
    WalkWith(dir, l, 0, FetchLeaf(mode, download))
  }

  /** Whether a walk completes depends only on the listings: neither a
      failed download nor the protocol's filter ever aborts it. */
  lemma {:induction false} WalkCompleteIndependent(dir: string, l: Listing, i: nat, leaf1: Item -> seq<OutFile>, leaf2: Item -> seq<OutFile>)
    ensures WalkWith(dir, l, i, leaf1).complete == WalkWith(dir, l, i, leaf2).complete
    decreases l, if l.Listed? then |l.entries| - i else 0
  {
    if l.Listed? && i < |l.entries| {
      var e := l.entries[i];
      assert e in l.entries;
      if e.kind == Directory {
        WalkCompleteIndependent(ChildPath(dir, e.name), e.contents, 0, leaf1, leaf2);
      }
      WalkCompleteIndependent(dir, l, i + 1, leaf1, leaf2);
    }
  }

  /** An entry that is not a directory, reached under `dir` by a path that
      ends with `/` and its own name. */
  predicate ReachedUnder(dir: string, it: Item) {
    it.entry.kind != Directory && StartsWith(it.path, dir) && EndsWith(it.path, "/" + it.entry.name)
  }

  /** The entries that are not directories among entries `i..` of listing `l`
      of `dir` and, recursively, inside the listings of its directories, each
      with the full path the walk builds for it. */
  predicate Reaches(dir: string, l: Listing, i: nat, it: Item)
    decreases l, if l.Listed? then |l.entries| - i else 0
  {
    l.Listed? && i < |l.entries| &&
    var e := l.entries[i];
    assert e in l.entries;
    var full := ChildPath(dir, e.name);
    ((if e.kind == Directory then Reaches(full, e.contents, 0, it) else it == Item(full, e))
     || Reaches(dir, l, i + 1, it))
  }

  /** A reached entry is not a directory, and its path extends the start
      directory and ends with `/` and the entry's name. */
  lemma {:induction false} ReachesUnder(dir: string, l: Listing, i: nat, it: Item)
    requires Reaches(dir, l, i, it)
    ensures ReachedUnder(dir, it)
    decreases l, if l.Listed? then |l.entries| - i else 0
  {
    var e := l.entries[i];
    assert e in l.entries;
    var full := ChildPath(dir, e.name);
    ChildPathShape(dir, e.name);
    if Reaches(dir, l, i + 1, it) {
      ReachesUnder(dir, l, i + 1, it);
    } else if e.kind == Directory {
      ReachesUnder(full, e.contents, 0, it);
      StartsWithTrans(it.path, full, dir);
    }
  }

  /** Every file the walk pushes is pushed by the leaf of a reached entry. */
  lemma {:induction false} WalkFilesFromLeaves(dir: string, l: Listing, i: nat, leaf: Item -> seq<OutFile>)
    ensures forall f :: f in WalkWith(dir, l, i, leaf).files ==> exists it :: Reaches(dir, l, i, it) && f in leaf(it)
    decreases l, if l.Listed? then |l.entries| - i else 0
  {
    if l.Listed? && i < |l.entries| {
      var e := l.entries[i];
      assert e in l.entries;
      var full := ChildPath(dir, e.name);
      var w := WalkWith(dir, l, i, leaf);
      WalkFilesFromLeaves(dir, l, i + 1, leaf);
      if e.kind == Directory {
        WalkFilesFromLeaves(full, e.contents, 0, leaf);
      }
      forall f | f in w.files ensures exists it :: Reaches(dir, l, i, it) && f in leaf(it) {
        if e.kind != Directory && f in leaf(Item(full, e)) {
          assert Reaches(dir, l, i, Item(full, e));
        } else if e.kind == Directory && f in WalkWith(full, e.contents, 0, leaf).files {
          var it :| Reaches(full, e.contents, 0, it) && f in leaf(it);
          assert Reaches(dir, l, i, it);
        } else {
          var it :| Reaches(dir, l, i + 1, it) && f in leaf(it);
          assert Reaches(dir, l, i, it);
        }
      }
    }
  }

  /** A walk that completes pushes every file the leaf of a reached entry pushes. */
  lemma {:induction false} WalkKeepsReachedLeaves(dir: string, l: Listing, i: nat, leaf: Item -> seq<OutFile>)
    ensures WalkWith(dir, l, i, leaf).complete ==>
              forall it, f :: Reaches(dir, l, i, it) && f in leaf(it) ==> f in WalkWith(dir, l, i, leaf).files
    decreases l, if l.Listed? then |l.entries| - i else 0
  {
    if l.Listed? && i < |l.entries| && WalkWith(dir, l, i, leaf).complete {
      var e := l.entries[i];
      assert e in l.entries;
      var full := ChildPath(dir, e.name);
      WalkKeepsReachedLeaves(dir, l, i + 1, leaf);
      if e.kind == Directory {
        WalkKeepsReachedLeaves(full, e.contents, 0, leaf);
      }
    }
  }

  /** A walk that completes pushes exactly the files the leaves of the reached
      entries push. */
  lemma WalkMembers(dir: string, l: Listing, i: nat, leaf: Item -> seq<OutFile>)
    ensures WalkWith(dir, l, i, leaf).complete ==>
              forall f :: f in WalkWith(dir, l, i, leaf).files <==> exists it :: Reaches(dir, l, i, it) && f in leaf(it)
  {
    WalkFilesFromLeaves(dir, l, i, leaf);
    WalkKeepsReachedLeaves(dir, l, i, leaf);
  }

  /** Stripping leading slashes keeps a suffix that starts with a character
      other than `/`. */
  lemma StripKeepsSuffix(s: string, t: string)
    requires EndsWith(s, t) && |t| > 0 && t[0] != '/'
    ensures EndsWith(StripLeadingSlashes(s), t)
  {
    var r := StripLeadingSlashes(s);
    StripLeadingSlashesShape(s);
    var k := |s| - |t|;
    assert s[k] == t[0];
    if k < |s| - |r| {
      assert false;
    }
    assert r[|r| - |t|..] == s[k..];
  }

  /** The raw characters under a lower-cased extension that ends `s` start
      with `.`, and lower-case to the extension. */
  lemma ExtensionSlice(s: string, name: string, ext: string)
    requires EndsWith(s, name) && EndsWith(Lower(name), ext) && |ext| > 0 && ext[0] == '.'
    ensures |ext| <= |s| && Lower(s[|s| - |ext|..]) == ext && s[|s| - |ext|] == '.'
  {
    var ls := Lower(s);
    LowerKeepsSuffix(s, name);
    EndsWithTrans(ls, Lower(name), ext);
    var k := |s| - |ext|;
    assert ls[k..] == ext;
    LowerSlice(s, k, |s|);
    assert ls[k] == ls[k..][0];
    LowerCharDot(ls, s, k);
  }

  lemma LowerCharDot(l: string, s: string, k: nat)
    requires l == Lower(s) && k < |s| && l[k] == '.'
    ensures s[k] == '.'
  {
    assert LowerChar(s[k]) == '.';
  }

  /** A lower-cased extension (starting with `.`) that ends a name still ends
      the lower-cased path once the path's leading slashes are stripped. */
  lemma ExtensionSurvives(s: string, name: string, ext: string)
    requires EndsWith(s, name) && EndsWith(Lower(name), ext) && |ext| > 0 && ext[0] == '.'
    ensures EndsWith(Lower(StripLeadingSlashes(s)), ext)
  {
    ExtensionSlice(s, name, ext);
    var t := s[|s| - |ext|..];
    assert t[0] == '.';
    StripKeepsSuffix(s, t);
    LowerKeepsSuffix(StripLeadingSlashes(s), t);
  }

  /** A path that ends with a web-asset name stays a web asset once its
      leading slashes are stripped. */
  lemma WebAssetSuffix(s: string, name: string)
    requires EndsWith(s, name) && IsWebAsset(name)
    ensures IsWebAsset(StripLeadingSlashes(s))
  {
    var ln := Lower(name);
    if EndsWith(ln, ".html") {
      ExtensionSurvives(s, name, ".html");
    } else if EndsWith(ln, ".htm") {
      ExtensionSurvives(s, name, ".htm");
    } else if EndsWith(ln, ".css") {
      ExtensionSurvives(s, name, ".css");
    } else {
      ExtensionSurvives(s, name, ".js");
    }
  }

  /** A file a leaf pushes is named by its entry's path without leading
      slashes, which is a web-asset name that does not start with `/`. */
  lemma LeafFileShape(mode: Protocol, it: Item, download: string -> Option<string>, f: OutFile)
    requires f in Leaf(mode, it, download) && EndsWith(it.path, "/" + it.entry.name)
    ensures ReachesDownload(mode, it.entry)
    ensures f.name == StripLeadingSlashes(it.path) && download(it.path) == Some(f.content)
    ensures IsWebAsset(f.name) && f.name[0] != '/'
  {
    EndsWithTrans(it.path, "/" + it.entry.name, it.entry.name);
    WebAssetSuffix(it.path, it.entry.name);
    StripLeadingSlashesShape(it.path);
  }

  /**
    What a fetch returns: each file comes from a listed entry that is not a
    directory, reached under the start directory, that reaches the download
    step (a web-asset name, and for SFTP a regular file); its name is the
    entry's full path without leading slashes (so it never starts with `/`
    and is itself a web-asset name) and its content is what the download
    returned.
  */
  lemma WalkEmitsOnlyWebAssets(mode: Protocol, dir: string, l: Listing, download: string -> Option<string>)
    ensures forall f :: f in WalkFrom(mode, dir, l, download).files ==>
              IsWebAsset(f.name) && f.name[0] != '/'
              && exists it :: Reaches(dir, l, 0, it) && ReachedUnder(dir, it) && ReachesDownload(mode, it.entry)
                           && f.name == StripLeadingSlashes(it.path) && download(it.path) == Some(f.content)
  {
    var leaf := FetchLeaf(mode, download);
    WalkFilesFromLeaves(dir, l, 0, leaf);
    forall f | f in WalkFrom(mode, dir, l, download).files
      ensures IsWebAsset(f.name) && f.name[0] != '/'
      ensures exists it :: Reaches(dir, l, 0, it) && ReachedUnder(dir, it) && ReachesDownload(mode, it.entry)
                           && f.name == StripLeadingSlashes(it.path) && download(it.path) == Some(f.content)
    {
      var it :| Reaches(dir, l, 0, it) && f in leaf(it);
      ReachesUnder(dir, l, 0, it);
      LeafFileShape(mode, it, download, f);
    }
  }

  /** A leaf pushes a file exactly when its entry reaches the download step
      and the download of its path returns that file's content. */
  lemma LeafMembers(mode: Protocol, it: Item, download: string -> Option<string>, f: OutFile)
    ensures f in Leaf(mode, it, download) <==>
              ReachesDownload(mode, it.entry) && download(it.path) == Some(f.content)
              && f.name == StripLeadingSlashes(it.path)
  {
  }

  /**
    A fetch whose walk completes misses nothing: it returns exactly the
    files of the reached entries that pass the name filter (and, for SFTP,
    are regular files) and whose download succeeds, each named by its path
    without leading slashes and holding the downloaded text.
  */
  lemma WalkFetchesEveryAsset(mode: Protocol, dir: string, l: Listing, download: string -> Option<string>)
    ensures WalkFrom(mode, dir, l, download).complete ==>
              forall f :: f in WalkFrom(mode, dir, l, download).files <==>
                exists it :: Reaches(dir, l, 0, it) && ReachesDownload(mode, it.entry)
                          && download(it.path) == Some(f.content) && f.name == StripLeadingSlashes(it.path)
  {
    var leaf := FetchLeaf(mode, download);
    WalkMembers(dir, l, 0, leaf);
    forall it, f ensures f in leaf(it) <==> f in Leaf(mode, it, download) {
    }
    forall it, f {
      LeafMembers(mode, it, download, f);
    }
  }

  /** `download` with the transfer of `path` throwing. */
  function FailAt(download: string -> Option<string>, path: string): string -> Option<string> {
    p => if p == path then None else download(p)
  }

  /**
    A download that throws costs only its own file (the `catch` around each
    download): the walk completes exactly when it did, the files it returns
    keep their order among the original ones, and they are exactly the files
    of the reached entries at every other path.
  */
  lemma FailedDownloadSkipsOnlyItsFile(mode: Protocol, dir: string, l: Listing, download: string -> Option<string>, path: string)
    ensures var w := WalkFrom(mode, dir, l, download);
            var v := WalkFrom(mode, dir, l, FailAt(download, path));
            v.complete == w.complete
            && IsSubsequence(v.files, w.files)
            && (v.complete ==> forall f :: f in v.files <==>
                  exists it :: Reaches(dir, l, 0, it) && it.path != path && f in Leaf(mode, it, download))
  {
    var leaf := FetchLeaf(mode, download);
    var failed := FetchLeaf(mode, FailAt(download, path));
    WalkCompleteIndependent(dir, l, 0, failed, leaf);
    forall it ensures IsSubsequence(failed(it), leaf(it)) {
      SubsequenceRefl(leaf(it));
      SubsequenceEmpty(leaf(it));
    }
    WalkSubsequence(dir, l, 0, failed, leaf);
    WalkMembers(dir, l, 0, failed);
    forall it, f ensures f in failed(it) <==> it.path != path && f in Leaf(mode, it, download) {
    }
  }

  /** Leaf by leaf, SFTP pushes what FTP pushes or nothing. */
  lemma LeafSftpSubsequence(it: Item, download: string -> Option<string>)
    ensures IsSubsequence(Leaf(Sftp, it, download), Leaf(Ftp, it, download))
    ensures it.entry.kind == RegularFile ==> Leaf(Sftp, it, download) == Leaf(Ftp, it, download)
  {
    SubsequenceRefl(Leaf(Ftp, it, download));
    SubsequenceEmpty(Leaf(Ftp, it, download));
  }

  lemma {:induction false} WalkSubsequence(dir: string, l: Listing, i: nat, leaf1: Item -> seq<OutFile>, leaf2: Item -> seq<OutFile>)
    requires forall it :: IsSubsequence(leaf1(it), leaf2(it))
    ensures IsSubsequence(WalkWith(dir, l, i, leaf1).files, WalkWith(dir, l, i, leaf2).files)
    decreases l, if l.Listed? then |l.entries| - i else 0
  {
    if l.Listed? && i < |l.entries| {
      var e := l.entries[i];
      assert e in l.entries;
      var full := ChildPath(dir, e.name);
      WalkCompleteIndependent(full, e.contents, 0, leaf1, leaf2);
      if e.kind == Directory {
        WalkSubsequence(full, e.contents, 0, leaf1, leaf2);
      }
      var h1 := if e.kind == Directory then WalkWith(full, e.contents, 0, leaf1) else WalkOut(leaf1(Item(full, e)), true);
      var h2 := if e.kind == Directory then WalkWith(full, e.contents, 0, leaf2) else WalkOut(leaf2(Item(full, e)), true);
      if h1.complete {
        WalkSubsequence(dir, l, i + 1, leaf1, leaf2);
        SubsequenceConcat(h1.files, h2.files, WalkWith(dir, l, i + 1, leaf1).files, WalkWith(dir, l, i + 1, leaf2).files);
      }
    } else {
      SubsequenceEmpty<OutFile>([]);
    }
  }

  /** Every entry that is not a directory, at any depth below a listing, is a
      regular file. */
  predicate OnlyRegularFiles(l: Listing)
    decreases l
  {
    l.Listed? ==> forall e :: e in l.entries ==>
      if e.kind == Directory then OnlyRegularFiles(e.contents) else e.kind == RegularFile
  }

  lemma {:induction false} WalkSameWithoutLinks(dir: string, l: Listing, i: nat, download: string -> Option<string>)
    requires OnlyRegularFiles(l)
    ensures WalkWith(dir, l, i, FetchLeaf(Sftp, download)) == WalkWith(dir, l, i, FetchLeaf(Ftp, download))
    decreases l, if l.Listed? then |l.entries| - i else 0
  {
    if l.Listed? && i < |l.entries| {
      var e := l.entries[i];
      assert e in l.entries;
      var full := ChildPath(dir, e.name);
      if e.kind == Directory {
        WalkSameWithoutLinks(full, e.contents, 0, download);
      } else {
        LeafSftpSubsequence(Item(full, e), download);
      }
      WalkSameWithoutLinks(dir, l, i + 1, download);
    }
  }

  /**
    The SFTP walk skips what FTP would try to download when the listing says
    it is a symlink or some other non-regular file: over the same tree its
    files are a subsequence of the FTP walk's, it completes exactly when the
    FTP walk does, and with no such entries the two return the same files.
  */
  lemma SftpWalkSubsequenceOfFtp(dir: string, l: Listing, download: string -> Option<string>)
    ensures WalkFrom(Sftp, dir, l, download).complete == WalkFrom(Ftp, dir, l, download).complete
    ensures IsSubsequence(WalkFrom(Sftp, dir, l, download).files, WalkFrom(Ftp, dir, l, download).files)
    ensures OnlyRegularFiles(l) ==> WalkFrom(Sftp, dir, l, download) == WalkFrom(Ftp, dir, l, download)
  {
    var s := FetchLeaf(Sftp, download);
    var f := FetchLeaf(Ftp, download);
    WalkCompleteIndependent(dir, l, 0, s, f);
    forall it ensures IsSubsequence(s(it), f(it)) {
      LeafSftpSubsequence(it, download);
    }
    WalkSubsequence(dir, l, 0, s, f);
    if OnlyRegularFiles(l) {
      WalkSameWithoutLinks(dir, l, 0, download);
    }
  }

  // ---------------------------------------------------------------------------
  // The walk as the route runs it: a recursive method pushing into `files`
  // ---------------------------------------------------------------------------

  /** What listing entry `e` of `dir` pushes by itself: the walk of its
      directory, or its leaf; only a directory's walk can fail to complete. */
  function Head(dir: string, e: Entry, leaf: Item -> seq<OutFile>): WalkOut {
    var full := ChildPath(dir, e.name);
    if e.kind == Directory then WalkWith(full, e.contents, 0, leaf)
    else WalkOut(leaf(Item(full, e)), true)
  }

  /** One step of the walk at entry `i`: the entry itself, then (when it
      completed) the rest of the listing. */
  lemma WalkWithStep(dir: string, l: Listing, i: nat, leaf: Item -> seq<OutFile>)
    requires l.Listed? && i < |l.entries|
    ensures var head := Head(dir, l.entries[i], leaf);
            var rest := WalkWith(dir, l, i + 1, leaf);
            && (!head.complete ==> WalkWith(dir, l, i, leaf) == head)
            && (head.complete ==> WalkWith(dir, l, i, leaf) == WalkOut(head.files + rest.files, rest.complete))
  {
  }

  /** The walk's loop invariant carried over one entry: an incomplete entry
      ends the walk, a complete one moves its files into the accumulator. */
  lemma WalkLoopStep(dir: string, l: Listing, i: nat, leaf: Item -> seq<OutFile>, total: WalkOut, acc: seq<OutFile>)
    requires l.Listed? && i < |l.entries|
    requires total.files == acc + WalkWith(dir, l, i, leaf).files
    requires total.complete == WalkWith(dir, l, i, leaf).complete
    ensures var head := Head(dir, l.entries[i], leaf);
            var rest := WalkWith(dir, l, i + 1, leaf);
            && (!head.complete ==> total.files == acc + head.files && !total.complete)
            && (head.complete ==> total.files == (acc + head.files) + rest.files && total.complete == rest.complete)
  {
    WalkWithStep(dir, l, i, leaf);
    var head := Head(dir, l.entries[i], leaf);
    var rest := WalkWith(dir, l, i + 1, leaf);
    ConcatAssoc(acc, head.files, rest.files);
  }

  /** One fetch: the array the walk pushes into and whether the client was closed. */
  class FetchSession {
    var files: seq<OutFile>
    var closed: bool

    constructor ()
      ensures files == [] && !closed
    {
      files := [];
      closed := false;
    }

    /** `walk(dir)` over the listing `l` that `list(dir)` answers; returns
        false where the source throws. */
    method Walk(mode: Protocol, dir: string, l: Listing, download: string -> Option<string>) returns (complete: bool)
      modifies this
      ensures files == old(files) + WalkFrom(mode, dir, l, download).files
      ensures complete == WalkFrom(mode, dir, l, download).complete
      ensures closed == old(closed)
      decreases l, 1
    {
      if l.ListFailed? {
        return false;
      }
      var es := l.entries;
      ghost var leaf := FetchLeaf(mode, download);
      ghost var total := WalkFrom(mode, dir, l, download);
      ghost var acc: seq<OutFile> := [];
      var i := 0;
      while i < |es|
        invariant 0 <= i <= |es|
        invariant files == old(files) + acc && closed == old(closed)
        invariant total.files == acc + WalkWith(dir, l, i, leaf).files
        invariant total.complete == WalkWith(dir, l, i, leaf).complete
      {
        WalkLoopStep(dir, l, i, leaf, total, acc);
        ghost var head := Head(dir, es[i], leaf);
        var ok := VisitEntry(mode, dir, es[i], download);
        ConcatAssoc(old(files), acc, head.files);
        if !ok {
          return false;
        }
        acc := acc + head.files;
        i := i + 1;
      }
      return true;
    }

    /** The body of the walk's loop for one listed entry: descend into a
        directory, or download a web asset that passes the protocol's filter
        and push it (a download that throws pushes nothing). */
    method VisitEntry(mode: Protocol, dir: string, e: Entry, download: string -> Option<string>) returns (ok: bool)
      modifies this
      ensures files == old(files) + Head(dir, e, FetchLeaf(mode, download)).files
      ensures ok == Head(dir, e, FetchLeaf(mode, download)).complete
      ensures closed == old(closed)
      decreases e, 0
    {
      var fullPath := ChildPath(dir, e.name);
      if e.kind == Directory {
        ok := Walk(mode, fullPath, e.contents, download);
      } else {
        if ReachesDownload(mode, e) {
          var buf := download(fullPath);
          if buf.Some? {
            files := files + [OutFile(StripLeadingSlashes(fullPath), buf.value)];
          }
        }
        ok := true;
      }
    }

    method Close()
      modifies this
      ensures closed && files == old(files)
    {
      closed := true;
    }
  }

  // ===========================================================================
  // Requests, protocol choice and responses
  // ===========================================================================

  /** The JSON body fields the route reads. An absent string field is "";
      an absent or non-numeric port is `None`. */
  datatype Credentials = Credentials(host: string, port: Option<int>, username: string, password: string,
                                     path: string, protocol: string)

  /** Why the route answers 500; the library's message text is not modelled. */
  datatype Failure = ConnectFailed | ListingFailed | EnsureDirFailed(dir: string) | UploadFailed(path: string)

  datatype Response =
    | BadRequest(error: string)
    | ServerError(reason: Failure)
    | FetchedFiles(files: seq<OutFile>)
    | Published

  function Status(r: Response): int {
    match r
    case BadRequest(_) => 400
    case ServerError(_) => 500
    case _ => 200
  }

  /** `body.port || (body.protocol === 'sftp' ? 22 : 21)`; 0 is falsy. */
  function EffectivePort(c: Credentials): int {
    if c.port.Some? && c.port.value != 0 then c.port.value
    else if c.protocol == "sftp" then 22 else 21
  }

  /** SFTP when the flag says so or the port is 22 or 8010. */
  function ChooseProtocol(c: Credentials): Protocol {
    var port := EffectivePort(c);
    if c.protocol == "sftp" || port == 22 || port == 8010 then Sftp else Ftp
  }

  /** Default ports, and protocol choice stated on the request as sent. */
  lemma ProtocolSelection(c: Credentials)
    ensures (c.port.None? || c.port == Some(0)) ==> EffectivePort(c) == (if c.protocol == "sftp" then 22 else 21)
    ensures ChooseProtocol(c) == Sftp <==> c.protocol == "sftp" || c.port == Some(22) || c.port == Some(8010)
  {
  }

  /** The start directory: `body.path || '/'`. */
  function StartDir(c: Credentials): (d: string)
    ensures d != ""
  {
    if c.path == "" then "/" else c.path
  }

  /** The remote host a fetch talks to: whether it accepts the connection, the
      listing tree under each directory, and what each download answers. */
  datatype Site = Site(accepts: bool, tree: string -> Listing, download: string -> Option<string>)

  /** `fetchViaFtp` / `fetchViaSftp` as a value. */
  function FetchOutcome(mode: Protocol, start: string, site: Site): Response {
    if !site.accepts then ServerError(ConnectFailed)
    else
      var w := WalkFrom(mode, start, site.tree(start), site.download);
      if w.complete then FetchedFiles(w.files) else ServerError(ListingFailed)
  }

  /** POST `/api/ftp` as a value. */
  function PostOutcome(c: Credentials, site: Site): Response {
    if Trim(c.host) == "" then BadRequest("host is required")
    else FetchOutcome(ChooseProtocol(c), StartDir(c), site)
  }

  /** `fetchViaFtp` / `fetchViaSftp`: connect, walk from the start directory,
      close the client on every exit. The session is returned so that its
      state after the call can be stated: closed, holding what a 200 carries. */
  method Fetch(mode: Protocol, start: string, site: Site) returns (r: Response, session: FetchSession)
    ensures r == FetchOutcome(mode, start, site)
    ensures session.closed
    ensures r.FetchedFiles? ==> session.files == r.files
    ensures !site.accepts ==> session.files == []
  {
    session := new FetchSession();
    if !site.accepts {
      session.Close();
      return ServerError(ConnectFailed), session;
    }
    var ok := session.Walk(mode, start, site.tree(start), site.download);
    session.Close();
    if ok {
      r := FetchedFiles(session.files);
    } else {
      r := ServerError(ListingFailed);
    }
  }

  /** POST `/api/ftp`. */
  method Post(c: Credentials, site: Site) returns (r: Response)
    ensures r == PostOutcome(c, site)
    ensures Status(r) == 400 <==> Trim(c.host) == ""
  {
    var host := Trim(c.host);
    if host == "" {
      return BadRequest("host is required");
    }
    var session;
    r, session := Fetch(ChooseProtocol(c), StartDir(c), site);
  }

  /**
    A blank host is rejected with 400 whatever the remote side would do, so
    no connection matters; otherwise a 200 carries exactly the files of the
    entries reached from the start directory that pass the filter and
    download, and every one of them is a web asset with a relative name.
  */
  lemma PostContract(c: Credentials, site: Site, other: Site)
    ensures Trim(c.host) == "" ==> PostOutcome(c, site) == PostOutcome(c, other) == BadRequest("host is required")
    ensures PostOutcome(c, site).FetchedFiles? ==>
              forall f :: f in PostOutcome(c, site).files ==> IsWebAsset(f.name) && f.name[0] != '/'
    ensures PostOutcome(c, site).FetchedFiles? ==>
              forall f :: f in PostOutcome(c, site).files <==>
                exists it :: Reaches(StartDir(c), site.tree(StartDir(c)), 0, it)
                          && ReachesDownload(ChooseProtocol(c), it.entry)
                          && site.download(it.path) == Some(f.content) && f.name == StripLeadingSlashes(it.path)
  {
    if Trim(c.host) != "" && site.accepts {
      var start := StartDir(c);
      WalkEmitsOnlyWebAssets(ChooseProtocol(c), start, site.tree(start), site.download);
      WalkFetchesEveryAsset(ChooseProtocol(c), start, site.tree(start), site.download);
    }
  }

  // ===========================================================================
  // Publish: remote paths, mkdirp, uploads
  // ===========================================================================

  /** `'/' + (base ? base.replace(/^\/+|\/+$/g, '') + '/' : '') + name.replace(/^\/+/, '')` */
  function RemotePath(base: string, name: string): string {
    "/" + (if base != "" then TrimSlashes(base) + "/" else "") + StripLeadingSlashes(name)
  }

  /** `s.slice(0, end)` with JavaScript's reading of a negative end. */
  function SliceTo(s: string, end: int): string {
    if end < 0 then s[..if |s| + end < 0 then 0 else |s| + end]
    else s[..if end > |s| then |s| else end]
  }

  /** `remotePath.slice(0, remotePath.lastIndexOf('/')) || '/'` */
  function TargetDir(path: string): string {
    var d := SliceTo(path, LastIndexOf(path, '/'));
    if d == "" then "/" else d
  }

  /**
    Every remote path is absolute and ends with the name's own relative form
    preceded by one `/`; a non-empty base contributes its slash-trimmed form,
    so a base of only slashes (the default `/`) yields a `//` prefix.
  */
  lemma RemotePathShape(base: string, name: string)
    ensures StartsWith(RemotePath(base, name), "/")
    ensures EndsWith(RemotePath(base, name), "/" + StripLeadingSlashes(name))
    ensures base != "" ==> StartsWith(RemotePath(base, name), "/" + TrimSlashes(base) + "/")
    ensures base != "" && (forall k :: 0 <= k < |base| ==> base[k] == '/') ==>
              RemotePath(base, name) == "//" + StripLeadingSlashes(name)
  {
    var n := StripLeadingSlashes(name);
    var p := RemotePath(base, name);
    if base != "" {
      var t := TrimSlashes(base);
      TrimSlashesSlice(base);
      var prefix := "/" + t + "/";
      assert p == prefix + n;
      assert p[..|prefix|] == prefix;
      assert p[|p| - |n| - 1..] == "/" + n;
      if forall k :: 0 <= k < |base| ==> base[k] == '/' {
        TrimSlashesOfSlashes(base);
      }
    } else {
      assert p == "/" + n;
    }
  }

  /** The target directory of a remote path is its parent: either `/` when
      the path has no other separator, or the path minus `/basename`. */
  lemma TargetDirIsParent(path: string)
    requires StartsWith(path, "/")
    ensures var i := LastIndexOf(path, '/');
            0 <= i && '/' !in path[i + 1..]
            && ((i == 0 && TargetDir(path) == "/") || (i > 0 && path == TargetDir(path) + "/" + path[i + 1..]))
  {
    var i := LastIndexOf(path, '/');
    LastIndexOfSpec(path, '/');
    assert path[0] == '/';
    assert i >= 0;
    var tail := path[i + 1..];
    assert forall k :: 0 <= k < |tail| ==> tail[k] == path[i + 1 + k];
    if i > 0 {
      assert path == path[..i] + "/" + path[i + 1..];
    }
  }

  /** What an SFTP existence probe answers: present, absent, or a throw. */
  datatype Probe = Present | Absent | ProbeFailed

  /** The remote host a publish talks to, as oracles. */
  datatype Target = Target(accepts: bool, probe: string -> Probe, mkdirFails: string -> bool,
                           ensureDirFails: string -> bool, putFails: string -> bool)

  /** A call the publisher makes on its client. */
  datatype Call = Connect | EnsureDir(dir: string) | Exists(path: string) | Mkdir(path: string)
                | Put(path: string, content: string) | Close

  /** The paths probed, in order. */
  function Probed(calls: seq<Call>): seq<string> {
    if |calls| == 0 then []
    else (if calls[0].Exists? then [calls[0].path] else []) + Probed(calls[1..])
  }

  /** The paths uploaded, in order. */
  function Puts(calls: seq<Call>): seq<string> {
    if |calls| == 0 then []
    else (if calls[0].Put? then [calls[0].path] else []) + Puts(calls[1..])
  }

  lemma {:induction false} ProbedAppend(a: seq<Call>, b: seq<Call>)
    ensures Probed(a + b) == Probed(a) + Probed(b)
    decreases |a|
  {
    if |a| > 0 {
      ProbedAppend(a[1..], b);
      assert (a + b)[1..] == a[1..] + b;
    } else {
      assert a + b == b;
    }
  }

  lemma {:induction false} PutsAppend(a: seq<Call>, b: seq<Call>)
    ensures Puts(a + b) == Puts(a) + Puts(b)
    decreases |a|
  {
    if |a| > 0 {
      PutsAppend(a[1..], b);
      assert (a + b)[1..] == a[1..] + b;
    } else {
      assert a + b == b;
    }
  }

  lemma {:induction false} NoPutCalls(calls: seq<Call>)
    requires forall c :: c in calls ==> !c.Put?
    ensures Puts(calls) == []
    decreases |calls|
  {
    if |calls| > 0 {
      assert calls[0] in calls;
      NoPutCalls(calls[1..]);
    }
  }

  /** Calls for one prefix of mkdirp: probe it; create it when missing, and
      when the probe throws; a create that throws after "missing" is retried
      once by the catch block; every create error is swallowed. */
  function PrefixCalls(cur: string, t: Target): seq<Call> {
    match t.probe(cur)
    case Present => [Exists(cur)]
    case Absent => [Exists(cur), Mkdir(cur)] + (if t.mkdirFails(cur) then [Mkdir(cur)] else [])
    case ProbeFailed => [Exists(cur), Mkdir(cur)]
  }

  lemma PrefixCallsShape(cur: string, t: Target)
    ensures Probed(PrefixCalls(cur, t)) == [cur]
    ensures forall c :: c in PrefixCalls(cur, t) ==> c == Exists(cur) || c == Mkdir(cur)
    ensures Mkdir(cur) in PrefixCalls(cur, t) <==> t.probe(cur) != Present
  {
    var calls := PrefixCalls(cur, t);
    assert Probed([]) == [];
    assert Probed([Mkdir(cur)]) == [] by { assert [Mkdir(cur)][1..] == []; }
    assert Probed([Mkdir(cur), Mkdir(cur)]) == [] by { assert [Mkdir(cur), Mkdir(cur)][1..] == [Mkdir(cur)]; }
    assert calls == [Exists(cur)] + calls[1..];
    assert calls[1..] == [] || calls[1..] == [Mkdir(cur)] || calls[1..] == [Mkdir(cur), Mkdir(cur)];
  }

  /** The prefixes `cur + '/' + p1`, `cur + '/' + p1 + '/' + p2`, ... */
  function PrefixesFrom(cur: string, parts: seq<string>): (r: seq<string>)
    ensures |r| == |parts|
    decreases |parts|
  {
    if |parts| == 0 then [] else [cur + "/" + parts[0]] + PrefixesFrom(cur + "/" + parts[0], parts[1..])
  }

  function CallsFrom(cur: string, parts: seq<string>, t: Target): seq<Call>
    decreases |parts|
  {
    if |parts| == 0 then [] else PrefixCalls(cur + "/" + parts[0], t) + CallsFrom(cur + "/" + parts[0], parts[1..], t)
  }

  /** The calls `mkdirp(dir)` makes. */
  function MkdirpCalls(dir: string, t: Target): seq<Call> {
    if dir == "" || dir == "/" then [] else CallsFrom("", Segments(dir), t)
  }

  lemma {:induction false} PrefixesAreJoins(cur: string, parts: seq<string>, k: nat)
    requires k < |parts|
    ensures PrefixesFrom(cur, parts)[k] == cur + "/" + Join(parts[..k + 1], "/")
    decreases k
  {
    if k > 0 {
      PrefixesAreJoins(cur + "/" + parts[0], parts[1..], k - 1);
      assert parts[1..][..k] == parts[..k + 1][1..];
      assert Join(parts[..k + 1], "/") == parts[0] + "/" + Join(parts[1..][..k], "/");
    }
  }

  lemma {:induction false} CallsFromProbes(cur: string, parts: seq<string>, t: Target)
    ensures Probed(CallsFrom(cur, parts, t)) == PrefixesFrom(cur, parts)
    decreases |parts|
  {
    if |parts| > 0 {
      var p := cur + "/" + parts[0];
      CallsFromProbes(p, parts[1..], t);
      PrefixCallsShape(p, t);
      ProbedAppend(PrefixCalls(p, t), CallsFrom(p, parts[1..], t));
    }
  }

  lemma {:induction false} CallsFromMkdirs(cur: string, parts: seq<string>, t: Target)
    ensures forall c :: c in CallsFrom(cur, parts, t) ==> (c.Exists? || c.Mkdir?) && c.path in PrefixesFrom(cur, parts)
    ensures forall p :: Mkdir(p) in CallsFrom(cur, parts, t) <==> p in PrefixesFrom(cur, parts) && t.probe(p) != Present
    decreases |parts|
  {
    if |parts| > 0 {
      var p := cur + "/" + parts[0];
      CallsFromMkdirs(p, parts[1..], t);
      PrefixCallsShape(p, t);
    }
  }

  /**
    `mkdirp(dir)` makes no call at all for `''` or `'/'`; otherwise it probes
    `/p1`, `/p1/p2`, ... over the non-empty segments `p1`, `p2`, ... of `dir`,
    one probe per prefix, in order.
  */
  lemma MkdirpProbesEveryPrefix(dir: string, t: Target)
    ensures dir == "" || dir == "/" ==> MkdirpCalls(dir, t) == []
    ensures dir != "" && dir != "/" ==> Probed(MkdirpCalls(dir, t)) == PrefixesFrom("", Segments(dir))
    ensures forall k :: 0 <= k < |Segments(dir)| ==>
              PrefixesFrom("", Segments(dir))[k] == "/" + Join(Segments(dir)[..k + 1], "/")
  {
    CallsFromProbes("", Segments(dir), t);
    PrefixesFromRoot(Segments(dir));
  }

  lemma PrefixesFromRoot(parts: seq<string>)
    ensures forall k :: 0 <= k < |parts| ==> PrefixesFrom("", parts)[k] == "/" + Join(parts[..k + 1], "/")
  {
    forall k | 0 <= k < |parts|
      ensures PrefixesFrom("", parts)[k] == "/" + Join(parts[..k + 1], "/")
    {
      PrefixesAreJoins("", parts, k);
    }
  }

  /** `mkdirp(dir)` creates exactly the prefixes whose probe does not report
      them present: a missing one, or one whose probe threw. */
  lemma MkdirpCreatesMissing(dir: string, t: Target)
    ensures dir != "" && dir != "/" ==>
              forall p :: Mkdir(p) in MkdirpCalls(dir, t) <==> p in PrefixesFrom("", Segments(dir)) && t.probe(p) != Present
  {
    CallsFromMkdirs("", Segments(dir), t);
  }

  /** `mkdirp(dir)` only probes and creates directories; it never uploads. */
  lemma MkdirpNeverUploads(dir: string, t: Target)
    ensures forall c :: c in MkdirpCalls(dir, t) ==> c.Exists? || c.Mkdir?
    ensures Puts(MkdirpCalls(dir, t)) == []
  {
    CallsFromMkdirs("", Segments(dir), t);
    NoPutCalls(MkdirpCalls(dir, t));
  }

  /** One file of an upload: its remote path, the directory it goes in, and
      its content. */
  datatype Plan = Plan(path: string, dir: string, content: string)

  function PlanFor(base: string, f: OutFile): Plan {
    var path := RemotePath(base, f.name);
    Plan(path, TargetDir(path), f.content)
  }

  function PlanAll(base: string, files: seq<OutFile>): (r: seq<Plan>)
    ensures |r| == |files|
  {
    if |files| == 0 then [] else [PlanFor(base, files[0])] + PlanAll(base, files[1..])
  }

  /** The plan of file `i` is made from that file alone. */
  lemma {:induction false} PlanAllAt(base: string, files: seq<OutFile>, i: nat)
    requires i < |files|
    ensures PlanAll(base, files)[i] == PlanFor(base, files[i])
    decreases i
  {
    if i > 0 {
      PlanAllAt(base, files[1..], i - 1);
    }
  }

  /** The plan of each file is made from that file alone. */
  lemma PlanAllPointwise(base: string, files: seq<OutFile>)
    ensures forall i :: 0 <= i < |files| ==> PlanAll(base, files)[i] == PlanFor(base, files[i])
  {
    forall i | 0 <= i < |files| ensures PlanAll(base, files)[i] == PlanFor(base, files[i]) {
      PlanAllAt(base, files, i);
    }
  }

  /** The calls for one file, and whether they all returned normally. */
  datatype Step = Step(calls: seq<Call>, ok: bool)

  /** FTP ensures the directory (stopping if that throws), SFTP runs mkdirp;
      then the file is uploaded. */
  function FileCalls(mode: Protocol, p: Plan, t: Target): Step {
    match mode
    case Ftp =>
      if t.ensureDirFails(p.dir) then Step([EnsureDir(p.dir)], false)
      else Step([EnsureDir(p.dir), Put(p.path, p.content)], !t.putFails(p.path))
    case Sftp =>
      Step(MkdirpCalls(p.dir, t) + [Put(p.path, p.content)], !t.putFails(p.path))
  }

  /** The upload loop: files in list order, stopping at the first failure. */
  function UploadCalls(mode: Protocol, plans: seq<Plan>, t: Target): Step
    decreases |plans|
  {
    if |plans| == 0 then Step([], true)
    else
      var s := FileCalls(mode, plans[0], t);
      if !s.ok then s
      else
        var rest := UploadCalls(mode, plans[1..], t);
        Step(s.calls + rest.calls, rest.ok)
  }

  /** `uploadViaFtp` / `uploadViaSftp`: connect, upload, close in `finally`. */
  function PublishCalls(mode: Protocol, plans: seq<Plan>, t: Target): Step {
    if !t.accepts then Step([Connect, Close], false)
    else
      var u := UploadCalls(mode, plans, t);
      Step([Connect] + u.calls + [Close], u.ok)
  }

  function Paths(plans: seq<Plan>): (r: seq<string>)
    ensures |r| == |plans|
    ensures forall i :: 0 <= i < |plans| ==> r[i] == plans[i].path
  {
    if |plans| == 0 then [] else [plans[0].path] + Paths(plans[1..])
  }

  lemma FileCallsPuts(mode: Protocol, p: Plan, t: Target)
    ensures FileCalls(mode, p, t).ok ==> Puts(FileCalls(mode, p, t).calls) == [p.path]
    ensures Puts(FileCalls(mode, p, t).calls) == [p.path] || Puts(FileCalls(mode, p, t).calls) == []
    ensures Puts(FileCalls(mode, p, t).calls) == [] <==> mode == Ftp && t.ensureDirFails(p.dir)
    ensures forall c :: c in FileCalls(mode, p, t).calls ==> c != Close && c != Connect
  {
    var put := [Put(p.path, p.content)];
    assert Puts(put) == [p.path] by { assert put[1..] == []; }
    if mode == Sftp {
      MkdirpNeverUploads(p.dir, t);
      PutsAppend(MkdirpCalls(p.dir, t), put);
    } else if t.ensureDirFails(p.dir) {
      assert Puts([EnsureDir(p.dir)]) == [] by { assert [EnsureDir(p.dir)][1..] == []; }
    } else {
      PutsAppend([EnsureDir(p.dir)], put);
      assert Puts([EnsureDir(p.dir)]) == [] by { assert [EnsureDir(p.dir)][1..] == []; }
      assert [EnsureDir(p.dir)] + put == [EnsureDir(p.dir), Put(p.path, p.content)];
    }
  }

  /** The upload loop succeeds exactly when every file's directory step and
      upload succeed. */
  lemma {:induction false} UploadOkIff(mode: Protocol, plans: seq<Plan>, t: Target)
    ensures UploadCalls(mode, plans, t).ok <==> forall i :: 0 <= i < |plans| ==> FileCalls(mode, plans[i], t).ok
    decreases |plans|
  {
    if |plans| > 0 {
      UploadOkIff(mode, plans[1..], t);
      assert forall i :: 0 < i < |plans| ==> plans[1..][i - 1] == plans[i];
    }
  }

  /** A successful upload loop puts every planned path, in list order. */
  lemma {:induction false} UploadPutsAll(mode: Protocol, plans: seq<Plan>, t: Target)
    ensures UploadCalls(mode, plans, t).ok ==> Puts(UploadCalls(mode, plans, t).calls) == Paths(plans)
    decreases |plans|
  {
    if |plans| > 0 {
      var s := FileCalls(mode, plans[0], t);
      if s.ok {
        var rest := UploadCalls(mode, plans[1..], t);
        UploadPutsAll(mode, plans[1..], t);
        FileCallsPuts(mode, plans[0], t);
        PutsAppend(s.calls, rest.calls);
        assert Paths(plans) == [plans[0].path] + Paths(plans[1..]);
      }
    }
  }

  /**
    When file `k` is the first to fail, the upload loop has put exactly the
    paths of files `0..k-1`, plus file `k`'s own path unless its FTP
    ensure-directory call threw; nothing after file `k` is attempted.
  */
  lemma {:induction false} UploadStopsAtFirstFailure(mode: Protocol, plans: seq<Plan>, t: Target, k: nat)
    requires k < |plans| && !FileCalls(mode, plans[k], t).ok
    requires forall i :: 0 <= i < k ==> FileCalls(mode, plans[i], t).ok
    ensures !UploadCalls(mode, plans, t).ok
    ensures UploadCalls(mode, plans, t).calls
              == UploadCalls(mode, plans[..k], t).calls + FileCalls(mode, plans[k], t).calls
    ensures Puts(UploadCalls(mode, plans, t).calls) == Paths(plans[..k]) + Puts(FileCalls(mode, plans[k], t).calls)
    decreases k
  {
    var s := FileCalls(mode, plans[0], t);
    if k == 0 {
      assert plans[..0] == [];
      assert UploadCalls(mode, plans[..0], t).calls == [];
    } else {
      var tail := plans[1..];
      assert forall i :: 0 <= i < k - 1 ==> tail[i] == plans[i + 1];
      UploadStopsAtFirstFailure(mode, tail, t, k - 1);
      assert tail[k - 1] == plans[k];
      var pre := plans[..k];
      assert pre[0] == plans[0] && pre[1..] == tail[..k - 1];
      UploadOkIff(mode, pre, t);
      FileCallsPuts(mode, plans[0], t);
      var front := UploadCalls(mode, tail[..k - 1], t).calls;
      var last := FileCalls(mode, plans[k], t).calls;
      ConcatAssoc(s.calls, front, last);
      PutsAppend(s.calls, UploadCalls(mode, tail, t).calls);
      UploadPutsAll(mode, pre, t);
      PutsAppend(UploadCalls(mode, pre, t).calls, last);
    }
  }

  lemma {:induction false} UploadCallsKinds(mode: Protocol, plans: seq<Plan>, t: Target)
    ensures forall c :: c in UploadCalls(mode, plans, t).calls ==> c != Close && c != Connect
    decreases |plans|
  {
    if |plans| > 0 {
      UploadCallsKinds(mode, plans[1..], t);
      FileCallsPuts(mode, plans[0], t);
    }
  }

  /** Publishing always connects first and closes last, once, on every path. */
  lemma PublishClosesOnEveryExit(mode: Protocol, plans: seq<Plan>, t: Target)
    ensures var calls := PublishCalls(mode, plans, t).calls;
            |calls| >= 2 && calls[0] == Connect && calls[|calls| - 1] == Close
            && Close !in calls[..|calls| - 1] && Connect !in calls[1..]
    ensures !t.accepts ==> PublishCalls(mode, plans, t) == Step([Connect, Close], false)
  {
    if t.accepts {
      UploadCallsKinds(mode, plans, t);
      var u := UploadCalls(mode, plans, t).calls;
      var calls := [Connect] + u + [Close];
      assert calls[..|calls| - 1] == [Connect] + u;
      assert calls[1..] == u + [Close];
    }
  }

  /** In FTP mode the calls for one file are the ensure-directory call, then
      (when it went through) the upload. */
  lemma FtpFileCalls(p: Plan, t: Target)
    ensures var s := FileCalls(Ftp, p, t);
            (!t.ensureDirFails(p.dir) ==> s.calls == [EnsureDir(p.dir), Put(p.path, p.content)])
            && (t.ensureDirFails(p.dir) ==> s.calls == [EnsureDir(p.dir)] && !s.ok)
  {
  }

  /** Every upload in `calls` comes right after the ensure-directory call for
      the directory of the planned file it uploads. */
  predicate PutsFollowEnsureDir(calls: seq<Call>, plans: seq<Plan>) {
    forall j :: 0 <= j < |calls| && calls[j].Put? ==>
      j > 0 && exists k :: 0 <= k < |plans| && calls[j] == Put(plans[k].path, plans[k].content)
                                            && calls[j - 1] == EnsureDir(plans[k].dir)
  }

  /** In FTP mode every upload comes right after the ensure-directory call
      for its own file's directory. */
  lemma {:induction false} FtpEnsuresDirBeforePut(plans: seq<Plan>, t: Target)
    ensures PutsFollowEnsureDir(UploadCalls(Ftp, plans, t).calls, plans)
    decreases |plans|
  {
    if |plans| > 0 {
      var p := plans[0];
      FtpFileCalls(p, t);
      var s := FileCalls(Ftp, p, t);
      var calls := UploadCalls(Ftp, plans, t).calls;
      var tail := plans[1..];
      var rest := if s.ok then UploadCalls(Ftp, tail, t).calls else [];
      if s.ok {
        FtpEnsuresDirBeforePut(tail, t);
      }
      assert calls == s.calls + rest;
      forall j | 0 <= j < |calls| && calls[j].Put?
        ensures j > 0 && exists k :: 0 <= k < |plans| && calls[j] == Put(plans[k].path, plans[k].content)
                                                    && calls[j - 1] == EnsureDir(plans[k].dir)
      {
        if j < |s.calls| {
          assert calls[j] == s.calls[j];
          assert j == 1 && calls[j] == Put(p.path, p.content) && calls[j - 1] == EnsureDir(p.dir);
        } else {
          var jj := j - |s.calls|;
          assert calls[j] == rest[jj];
          assert PutsFollowEnsureDir(rest, tail);
          var k' :| 0 <= k' < |tail| && rest[jj] == Put(tail[k'].path, tail[k'].content)
                    && rest[jj - 1] == EnsureDir(tail[k'].dir);
          assert calls[j - 1] == rest[jj - 1];
          assert tail[k'] == plans[k' + 1];
        }
      }
    }
  }

  // ---------------------------------------------------------------------------
  // The publisher as the route runs it, against a client that records calls
  // ---------------------------------------------------------------------------

  /** The transfer client: each method records its call and answers from the
      target's oracles. */
  class Client {
    const target: Target
    var calls: seq<Call>

    constructor (t: Target)
      ensures target == t && calls == []
    {
      target := t;
      calls := [];
    }

    method Connect() returns (ok: bool)
      modifies this
      ensures calls == old(calls) + [Call.Connect] && ok == target.accepts
    {
      calls := calls + [Call.Connect];
      ok := target.accepts;
    }

    method EnsureDir(dir: string) returns (ok: bool)
      modifies this
      ensures calls == old(calls) + [Call.EnsureDir(dir)] && ok == !target.ensureDirFails(dir)
    {
      calls := calls + [Call.EnsureDir(dir)];
      ok := !target.ensureDirFails(dir);
    }

    method Exists(path: string) returns (r: Probe)
      modifies this
      ensures calls == old(calls) + [Call.Exists(path)] && r == target.probe(path)
    {
      calls := calls + [Call.Exists(path)];
      r := target.probe(path);
    }

    method Mkdir(path: string) returns (ok: bool)
      modifies this
      ensures calls == old(calls) + [Call.Mkdir(path)] && ok == !target.mkdirFails(path)
    {
      calls := calls + [Call.Mkdir(path)];
      ok := !target.mkdirFails(path);
    }

    method Put(path: string, content: string) returns (ok: bool)
      modifies this
      ensures calls == old(calls) + [Call.Put(path, content)] && ok == !target.putFails(path)
    {
      calls := calls + [Call.Put(path, content)];
      ok := !target.putFails(path);
    }

    method End()
      modifies this
      ensures calls == old(calls) + [Call.Close]
    {
      calls := calls + [Call.Close];
    }
  }

  /** The body of mkdirp's loop for one prefix: probe it, create it when the
      probe does not report it present, retrying once after "missing". */
  method EnsurePrefix(client: Client, cur: string)
    modifies client
    ensures client.calls == old(client.calls) + PrefixCalls(cur, client.target)
  {
    var probe := client.Exists(cur);
    if probe == Present {
    } else if probe == Absent {
      var ok := client.Mkdir(cur);
      if !ok {
        ok := client.Mkdir(cur);
      }
    } else {
      var ok := client.Mkdir(cur);
    }
  }

  /** `mkdirp(dir)` of `uploadViaSftp`. */
  method Mkdirp(client: Client, dir: string)
    modifies client
    ensures client.calls == old(client.calls) + MkdirpCalls(dir, client.target)
  {
    if dir == "" || dir == "/" {
      return;
    }
    var parts := Segments(dir);
    var cur := "";
    ghost var done: seq<Call> := [];
    for k := 0 to |parts|
      invariant client.calls == old(client.calls) + done
      invariant done + CallsFrom(cur, parts[k..], client.target) == CallsFrom("", parts, client.target)
    {
      ghost var t := client.target;
      assert parts[k..][1..] == parts[k + 1..];
      ghost var next := cur + "/" + parts[k];
      assert CallsFrom(cur, parts[k..], t) == PrefixCalls(next, t) + CallsFrom(next, parts[k + 1..], t);
      ConcatAssoc(done, PrefixCalls(next, t), CallsFrom(next, parts[k + 1..], t));
      cur := cur + "/" + parts[k];
      EnsurePrefix(client, cur);
      ConcatAssoc(old(client.calls), done, PrefixCalls(cur, t));
      done := done + PrefixCalls(cur, t);
    }
    assert parts[|parts|..] == [];
  }

  /** One step of the upload loop: the file at `i` first, then (when it went
      through) the files after it. */
  lemma UploadCallsStep(mode: Protocol, plans: seq<Plan>, i: nat, t: Target)
    requires i < |plans|
    ensures var s := FileCalls(mode, plans[i], t);
            var rest := UploadCalls(mode, plans[i + 1..], t);
            UploadCalls(mode, plans[i..], t) == if !s.ok then s else Step(s.calls + rest.calls, rest.ok)
  {
    assert plans[i..][1..] == plans[i + 1..];
  }

  /** The body of the upload loop for one file: its remote path and target
      directory, the directory step, then the upload. */
  method UploadFile(client: Client, mode: Protocol, base: string, f: OutFile) returns (ok: bool)
    modifies client
    ensures client.calls == old(client.calls) + FileCalls(mode, PlanFor(base, f), client.target).calls
    ensures ok == FileCalls(mode, PlanFor(base, f), client.target).ok
  {
    var remotePath := RemotePath(base, f.name);
    var dir := TargetDir(remotePath);
    if mode == Ftp {
      var dirOk := client.EnsureDir(dir);
      if !dirOk {
        return false;
      }
    } else {
      Mkdirp(client, dir);
    }
    ok := client.Put(remotePath, f.content);
  }

  /** The loop over `files` in `uploadViaFtp` / `uploadViaSftp`; false where
      the source throws. */
  method UploadAll(client: Client, mode: Protocol, base: string, files: seq<OutFile>) returns (ok: bool)
    modifies client
    ensures client.calls == old(client.calls) + UploadCalls(mode, PlanAll(base, files), client.target).calls
    ensures ok == UploadCalls(mode, PlanAll(base, files), client.target).ok
  {
    ghost var t := client.target;
    ghost var plans := PlanAll(base, files);
    ghost var done: seq<Call> := [];
    for i := 0 to |files|
      invariant client.calls == old(client.calls) + done
      invariant UploadCalls(mode, plans, t).calls == done + UploadCalls(mode, plans[i..], t).calls
      invariant UploadCalls(mode, plans, t).ok == UploadCalls(mode, plans[i..], t).ok
    {
      UploadCallsStep(mode, plans, i, t);
      PlanAllAt(base, files, i);
      ghost var step := FileCalls(mode, plans[i], t);
      ghost var rest := UploadCalls(mode, plans[i + 1..], t);
      var fileOk := UploadFile(client, mode, base, files[i]);
      ConcatAssoc(old(client.calls), done, step.calls);
      if !fileOk {
        return false;
      }
      ConcatAssoc(done, step.calls, rest.calls);
      done := done + step.calls;
    }
    assert plans[|files|..] == [];
    return true;
  }

  /** `uploadViaFtp` / `uploadViaSftp` with its `finally`: the calls made and
      whether the upload returned normally. */
  method Publish(mode: Protocol, base: string, files: seq<OutFile>, t: Target) returns (ok: bool, calls: seq<Call>)
    ensures Step(calls, ok) == PublishCalls(mode, PlanAll(base, files), t)
  {
    ghost var u := UploadCalls(mode, PlanAll(base, files), t);
    var client := new Client(t);
    var connected := client.Connect();
    if connected {
      ok := UploadAll(client, mode, base, files);
      assert client.calls == [Call.Connect] + u.calls && ok == u.ok;
      client.End();
      assert client.calls == [Call.Connect] + u.calls + [Call.Close];
    } else {
      ok := false;
      client.End();
      assert client.calls == [Call.Connect, Call.Close];
    }
    calls := client.calls;
  }

  /** The upload body: `files` is `None` when it is missing or not an array. */
  datatype UploadBody = UploadBody(creds: Credentials, files: Option<seq<OutFile>>)

  /** The first file whose step fails, as the route reports it. */
  function FirstFailure(mode: Protocol, plans: seq<Plan>, t: Target): Failure
    decreases |plans|
  {
    if |plans| == 0 then ConnectFailed
    else if mode == Ftp && t.ensureDirFails(plans[0].dir) then EnsureDirFailed(plans[0].dir)
    else if t.putFails(plans[0].path) then UploadFailed(plans[0].path)
    else FirstFailure(mode, plans[1..], t)
  }

  /** PUT `/api/ftp` as a value. */
  function PutOutcome(b: UploadBody, t: Target): Response {
    var c := b.creds;
    var files := if b.files.Some? then b.files.value else [];
    if Trim(c.host) == "" then BadRequest("host is required")
    else if |files| == 0 then BadRequest("files required")
    else
      var plans := PlanAll(StartDir(c), files);
      var mode := ChooseProtocol(c);
      if !t.accepts then ServerError(ConnectFailed)
      else if PublishCalls(mode, plans, t).ok then Published
      else ServerError(FirstFailure(mode, plans, t))
  }

  /** PUT `/api/ftp`. */
  method HandlePut(b: UploadBody, t: Target) returns (r: Response, calls: seq<Call>)
    ensures r == PutOutcome(b, t)
    ensures r.BadRequest? ==> calls == []
    ensures !r.BadRequest? ==> Step(calls, r.Published?) == PublishCalls(ChooseProtocol(b.creds), PlanAll(StartDir(b.creds), b.files.value), t)
  {
    var host := Trim(b.creds.host);
    if host == "" {
      return BadRequest("host is required"), [];
    }
    var files := if b.files.Some? then b.files.value else [];
    if |files| == 0 {
      return BadRequest("files required"), [];
    }
    var mode := ChooseProtocol(b.creds);
    var base := StartDir(b.creds);
    var ok;
    ok, calls := Publish(mode, base, files, t);
    if ok {
      r := Published;
    } else if !t.accepts {
      r := ServerError(ConnectFailed);
    } else {
      r := ServerError(FirstFailure(mode, PlanAll(base, files), t));
    }
  }

  /**
    A publish request is rejected with 400, before any call, when the host is
    blank or there is no file; otherwise it answers 200 exactly when the host
    accepts the connection and every file's directory step and upload went
    through.
  */
  lemma PutContract(b: UploadBody, t: Target)
    ensures Trim(b.creds.host) == "" ==> PutOutcome(b, t) == BadRequest("host is required")
    ensures Trim(b.creds.host) != "" && (b.files.None? || b.files.value == []) ==> PutOutcome(b, t) == BadRequest("files required")
    ensures PutOutcome(b, t) == Published <==>
              Trim(b.creds.host) != "" && b.files.Some? && b.files.value != [] && t.accepts
              && forall i :: 0 <= i < |b.files.value| ==>
                   FileCalls(ChooseProtocol(b.creds), PlanFor(StartDir(b.creds), b.files.value[i]), t).ok
  {
    if b.files.Some? {
      var plans := PlanAll(StartDir(b.creds), b.files.value);
      PlanAllPointwise(StartDir(b.creds), b.files.value);
      UploadOkIff(ChooseProtocol(b.creds), plans, t);
    }
  }

  /** A base `/root` and a name `a/b/style.css` without stray slashes give
      `/root/a/b/style.css`: the base, one slash, the name. */
  lemma RemotePathOfClean(base: string, name: string)
    requires base != "" && base[0] != '/' && base[|base| - 1] != '/'
    requires name == "" || name[0] != '/'
    ensures RemotePath("/" + base, name) == "/" + base + "/" + name
  {
    assert ("/" + base)[1..] == base;
    assert StripLeadingSlashes("/" + base) == base;
    assert StripTrailingSlashes(base) == base;
    assert StripLeadingSlashes(name) == name;
  }

  /** An illustration, not a general property: the directory `/root/a/b` is
      reached by probing `/root`, `/root/a` and `/root/a/b`. */
  lemma PublishDirExample()
    ensures PrefixesFrom("", ["root", "a", "b"]) == ["/root", "/root/a", "/root/a/b"]
  {
    assert "" + "/" + "root" == "/root";
    assert "/root" + "/" + "a" == "/root/a";
    assert "/root/a" + "/" + "b" == "/root/a/b";
    assert ["root", "a", "b"][1..] == ["a", "b"];
    assert ["a", "b"][1..] == ["b"];
    assert ["b"][1..] == [];
  }
}
