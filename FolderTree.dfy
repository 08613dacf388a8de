/**
  The start page's FTP import (`apps/frontend/src/app/start/page.tsx`): the
  protocol the connect form sends, what the page does with the route's
  answer, and the folder-selection filter applied when more than ten files
  came back.

  The folder tree itself (`buildFolderTree`, `countDescendants` and the set
  toggles) is the `Tree` module; this module uses it for the folders that
  start expanded. React state, the modals and the fetch call are not
  modelled: a step of the page is a function from what it reads to what it
  does next.
*/
module FolderTree {
  import opened Text
  import opened Tree
  import FtpRoute

  // ---------------------------------------------------------------------------
  // The connect request
  // ---------------------------------------------------------------------------

  /** The protocol field of the request: SFTP for the two SFTP port texts. */
  function ProtocolFor(portText: string): string {
    if portText == "22" || portText == "8010" then "sftp" else "ftp"
  }

  /** The JSON body the form posts. `portNumber` is `Number(portText)` as
      the route reads it back: `None` when it is not a number. */
  function ConnectRequest(host: string, portText: string, portNumber: Option<int>, user: string,
                          password: string, path: string): FtpRoute.Credentials
  {
    FtpRoute.Credentials(host, portNumber, user, password, path, ProtocolFor(portText))
  }

  /** The page asks for SFTP exactly on the texts "22" and "8010", and the
      route then connects over SFTP. The route also picks SFTP on a port
      that only parses to 22 or 8010 ("022", " 22"), which the page labels
      "ftp". */
  lemma ConnectProtocol(host: string, portText: string, portNumber: Option<int>, user: string,
                        password: string, path: string)
    requires portText == "22" ==> portNumber == Some(22)
    requires portText == "8010" ==> portNumber == Some(8010)
    ensures ProtocolFor(portText) == "sftp" <==> portText == "22" || portText == "8010"
    ensures var req := ConnectRequest(host, portText, portNumber, user, password, path);
            ProtocolFor(portText) == "sftp" ==> FtpRoute.ChooseProtocol(req) == FtpRoute.Sftp
    ensures var req := ConnectRequest(host, portText, portNumber, user, password, path);
            FtpRoute.ChooseProtocol(req) == FtpRoute.Sftp <==>
              ProtocolFor(portText) == "sftp" || portNumber == Some(22) || portNumber == Some(8010)
  {
    FtpRoute.ProtocolSelection(ConnectRequest(host, portText, portNumber, user, password, path));
  }

  // ---------------------------------------------------------------------------
  // The route's answer
  // ---------------------------------------------------------------------------

  const DefaultConnectError := "FTP 연결 실패"
  const NoFilesError := "가져온 파일이 없습니다. 경로를 확인하세요."

  /** Beyond this many files the page asks which folders to import. */
  const DirectImportLimit := 10

  /** What the page does after the connect request.
      `Failed(None)` carries the route's exception text, which is not modelled. */
  datatype ConnectOutcome =
    | Failed(error: Option<string>)
    | NoFiles(message: string)
    | SelectFolders(fetched: seq<FtpRoute.OutFile>, expanded: set<string>)
    | Import(files: seq<FtpRoute.OutFile>)

  function Names(files: seq<FtpRoute.OutFile>): (r: seq<string>)
    ensures |r| == |files|
    ensures forall k :: 0 <= k < |files| ==> r[k] == files[k].name
  {
    seq(|files|, k requires 0 <= k < |files| => files[k].name)
  }

  /** The paths of the top-level folders of a tree. */
  function TopFolderPaths(t: Node): set<string> {
    if t.File? then {}
    else set i | 0 <= i < |t.children| && t.children[i].Folder? :: t.children[i].path
  }

  /** The page's reaction to the route's response; `leq` is `localeCompare`. */
  function OnConnect(r: FtpRoute.Response, leq: (string, string) -> bool): ConnectOutcome
    requires TotalPreorder(leq)
  {
    match r
    case BadRequest(e) => Failed(Some(if e != "" then e else DefaultConnectError))
    case ServerError(_) => Failed(None)
    case Published => NoFiles(NoFilesError)
    case FetchedFiles(files) =>
      if |files| == 0 then NoFiles(NoFilesError)
      else if |files| > DirectImportLimit then
        SelectFolders(files, TopFolderPaths(Build(Names(files), leq)))
      else Import(files)
  }

  /** The folders that start expanded in the selection dialog are those
      opened by some fetched name, i.e. the first segments of the names with
      at least two. */
  lemma TopFolderPathsOfBuild(names: seq<string>, leq: (string, string) -> bool, x: string)
    requires TotalPreorder(leq)
    ensures x in TopFolderPaths(Build(names, leq)) <==>
            exists k :: 0 <= k < |names| && OpensFolder(names[k], x)
  {
    var t := Build(names, leq);
    BuildFolderTreeSpec(names, leq);
    FolderNamesMember(t.children, x);
    if x in TopFolderPaths(t) {
      var i :| 0 <= i < |t.children| && t.children[i].Folder? && t.children[i].path == x;
      assert t.children[i].path == ChildPath("", t.children[i].name);
    }
    if x in FolderNames(t.children) {
      var i :| 0 <= i < |t.children| && t.children[i].Folder? && t.children[i].name == x;
      assert t.children[i].path == ChildPath("", t.children[i].name);
    }
  }

  /** A failed request surfaces the route's error (or the default text); a
      successful one with no files reports that; up to ten files are imported
      as they came; more open the dialog with exactly the top-level folders
      expanded. */
  lemma OnConnectSpec(r: FtpRoute.Response, leq: (string, string) -> bool)
    requires TotalPreorder(leq)
    ensures FtpRoute.Status(r) != 200 ==> OnConnect(r, leq).Failed?
    ensures r.BadRequest? ==> OnConnect(r, leq).error.Some? && OnConnect(r, leq).error.value != ""
    ensures r.FetchedFiles? && |r.files| == 0 ==> OnConnect(r, leq) == NoFiles(NoFilesError)
    ensures r.FetchedFiles? && 0 < |r.files| <= DirectImportLimit ==> OnConnect(r, leq) == Import(r.files)
    ensures r.FetchedFiles? && |r.files| > DirectImportLimit ==>
              OnConnect(r, leq).SelectFolders? && OnConnect(r, leq).fetched == r.files
              && forall x :: x in OnConnect(r, leq).expanded <==>
                   exists k :: 0 <= k < |r.files| && OpensFolder(r.files[k].name, x)
  {
    if r.FetchedFiles? && |r.files| > DirectImportLimit {
      var names := Names(r.files);
      forall x ensures x in OnConnect(r, leq).expanded <==>
                       exists k :: 0 <= k < |r.files| && OpensFolder(r.files[k].name, x)
      {
        TopFolderPathsOfBuild(names, leq, x);
        if exists k :: 0 <= k < |names| && OpensFolder(names[k], x) {
          var k :| 0 <= k < |names| && OpensFolder(names[k], x);
          assert r.files[k].name == names[k];
        }
      }
    }
  }

  // ---------------------------------------------------------------------------
  // The folder-selection filter
  // ---------------------------------------------------------------------------

  const NoFolderError := "최소 한 개의 폴더를 선택해 주세요."

  /** A selected path as a prefix: a `/` is appended unless it ends in one. */
  function FolderPrefix(p: string): string {
    if EndsWith(p, "/") then p else p + "/"
  }

  /** A file is kept when its name lies under a selected folder or is itself
      a selected path. */
  predicate Kept(name: string, selected: set<string>) {
    (exists p :: p in selected && StartsWith(name, FolderPrefix(p))) || name in selected
  }

  /** `fetchedFiles.filter(...)`, keeping the order. */
  function FilterSelected(files: seq<FtpRoute.OutFile>, selected: set<string>): seq<FtpRoute.OutFile>
    decreases |files|
  {
    if files == [] then []
    else
      var rest := FilterSelected(files[1..], selected);
      if Kept(files[0].name, selected) then [files[0]] + rest else rest
  }

  /** What the "next" button does. */
  datatype SelectOutcome =
    | Stay
    | SelectError(message: string)
    | Persist(files: seq<FtpRoute.OutFile>)

  /** Nothing without fetched files; an error without a selected folder;
      otherwise the filtered files are imported. */
  function ConfirmSelection(fetched: Option<seq<FtpRoute.OutFile>>, selected: set<string>): SelectOutcome {
    if fetched.None? then Stay
    else if selected == {} then SelectError(NoFolderError)
    else Persist(FilterSelected(fetched.value, selected))
  }

  /** The filter keeps the fetched files in order, and a file is kept exactly
      when its name is selected. */
  lemma {:induction false} FilterSelectedSpec(files: seq<FtpRoute.OutFile>, selected: set<string>)
    ensures IsSubsequence(FilterSelected(files, selected), files)
    ensures forall f :: f in FilterSelected(files, selected) <==> f in files && Kept(f.name, selected)
    decreases |files|
  {
    if files == [] {
      SubsequenceRefl(files);
    } else {
      var rest := FilterSelected(files[1..], selected);
      FilterSelectedSpec(files[1..], selected);
      assert files == [files[0]] + files[1..];
      if Kept(files[0].name, selected) {
        SubsequenceConcat([files[0]], [files[0]], rest, files[1..]);
        SubsequenceRefl([files[0]]);
      } else {
        SubsequenceEmpty<FtpRoute.OutFile>([files[0]]);
        SubsequenceConcat([], [files[0]], rest, files[1..]);
        assert [] + rest == rest;
      }
    }
  }

  /** A prefix match only happens at a folder boundary: the name is a
      selected path, or continues a selected path with `/` (or the path
      itself ends in `/`). Selecting "a" therefore never keeps "ab/x". */
  lemma KeptAtBoundary(name: string, selected: set<string>)
    requires Kept(name, selected)
    ensures exists p :: p in selected && (name == p || (StartsWith(name, p) &&
              (EndsWith(p, "/") || (|name| > |p| && name[|p|] == '/'))))
  {
    if name !in selected {
      var p :| p in selected && StartsWith(name, FolderPrefix(p));
      if !EndsWith(p, "/") {
        assert name[..|p|] == (p + "/")[..|p|];
        assert name[|p|] == (p + "/")[|p|];
      }
    }
  }

  /** An illustration, not a general property: selecting "a" does not import
      "ab/x.html", because a folder matches only at a `/` boundary. */
  lemma SiblingNotKept()
    ensures !Kept("ab/x.html", {"a"})
  {
    var name := "ab/x.html";
    assert !EndsWith("a", "/") by { assert "a"[0] != '/'; }
    assert !StartsWith(name, "a/") by { assert name[..2][1] == 'b' && "a/"[1] == '/'; }
    forall p | p in {"a"} ensures !StartsWith(name, FolderPrefix(p)) {
      assert p == "a";
    }
    assert |name| != |"a"|;
  }

  /** Selecting a folder of the tree keeps every file under it: for a name
      written as its own segments joined by `/`, the path of the folder made
      of its first `k` segments selects it. */
  lemma SelectedFolderKeepsFile(name: string, k: nat, selected: set<string>)
    requires name == Join(Segments(name), "/")
    requires 0 < k < |Segments(name)|
    requires Join(Segments(name)[..k], "/") in selected
    ensures Kept(name, selected)
  {
    var segs := Segments(name);
    var p := Join(segs[..k], "/");
    JoinAt(segs, k, "/");
    var rest := Join(segs[k..], "/");
    assert name == p + "/" + rest;
    if EndsWith(p, "/") {
      assert name[..|p|] == p;
    } else {
      assert name[..|p + "/"|] == p + "/";
    }
  }

  /** Without fetched files the button does nothing; with no folder selected
      it reports an error and imports nothing; otherwise it imports exactly
      the kept files, in their fetched order. */
  lemma ConfirmSelectionSpec(fetched: Option<seq<FtpRoute.OutFile>>, selected: set<string>)
    ensures fetched.None? <==> ConfirmSelection(fetched, selected) == Stay
    ensures fetched.Some? && selected == {} ==> ConfirmSelection(fetched, selected) == SelectError(NoFolderError)
    ensures ConfirmSelection(fetched, selected).Persist? ==>
              fetched.Some? && selected != {}
              && IsSubsequence(ConfirmSelection(fetched, selected).files, fetched.value)
              && forall f :: f in ConfirmSelection(fetched, selected).files <==>
                   f in fetched.value && Kept(f.name, selected)
  {
    if fetched.Some? {
      FilterSelectedSpec(fetched.value, selected);
    }
  }
}
