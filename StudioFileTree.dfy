/**
  The studio's file tree (`apps/frontend/src/components/studio/file-tree.tsx`):
  the folders expanded when the file list changes, and the icon and the
  extension badge shown beside each file.

  The tree it renders is built and sorted exactly as the start page's tree
  (`Tree.BuildFolderTree`), and a click on a folder toggles its path in the
  expanded set (`Tree.Toggle`). Rendering is not modelled.
*/
module StudioFileTree {
  import opened Text
  import opened Tree
  import FolderTree

  // ---------------------------------------------------------------------------
  // The initially expanded folders
  // ---------------------------------------------------------------------------

  /** The effect on `files`: the first segment of every name with at least
      two non-empty segments. */
  method InitialExpanded(files: seq<string>) returns (level1: set<string>)
    ensures forall x :: x in level1 <==> exists k :: 0 <= k < |files| && OpensFolder(files[k], x)
  {
    level1 := {};
    for i := 0 to |files|
      invariant forall x :: x in level1 <==> exists k :: 0 <= k < i && OpensFolder(files[k], x)
    {
      var p := Segments(files[i]);
      if |p| > 1 {
        level1 := level1 + {p[0]};
      }
    }
  }

  /** Those are exactly the paths of the top-level folders of the tree the
      component renders, and so the same set the start page expands. */
  lemma InitialExpandedAreTopFolders(files: seq<string>, leq: (string, string) -> bool, level1: set<string>)
    requires TotalPreorder(leq)
    requires forall x :: x in level1 <==> exists k :: 0 <= k < |files| && OpensFolder(files[k], x)
    ensures level1 == FolderTree.TopFolderPaths(Build(files, leq))
  {
    forall x ensures x in level1 <==> x in FolderTree.TopFolderPaths(Build(files, leq)) {
      FolderTree.TopFolderPathsOfBuild(files, leq, x);
    }
  }

  // ---------------------------------------------------------------------------
  // The last `.`-separated part of a name
  // ---------------------------------------------------------------------------

  /** `s.split(sep).pop()`: the split is never empty, so there is a last part. */
  function LastPart(s: string, sep: char): string {
    var parts := Split(s, sep);
    parts[|parts| - 1]
  }

  /** The last part is what follows the last separator (all of `s` without one). */
  lemma LastPartSpec(s: string, sep: char)
    ensures LastPart(s, sep) == s[LastIndexOf(s, sep) + 1..]
  {
    var i := LastIndexOf(s, sep);
    LastIndexOfSpec(s, sep);
    if i == -1 {
      SplitNoSep(s, sep);
    } else {
      AfterLastIndexFree(s, sep);
      LastPartAfter(s, i, sep);
    }
  }

  /** After a separator with no other one following, the rest is the last part. */
  lemma LastPartAfter(s: string, i: nat, sep: char)
    requires i < |s| && s[i] == sep && sep !in s[i + 1..]
    ensures LastPart(s, sep) == s[i + 1..]
  {
    assert s == s[..i] + [sep] + s[i + 1..];
    LastPartOfConcat(s[..i], s[i + 1..], sep);
  }

  /** A name ending in a separator and a separator-free `e` has `e` as its last part. */
  lemma LastPartOfConcat(base: string, e: string, sep: char)
    requires sep !in e
    ensures LastPart(base + [sep] + e, sep) == e
  {
    SplitConcat(base, e, sep);
    SplitNoSep(e, sep);
  }

  /** The last part never holds the separator. */
  lemma LastPartFree(s: string, sep: char)
    ensures sep !in LastPart(s, sep)
  {
    SplitPartsFree(s, sep);
  }

  // ---------------------------------------------------------------------------
  // getFileIcon
  // ---------------------------------------------------------------------------

  /** The glyphs: 📄 for pages and anything unknown, 🎨 for style sheets,
      ⚡ for scripts, 📘 for TypeScript, 📋 for JSON. */
  datatype Icon = Page | Palette | Bolt | BlueBook | Clipboard

  /** The icon for a lower-cased extension. */
  function IconForExtension(ext: string): Icon {
    if ext == "html" || ext == "htm" then Page
    else if ext == "css" then Palette
    else if ext == "js" || ext == "jsx" then Bolt
    else if ext == "ts" || ext == "tsx" then BlueBook
    else if ext == "json" then Clipboard
    else Page
  }

  /** `getFileIcon`: by the lower-cased last `.`-part of the name. */
  function FileIcon(filename: string): Icon {
    IconForExtension(Lower(LastPart(filename, '.')))
  }

  lemma LastIndexOfLower(s: string, c: char)
    requires LowerChar(c) == c
    requires forall d :: LowerChar(d) == c ==> d == c
    ensures LastIndexOf(Lower(s), c) == LastIndexOf(s, c)
    decreases |s|
  {
    if |s| > 0 {
      var p := s[..|s| - 1];
      LowerSlice(s, 0, |s| - 1);
      LastIndexOfLower(p, c);
    }
  }

  /** Only the text after the last dot counts: the icon is that of the
      text, lower-cased. */
  lemma FileIconSpec(filename: string)
    ensures FileIcon(filename) == IconForExtension(Lower(filename[LastIndexOf(filename, '.') + 1..]))
  {
    LastPartSpec(filename, '.');
  }

  /** Lower-casing a name lower-cases its last `.`-part and nothing else moves. */
  lemma LastPartLower(s: string)
    ensures LastPart(Lower(s), '.') == Lower(LastPart(s, '.'))
  {
    var i := LastIndexOf(s, '.');
    LastPartSpec(s, '.');
    LastPartSpec(Lower(s), '.');
    LastIndexOfLower(s, '.');
    LastIndexOfSpec(s, '.');
    LowerSlice(s, i + 1, |s|);
  }

  /** The icon does not depend on the case of the name. */
  lemma FileIconIgnoresCase(filename: string)
    ensures FileIcon(Lower(filename)) == FileIcon(filename)
  {
    LastPartLower(filename);
    LowerIdempotent(LastPart(filename, '.'));
  }

  /** A name `base.e` with a dot-free `e` gets the icon of `e` lower-cased. */
  lemma FileIconOfConcat(base: string, e: string)
    requires '.' !in e
    ensures FileIcon(base + "." + e) == IconForExtension(Lower(e))
  {
    LastPartOfConcat(base, e, '.');
  }

  // ---------------------------------------------------------------------------
  // getFileExtension
  // ---------------------------------------------------------------------------

  const NoExtension := "FILE"

  /** `getFileExtension`: the upper-cased last `.`-part, or "FILE" when it is empty. */
  function FileExtension(filename: string): string {
    var ext := Upper(LastPart(filename, '.'));
    if ext == "" then NoExtension else ext
  }

  /** The badge is the text after the last dot, upper-cased; "FILE" exactly
      when that text is empty (no name, or a trailing dot); the whole name
      when there is no dot; and it never contains a dot. */
  lemma FileExtensionSpec(filename: string)
    ensures var e := filename[LastIndexOf(filename, '.') + 1..];
            FileExtension(filename) == if e == "" then NoExtension else Upper(e)
    ensures '.' !in filename ==> FileExtension(filename) == if filename == "" then NoExtension else Upper(filename)
    ensures '.' !in FileExtension(filename)
  {
    LastPartSpec(filename, '.');
    LastIndexOfSpec(filename, '.');
    var part := LastPart(filename, '.');
    LastPartFree(filename, '.');
    forall j | 0 <= j < |part| ensures Upper(part)[j] != '.' {
      assert part[j] != '.';
    }
  }

  /** A name `base.e` with a dot-free `e` shows `e` upper-cased, or "FILE"
      when `e` is empty. */
  lemma FileExtensionOfConcat(base: string, e: string)
    requires '.' !in e
    ensures FileExtension(base + "." + e) == if e == "" then NoExtension else Upper(e)
  {
    LastPartOfConcat(base, e, '.');
  }

  /** The component passes a file's full path, so a dot in a folder name
      shows through when the file itself has none: `v1.2/readme` shows
      `2/README`. */
  lemma FileExtensionOfPath(folder: string, ext: string, file: string)
    requires '.' !in ext && '.' !in file
    ensures FileExtension(folder + "." + ext + "/" + file) == Upper(ext + "/" + file)
  {
    var e := ext + "/" + file;
    assert '.' !in e;
    assert folder + "." + ext + "/" + file == folder + "." + e;
    FileExtensionOfConcat(folder, e);
  }
}
