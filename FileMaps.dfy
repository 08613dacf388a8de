/**
  A `Record<string, string>` from file name to file content, as the
  front end passes it around.

  JavaScript lists an object's keys in insertion order (for keys that do
  not look like array indices), and several helpers depend on that order:
  the first key is a fallback, and ties are broken by the earlier key. The
  model therefore keeps the keys in order next to the map of contents.
*/
module FileMaps {

  /** A file map: the keys in insertion order and the content under each key. */
  datatype FileMap = FileMap(keys: seq<string>, contents: map<string, string>)

  predicate Distinct(s: seq<string>) {
    forall i, j :: 0 <= i < j < |s| ==> s[i] != s[j]
  }

  /** Every JavaScript object satisfies this: each key is listed once, and the
      listed keys are exactly the keys that hold content. */
  ghost predicate Valid(fm: FileMap) {
    Distinct(fm.keys) && forall k :: k in fm.contents <==> k in fm.keys
  }

  /** The empty object `{}`. */
  function Empty(): FileMap {
    FileMap([], map[])
  }

  /** `fm[k]` is truthy: the key is present and its content is not `""`. */
  predicate Truthy(fm: FileMap, k: string) {
    k in fm.contents && fm.contents[k] != ""
  }

  /** `fm[k] = v`: a new key goes to the end of the key order, an existing key
      keeps its place. */
  function Assign(fm: FileMap, k: string, v: string): FileMap {
    FileMap(if k in fm.contents then fm.keys else fm.keys + [k], fm.contents[k := v])
  }

  /** An assignment keeps a map valid, sets exactly its key and keeps the
      earlier keys in their places. */
  lemma AssignSpec(fm: FileMap, k: string, v: string)
    requires Valid(fm)
    ensures Valid(Assign(fm, k, v))
    ensures Assign(fm, k, v).contents[k] == v
    ensures forall x :: x in fm.contents && x != k ==> x in Assign(fm, k, v).contents && Assign(fm, k, v).contents[x] == fm.contents[x]
    ensures |fm.keys| <= |Assign(fm, k, v).keys| && Assign(fm, k, v).keys[..|fm.keys|] == fm.keys
  {
  }
}
