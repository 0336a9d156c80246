/**
 An abstract directory tree, standing in for the file system the download
 code inspects with `os.listdir`, `os.path.isfile` and `os.path.isdir`.
 */
module Tree {

  /** A regular file with its bytes, or a directory mapping names to entries. */
  datatype Entry = File(data: seq<bv8>) | Dir(children: map<string, Entry>)

  /** The contents of one directory. */
  type Folder = map<string, Entry>

  /** No name appears twice in `names`. */
  predicate Distinct(names: seq<string>) {
    forall i, j :: 0 <= i < j < |names| ==> names[i] != names[j]
  }

  /**
   `names` is something `os.listdir` can return for `d`: every entry
   exactly once, in an order the file system chooses.
   */
  predicate IsListing(names: seq<string>, d: Folder) {
    && Distinct(names)
    && (forall i :: 0 <= i < |names| ==> names[i] in d)
    && (forall k :: k in d ==> k in names)
  }

  /** POSIX's path separator, `os.path.sep`. */
  const PathSep := '/'

  /** POSIX `os.path.join(folder, name)`: an absolute `name` wins, and a separator is inserted only when missing. */
  function PathJoin(folder: string, name: string): (p: string)
    ensures |name| > 0 && name[0] == PathSep ==> p == name
  {
    if |name| > 0 && name[0] == PathSep then name
    else if folder == [] || folder[|folder| - 1] == PathSep then folder + name
    else folder + [PathSep] + name
  }

  /** Dropping the head of a listing of distinct names keeps them distinct. */
  lemma DistinctTail(names: seq<string>)
    requires |names| > 0 && Distinct(names)
    ensures Distinct(names[1..]) && names[0] !in names[1..]
  {
  }

  /** A sequence of distinct names has as many elements as it has names. */
  lemma {:induction false} DistinctCard(names: seq<string>)
    requires Distinct(names)
    ensures |(set n | n in names)| == |names|
  {
    if |names| > 0 {
      DistinctTail(names);
      DistinctCard(names[1..]);
      assert (set n | n in names) == {names[0]} + (set n | n in names[1..]);
    }
  }
}
