/**
 * An abstract file system: a map from clean absolute paths to nodes. A
 * directory's listing is derived from the map, so it always agrees with what
 * exists below it.
 */
module Files {
  import opened Wrappers
  import opened Paths

  datatype Node = File | Directory(readable: bool)

  type FileSystem = map<string, Node>

  /** One entry of a directory listing, as `os.ReadDir` reports it. */
  datatype DirEntry = DirEntry(name: string, isDir: bool)

  /** `os.Stat` then `os.ReadDir`: a missing path, a listing that fails, or the entries. */
  datatype Listing = Missing | Unreadable | Entries(entries: set<DirEntry>)

  /** The name of `p` when it lies exactly one element below the directory `d`. */
  function ChildName(d: string, p: string): (r: Option<string>)
    ensures r.Some? ==> IsComponent(r.value) && Join(d, r.value) == p
  {
    if d != [] && |p| > |d| + 1 && p[..|d| + 1] == d + "/" && '/' !in p[|d| + 1..] then
      assert p == p[..|d| + 1] + p[|d| + 1..];
      Some(p[|d| + 1..])
    else None
  }

  /** A component joined onto a directory is a child of it, under that name. */
  lemma ChildNameOfJoin(d: string, c: string)
    requires d != [] && IsComponent(c)
    ensures ChildName(d, Join(d, c)) == Some(c)
  {
    var p := Join(d, c);
    assert p[..|d| + 1] == d + "/";
    assert p[|d| + 1..] == c;
  }

  /** The entries of the directory `d`: every path one element below it. */
  function Children(fs: FileSystem, d: string): set<DirEntry> {
    set p | p in fs && ChildName(d, p).Some? :: DirEntry(ChildName(d, p).value, fs[p].Directory?)
  }

  /** A child entry names an existing path below `d`, a directory exactly when the entry says so. */
  lemma ChildEntry(fs: FileSystem, d: string, e: DirEntry)
    requires e in Children(fs, d)
    ensures IsComponent(e.name) && Join(d, e.name) in fs && e.isDir == fs[Join(d, e.name)].Directory?
  {
    var p :| p in fs && ChildName(d, p).Some? && e == DirEntry(ChildName(d, p).value, fs[p].Directory?);
  }

  /** An existing path below `d` appears in its listing. */
  lemma EntryOfChild(fs: FileSystem, d: string, c: string)
    requires d != [] && IsComponent(c) && Join(d, c) in fs
    ensures DirEntry(c, fs[Join(d, c)].Directory?) in Children(fs, d)
  {
    ChildNameOfJoin(d, c);
  }

  /** The same name never appears twice in a listing, once as a directory and once not. */
  lemma EntryNamesUnique(fs: FileSystem, d: string, e1: DirEntry, e2: DirEntry)
    requires e1 in Children(fs, d) && e2 in Children(fs, d) && e1.name == e2.name
    ensures e1 == e2
  {
    ChildEntry(fs, d, e1);
    ChildEntry(fs, d, e2);
  }

  /** What listing the directory `d` gives. */
  function ReadDir(fs: FileSystem, d: string): Listing {
    if d !in fs then Missing
    else if fs[d] == Directory(true) then Entries(Children(fs, d))
    else Unreadable
  }

  /** `os.MkdirAll(d)` on its own path: `None` when a file is in the way or the call fails. */
  function MkdirAll(fs: FileSystem, d: string, ok: bool): (r: Option<FileSystem>)
    ensures r.Some? ==> d in r.value && r.value[d].Directory?
    ensures r.Some? && d in fs ==> r.value == fs
    ensures r.Some? ==> forall p :: p != d ==> (p in r.value <==> p in fs) && (p in fs ==> r.value[p] == fs[p])
    ensures r.None? <==> !ok || (d in fs && fs[d].File?)
  {
    if !ok || (d in fs && fs[d].File?) then None
    else if d in fs then Some(fs)
    else Some(fs[d := Directory(true)])
  }
}
