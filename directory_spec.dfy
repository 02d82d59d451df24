/** A Nachos directory as a value: a table of fixed-size entries, the
    lookup by name that compares only the first FileNameMaxLen characters,
    the splitting of a '/'-separated path one component per level, and
    what Find, Add and Remove compute. A string here is the sequence of
    characters before its terminating NUL. Subdirectories are reached
    through a map from the sector of a directory's header to the table
    stored in that directory's file. */
module DirectorySpec {

  /** Characters of a name that lookups compare. */
  const FileNameMaxLen: int := 9
  /** Entries of every directory read back from disk. */
  const NumDirEntries: int := 10

  /** One slot of the table; dirType is 0 for a directory, 1 for a file. */
  datatype DirectoryEntry = DirectoryEntry(inUse: bool, dirType: int, sector: int, name: seq<char>)

  /** A slot of a zero-filled directory file. */
  const UnusedEntry := DirectoryEntry(false, 0, 0, [])

  /** The table of a directory file that has never been written. */
  function EmptyTable(size: nat): (t: seq<DirectoryEntry>)
    ensures |t| == size
    ensures forall i :: 0 <= i < size ==> !t[i].inUse
  {
    seq(size, _ => UnusedEntry)
  }

  type DirTable = t: seq<DirectoryEntry> | |t| == NumDirEntries witness seq(NumDirEntries, _ => UnusedEntry)

  /** The table FetchFrom reads from the directory file whose header is
      at `sector`. */
  function Fetched(dirs: map<int, DirTable>, sector: int): DirTable {
    if sector in dirs then dirs[sector] else EmptyTable(NumDirEntries)
  }

  /** The characters strncmp and strncpy look at with FileNameMaxLen. */
  function Key(s: seq<char>): (k: seq<char>)
    ensures k <= s && |k| == if |s| < FileNameMaxLen then |s| else FileNameMaxLen
  {
    if |s| <= FileNameMaxLen then s else s[..FileNameMaxLen]
  }

  /** The entry is in use and holds `name` as far as strncmp compares. */
  predicate Matches(e: DirectoryEntry, name: seq<char>) {
    e.inUse && Key(e.name) == Key(name)
  }

  /** Lookup from slot i on: the first matching slot, or -1. */
  function FindFrom(t: seq<DirectoryEntry>, name: seq<char>, i: nat): (r: int)
    requires i <= |t|
    ensures r == -1 || i <= r < |t|
    ensures r == -1 <==> forall j :: i <= j < |t| ==> !Matches(t[j], name)
    ensures r != -1 ==> Matches(t[r], name) && forall j :: i <= j < r ==> !Matches(t[j], name)
    decreases |t| - i
  {
    if i == |t| then -1
    else if Matches(t[i], name) then i
    else FindFrom(t, name, i + 1)
  }

  /** The value FindIndex returns. */
  function FindIn(t: seq<DirectoryEntry>, name: seq<char>): int {
    FindFrom(t, name, 0)
  }

  /** Search for a free slot from slot i on: the first one, or -1. */
  function FreeFrom(t: seq<DirectoryEntry>, i: nat): (r: int)
    requires i <= |t|
    ensures r == -1 || i <= r < |t|
    ensures r == -1 <==> forall j :: i <= j < |t| ==> t[j].inUse
    ensures r != -1 ==> !t[r].inUse && forall j :: i <= j < r ==> t[j].inUse
    decreases |t| - i
  {
    if i == |t| then -1
    else if !t[i].inUse then i
    else FreeFrom(t, i + 1)
  }

  /** The slot Add fills at the last level, or -1 when there is none. */
  function FirstFree(t: seq<DirectoryEntry>): int {
    FreeFrom(t, 0)
  }

  /** Position of the first '/', or |s| when there is none. */
  function FirstSlash(s: seq<char>): (r: nat)
    ensures r <= |s| && (r < |s| ==> s[r] == '/')
    ensures forall i :: 0 <= i < r ==> s[i] != '/'
  {
    if |s| == 0 then 0
    else if s[0] == '/' then 0
    else 1 + FirstSlash(s[1..])
  }

  /** One level of a path: thisLevel characters up to and including the
      first '/' are dropped; rest is what follows them, which is also the
      path handed to the subdirectory; comp is rest up to and including
      its own first '/'; last says that nothing follows comp. */
  datatype PathSplit = PathSplit(thisLevel: nat, rest: seq<char>, comp: seq<char>, last: bool)

  function Split(name: seq<char>): (p: PathSplit)
    requires '/' in name
    ensures 1 <= p.thisLevel <= |name| && p.rest == name[p.thisLevel..]
  {
    var k := FirstSlash(name);
    var rest := name[k + 1..];
    var j := FirstSlash(rest);
    var comp := if j < |rest| then rest[..j + 1] else rest;
    PathSplit(k + 1, rest, comp, |comp| == |rest|)
  }

  /** What the code demands on the way down a path: a '/' in every name
      it splits (asserted), a component that fits the FileNameMaxLen + 1
      character buffer it is copied into, an intermediate entry that is a
      directory (asserted), and for Add a last component that is not
      empty wherever Add goes on to read the character before it: once
      the component is not found and a free slot is. */
  predicate Walkable(t: seq<DirectoryEntry>, dirs: map<int, DirTable>, name: seq<char>, adding: bool)
    decreases |name|
  {
    '/' in name &&
    var p := Split(name);
    |p.comp| <= FileNameMaxLen + 1 &&
    if p.last then (adding ==> 0 < |p.comp| || FindIn(t, p.comp) != -1 || FirstFree(t) == -1)
    else
      var i := FindIn(t, p.comp);
      i != -1 ==> t[i].dirType == 0 && Walkable(Fetched(dirs, t[i].sector), dirs, p.rest, adding)
  }

  /** The value Find returns: the header sector of the named entry, -1
      when the last component is missing, and 0 (FALSE) when an
      intermediate directory is missing. */
  function FindPath(t: seq<DirectoryEntry>, dirs: map<int, DirTable>, name: seq<char>): int
    requires Walkable(t, dirs, name, false)
    decreases |name|
  {
    var p := Split(name);
    if p.last then
      var i := FindIn(t, p.rest);
      if i != -1 then t[i].sector else -1
    else
      var i := FindIn(t, p.comp);
      if i != -1 then FindPath(Fetched(dirs, t[i].sector), dirs, p.rest) else 0
  }

  /** Outcome of an operation on one table: its result and the new table. */
  datatype Update = Update(ok: bool, table: seq<DirectoryEntry>)

  /** The entry Add writes for component `comp`; a name ending in '/'
      makes a directory. */
  function NewEntry(comp: seq<char>, newSector: int): DirectoryEntry
    requires 0 < |comp|
  {
    DirectoryEntry(true, if comp[|comp| - 1] == '/' then 0 else 1, newSector, Key(comp))
  }

  /** What Add returns and leaves in the table it was called on. A nested
      Add works on a copy of the subdirectory read from disk that is
      never written back, so only its result comes out. */
  function AddPath(t: seq<DirectoryEntry>, dirs: map<int, DirTable>, name: seq<char>, newSector: int): Update
    requires Walkable(t, dirs, name, true)
    decreases |name|
  {
    var p := Split(name);
    if p.last then
      if FindIn(t, p.comp) != -1 then Update(false, t)
      else
        var f := FirstFree(t);
        if f == -1 then Update(false, t)
        else Update(true, t[f := NewEntry(p.comp, newSector)])
    else
      var i := FindIn(t, p.comp);
      if i != -1 then Update(AddPath(Fetched(dirs, t[i].sector), dirs, p.rest, newSector).ok, t)
      else Update(false, t)
  }

  /** What Remove returns and leaves in the table: the whole name is
      looked up and the matching entry is marked unused. */
  function RemoveEntry(t: seq<DirectoryEntry>, name: seq<char>): Update {
    var i := FindIn(t, name);
    if i == -1 then Update(false, t)
    else Update(true, t[i := t[i].(inUse := false)])
  }

  /** No two entries in use have the same name as far as lookups see. */
  ghost predicate UniqueNames(t: seq<DirectoryEntry>) {
    forall i, j :: 0 <= i < |t| && 0 <= j < |t| && Matches(t[i], t[j].name) && t[j].inUse ==> i == j
  }
}
