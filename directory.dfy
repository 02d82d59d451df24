/** The Nachos Directory class: a table of entries updated in place, the
    character-scanning split of a path, lookup, and Find, Add and Remove,
    each proved to compute what DirectorySpec says. A subdirectory is
    read into a fresh Directory from the map of directory files. */
module Directories {
  import opened DirectorySpec
  import DirectoryProps

  /** The two scanning loops of Find and Add: skip past the first '/',
      at k, then copy the next component, which ends at lim, into a
      zeroed buffer of FileNameMaxLen + 1 characters. Returns the length
      of the skipped level, the copied component and whether the path
      ends right after it. DirectoryProps.SplitIndices gives k and lim
      for Split. */
  method SplitName(name: seq<char>, ghost k: nat, ghost lim: nat) returns (nameLenThisLevel: int, comp: seq<char>, atEnd: bool)
    requires k < |name| && name[k] == '/' && forall i :: 0 <= i < k ==> name[i] != '/'
    requires k + 1 <= lim <= |name| && lim - (k + 1) <= FileNameMaxLen + 1
    requires forall i :: k + 1 <= i < lim - 1 ==> name[i] != '/'
    requires lim < |name| ==> k + 1 < lim && name[lim - 1] == '/'
    ensures nameLenThisLevel == k + 1 && comp == name[k + 1..lim] && (atEnd <==> lim == |name|)
  {
    var nameBuf := new char[FileNameMaxLen + 1];
    forall i | 0 <= i < nameBuf.Length {
      nameBuf[i] := '\0';
    }
    nameLenThisLevel := 0;
    var nameLenNext := 0;
    var nameCur := 0;
    while name[nameCur] != '/'
      invariant 0 <= nameCur <= k && nameLenThisLevel == nameCur
      decreases k - nameCur
    {
      nameLenThisLevel := nameLenThisLevel + 1;
      nameCur := nameCur + 1;
    }
    nameLenThisLevel := nameLenThisLevel + 1;
    nameCur := nameCur + 1;
    while nameCur < |name|
      invariant nameCur == k + 1 + nameLenNext <= lim && nameLenThisLevel == k + 1
      invariant nameCur < lim || lim == |name|
      invariant forall i :: 0 <= i < nameLenNext ==> nameBuf[i] == name[k + 1 + i]
      decreases |name| - nameCur
    {
      nameBuf[nameLenNext] := name[nameCur];
      nameLenNext := nameLenNext + 1;
      nameCur := nameCur + 1;
      if name[nameCur - 1] == '/' {
        break;
      }
    }
    comp := nameBuf[..nameLenNext];
    assert comp == name[k + 1..nameCur];
    atEnd := nameCur == |name|;
  }

  class Directory {
    var table: array<DirectoryEntry>
    var tableSize: int

    ghost predicate Valid()
      reads this
    {
      tableSize == table.Length
    }

    /** A directory of `size` entries, none of them in use; the other
        fields of the entries are left as allocated. */
    constructor(size: int)
      requires 0 <= size
      ensures Valid() && fresh(table) && table.Length == size
      ensures forall i :: 0 <= i < size ==> !table[i].inUse
    {
      var t := new DirectoryEntry[size];
      for i := 0 to size
        invariant forall j :: 0 <= j < i ==> !t[j].inUse
      {
        t[i] := t[i].(inUse := false);
      }
      table := t;
      tableSize := size;
    }

    /** Reads the table stored in the directory file whose header is at
        `sector`. */
    method FetchFrom(dirs: map<int, DirTable>, sector: int)
      requires Valid() && tableSize == NumDirEntries
      modifies table
      ensures table[..] == Fetched(dirs, sector)
    {
      var t := Fetched(dirs, sector);
      forall i | 0 <= i < table.Length {
        table[i] := t[i];
      }
    }

    /** The lowest slot in use whose name matches in its first
        FileNameMaxLen characters, or -1. */
    method FindIndex(name: seq<char>) returns (r: int)
      requires Valid()
      ensures r == FindIn(table[..], name)
    {
      for i := 0 to tableSize
        invariant FindIn(table[..], name) == FindFrom(table[..], name, i)
      {
        if table[i].inUse && Key(table[i].name) == Key(name) {
          return i;
        }
      }
      return -1;
    }

    /** The header sector of the file at path `name`, descending one
        directory per level. */
    method Find(name: seq<char>, dirs: map<int, DirTable>) returns (r: int)
      requires Valid() && Walkable(table[..], dirs, name, false)
      ensures r == FindPath(table[..], dirs, name)
      decreases |name|
    {
      ghost var k, lim := DirectoryProps.SplitIndices(name);
      var nameLenThisLevel, nameBuf, atEnd := SplitName(name, k, lim);
      if atEnd {
        var idx := FindIndex(name[nameLenThisLevel..]);
        if idx != -1 {
          return table[idx].sector;
        }
        return -1;
      } else {
        var idx := FindIndex(nameBuf);
        if idx != -1 {
          DirectoryProps.WalkDescends(table[..], dirs, name, false);
          var nextDirectory := new Directory(NumDirEntries);
          nextDirectory.FetchFrom(dirs, table[idx].sector);
          r := nextDirectory.Find(name[nameLenThisLevel..], dirs);
          return r;
        }
        return 0;
      }
    }

    /** Adds the file at path `name` with its header at `newSector`.
        Only a last-level Add changes this table. */
    method Add(name: seq<char>, newSector: int, dirs: map<int, DirTable>) returns (ok: bool)
      requires Valid() && Walkable(table[..], dirs, name, true)
      modifies table
      ensures Update(ok, table[..]) == AddPath(old(table[..]), dirs, name, newSector)
      decreases |name|
    {
      ghost var k, lim := DirectoryProps.SplitIndices(name);
      var nameLenThisLevel, nameBuf, atEnd := SplitName(name, k, lim);
      if atEnd {
        var found := FindIndex(nameBuf);
        if found != -1 {
          return false;
        }
        for i := 0 to tableSize
          invariant forall j :: 0 <= j < i ==> table[j].inUse
          invariant table[..] == old(table[..])
          invariant FirstFree(table[..]) == FreeFrom(table[..], i)
        {
          if !table[i].inUse {
            var dirType := if nameBuf[|nameBuf| - 1] == '/' then 0 else 1;
            table[i] := table[i].(inUse := true, name := Key(nameBuf), dirType := dirType, sector := newSector);
            return true;
          }
        }
        return false;
      } else {
        var idx := FindIndex(nameBuf);
        if idx != -1 {
          DirectoryProps.WalkDescends(table[..], dirs, name, true);
          var nextDirectory := new Directory(NumDirEntries);
          nextDirectory.FetchFrom(dirs, table[idx].sector);
          ok := nextDirectory.Add(name[nameLenThisLevel..], newSector, dirs);
          return ok;
        }
        return false;
      }
    }

    /** Marks the entry found for the whole of `name` unused. */
    method Remove(name: seq<char>) returns (ok: bool)
      requires Valid()
      modifies table
      ensures Update(ok, table[..]) == RemoveEntry(old(table[..]), name)
    {
      var i := FindIndex(name);
      if i == -1 {
        return false;
      }
      table[i] := table[i].(inUse := false);
      return true;
    }
  }
}
