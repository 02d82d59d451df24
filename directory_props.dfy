/** Properties of the directory operations in DirectorySpec: the path
    split is the unique factoring of a path into the dropped level, one
    component and the remainder; Add changes at most one entry and makes
    the new name findable; Remove marks only the found entry unused; the
    table keeps distinct names; and the value Find returns for a missing
    intermediate directory. */
module DirectoryProps {
  import opened DirectorySpec

  /** What one level of the split keeps: the dropped level ends at the
      first '/', the component is a prefix of the rest holding '/' only
      as its last character, and the path goes on after the component
      exactly when that character is a '/' followed by more. */
  lemma SplitShape(name: seq<char>)
    requires '/' in name
    ensures var p := Split(name);
      && name[p.thisLevel - 1] == '/'
      && (forall i :: 0 <= i < p.thisLevel - 1 ==> name[i] != '/')
      && p.comp <= p.rest
      && (forall i :: 0 <= i < |p.comp| - 1 ==> p.comp[i] != '/')
      && (p.last <==> p.comp == p.rest)
      && (!p.last ==> 0 < |p.comp| && p.comp[|p.comp| - 1] == '/')
      && (p.last ==> '/' !in p.rest || p.rest[|p.rest| - 1] == '/')
  {
  }

  /** FirstSlash is pinned down by where the first '/' is. */
  lemma FirstSlashAt(s: seq<char>, k: nat)
    requires k <= |s| && (k < |s| ==> s[k] == '/')
    requires forall i :: 0 <= i < k ==> s[i] != '/'
    ensures FirstSlash(s) == k
  {
  }

  /** Any path cut as `pre` '/' `comp` `rem`, with no '/' in `pre`, a
      component that ends with its only '/' or holds none and then ends
      the path, is split exactly there. */
  lemma SplitIsUnique(name: seq<char>, pre: seq<char>, comp: seq<char>, rem: seq<char>)
    requires name == pre + ['/'] + comp + rem
    requires forall i :: 0 <= i < |pre| ==> pre[i] != '/'
    requires forall i :: 0 <= i < |comp| - 1 ==> comp[i] != '/'
    requires (0 < |comp| && comp[|comp| - 1] == '/') || (rem == [] && '/' !in comp)
    ensures '/' in name
    ensures Split(name) == PathSplit(|pre| + 1, comp + rem, comp, rem == [])
  {
    assert name[|pre|] == '/';
    forall i | 0 <= i < |pre| ensures name[i] != '/' {
      assert name[i] == pre[i];
    }
    FirstSlashAt(name, |pre|);
    var rest := name[|pre| + 1..];
    assert rest == comp + rem;
    if 0 < |comp| && comp[|comp| - 1] == '/' {
      forall i | 0 <= i < |comp| - 1 ensures rest[i] != '/' {
        assert rest[i] == comp[i];
      }
      assert rest[|comp| - 1] == '/';
      FirstSlashAt(rest, |comp| - 1);
      assert rest[..|comp|] == comp;
    } else {
      assert rest == comp;
      forall i | 0 <= i < |comp| ensures rest[i] != '/' {
        assert rest[i] in comp;
      }
      FirstSlashAt(rest, |comp|);
    }
  }

  /** The split as positions in the path: k is the first '/', and the
      component runs from k + 1 to lim, with no '/' before its last
      character, which is a '/' whenever the path goes on after lim. */
  lemma SplitIndices(name: seq<char>) returns (k: nat, lim: nat)
    requires '/' in name
    ensures k + 1 == Split(name).thisLevel && k < |name| && name[k] == '/'
    ensures forall i :: 0 <= i < k ==> name[i] != '/'
    ensures k + 1 + |Split(name).comp| == lim <= |name| && Split(name).comp == name[k + 1..lim]
    ensures forall i :: k + 1 <= i < lim - 1 ==> name[i] != '/'
    ensures lim < |name| ==> k + 1 < lim && name[lim - 1] == '/'
    ensures Split(name).last <==> lim == |name|
  {
    var p := Split(name);
    SplitShape(name);
    k := p.thisLevel - 1;
    lim := p.thisLevel + |p.comp|;
    assert p.comp == p.rest[..|p.comp|];
    forall i | k + 1 <= i < lim - 1 ensures name[i] != '/' {
      assert name[i] == p.comp[i - k - 1];
    }
    if lim < |name| {
      assert name[lim - 1] == p.comp[|p.comp| - 1];
    }
  }

  /** A path Add can walk can also be walked by Find. */
  lemma {:induction false} AddWalkableFindWalkable(t: seq<DirectoryEntry>, dirs: map<int, DirTable>, name: seq<char>)
    requires Walkable(t, dirs, name, true)
    ensures Walkable(t, dirs, name, false)
    decreases |name|
  {
    var p := Split(name);
    if !p.last {
      var i := FindIn(t, p.comp);
      if i != -1 {
        AddWalkableFindWalkable(Fetched(dirs, t[i].sector), dirs, p.rest);
      }
    }
  }

  /** One level of a walk: below the last level the found entry is a
      directory, and the walk goes on in the table read from it. */
  lemma WalkDescends(t: seq<DirectoryEntry>, dirs: map<int, DirTable>, name: seq<char>, adding: bool)
    requires Walkable(t, dirs, name, adding) && !Split(name).last && FindIn(t, Split(name).comp) != -1
    ensures var i := FindIn(t, Split(name).comp);
      && 0 <= i < |t| && t[i].dirType == 0
      && Walkable(Fetched(dirs, t[i].sector), dirs, Split(name).rest, adding)
      && (!adding ==> FindPath(t, dirs, name) == FindPath(Fetched(dirs, t[i].sector), dirs, Split(name).rest))
      && (adding ==> forall s :: AddPath(t, dirs, name, s) == Update(AddPath(Fetched(dirs, t[i].sector), dirs, Split(name).rest, s).ok, t))
  {
  }

  /** A table whose every entry is unused names nothing, has a free slot
      when it is not empty, and has distinct names. */
  lemma UnusedTable(t: seq<DirectoryEntry>, name: seq<char>)
    requires forall i :: 0 <= i < |t| ==> !t[i].inUse
    ensures FindIn(t, name) == -1
    ensures FirstFree(t) == if |t| == 0 then -1 else 0
    ensures UniqueNames(t)
  {
  }

  /** The key of a stored name is the stored name. */
  lemma KeyIdempotent(s: seq<char>)
    ensures Key(Key(s)) == Key(s)
  {
  }

  /** Filling a free slot f, earlier than any match, with an entry that
      matches `name` makes f the slot lookups find. */
  lemma FindAfterFill(t: seq<DirectoryEntry>, f: int, e: DirectoryEntry, name: seq<char>)
    requires 0 <= f < |t| && FindIn(t, name) == -1 && Matches(e, name)
    ensures FindIn(t[f := e], name) == f
  {
    var u := t[f := e];
    forall j | 0 <= j < f ensures !Matches(u[j], name) {
      assert u[j] == t[j];
    }
    assert Matches(u[f], name);
  }

  /** At the last level Add succeeds exactly when the component is absent
      and a slot is free; it then fills the lowest free slot with an
      in-use entry holding the component's key, the new sector and the
      directory-or-file type, and leaves every other slot alone. A
      failing Add leaves the table as it was. */
  lemma AddAtLastLevel(t: seq<DirectoryEntry>, dirs: map<int, DirTable>, name: seq<char>, newSector: int)
    requires Walkable(t, dirs, name, true) && Split(name).last
    ensures var p := Split(name); var u := AddPath(t, dirs, name, newSector);
      && (u.ok <==> FindIn(t, p.comp) == -1 && FirstFree(t) != -1)
      && (!u.ok ==> u.table == t)
      && (u.ok ==> var f := FirstFree(t);
            && |u.table| == |t| && !t[f].inUse && (forall j :: 0 <= j < f ==> t[j].inUse)
            && u.table[f].inUse && u.table[f].sector == newSector && u.table[f].name == Key(p.comp)
            && (u.table[f].dirType == 0 <==> p.comp[|p.comp| - 1] == '/')
            && (forall j :: 0 <= j < |t| && j != f ==> u.table[j] == t[j]))
  {
  }

  /** Add changes at most one entry of the table it is called on. */
  lemma AddChangesAtMostOne(t: seq<DirectoryEntry>, dirs: map<int, DirTable>, name: seq<char>, newSector: int)
    requires Walkable(t, dirs, name, true)
    ensures var u := AddPath(t, dirs, name, newSector);
      && |u.table| == |t|
      && (forall j, k :: 0 <= j < |t| && 0 <= k < |t| && u.table[j] != t[j] && u.table[k] != t[k] ==> j == k)
  {
  }

  /** Below the last level the table Add was called on is never changed,
      even when the nested Add reports success: the subdirectory it
      changed is a copy that is not written back. */
  lemma AddBelowIsLost(t: seq<DirectoryEntry>, dirs: map<int, DirTable>, name: seq<char>, newSector: int)
    requires Walkable(t, dirs, name, true) && !Split(name).last
    ensures AddPath(t, dirs, name, newSector).table == t
    ensures Walkable(t, dirs, name, false)
    ensures FindPath(t, dirs, name) == FindPath(AddPath(t, dirs, name, newSector).table, dirs, name)
  {
    AddWalkableFindWalkable(t, dirs, name);
  }

  /** After a successful Add at the last level, Find of the same path
      returns the sector just added. */
  lemma AddThenFind(t: seq<DirectoryEntry>, dirs: map<int, DirTable>, name: seq<char>, newSector: int)
    requires Walkable(t, dirs, name, true) && Split(name).last
    requires AddPath(t, dirs, name, newSector).ok
    ensures Walkable(AddPath(t, dirs, name, newSector).table, dirs, name, false)
    ensures FindPath(AddPath(t, dirs, name, newSector).table, dirs, name) == newSector
  {
    var p := Split(name);
    var f := FirstFree(t);
    var e := NewEntry(p.comp, newSector);
    KeyIdempotent(p.comp);
    assert Matches(e, p.comp);
    FindAfterFill(t, f, e, p.comp);
    assert p.rest == p.comp;
  }

  /** Add keeps the names of a table distinct. */
  lemma AddKeepsUniqueNames(t: seq<DirectoryEntry>, dirs: map<int, DirTable>, name: seq<char>, newSector: int)
    requires Walkable(t, dirs, name, true) && UniqueNames(t)
    ensures UniqueNames(AddPath(t, dirs, name, newSector).table)
  {
    var p := Split(name);
    var u := AddPath(t, dirs, name, newSector);
    if p.last && u.ok {
      var f := FirstFree(t);
      KeyIdempotent(p.comp);
      forall i, j | 0 <= i < |u.table| && 0 <= j < |u.table| && Matches(u.table[i], u.table[j].name) && u.table[j].inUse
        ensures i == j
      {
        if i != f && j != f {
          assert Matches(t[i], t[j].name);
        }
      }
    }
  }

  /** Remove succeeds exactly when the whole name is found; it then marks
      that entry unused and changes nothing else, and otherwise leaves
      the table as it was. */
  lemma RemoveMarksFoundEntry(t: seq<DirectoryEntry>, name: seq<char>)
    ensures var r := RemoveEntry(t, name); var i := FindIn(t, name);
      && (r.ok <==> i != -1)
      && (!r.ok ==> r.table == t && forall j :: 0 <= j < |t| ==> !Matches(t[j], name))
      && (r.ok ==> && |r.table| == |t| && Matches(t[i], name) && !r.table[i].inUse
                   && r.table[i].name == t[i].name && r.table[i].sector == t[i].sector
                   && r.table[i].dirType == t[i].dirType
                   && forall j :: 0 <= j < |t| && j != i ==> r.table[j] == t[j])
  {
  }

  /** With distinct names, the removed name is no longer found. */
  lemma RemoveThenAbsent(t: seq<DirectoryEntry>, name: seq<char>)
    requires UniqueNames(t)
    ensures FindIn(RemoveEntry(t, name).table, name) == -1
  {
    var i := FindIn(t, name);
    if i != -1 {
      var u := RemoveEntry(t, name).table;
      forall j | 0 <= j < |u| ensures !Matches(u[j], name) {
        if j != i && Matches(u[j], name) {
          assert Matches(t[j], t[i].name);
        }
      }
    }
  }

  /** Remove keeps the names of a table distinct. */
  lemma RemoveKeepsUniqueNames(t: seq<DirectoryEntry>, name: seq<char>)
    requires UniqueNames(t)
    ensures UniqueNames(RemoveEntry(t, name).table)
  {
    var i := FindIn(t, name);
    if i != -1 {
      var u := RemoveEntry(t, name).table;
      forall a, b | 0 <= a < |u| && 0 <= b < |u| && Matches(u[a], u[b].name) && u[b].inUse
        ensures a == b
      {
        assert u[a] == t[a] && u[b] == t[b];
      }
    }
  }

  /** Removing the component a last-level Add just added gives back the
      entries in use before the Add, unchanged. */
  lemma AddThenRemove(t: seq<DirectoryEntry>, dirs: map<int, DirTable>, name: seq<char>, newSector: int)
    requires Walkable(t, dirs, name, true) && Split(name).last
    requires AddPath(t, dirs, name, newSector).ok
    ensures var r := RemoveEntry(AddPath(t, dirs, name, newSector).table, Split(name).comp);
      && r.ok && |r.table| == |t|
      && forall j :: 0 <= j < |t| ==> r.table[j].inUse == t[j].inUse && (t[j].inUse ==> r.table[j] == t[j])
  {
    var p := Split(name);
    var f := FirstFree(t);
    var e := NewEntry(p.comp, newSector);
    KeyIdempotent(p.comp);
    assert Matches(e, p.comp);
    FindAfterFill(t, f, e, p.comp);
  }

  /** At the last level Find returns the sector of the found entry, and
      -1 exactly when the component is missing. */
  lemma FindAtLastLevel(t: seq<DirectoryEntry>, dirs: map<int, DirTable>, name: seq<char>)
    requires Walkable(t, dirs, name, false) && Split(name).last
    ensures var i := FindIn(t, Split(name).comp);
      && (FindPath(t, dirs, name) == -1 <==> i == -1 || t[i].sector == -1)
      && (i != -1 ==> FindPath(t, dirs, name) == t[i].sector)
  {
    SplitShape(name);
    assert Split(name).rest == Split(name).comp;
  }

  /** A missing intermediate directory makes Find return 0, the value it
      also returns for a file whose header is at sector 0, not -1. */
  lemma FindMissingDirectoryIsZero(t: seq<DirectoryEntry>, dirs: map<int, DirTable>, name: seq<char>)
    requires Walkable(t, dirs, name, false) && !Split(name).last
    requires FindIn(t, Split(name).comp) == -1
    ensures FindPath(t, dirs, name) == 0
  {
  }

  /** Concretely: with one file "b" at sector 0, Find of "/b" and Find of
      "/x/y", whose directory "x/" does not exist, return the same 0. */
  lemma MissingDirectoryLooksLikeSectorZero()
    ensures var t := [DirectoryEntry(true, 1, 0, ['b'])];
      && Walkable(t, map[], ['/', 'b'], false) && Walkable(t, map[], ['/', 'x', '/', 'y'], false)
      && FindPath(t, map[], ['/', 'b']) == 0 && FindPath(t, map[], ['/', 'x', '/', 'y']) == 0
      && FindIn(t, ['x', '/']) == -1
  {
    var t := [DirectoryEntry(true, 1, 0, ['b'])];
    SplitIsUnique(['/', 'b'], [], ['b'], []);
    SplitIsUnique(['/', 'x', '/', 'y'], [], ['x', '/'], ['y']);
    assert !Matches(t[0], ['x', '/']);
  }
}
