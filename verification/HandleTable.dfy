/** The handle tables of `EncryptedFs` for all inodes: which handle is open on which inode, and
    the two reverse tables that are kept beside them (src/encryptedfs.rs). */
module Handles {
  import opened Primitives

  type Ino = nat

  /** What storage has under an inode number. */
  datatype Node = Missing | Directory | RegularFile

  /** The handles of each inode that has any. */
  ghost function Grouped(m: map<nat, Ino>): map<Ino, set<nat>> {
    map ino | ino in m.Values :: set h | h in m && m[h] == ino
  }

  /** Two tables are each other's inverse: one handle per inode, one inode per handle. */
  ghost predicate Inverse(m: map<nat, Ino>, o: map<Ino, nat>) {
    && (forall h | h in m :: m[h] in o && o[m[h]] == h)
    && (forall ino | ino in o :: o[ino] in m && m[o[ino]] == ino)
  }

  lemma GroupedInsert(m: map<nat, Ino>, h: nat, ino: Ino)
    requires h !in m
    ensures var g := Grouped(m);
            Grouped(m[h := ino]) == g[ino := (if ino in g then g[ino] else {}) + {h}]
  {
    var m', g := m[h := ino], Grouped(m);
    var g' := g[ino := (if ino in g then g[ino] else {}) + {h}];
    assert m'[h] == ino;
    assert forall k | k in m :: m'[k] == m[k];
    assert Grouped(m').Keys == g'.Keys;
    forall i | i in g'
      ensures Grouped(m')[i] == g'[i]
    {
      if i == ino && i !in g {
        assert forall k | k in m :: m[k] != i;
      }
    }
  }

  lemma GroupedRemove(m: map<nat, Ino>, h: nat)
    requires h in m
    ensures var g := Grouped(m);
            var rest := g[m[h]] - {h};
            Grouped(m - {h}) == if rest == {} then g - {m[h]} else g[m[h] := rest]
  {
    var m', g, ino := m - {h}, Grouped(m), m[h];
    var rest := g[ino] - {h};
    var g' := if rest == {} then g - {ino} else g[ino := rest];
    forall i
      ensures i in Grouped(m') <==> i in g'
      ensures i in g' ==> Grouped(m')[i] == g'[i]
    {
      if i in g' {
        if i == ino {
          var k :| k in rest;
          assert k in m' && m'[k] == i;
        } else {
          var k :| k in m && m[k] == i;
          assert k in m' && m'[k] == i;
        }
      }
    }
  }

  /** With inverse tables, an inode has at most one write handle. */
  lemma SingleWriter(m: map<nat, Ino>, o: map<Ino, nat>, h: nat, k: nat)
    requires Inverse(m, o) && h in m && k in m && m[h] == m[k]
    ensures h == k
  {
    assert o[m[h]] == h && o[m[k]] == k;
  }

  class HandleTable {
    var readHandles: map<nat, Ino>
    var writeHandles: map<nat, Ino>
    var openedForRead: map<Ino, set<nat>>
    var openedForWrite: map<Ino, nat>
    var currentHandle: nat

    ghost predicate Valid()
      reads this
    {
      && openedForRead == Grouped(readHandles)
      && Inverse(writeHandles, openedForWrite)
      && currentHandle > 0
      && (forall h | h in readHandles || h in writeHandles :: 0 < h < currentHandle)
    }

    constructor ()
      ensures Valid() && readHandles == map[] && writeHandles == map[] && currentHandle == 1
    {
      readHandles, writeHandles, openedForRead, openedForWrite, currentHandle := map[], map[], map[], map[], 1;
    }

    method NextHandle() returns (h: nat)
      modifies this`currentHandle
      ensures h == old(currentHandle) && currentHandle == h + 1
    {
      h := currentHandle;
      currentHandle := currentHandle + 1;
    }

    method AddReadHandle(h: nat, ino: Ino)
      requires Valid() && h !in readHandles && 0 < h < currentHandle
      modifies this`readHandles, this`openedForRead
      ensures Valid() && readHandles == old(readHandles)[h := ino]
    {
      GroupedInsert(readHandles, h, ino);
      readHandles := readHandles[h := ino];
      var handles := if ino in openedForRead then openedForRead[ino] else {};
      openedForRead := openedForRead[ino := handles + {h}];
    }

    method AddWriteHandle(h: nat, ino: Ino)
      requires Valid() && h !in writeHandles && ino !in openedForWrite && 0 < h < currentHandle
      modifies this`writeHandles, this`openedForWrite
      ensures Valid() && writeHandles == old(writeHandles)[h := ino]
    {
      writeHandles := writeHandles[h := ino];
      openedForWrite := openedForWrite[ino := h];
    }

    /** Opens an inode. The handle is new; when writing is refused because another handle
        writes the inode, a read handle asked for as well has been entered all the same. A
        missing inode is noticed after a handle number was taken. */
    method Open(ino: Ino, node: Node, read: bool, write: bool) returns (r: FsResult<nat>)
      requires Valid()
      modifies this
      ensures Valid()
      ensures r == if !read && !write then Fail(InvalidInput)
                   else if node.Directory? then Fail(InvalidInodeType)
                   else if read && node.Missing? then Fail(InodeNotFound)
                   else if write && ino in old(openedForWrite) then Fail(AlreadyOpenForWrite)
                   else if node.Missing? then Fail(InodeNotFound)
                   else Done(old(currentHandle))
      ensures currentHandle == old(currentHandle) +
                if r.Done? || (read && !node.Directory?) || r == Fail(InodeNotFound) then 1 else 0
      ensures readHandles ==
                if read && node.RegularFile? then old(readHandles)[old(currentHandle) := ino] else old(readHandles)
      ensures writeHandles == if r.Done? && write then old(writeHandles)[r.value := ino] else old(writeHandles)
    {
      if !read && !write {
        return Fail(InvalidInput);
      }
      if node.Directory? {
        return Fail(InvalidInodeType);
      }
      var handle: Option<nat> := None;
      if read {
        var h := NextHandle();
        handle := Some(h);
        if node.Missing? {
          return Fail(InodeNotFound);
        }
        AddReadHandle(h, ino);
      }
      if write {
        if ino in openedForWrite {
          return Fail(AlreadyOpenForWrite);
        }
        if handle.None? {
          var h := NextHandle();
          handle := Some(h);
        }
        if node.Missing? {
          return Fail(InodeNotFound);
        }
        AddWriteHandle(handle.value, ino);
      }
      return Done(handle.value);
    }

    /** The checks before a read: it goes on exactly for a read handle of the file itself. */
    method CheckRead(ino: Ino, node: Node, h: nat) returns (r: FsResult<()>)
      requires Valid()
      ensures r.Done? <==> node.RegularFile? && ino in openedForRead && h in openedForRead[ino]
      ensures node.Missing? ==> r == Fail(InodeNotFound)
      ensures node.Directory? ==> r == Fail(InvalidInodeType)
      ensures node.RegularFile? && r.Fail? ==> r == Fail(InvalidFileHandle)
    {
      if node.Missing? {
        return Fail(InodeNotFound);
      }
      if !node.RegularFile? {
        return Fail(InvalidInodeType);
      }
      if h !in readHandles {
        return Fail(InvalidFileHandle);
      }
      if readHandles[h] != ino {
        return Fail(InvalidFileHandle);
      }
      return Done(());
    }

    /** The checks before a write: it goes on exactly for the one write handle of the file. */
    method CheckWrite(ino: Ino, node: Node, h: nat) returns (r: FsResult<()>)
      requires Valid()
      ensures r.Done? <==> node.RegularFile? && ino in openedForWrite && openedForWrite[ino] == h
      ensures node.Missing? ==> r == Fail(InodeNotFound)
      ensures node.Directory? ==> r == Fail(InvalidInodeType)
      ensures node.RegularFile? && r.Fail? ==> r == Fail(InvalidFileHandle)
    {
      if node.Missing? {
        return Fail(InodeNotFound);
      }
      if !node.RegularFile? {
        return Fail(InvalidInodeType);
      }
      if h !in writeHandles {
        return Fail(InvalidFileHandle);
      }
      if writeHandles[h] != ino {
        return Fail(InvalidFileHandle);
      }
      return Done(());
    }

    method DropReadHandle(h: nat)
      requires Valid() && h in readHandles
      modifies this`readHandles, this`openedForRead
      ensures Valid() && readHandles == old(readHandles) - {h}
    {
      GroupedRemove(readHandles, h);
      var ino := readHandles[h];
      readHandles := readHandles - {h};
      openedForRead := openedForRead[ino := openedForRead[ino] - {h}];
      if openedForRead[ino] == {} {
        openedForRead := openedForRead - {ino};
        assert openedForRead == old(openedForRead) - {ino};
      }
    }

    method DropWriteHandle(h: nat)
      requires Valid() && h in writeHandles
      modifies this`writeHandles, this`openedForWrite
      ensures Valid() && writeHandles == old(writeHandles) - {h}
    {
      var ino := writeHandles[h];
      writeHandles := writeHandles - {h};
      openedForWrite := openedForWrite - {ino};
    }

    /** Releases a handle in whichever tables it is; zero stands for no handle. */
    method Release(h: nat) returns (r: FsResult<()>)
      requires Valid()
      modifies this
      ensures Valid() && currentHandle == old(currentHandle)
      ensures r == if h == 0 || h in old(readHandles) || h in old(writeHandles) then Done(())
                   else Fail(InvalidFileHandle)
      ensures readHandles == old(readHandles) - {h} && writeHandles == old(writeHandles) - {h}
    {
      if h == 0 {
        assert readHandles - {h} == readHandles && writeHandles - {h} == writeHandles;
        return Done(());
      }
      r := Fail(InvalidFileHandle);
      if h in readHandles {
        DropReadHandle(h);
        r := Done(());
      } else {
        assert readHandles - {h} == readHandles;
      }
      if h in writeHandles {
        DropWriteHandle(h);
        r := Done(());
      } else {
        assert writeHandles - {h} == writeHandles;
      }
    }
  }
}
