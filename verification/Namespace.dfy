/** Directories of `EncryptedFs`: each keeps its entries twice, by encrypted name (LS) and by
    name hash (HASH). Both are indexes of one plain directory, a map from names to inodes
    (src/encryptedfs.rs). */
module Directories {
  import opened Primitives
  import opened FileNames

  type Ino = nat
  const ROOT: Ino := 1

  datatype Kind = Directory | RegularFile

  /** What an LS file holds, and what a HASH file holds. */
  datatype Link = Link(ino: Ino, kind: Kind)
  datatype Entry = Entry(ino: Ino, kind: Kind, enc: Bytes)

  datatype Dir = Dir(ls: map<Bytes, Link>, hash: map<Bytes, Entry>)

  /** A plain directory, and all of them. */
  type Plain = map<Name, Link>
  type Tree = map<Ino, Plain>

  // ----- one directory: the two indexes -----

  predicate Special(n: Name) { n == SELF || n == PARENT }

  predicate Storable(n: Name) { Ordinary(n) || Special(n) }

  ghost predicate FormOf(e: Bytes, n: Name) {
    if Special(n) then e == n else Encodes(e, n)
  }

  lemma FormUnique(e: Bytes, n: Name, m: Name)
    requires Storable(n) && Storable(m) && FormOf(e, n) && FormOf(e, m)
    ensures n == m
  {
    if Special(n) && !Special(m) {
      EncodesSafe(e, m);
    } else if Special(m) && !Special(n) {
      EncodesSafe(e, n);
    } else if !Special(n) {
      EncodesUnique(e, n, m);
    }
  }

  lemma HashUnique(n: Name, m: Name)
    requires Storable(n) && Storable(m) && HashFileName(n) == HashFileName(m)
    ensures n == m
  {
    HashInjective(n, m);
    assert n in {n, m} && m in {n, m};
  }

  predicate Hashed(d: Dir, n: Name) { HashFileName(n) in d.hash }

  /** The encrypted name an entry is listed under. */
  function EncOf(d: Dir, n: Name): Bytes
    requires Hashed(d, n)
  {
    d.hash[HashFileName(n)].enc
  }

  ghost predicate EntryIndexed(d: Dir, n: Name, l: Link) {
    && Storable(n) && Hashed(d, n) && FormOf(EncOf(d, n), n)
    && d.hash[HashFileName(n)] == Entry(l.ino, l.kind, EncOf(d, n))
    && EncOf(d, n) in d.ls && d.ls[EncOf(d, n)] == l
  }

  /** Both indexes hold the entries of the plain directory, and nothing else. */
  ghost predicate Indexed(d: Dir, v: Plain) {
    && (forall n | n in v :: EntryIndexed(d, n, v[n]))
    && (forall x | x in d.hash :: exists n :: n in v && HashFileName(n) == x)
    && (forall e | e in d.ls :: exists n :: n in v && Hashed(d, n) && EncOf(d, n) == e)
  }

  /** The two indexes are in one-to-one correspondence, with the same inode and kind. */
  lemma IndexBijection(d: Dir, v: Plain)
    requires Indexed(d, v)
    ensures forall x | x in d.hash ::
              d.hash[x].enc in d.ls && d.ls[d.hash[x].enc] == Link(d.hash[x].ino, d.hash[x].kind)
    ensures forall x, y | x in d.hash && y in d.hash && d.hash[x].enc == d.hash[y].enc :: x == y
    ensures forall e | e in d.ls :: exists x :: x in d.hash && d.hash[x].enc == e
  {
    hide HashFileName, Storable, FormOf;
    forall x | x in d.hash
      ensures d.hash[x].enc in d.ls && d.ls[d.hash[x].enc] == Link(d.hash[x].ino, d.hash[x].kind)
    {
      var n :| n in v && HashFileName(n) == x;
      assert EntryIndexed(d, n, v[n]);
    }
    forall x, y | x in d.hash && y in d.hash && d.hash[x].enc == d.hash[y].enc
      ensures x == y
    {
      var n :| n in v && HashFileName(n) == x;
      var m :| m in v && HashFileName(m) == y;
      assert EntryIndexed(d, n, v[n]) && EntryIndexed(d, m, v[m]);
      FormUnique(EncOf(d, n), n, m);
    }
    forall e | e in d.ls
      ensures exists x :: x in d.hash && d.hash[x].enc == e
    {
      var n :| n in v && Hashed(d, n) && EncOf(d, n) == e;
      assert HashFileName(n) in d.hash;
    }
  }

  /** The spelling under which a name is stored. */
  function Stored(n: Name): Name {
    if n == DOT then SELF else if n == DOT_DOT then PARENT else n
  }

  lemma StoredHash(n: Name, m: Name)
    ensures HashFileName(Stored(n)) == HashFileName(n)
    ensures Storable(m) && HashFileName(m) == HashFileName(n) ==> m == Stored(n)
  {
    if Storable(m) && HashFileName(m) == HashFileName(n) {
      HashInjective(m, n);
      assert m in {m, n} && n in {m, n};
    }
  }

  /** Looking a name up by its hash, whatever the name, finds its entry and no other. */
  lemma HashFinds(d: Dir, v: Plain, n: Name)
    requires Indexed(d, v)
    ensures Hashed(d, n) <==> Stored(n) in v
    ensures Hashed(d, n) ==>
              d.hash[HashFileName(n)].ino == v[Stored(n)].ino && d.hash[HashFileName(n)].kind == v[Stored(n)].kind
  {
    hide HashFileName, Storable, FormOf, Stored;
    StoredHash(n, n);
    if Stored(n) in v {
      assert EntryIndexed(d, Stored(n), v[Stored(n)]);
    }
    if Hashed(d, n) {
      var m :| m in v && HashFileName(m) == HashFileName(n);
      assert EntryIndexed(d, m, v[m]);
      StoredHash(n, m);
    }
  }

  function PutIndex(d: Dir, n: Name, l: Link, enc: Bytes): Dir {
    Dir(d.ls[enc := l], d.hash[HashFileName(n) := Entry(l.ino, l.kind, enc)])
  }

  lemma SpecialForm(d: Dir, v: Plain, n: Name)
    requires Indexed(d, v) && Special(n) && n in v
    ensures Hashed(d, n) && EncOf(d, n) == n
  {
    assert EntryIndexed(d, n, v[n]);
  }

  /** Writing both files of an entry is putting it into the plain directory. */
  lemma IndexedPut(d: Dir, v: Plain, n: Name, l: Link, enc: Bytes)
    requires Indexed(d, v) && Storable(n) && FormOf(enc, n)
    requires n in v ==> Special(n)
    ensures Indexed(PutIndex(d, n, l, enc), v[n := l])
  {
    hide HashFileName, Storable, FormOf;
    var d', v' := PutIndex(d, n, l, enc), v[n := l];
    assert EntryIndexed(d', n, l);
    forall m | m in v && m != n
      ensures EntryIndexed(d', m, v[m])
    {
      PutOther(d, v, n, l, enc, m);
    }
    forall x | x in d'.hash
      ensures exists m :: m in v' && HashFileName(m) == x
    {
      if x == HashFileName(n) {
        assert n in v';
      } else {
        var m :| m in v && HashFileName(m) == x;
        assert m in v';
      }
    }
    forall c | c in d'.ls
      ensures exists m :: m in v' && Hashed(d', m) && EncOf(d', m) == c
    {
      if c == enc {
        assert n in v' && EncOf(d', n) == c;
      } else {
        PutListed(d, v, n, l, enc, c);
      }
    }
  }

  lemma PutOther(d: Dir, v: Plain, n: Name, l: Link, enc: Bytes, m: Name)
    requires Indexed(d, v) && Storable(n) && FormOf(enc, n) && m in v && m != n
    ensures EntryIndexed(PutIndex(d, n, l, enc), m, v[m])
    ensures Hashed(d, m) && EncOf(PutIndex(d, n, l, enc), m) == EncOf(d, m)
  {
    hide HashFileName, Storable, FormOf;
    assert EntryIndexed(d, m, v[m]);
    if HashFileName(m) == HashFileName(n) {
      HashUnique(m, n);
    }
    if EncOf(d, m) == enc {
      FormUnique(enc, m, n);
    }
  }

  lemma PutListed(d: Dir, v: Plain, n: Name, l: Link, enc: Bytes, c: Bytes)
    requires Indexed(d, v) && Storable(n) && FormOf(enc, n) && c in d.ls && c != enc
    requires n in v ==> Special(n)
    ensures exists m :: m in v[n := l] && Hashed(PutIndex(d, n, l, enc), m) && EncOf(PutIndex(d, n, l, enc), m) == c
  {
    hide HashFileName, Storable;
    var m :| m in v && Hashed(d, m) && EncOf(d, m) == c;
    if n in v {
      SpecialForm(d, v, n);
    }
    PutOther(d, v, n, l, enc, m);
    assert m in v[n := l];
  }

  function DropIndex(d: Dir, n: Name): Dir
    requires Hashed(d, n)
  {
    Dir(d.ls - {EncOf(d, n)}, d.hash - {HashFileName(n)})
  }

  lemma DropOther(d: Dir, v: Plain, n: Name, m: Name)
    requires Indexed(d, v) && n in v && m in v && m != n
    ensures Hashed(d, n) && Hashed(d, m)
    ensures EntryIndexed(DropIndex(d, n), m, v[m]) && EncOf(DropIndex(d, n), m) == EncOf(d, m)
  {
    hide HashFileName, Storable, FormOf;
    assert EntryIndexed(d, n, v[n]) && EntryIndexed(d, m, v[m]);
    if HashFileName(m) == HashFileName(n) {
      HashUnique(m, n);
    }
    if EncOf(d, m) == EncOf(d, n) {
      FormUnique(EncOf(d, n), m, n);
    }
  }

  /** Removing the HASH file and the LS file it names removes the entry. */
  lemma IndexedDrop(d: Dir, v: Plain, n: Name)
    requires Indexed(d, v) && n in v
    ensures Hashed(d, n) && EncOf(d, n) in d.ls && Indexed(DropIndex(d, n), v - {n})
  {
    hide HashFileName, Storable, FormOf;
    assert EntryIndexed(d, n, v[n]);
    var d', v' := DropIndex(d, n), v - {n};
    forall m | m in v'
      ensures EntryIndexed(d', m, v'[m])
    {
      DropOther(d, v, n, m);
    }
    forall x | x in d'.hash
      ensures exists m :: m in v' && HashFileName(m) == x
    {
      var m :| m in v && HashFileName(m) == x;
      assert m in v';
    }
    forall c | c in d'.ls
      ensures exists m :: m in v' && Hashed(d', m) && EncOf(d', m) == c
    {
      var m :| m in v && Hashed(d, m) && EncOf(d, m) == c;
      DropOther(d, v, n, m);
      assert m in v';
    }
  }

  /** There are as many LS files as entries. */
  lemma {:induction false} ListedCount(d: Dir, v: Plain)
    requires Indexed(d, v)
    ensures |d.ls| == |v|
    decreases |v|
  {
    hide HashFileName, EntryIndexed, EncOf, Hashed;
    if v == map[] {
      assert d.ls.Keys == {};
    } else {
      var n :| n in v;
      IndexedDrop(d, v, n);
      ListedCount(DropIndex(d, n), v - {n});
      assert (v - {n}).Keys == v.Keys - {n};
      assert DropIndex(d, n).ls.Keys == d.ls.Keys - {EncOf(d, n)};
    }
  }

  // ----- all directories -----

  function Bind(t: Tree, p: Ino, n: Name, e: Link): Tree
    requires p in t
  {
    t[p := t[p][n := e]]
  }

  function Unbind(t: Tree, p: Ino, n: Name): Tree
    requires p in t
  {
    t[p := t[p] - {n}]
  }

  /** An ordinary entry. */
  predicate Has(t: Tree, p: Ino, n: Name) { p in t && n in t[p] && Ordinary(n) }

  /** An entry names a live inode of its kind, and a directory knows where its entry is. */
  predicate Live(inodes: map<Ino, Kind>, t: Tree, p: Ino, n: Name)
    requires Has(t, p, n)
  {
    var e := t[p][n];
    && e.ino != ROOT && e.ino in inodes && inodes[e.ino] == e.kind
    && (e.kind.Directory? ==> e.ino in t && PARENT in t[e.ino] && t[e.ino][PARENT].ino == p)
  }

  /** A directory has the special entries it should have. */
  predicate WellFormed(t: Tree, p: Ino)
    requires p in t
  {
    && SELF in t[p] && t[p][SELF] == Link(p, Directory) && (PARENT in t[p] <==> p != ROOT)
    && (PARENT in t[p] ==> t[p][PARENT].kind.Directory?)
  }

  /** No inode is named twice. */
  ghost predicate NamedOnce(t: Tree) {
    forall p, n, q, m | Has(t, p, n) && Has(t, q, m) && t[p][n].ino == t[q][m].ino :: p == q && n == m
  }

  ghost predicate Unnamed(t: Tree, ino: Ino) {
    forall p, n | Has(t, p, n) :: t[p][n].ino != ino
  }

  ghost predicate AllLive(inodes: map<Ino, Kind>, t: Tree) {
    forall p, n | Has(t, p, n) :: Live(inodes, t, p, n)
  }

  ghost predicate AllWellFormed(t: Tree) { forall p | p in t :: WellFormed(t, p) }

  ghost predicate Sound(inodes: map<Ino, Kind>, t: Tree) {
    && ROOT in inodes && inodes[ROOT].Directory?
    && (forall i :: i in t <==> i in inodes && inodes[i].Directory?)
    && AllWellFormed(t) && AllLive(inodes, t) && NamedOnce(t)
  }

  lemma SpecialNotOrdinary()
    ensures !Ordinary(SELF) && !Ordinary(PARENT)
  {
  }

  /** Every ordinary entry of `t'` is one of `t`. */
  ghost predicate Fewer(t': Tree, t: Tree) {
    forall p, n | Has(t', p, n) :: Has(t, p, n) && t'[p][n] == t[p][n]
  }

  lemma FewerNamedOnce(t': Tree, t: Tree)
    requires Fewer(t', t) && NamedOnce(t)
    ensures NamedOnce(t')
  {
    hide Ordinary;
    forall p, n, q, m | Has(t', p, n) && Has(t', q, m) && t'[p][n].ino == t'[q][m].ino
      ensures p == q && n == m
    {
      assert Has(t, p, n) && Has(t, q, m);
    }
  }

  /** Removing an entry leaves its inode without a name. */
  lemma SoundUnbind(inodes: map<Ino, Kind>, t: Tree, p: Ino, n: Name)
    requires Sound(inodes, t) && Has(t, p, n)
    ensures Sound(inodes, Unbind(t, p, n)) && Unnamed(Unbind(t, p, n), t[p][n].ino)
  {
    hide Ordinary, NamedOnce;
    var t' := Unbind(t, p, n);
    SpecialNotOrdinary();
    assert Fewer(t', t);
    FewerNamedOnce(t', t);
    UnbindLive(inodes, t, p, n);
    UnbindUnnamed(t, p, n);
  }

  lemma UnbindLive(inodes: map<Ino, Kind>, t: Tree, p: Ino, n: Name)
    requires AllLive(inodes, t) && Has(t, p, n)
    ensures AllLive(inodes, Unbind(t, p, n))
  {
    hide Ordinary;
    SpecialNotOrdinary();
    var t' := Unbind(t, p, n);
    forall q, m | Has(t', q, m)
      ensures Live(inodes, t', q, m)
    {
      assert Has(t, q, m) && Live(inodes, t, q, m);
    }
  }

  lemma UnbindUnnamed(t: Tree, p: Ino, n: Name)
    requires NamedOnce(t) && Has(t, p, n)
    ensures Unnamed(Unbind(t, p, n), t[p][n].ino)
  {
    hide Ordinary;
    var t' := Unbind(t, p, n);
    forall q, m | Has(t', q, m)
      ensures t'[q][m].ino != t[p][n].ino
    {
      assert Has(t, q, m);
    }
  }

  /** Naming an unnamed inode keeps the tree sound, if a directory already points back. */
  lemma SoundBind(inodes: map<Ino, Kind>, t: Tree, p: Ino, n: Name, e: Link)
    requires Sound(inodes, t) && p in t && Ordinary(n) && n !in t[p]
    requires e.ino != ROOT && e.ino in inodes && inodes[e.ino] == e.kind && Unnamed(t, e.ino)
    requires e.kind.Directory? ==> PARENT in t[e.ino] && t[e.ino][PARENT].ino == p
    ensures Sound(inodes, Bind(t, p, n, e))
  {
    hide Ordinary, NamedOnce;
    SpecialNotOrdinary();
    BindNamedOnce(t, p, n, e);
    BindLive(inodes, t, p, n, e);
  }

  lemma BindNamedOnce(t: Tree, p: Ino, n: Name, e: Link)
    requires NamedOnce(t) && p in t && Ordinary(n) && n !in t[p] && Unnamed(t, e.ino)
    ensures NamedOnce(Bind(t, p, n, e))
  {
    hide Ordinary;
    var t' := Bind(t, p, n, e);
    forall q, m, r, k | Has(t', q, m) && Has(t', r, k) && t'[q][m].ino == t'[r][k].ino
      ensures q == r && m == k
    {
      assert (q == p && m == n) || Has(t, q, m);
      assert (r == p && k == n) || Has(t, r, k);
    }
  }

  lemma BindLive(inodes: map<Ino, Kind>, t: Tree, p: Ino, n: Name, e: Link)
    requires AllLive(inodes, t) && p in t && Ordinary(n)
    requires e.ino != ROOT && e.ino in inodes && inodes[e.ino] == e.kind
    requires e.kind.Directory? ==> e.ino in t && PARENT in t[e.ino] && t[e.ino][PARENT].ino == p
    ensures AllLive(inodes, Bind(t, p, n, e))
  {
    hide Ordinary;
    SpecialNotOrdinary();
    var t' := Bind(t, p, n, e);
    forall q, m | Has(t', q, m)
      ensures Live(inodes, t', q, m)
    {
      assert (q == p && m == n) || (Has(t, q, m) && Live(inodes, t, q, m));
    }
  }

  /** Re-parenting an unnamed directory keeps the tree sound. */
  lemma SoundAdopt(inodes: map<Ino, Kind>, t: Tree, d: Ino, e: Link)
    requires Sound(inodes, t) && d in t && d != ROOT && Unnamed(t, d) && e.kind.Directory?
    ensures Sound(inodes, Bind(t, d, PARENT, e)) && Unnamed(Bind(t, d, PARENT, e), d)
  {
    hide Ordinary, NamedOnce;
    SpecialNotOrdinary();
    var t' := Bind(t, d, PARENT, e);
    assert Fewer(t', t);
    FewerNamedOnce(t', t);
    AdoptLive(inodes, t, d, e);
  }

  lemma AdoptLive(inodes: map<Ino, Kind>, t: Tree, d: Ino, e: Link)
    requires AllLive(inodes, t) && d in t && Unnamed(t, d)
    ensures AllLive(inodes, Bind(t, d, PARENT, e)) && Unnamed(Bind(t, d, PARENT, e), d)
  {
    hide Ordinary;
    SpecialNotOrdinary();
    var t' := Bind(t, d, PARENT, e);
    forall q, m | Has(t', q, m)
      ensures Live(inodes, t', q, m) && t'[q][m].ino != d
    {
      assert Has(t, q, m) && Live(inodes, t, q, m);
    }
  }

  /** A new file has no name yet. */
  lemma SoundNewFile(inodes: map<Ino, Kind>, t: Tree, ino: Ino)
    requires Sound(inodes, t) && ino !in inodes
    ensures Sound(inodes[ino := RegularFile], t) && Unnamed(t, ino)
  {
  }

  lemma SoundNewDir(inodes: map<Ino, Kind>, t: Tree, ino: Ino, v: Plain)
    requires Sound(inodes, t) && ino !in inodes
    requires v.Keys == {SELF, PARENT} && v[SELF] == Link(ino, Directory) && v[PARENT].kind.Directory?
    ensures Sound(inodes[ino := Directory], t[ino := v]) && Unnamed(t[ino := v], ino)
  {
    hide Ordinary;
    SpecialNotOrdinary();
    var t' := t[ino := v];
    assert forall q, m | Has(t', q, m) :: Has(t, q, m) && t'[q][m] == t[q][m];
  }

  /** An unnamed file can go, and so can an unnamed directory without ordinary entries. */
  lemma SoundDropFile(inodes: map<Ino, Kind>, t: Tree, ino: Ino)
    requires Sound(inodes, t) && ino in inodes && inodes[ino].RegularFile? && Unnamed(t, ino)
    ensures Sound(inodes - {ino}, t)
  {
  }

  lemma SoundDropDir(inodes: map<Ino, Kind>, t: Tree, ino: Ino)
    requires Sound(inodes, t) && ino in t && ino != ROOT && Unnamed(t, ino)
    requires forall n | n in t[ino] :: !Ordinary(n)
    ensures Sound(inodes - {ino}, t - {ino})
  {
    hide Ordinary, NamedOnce;
    var t' := t - {ino};
    assert Fewer(t', t);
    FewerNamedOnce(t', t);
    forall q, m | Has(t', q, m)
      ensures Live(inodes - {ino}, t', q, m)
    {
      DropLive(inodes, t, ino, q, m);
    }
  }

  lemma DropLive(inodes: map<Ino, Kind>, t: Tree, ino: Ino, p: Ino, n: Name)
    requires Has(t, p, n) && Live(inodes, t, p, n) && Has(t - {ino}, p, n) && t[p][n].ino != ino
    ensures Live(inodes - {ino}, t - {ino}, p, n)
  {
    hide Ordinary;
  }

  // ----- the operations, on plain directories -----

  /** The file system as a user sees it. */
  datatype State = State(inodes: map<Ino, Kind>, tree: Tree)

  datatype Op =
    | Create(parent: Ino, name: Name, kind: Kind, ino: Ino)
    | RemoveFile(parent: Ino, name: Name)
    | RemoveDir(parent: Ino, name: Name)
    | Rename(parent: Ino, name: Name, newParent: Ino, newName: Name)

  datatype Outcome = Outcome(state: State, result: FsResult<()>)

  predicate Childless(t: Tree, d: Ino)
    requires d in t
  {
    forall n | n in t[d] :: !Ordinary(n)
  }

  /** The entry is of a directory with children. */
  predicate Occupied(t: Tree, q: Ino, m: Name)
    requires q in t
  {
    m in t[q] && t[q][m].kind.Directory? && t[q][m].ino in t && !Childless(t, t[q][m].ino)
  }

  function NewDirectory(ino: Ino, parent: Ino): Plain {
    map[SELF := Link(ino, Directory), PARENT := Link(parent, Directory)]
  }

  /** The error of an inode that is no directory. */
  function CheckDir(s: State, p: Ino): Option<FsError> {
    if p !in s.inodes then Some(InodeNotFound)
    else if p !in s.tree then Some(InvalidInodeType)
    else None
  }

  /** A directory entry moved, over another if there is one. */
  function Move(t: Tree, p: Ino, n: Name, q: Ino, m: Name): Tree
    requires Has(t, p, n) && q in t
  {
    var l := t[p][n];
    var moved := Bind(Unbind(t, p, n), q, m, l);
    if l.kind.Directory? && l.ino in moved then Bind(moved, l.ino, PARENT, Link(q, Directory)) else moved
  }

  function Apply(s: State, op: Op): Outcome {
    match op
    case Create(p, n, kind, ino) => (
      if n == DOT || n == DOT_DOT then Outcome(s, Fail(InvalidInput))
      else if CheckDir(s, p).Some? then Outcome(s, Fail(CheckDir(s, p).value))
      else if n in s.tree[p] then Outcome(s, Fail(AlreadyExists))
      else
        var dirs := if kind.Directory? then s.tree[ino := NewDirectory(ino, p)] else s.tree;
        Outcome(State(s.inodes[ino := kind], Bind(dirs, p, n, Link(ino, kind))), Done(()))
    )
    case RemoveFile(p, n) => (
      if p !in s.tree then Outcome(s, Fail(InvalidInodeType))
      else if !Has(s.tree, p, n) then Outcome(s, Fail(NotFound))
      else if s.tree[p][n].kind.Directory? then Outcome(s, Fail(InvalidInodeType))
      else Outcome(State(s.inodes - {s.tree[p][n].ino}, Unbind(s.tree, p, n)), Done(()))
    )
    case RemoveDir(p, n) => (
      if p !in s.tree then Outcome(s, Fail(InvalidInodeType))
      else if !Has(s.tree, p, n) then Outcome(s, Fail(NotFound))
      else if s.tree[p][n].kind.RegularFile? then Outcome(s, Fail(InvalidInodeType))
      else
        var d := s.tree[p][n].ino;
        if d in s.tree && !Childless(s.tree, d) then Outcome(s, Fail(NotEmpty))
        else Outcome(State(s.inodes - {d}, Unbind(s.tree, p, n) - {d}), Done(()))
    )
    case Rename(p, n, q, m) => (
      if CheckDir(s, p).Some? then Outcome(s, Fail(CheckDir(s, p).value))
      else if CheckDir(s, q).Some? then Outcome(s, Fail(CheckDir(s, q).value))
      else if !Has(s.tree, p, n) then Outcome(s, Fail(NotFound))
      else if p == q && n == m then Outcome(s, Done(()))
      else if Occupied(s.tree, q, m) then Outcome(s, Fail(NotEmpty))
      else Outcome(s.(tree := Move(s.tree, p, n, q, m)), Done(()))
    )
  }

  /** Names are ordinary, or for `create` also one of the dot names; an inode number that
      `generate_next_inode` draws is above the root's and not in use. */
  predicate Allowed(s: State, op: Op) {
    match op
    case Create(_, n, _, ino) => (Ordinary(n) || n == DOT || n == DOT_DOT) && ino > ROOT && ino !in s.inodes
    case RemoveFile(_, n) => Ordinary(n)
    case RemoveDir(_, n) => Ordinary(n)
    case Rename(_, n, _, m) => Ordinary(n) && Ordinary(m)
  }

  ghost predicate SoundState(s: State) { Sound(s.inodes, s.tree) }

  // ----- every operation keeps the tree sound -----

  lemma SoundCreate(s: State, p: Ino, n: Name, kind: Kind, ino: Ino)
    requires SoundState(s) && Allowed(s, Create(p, n, kind, ino))
    ensures SoundState(Apply(s, Create(p, n, kind, ino)).state)
  {
    hide Sound, Ordinary, Unnamed;
    if Ordinary(n) && CheckDir(s, p).None? && n !in s.tree[p] {
      SpecialNotOrdinary();
      SoundKinds(s);
      if kind.Directory? {
        SoundNewDir(s.inodes, s.tree, ino, NewDirectory(ino, p));
        SoundBind(s.inodes[ino := kind], s.tree[ino := NewDirectory(ino, p)], p, n, Link(ino, kind));
      } else {
        SoundNewFile(s.inodes, s.tree, ino);
        SoundBind(s.inodes[ino := kind], s.tree, p, n, Link(ino, kind));
      }
    }
  }

  lemma SoundKinds(s: State)
    requires SoundState(s)
    ensures ROOT in s.tree && forall i :: i in s.tree <==> i in s.inodes && s.inodes[i].Directory?
  {
  }

  /** What an ordinary entry names. */
  lemma SoundEntry(s: State, p: Ino, n: Name)
    requires SoundState(s) && Has(s.tree, p, n)
    ensures var l := s.tree[p][n];
            && l.ino != ROOT && l.ino in s.inodes && s.inodes[l.ino] == l.kind
            && (l.kind.Directory? <==> l.ino in s.tree)
  {
    assert Live(s.inodes, s.tree, p, n);
  }

  lemma SoundRemoveFile(s: State, p: Ino, n: Name)
    requires SoundState(s) && Ordinary(n)
    ensures SoundState(Apply(s, RemoveFile(p, n)).state)
  {
    hide Sound, Ordinary, Unnamed;
    if Has(s.tree, p, n) && s.tree[p][n].kind.RegularFile? {
      SoundEntry(s, p, n);
      SoundUnbind(s.inodes, s.tree, p, n);
      SoundDropFile(s.inodes, Unbind(s.tree, p, n), s.tree[p][n].ino);
    }
  }

  lemma SoundRemoveDir(s: State, p: Ino, n: Name)
    requires SoundState(s) && Ordinary(n)
    ensures SoundState(Apply(s, RemoveDir(p, n)).state)
  {
    hide Sound, Ordinary, Unnamed;
    if Has(s.tree, p, n) && s.tree[p][n].kind.Directory? {
      SoundEntry(s, p, n);
      if Childless(s.tree, s.tree[p][n].ino) {
        SoundUnbind(s.inodes, s.tree, p, n);
        SoundDropDir(s.inodes, Unbind(s.tree, p, n), s.tree[p][n].ino);
      }
    }
  }

  lemma SoundRename(s: State, p: Ino, n: Name, q: Ino, m: Name)
    requires SoundState(s) && Ordinary(n) && Ordinary(m)
    ensures SoundState(Apply(s, Rename(p, n, q, m)).state)
  {
    hide Sound, Ordinary, Move, Childless;
    if Has(s.tree, p, n) && q in s.tree && !(p == q && n == m) {
      SoundMove(s, p, n, q, m);
    }
  }

  /** Without the overwritten entry, nothing else being unnamed changes. */
  lemma SoundUnbindIfAny(inodes: map<Ino, Kind>, t: Tree, q: Ino, m: Name, ino: Ino)
    requires Sound(inodes, t) && q in t && Ordinary(m) && Unnamed(t, ino)
    ensures Sound(inodes, Unbind(t, q, m)) && Unnamed(Unbind(t, q, m), ino)
  {
    hide Sound, Ordinary;
    if m in t[q] {
      SoundUnbind(inodes, t, q, m);
      assert Fewer(Unbind(t, q, m), t);
    } else {
      assert t[q] - {m} == t[q];
      assert Unbind(t, q, m) == t;
    }
  }

  lemma SoundMove(s: State, p: Ino, n: Name, q: Ino, m: Name)
    requires SoundState(s) && Has(s.tree, p, n) && q in s.tree && Ordinary(m)
    ensures Sound(s.inodes, Move(s.tree, p, n, q, m))
  {
    hide Sound, Ordinary, Unnamed;
    var l, up := s.tree[p][n], Link(q, Directory);
    SoundEntry(s, p, n);
    SpecialNotOrdinary();
    SoundUnbind(s.inodes, s.tree, p, n);
    var t1 := Unbind(s.tree, p, n);
    SoundUnbindIfAny(s.inodes, t1, q, m, l.ino);
    var t2 := Unbind(t1, q, m);
    var t3 := if l.kind.Directory? then Bind(t2, l.ino, PARENT, up) else t2;
    if l.kind.Directory? {
      SoundAdopt(s.inodes, t2, l.ino, up);
    }
    SoundBind(s.inodes, t3, q, m, l);
    MoveOrder(s.tree, p, n, q, m);
  }

  lemma BindsCommute(t: Tree, a: Ino, k: Name, x: Link, b: Ino, j: Name, y: Link)
    requires a in t && b in t && k != j
    ensures Bind(Bind(t, a, k, x), b, j, y) == Bind(Bind(t, b, j, y), a, k, x)
  {
    if a == b {
      assert t[a][k := x][j := y] == t[a][j := y][k := x];
    }
  }

  /** The entry may be bound before or after the directory is told its parent. */
  lemma MoveOrder(t: Tree, p: Ino, n: Name, q: Ino, m: Name)
    requires Has(t, p, n) && q in t && Ordinary(m)
    ensures var l := t[p][n];
            var t2 := Unbind(Unbind(t, p, n), q, m);
            Move(t, p, n, q, m) ==
              Bind(if l.kind.Directory? && l.ino in t then Bind(t2, l.ino, PARENT, Link(q, Directory)) else t2, q, m, l)
  {
    hide Ordinary;
    SpecialNotOrdinary();
    var l := t[p][n];
    var t1 := Unbind(t, p, n);
    assert (t1[q] - {m})[m := l] == t1[q][m := l];
    assert Bind(Unbind(t1, q, m), q, m, l) == Bind(t1, q, m, l);
    if l.kind.Directory? && l.ino in t {
      BindsCommute(Unbind(t1, q, m), l.ino, PARENT, Link(q, Directory), q, m, l);
    }
  }

  // ----- what the operations mean -----

  /** Every allowed operation keeps the tree sound: entries name live inodes of their kind, no
      inode has two names, and directories know their parents. */
  lemma SoundStep(s: State, op: Op)
    requires SoundState(s) && Allowed(s, op)
    ensures SoundState(Apply(s, op).state)
  {
    hide Sound, Ordinary, Apply;
    match op
    case Create(p, n, kind, ino) => SoundCreate(s, p, n, kind, ino);
    case RemoveFile(p, n) => SoundRemoveFile(s, p, n);
    case RemoveDir(p, n) => SoundRemoveDir(s, p, n);
    case Rename(p, n, q, m) => SoundRename(s, p, n, q, m);
  }

  function ApplyAll(s: State, ops: seq<Op>): State {
    if ops == [] then s else Apply(ApplyAll(s, ops[..|ops| - 1]), ops[|ops| - 1]).state
  }

  predicate AllowedAll(s: State, ops: seq<Op>) {
    forall i | 0 <= i < |ops| :: Allowed(ApplyAll(s, ops[..i]), ops[i])
  }

  /** Every run of allowed operations keeps the tree sound. */
  lemma {:induction false} SoundRun(s: State, ops: seq<Op>)
    requires SoundState(s) && AllowedAll(s, ops)
    ensures SoundState(ApplyAll(s, ops))
  {
    hide SoundState, Allowed, Apply;
    if ops != [] {
      var front := ops[..|ops| - 1];
      assert forall i | 0 <= i < |front| :: front[..i] == ops[..i];
      assert AllowedAll(s, front);
      SoundRun(s, front);
      SoundStep(ApplyAll(s, front), ops[|ops| - 1]);
    }
  }

  function Get(t: Tree, p: Ino, n: Name): Option<Link> {
    if p in t && n in t[p] then Some(t[p][n]) else None
  }

  /** Every entry after a move. */
  lemma MoveGet(t: Tree, p: Ino, n: Name, q: Ino, m: Name, d: Ino, k: Name)
    requires Has(t, p, n) && q in t && Ordinary(m) && !(p == q && n == m)
    ensures var l := t[p][n];
            Get(Move(t, p, n, q, m), d, k) ==
              if d == q && k == m then Some(l)
              else if l.kind.Directory? && l.ino in t && d == l.ino && k == PARENT then Some(Link(q, Directory))
              else if d == p && k == n then None
              else Get(t, d, k)
  {
    hide Ordinary;
    SpecialNotOrdinary();
  }

  lemma GetExtensional(t: Tree, u: Tree)
    requires t.Keys == u.Keys && forall d, k :: Get(t, d, k) == Get(u, d, k)
    ensures t == u
  {
    forall d | d in t
      ensures t[d] == u[d]
    {
      forall k
        ensures k in t[d] <==> k in u[d]
        ensures k in t[d] ==> t[d][k] == u[d][k]
      {
        assert Get(t, d, k) == Get(u, d, k);
      }
      assert t[d].Keys == u[d].Keys;
    }
  }

  /** A successful rename takes away exactly the source and what the target held, gives the new
      name to the same inode, tells a moved directory its new parent, and leaves every other
      entry and every inode as it was. */
  lemma RenameFrame(s: State, p: Ino, n: Name, q: Ino, m: Name)
    requires SoundState(s) && Ordinary(n) && Ordinary(m) && !(p == q && n == m)
    requires Apply(s, Rename(p, n, q, m)).result.Done?
    ensures Has(s.tree, p, n) && q in s.tree
    ensures var s' := Apply(s, Rename(p, n, q, m)).state;
            var l := s.tree[p][n];
            && s'.inodes == s.inodes && s'.tree.Keys == s.tree.Keys
            && !Has(s'.tree, p, n) && Has(s'.tree, q, m) && s'.tree[q][m] == l
            && (l.kind.Directory? ==>
                  l.ino in s'.tree && PARENT in s'.tree[l.ino] && s'.tree[l.ino][PARENT] == Link(q, Directory))
            && (m in s.tree[q] ==> Unnamed(s'.tree, s.tree[q][m].ino))
    ensures var s' := Apply(s, Rename(p, n, q, m)).state;
            forall d, k | !(d == p && k == n) && !(d == q && k == m)
                          && !(k == PARENT && s.tree[p][n].kind.Directory? && d == s.tree[p][n].ino) ::
              Get(s'.tree, d, k) == Get(s.tree, d, k)
  {
    hide Sound, Ordinary, Childless;
    SpecialNotOrdinary();
    SoundEntry(s, p, n);
    hide Move;
    MoveKeys(s.tree, p, n, q, m);
    MoveGet(s.tree, p, n, q, m, p, n);
    MoveGet(s.tree, p, n, q, m, q, m);
    MoveGet(s.tree, p, n, q, m, s.tree[p][n].ino, PARENT);
    forall d, k
      ensures Get(Move(s.tree, p, n, q, m), d, k) == Get(s.tree, d, k) || (d == p && k == n) || (d == q && k == m)
              || (k == PARENT && s.tree[p][n].kind.Directory? && d == s.tree[p][n].ino)
    {
      MoveGet(s.tree, p, n, q, m, d, k);
    }
    if m in s.tree[q] {
      OverwrittenUnnamed(s, p, n, q, m);
    }
  }

  lemma OverwrittenUnnamed(s: State, p: Ino, n: Name, q: Ino, m: Name)
    requires SoundState(s) && Has(s.tree, p, n) && Has(s.tree, q, m) && !(p == q && n == m)
    ensures Unnamed(Move(s.tree, p, n, q, m), s.tree[q][m].ino)
  {
    hide Ordinary;
    SpecialNotOrdinary();
    var t' := Move(s.tree, p, n, q, m);
    forall d, k | Has(t', d, k)
      ensures t'[d][k].ino != s.tree[q][m].ino
    {
      MoveGet(s.tree, p, n, q, m, d, k);
      assert Get(t', d, k) == Some(t'[d][k]);
      assert (d == q && k == m) || Has(s.tree, d, k);
    }
  }

  // ----- when the operations succeed, and with which error they fail -----

  predicate IsDir(s: State, p: Ino) { p in s.inodes && s.inodes[p].Directory? }

  /** A creation succeeds exactly for a name that is no dot name and is free in a directory. */
  lemma CreateResult(s: State, p: Ino, n: Name, kind: Kind, ino: Ino)
    requires SoundState(s)
    ensures var r := Apply(s, Create(p, n, kind, ino)).result;
            var dots := n == [46] || n == [46, 46];
            && (r == Done(()) <==> !dots && IsDir(s, p) && Get(s.tree, p, n).None?)
            && (r == Fail(InvalidInput) <==> dots)
            && (r == Fail(InodeNotFound) <==> !dots && p !in s.inodes)
            && (r == Fail(InvalidInodeType) <==> !dots && p in s.inodes && s.inodes[p].RegularFile?)
            && (r == Fail(AlreadyExists) <==> !dots && IsDir(s, p) && Get(s.tree, p, n).Some?)
  {
    hide Sound, Ordinary;
    SoundKinds(s);
  }

  /** Then the name is bound to the new inode, a new directory has its two special entries and no
      other, and every other entry and inode is as before. */
  lemma CreateFrame(s: State, p: Ino, n: Name, kind: Kind, ino: Ino)
    requires SoundState(s) && ino !in s.inodes && Apply(s, Create(p, n, kind, ino)).result.Done?
    ensures var s' := Apply(s, Create(p, n, kind, ino)).state;
            && Get(s'.tree, p, n) == Some(Link(ino, kind))
            && ino in s'.inodes && s'.inodes[ino] == kind && s'.inodes - {ino} == s.inodes
            && s'.tree.Keys == s.tree.Keys + (if kind.Directory? then {ino} else {})
            && (forall k | kind.Directory? ::
                  Get(s'.tree, ino, k) == if k == SELF then Some(Link(ino, Directory))
                                          else if k == PARENT then Some(Link(p, Directory)) else None)
            && (forall d, k | d != ino && !(d == p && k == n) :: Get(s'.tree, d, k) == Get(s.tree, d, k))
  {
    hide Sound, Ordinary;
    SoundKinds(s);
    assert SELF != PARENT;
  }

  /** A removal succeeds exactly for an entry of the right kind, and for a directory only without
      ordinary entries. */
  lemma RemoveResult(s: State, p: Ino, n: Name)
    requires SoundState(s) && Ordinary(n)
    ensures var r := Apply(s, RemoveFile(p, n)).result;
            && (r == Done(()) <==> Has(s.tree, p, n) && s.tree[p][n].kind == RegularFile)
            && (r == Fail(NotFound) <==> IsDir(s, p) && !Has(s.tree, p, n))
            && (r == Fail(InvalidInodeType) <==> !IsDir(s, p) || (Has(s.tree, p, n) && s.tree[p][n].kind == Directory))
    ensures var r := Apply(s, RemoveDir(p, n)).result;
            var full := exists k :: Has(s.tree, p, n) && Has(s.tree, s.tree[p][n].ino, k);
            && (r == Done(()) <==> Has(s.tree, p, n) && s.tree[p][n].kind == Directory && !full)
            && (r == Fail(NotFound) <==> IsDir(s, p) && !Has(s.tree, p, n))
            && (r == Fail(InvalidInodeType) <==>
                  !IsDir(s, p) || (Has(s.tree, p, n) && s.tree[p][n].kind == RegularFile))
            && (r == Fail(NotEmpty) <==> Has(s.tree, p, n) && s.tree[p][n].kind == Directory && full)
  {
    hide Sound, Ordinary, Childless;
    SoundKinds(s);
    if Has(s.tree, p, n) {
      SoundEntry(s, p, n);
      if s.tree[p][n].kind.Directory? {
        ChildlessMeans(s.tree, s.tree[p][n].ino);
      } else {
        NoSuchDirectory(s.tree, s.tree[p][n].ino);
      }
    }
  }

  lemma ChildlessMeans(t: Tree, d: Ino)
    requires d in t
    ensures Childless(t, d) <==> forall k :: !Has(t, d, k)
  {
    hide Ordinary;
    if !Childless(t, d) {
      var k :| k in t[d] && Ordinary(k);
      assert Has(t, d, k);
    } else {
      forall k
        ensures !Has(t, d, k)
      {
      }
    }
  }

  lemma NoSuchDirectory(t: Tree, d: Ino)
    requires d !in t
    ensures forall k :: !Has(t, d, k)
  {
  }

  /** Then exactly the entry and its inode are gone, with the contents of a directory. */
  lemma RemoveFrame(s: State, p: Ino, n: Name, op: Op)
    requires SoundState(s) && op in {RemoveFile(p, n), RemoveDir(p, n)} && Apply(s, op).result.Done?
    ensures Has(s.tree, p, n)
    ensures var s', ino := Apply(s, op).state, s.tree[p][n].ino;
            && s'.inodes == s.inodes - {ino} && s'.tree.Keys == s.tree.Keys - {ino} && p != ino
            && Get(s'.tree, p, n) == None
            && (forall d, k | d != ino && !(d == p && k == n) :: Get(s'.tree, d, k) == Get(s.tree, d, k))
  {
    hide Sound, Ordinary;
    SoundKinds(s);
    SoundEntry(s, p, n);
  }

  /** A rename succeeds exactly between two directories, for an entry that is there, and when the
      target is the entry itself, is free, or is a file or a directory without ordinary
      entries. */
  lemma RenameResult(s: State, p: Ino, n: Name, q: Ino, m: Name)
    requires SoundState(s) && Ordinary(n) && Ordinary(m)
    ensures var r := Apply(s, Rename(p, n, q, m)).result;
            var same := p == q && n == m;
            var full := exists k :: Has(s.tree, q, m) && Has(s.tree, s.tree[q][m].ino, k);
            && (r == Done(()) <==> IsDir(s, p) && IsDir(s, q) && Has(s.tree, p, n) && (same || !full))
            && (r == Fail(NotEmpty) <==> IsDir(s, p) && IsDir(s, q) && Has(s.tree, p, n) && !same && full)
            && (r == Fail(NotFound) <==> IsDir(s, p) && IsDir(s, q) && !Has(s.tree, p, n))
            && (r == Fail(InodeNotFound) <==> p !in s.inodes || (IsDir(s, p) && q !in s.inodes))
            && (r == Fail(InvalidInodeType) <==>
                  (p in s.inodes && !IsDir(s, p)) || (IsDir(s, p) && q in s.inodes && !IsDir(s, q)))
  {
    hide Sound, Ordinary, Childless, Move;
    SoundKinds(s);
    if Has(s.tree, q, m) {
      SoundEntry(s, q, m);
      if s.tree[q][m].kind.Directory? {
        ChildlessMeans(s.tree, s.tree[q][m].ino);
      } else {
        NoSuchDirectory(s.tree, s.tree[q][m].ino);
      }
    }
  }

  /** Renaming an entry to itself changes nothing. */
  lemma RenameToItself(s: State, p: Ino, n: Name)
    ensures Apply(s, Rename(p, n, p, n)).state == s
  {
  }

  /** A rename is refused as not empty exactly when it would overwrite a directory that has
      ordinary entries, and a refused operation of any kind changes nothing. */
  lemma RenameNotEmpty(s: State, p: Ino, n: Name, q: Ino, m: Name)
    requires SoundState(s) && Has(s.tree, p, n) && q in s.tree && Ordinary(m) && !(p == q && n == m)
    ensures Apply(s, Rename(p, n, q, m)).result == Fail(NotEmpty) <==>
              exists k :: Has(s.tree, q, m) && Has(s.tree, s.tree[q][m].ino, k)
  {
    hide Sound, Ordinary;
    SoundKinds(s);
    if Has(s.tree, q, m) {
      SoundEntry(s, q, m);
    }
    if Apply(s, Rename(p, n, q, m)).result == Fail(NotEmpty) {
      var k :| k in s.tree[s.tree[q][m].ino] && Ordinary(k);
      assert Has(s.tree, q, m) && Has(s.tree, s.tree[q][m].ino, k);
    }
  }

  lemma RefusedChangesNothing(s: State, op: Op)
    ensures Apply(s, op).result.Fail? ==> Apply(s, op).state == s
  {
  }

  /** Moving an entry to a free name and back restores every directory. */
  lemma RenameBack(s: State, p: Ino, n: Name, q: Ino, m: Name)
    requires SoundState(s) && Has(s.tree, p, n) && q in s.tree && Ordinary(m) && m !in s.tree[q]
    ensures var there := Apply(s, Rename(p, n, q, m));
            var back := Apply(there.state, Rename(q, m, p, n));
            there.result == Done(()) && back.result == Done(()) && back.state == s
  {
    hide Sound, Ordinary;
    SpecialNotOrdinary();
    SoundKinds(s);
    SoundEntry(s, p, n);
    if s.tree[p][n].kind.Directory? {
      BackLink(s, p, n);
    }
    MoveBack(s.tree, p, n, q, m);
  }

  lemma BackLink(s: State, p: Ino, n: Name)
    requires SoundState(s) && Has(s.tree, p, n) && s.tree[p][n].kind.Directory?
    ensures var d := s.tree[p][n].ino;
            d in s.tree && PARENT in s.tree[d] && s.tree[d][PARENT] == Link(p, Directory)
  {
    hide Ordinary;
    assert Live(s.inodes, s.tree, p, n);
    assert WellFormed(s.tree, s.tree[p][n].ino);
  }

  lemma MoveBack(t: Tree, p: Ino, n: Name, q: Ino, m: Name)
    requires Has(t, p, n) && q in t && Ordinary(m) && m !in t[q]
    requires var l := t[p][n];
             l.kind.Directory? ==> l.ino in t && PARENT in t[l.ino] && t[l.ino][PARENT] == Link(p, Directory)
    ensures Has(Move(t, p, n, q, m), q, m) && Move(Move(t, p, n, q, m), q, m, p, n) == t
  {
    hide Ordinary;
    SpecialNotOrdinary();
    hide Move;
    var l, there := t[p][n], Move(t, p, n, q, m);
    assert there.Keys == t.Keys by { MoveKeys(t, p, n, q, m); }
    MoveGet(t, p, n, q, m, q, m);
    MoveKeys(there, q, m, p, n);
    forall d, k
      ensures Get(Move(there, q, m, p, n), d, k) == Get(t, d, k)
    {
      MoveGet(t, p, n, q, m, d, k);
      MoveGet(there, q, m, p, n, d, k);
    }
    GetExtensional(Move(there, q, m, p, n), t);
  }

  lemma MoveKeys(t: Tree, p: Ino, n: Name, q: Ino, m: Name)
    requires Has(t, p, n) && q in t
    ensures Move(t, p, n, q, m).Keys == t.Keys
  {
  }

  /** Removing what was just created restores every directory. */
  lemma RemoveUndoesCreate(s: State, p: Ino, n: Name, kind: Kind, ino: Ino)
    requires SoundState(s) && Allowed(s, Create(p, n, kind, ino)) && Apply(s, Create(p, n, kind, ino)).result.Done?
    ensures var made := Apply(s, Create(p, n, kind, ino)).state;
            var gone := Apply(made, if kind.Directory? then RemoveDir(p, n) else RemoveFile(p, n));
            gone.result == Done(()) && gone.state == s
  {
    hide Sound, Ordinary;
    SpecialNotOrdinary();
    SoundKinds(s);
    var made := Apply(s, Create(p, n, kind, ino)).state;
    assert s.inodes[ino := kind] - {ino} == s.inodes;
    assert s.tree[p][n := Link(ino, kind)] - {n} == s.tree[p];
    var t := Unbind(made.tree, p, n);
    assert (if kind.Directory? then t - {ino} else t) == s.tree;
  }

  function Children(v: Plain): set<Name> { set n | n in v && Ordinary(n) }

  /** Without the special entries, the entries of a directory are its children. */
  lemma ChildCount(t: Tree, p: Ino)
    requires p in t && WellFormed(t, p) && forall n | n in t[p] :: Storable(n)
    ensures |Children(t[p])| == |t[p]| - (if p == ROOT then 1 else 2)
  {
    hide Ordinary;
    SpecialNotOrdinary();
    var specials := if p == ROOT then {SELF} else {SELF, PARENT};
    assert Children(t[p]) !! specials && t[p].Keys == Children(t[p]) + specials;
    assert SELF != PARENT && |specials| == if p == ROOT then 1 else 2;
  }
}
