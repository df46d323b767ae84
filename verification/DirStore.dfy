/** The stored form of the directories, with the caches in front of it, and the operations of
    `EncryptedFs` on it (src/encryptedfs.rs). Each operation does to the stored form what
    `Apply` does to plain directories. */
module DirectoryStore {
  import opened Primitives
  import opened FileNames
  import opened Attributes
  import opened Directories

  datatype Inode = Inode(kind: Kind, attr: FileAttr)

  type Inodes = map<Ino, Inode>
  type Dirs = map<Ino, Dir>
  type Metas = map<(Ino, Bytes), Link>

  datatype Listing = Listing(name: Name, link: Link)

  function Kinds(inodes: Inodes): map<Ino, Kind> { map i | i in inodes :: inodes[i].kind }

  ghost predicate Represents(dirs: Dirs, t: Tree) {
    dirs.Keys == t.Keys && forall p | p in t :: Indexed(dirs[p], t[p])
  }

  /** What the caches hold about what is stored is what is stored. */
  ghost predicate AttrsAgree(cache: Inodes, inodes: Inodes) {
    forall i | i in cache && i in inodes :: cache[i] == inodes[i]
  }

  ghost predicate NamesAgree(cache: map<Bytes, Name>) {
    forall e, n | e in cache && Encodes(e, n) :: cache[e] == n
  }

  /** This one rests on the encrypted names in use, and once in use, being all in `used`. */
  ghost predicate MetasAgree(cache: Metas, dirs: Dirs, used: set<Bytes>) {
    && (forall p, e | (p, e) in cache && Listed(dirs, p, e) && !Special(e) :: cache[(p, e)] == dirs[p].ls[e])
    && (forall p, e | (p, e) in cache && !Special(e) :: e in used)
    && (forall p, e | Listed(dirs, p, e) && !Special(e) :: e in used)
  }

  /** A directory's entry for itself never changes. */
  ghost predicate SelvesAgree(cache: Metas) {
    forall p | (p, SELF) in cache :: cache[(p, SELF)] == Link(p, Directory)
  }

  /** What is stored in an LS file. */
  function LinkAt(dirs: Dirs, p: Ino, e: Bytes): Option<Link> {
    if Listed(dirs, p, e) then Some(dirs[p].ls[e]) else None
  }

  /** What a listing says of it: what was cached, whatever is stored. */
  function Shows(cache: Metas, dirs: Dirs, p: Ino, e: Bytes): Option<Link> {
    if (p, e) in cache then Some(cache[(p, e)]) else LinkAt(dirs, p, e)
  }

  predicate Listed(dirs: Dirs, p: Ino, e: Bytes) { p in dirs && e in dirs[p].ls }

  function Put(dirs: Dirs, p: Ino, n: Name, l: Link, enc: Bytes): Dirs
    requires p in dirs
  {
    dirs[p := PutIndex(dirs[p], n, l, enc)]
  }

  function Drop(dirs: Dirs, p: Ino, n: Name): Dirs
    requires p in dirs && Hashed(dirs[p], n)
  {
    dirs[p := DropIndex(dirs[p], n)]
  }

  lemma RepresentsPut(dirs: Dirs, t: Tree, p: Ino, n: Name, l: Link, enc: Bytes)
    requires Represents(dirs, t) && p in t && Storable(n) && FormOf(enc, n) && (n in t[p] ==> Special(n))
    ensures Represents(Put(dirs, p, n, l, enc), Bind(t, p, n, l))
  {
    hide Indexed, PutIndex, Storable, FormOf;
    IndexedPut(dirs[p], t[p], n, l, enc);
  }

  lemma RepresentsDrop(dirs: Dirs, t: Tree, p: Ino, n: Name)
    requires Represents(dirs, t) && p in t && n in t[p]
    ensures Hashed(dirs[p], n) && EncOf(dirs[p], n) in dirs[p].ls && Represents(Drop(dirs, p, n), Unbind(t, p, n))
  {
    hide Indexed, DropIndex, Hashed;
    IndexedDrop(dirs[p], t[p], n);
  }

  lemma MetasAgreePut(cache: Metas, dirs: Dirs, used: set<Bytes>, p: Ino, n: Name, l: Link, enc: Bytes)
    requires MetasAgree(cache, dirs, used) && p in dirs && (Special(enc) || enc !in used)
    ensures MetasAgree(cache, Put(dirs, p, n, l, enc), used + {enc})
  {
    hide Special, HashFileName;
    var dirs' := Put(dirs, p, n, l, enc);
    forall q, e | Listed(dirs', q, e) && !Special(e)
      ensures (q == p && e == enc) || (Listed(dirs, q, e) && dirs'[q].ls[e] == dirs[q].ls[e])
    {
    }
  }

  lemma MetasAgreeFewer(cache: Metas, dirs: Dirs, dirs': Dirs, used: set<Bytes>)
    requires MetasAgree(cache, dirs, used)
    requires forall p, e | Listed(dirs', p, e) && !Special(e) :: Listed(dirs, p, e) && dirs'[p].ls[e] == dirs[p].ls[e]
    ensures MetasAgree(cache, dirs', used)
  {
    hide Special;
  }

  type Found = FsResult<Option<(Ino, Inode)>>

  /** A cached record is found even when its inode is gone. */
  function Lookup(cache: Inodes, inodes: Inodes, ino: Ino): FsResult<Inode> {
    if ino in cache then Done(cache[ino]) else if ino in inodes then Done(inodes[ino]) else Fail(InodeNotFound)
  }

  function FoundAs(ino: Ino, r: FsResult<Inode>): Found {
    match r
    case Fail(e) => Fail(e)
    case Done(inode) => Done(Some((ino, inode)))
  }

  /** The lookup gives the record of the entry's inode, or what is cached of it when it is gone. */
  predicate FindsVia(cache: Inodes, inodes: Inodes, l: Option<Link>, r: Found) {
    l.Some? ==>
      && r == FoundAs(l.value.ino, Lookup(cache, inodes, l.value.ino))
      && (l.value.ino in inodes ==> r == Done(Some((l.value.ino, inodes[l.value.ino]))))
  }

  function Absent(s: State, p: Ino, n: Name): Option<Found> {
    match CheckDir(s, p)
    case Some(e) => Some(Fail(e))
    case None => if Stored(n) !in s.tree[p] then Some(Done(None)) else None
  }

  /** The lookup gives the inode that the entry names, and this is of the entry's kind. */
  predicate Finds(inodes: Inodes, l: Link, r: Found) {
    l.ino in inodes && inodes[l.ino].kind == l.kind && r == Done(Some((l.ino, inodes[l.ino])))
  }

  /** A record after a request was merged into it. */
  function Merged(i: Inode, request: SetFileAttr, now: nat): Inode {
    Inode(i.kind, Stamped(MergeAttr(i.attr, request, false), now))
  }

  function Touch(inodes: Inodes, ino: Ino, request: SetFileAttr, now: nat): Inodes {
    if ino in inodes then inodes[ino := Merged(inodes[ino], request, now)] else inodes
  }

  /** Live inodes keep their kind and size, and their modification and creation time do not
      go back. */
  predicate Touched(before: Inodes, after: Inodes) {
    forall i | i in before && i in after ::
      && after[i].kind == before[i].kind && after[i].attr.size == before[i].attr.size
      && TimesForward(before[i].attr, after[i].attr)
  }

  /** A rename touches both directories and the entry. */
  function TouchRenamed(inodes: Inodes, p: Ino, q: Ino, ino: Ino, now: nat): Inodes {
    Touch(Touch(Touch(inodes, p, Now(now), now), q, Now(now), now), ino, Now(now).(mtime := None), now)
  }

  lemma MergeForward(a: FileAttr, request: SetFileAttr, now: nat)
    ensures var b := Stamped(MergeAttr(a, request, false), now);
            a.size <= b.size && TimesForward(a, b) && (request.size.None? ==> a.size == b.size)
  {
  }

  function OfKind(f: Found, kind: Kind): FsResult<Ino> {
    match f
    case Fail(e) => Fail(e)
    case Done(None) => Fail(FsError.NotFound)
    case Done(Some((ino, inode))) => if inode.kind == kind then Done(ino) else Fail(InvalidInodeType)
  }

  /** The error of a result, or one of its own. */
  function ErrorElse<T>(r: FsResult<T>, other: FsError): FsError {
    match r
    case Fail(e) => e
    case Done(_) => other
  }

  function Now(now: nat): SetFileAttr {
    SetFileAttr(None, Some(now), Some(now), Some(now), None, None, None, None, None)
  }

  /** The records that were there all along have kept their kind, and their size, modification
      and creation time have not gone back. */
  predicate AllForward(before: Inodes, after: Inodes, made: set<Ino>) {
    forall i | i in before && i in after && i !in made ::
      && after[i].kind == before[i].kind && before[i].attr.size <= after[i].attr.size
      && TimesForward(before[i].attr, after[i].attr)
  }

  lemma TouchedForward(a: Inodes, b: Inodes)
    requires Touched(a, b)
    ensures AllForward(a, b, {})
  {
  }

  lemma ForwardTwice(a: Inodes, b: Inodes, c: Inodes, made: set<Ino>, more: set<Ino>)
    requires AllForward(a, b, made) && AllForward(b, c, {}) && c.Keys <= b.Keys + more
    ensures AllForward(a, c, made + more)
  {
  }

  /** One record was set, field by field, and no other. */
  predicate OneSet(before: Inodes, after: Inodes, ino: Ino, request: SetFileAttr, now: nat) {
    && ino in before && after.Keys == before.Keys
    && (forall i | i in before && i != ino :: after[i] == before[i])
    && after[ino].kind == before[ino].kind && SetOn(before[ino].attr, after[ino].attr, request, now)
  }

  lemma TouchMeans(inodes: Inodes, ino: Ino, request: SetFileAttr, now: nat)
    requires ino in inodes
    ensures OneSet(inodes, Touch(inodes, ino, request, now), ino, request, now)
  {
    MergedSetOn(inodes[ino].attr, request, now);
  }

  lemma NothingSet(inodes: Inodes)
    ensures AllForward(inodes, inodes, {}) && Kinds(inodes).Keys == inodes.Keys
  {
  }

  /** What writing a merged record back does, live or not. */
  lemma RecordSet(inodes: Inodes, ino: Ino, i: Inode, request: SetFileAttr, now: nat)
    requires ino in inodes ==> inodes[ino] == i
    ensures var after := inodes[ino := Merged(i, request, now)];
            && AllForward(inodes, after, {}) && Kinds(after) == Kinds(inodes)[ino := i.kind]
            && (ino in inodes ==>
                  after == Touch(inodes, ino, request, now) && OneSet(inodes, after, ino, request, now)
                  && Kinds(after) == Kinds(inodes))
  {
    hide MergeAttr, SetOn;
    MergeForward(i.attr, request, now);
    if ino in inodes {
      TouchMeans(inodes, ino, request, now);
    }
  }

  /** A record with new stamps, and a modification time that has moved to now. */
  predicate Modified(a: Inode, b: Inode, now: nat) {
    var mtime := if a.attr.times.mtime < now then now else a.attr.times.mtime;
    b == a.(attr := a.attr.(times := Times(now, mtime, now, a.attr.times.crtime)))
  }

  /** A record with new stamps only. */
  predicate Used(a: Inode, b: Inode, now: nat) {
    b == a.(attr := a.attr.(times := Times(now, a.attr.times.mtime, now, a.attr.times.crtime)))
  }

  /** Creating in a directory and removing from it modify it, looking at it uses it, and neither
      touches any other record. */
  lemma DirectoryTimes(inodes: Inodes, p: Ino, now: nat)
    requires p in inodes
    ensures var made := Touch(inodes, p, Now(now), now);
            made.Keys == inodes.Keys && Modified(inodes[p], made[p], now)
            && forall i | i in inodes && i != p :: made[i] == inodes[i]
    ensures var seen := Touch(inodes, p, Now(now).(mtime := None, ctime := None), now);
            seen.Keys == inodes.Keys && Used(inodes[p], seen[p], now)
            && forall i | i in inodes && i != p :: seen[i] == inodes[i]
  {
  }

  /** A rename modifies both directories, uses what it moved, and touches no other record. */
  lemma RenameTimes(inodes: Inodes, p: Ino, q: Ino, ino: Ino, now: nat)
    requires p in inodes && q in inodes && ino in inodes
    ensures var after := TouchRenamed(inodes, p, q, ino, now);
            && after.Keys == inodes.Keys
            && Modified(inodes[p], after[p], now) && Modified(inodes[q], after[q], now)
            && (ino != p && ino != q ==> Used(inodes[ino], after[ino], now))
            && forall i | i in inodes && i !in {p, q, ino} :: after[i] == inodes[i]
  {
    DirectoryTimes(inodes, p, now);
    var once := Touch(inodes, p, Now(now), now);
    DirectoryTimes(once, q, now);
  }

  lemma TouchedRefl(a: Inodes)
    ensures Touched(a, a)
  {
  }

  lemma TouchedNew(a: Inodes, b: Inodes, c: Inodes, ino: Ino)
    requires ino !in a && ino in b && b == a[ino := b[ino]] && Touched(b, c)
    ensures Touched(a, c)
  {
    assert forall i | i in a :: i in b && b[i] == a[i];
  }

  lemma TouchedFewer(a: Inodes, b: Inodes, c: Inodes)
    requires (forall i | i in b :: i in a && b[i] == a[i]) && Touched(b, c) && c.Keys == b.Keys
    ensures Touched(a, c)
  {
    assert forall i | i in c :: i in b;
  }

  lemma OrdinaryStored(n: Name)
    requires Ordinary(n)
    ensures Stored(n) == n
  {
  }

  lemma RemoveKind(a: Inodes, ino: Ino)
    ensures Kinds(a - {ino}) == Kinds(a) - {ino}
  {
  }

  lemma NoChildren(t: Tree, d: Ino)
    requires d in t
    ensures |Children(t[d])| == 0 <==> Childless(t, d)
  {
    hide Ordinary;
    assert Children(t[d]) == {} ==> forall n | n in t[d] :: !Ordinary(n) by {
      if n :| n in t[d] && Ordinary(n) {
        assert n in Children(t[d]);
      }
    }
  }

  /** The record of a removed inode written back. */
  lemma Resurrected(s: State, s': State, ino: Ino, kind: Kind)
    requires SoundState(s) && ino !in s.inodes && s' == State(s.inodes[ino := kind], s.tree)
    ensures SoundState(s') <==> kind.RegularFile?
  {
    hide AllLive, AllWellFormed, NamedOnce;
    if kind.RegularFile? {
      SoundNewFile(s.inodes, s.tree, ino);
    }
  }

  lemma SoundRoot(s: State)
    requires s.inodes == map[ROOT := Directory] && s.tree == map[ROOT := map[SELF := Link(ROOT, Directory)]]
    ensures SoundState(s)
  {
    hide Ordinary;
    SpecialNotOrdinary();
  }

  function SourceOf(f: Found): FsResult<(Ino, Kind)> {
    match f
    case Fail(e) => Fail(e)
    case Done(None) => Fail(FsError.NotFound)
    case Done(Some((ino, inode))) => Done((ino, inode.kind))
  }

  lemma PlainNames(m: Name)
    requires Ordinary(m)
    ensures Storable(m) && Storable(PARENT) && Special(PARENT)
  {
  }

  lemma Overwritten(t: Tree, q: Ino, m: Name, l: Link)
    requires q in t
    ensures Bind(Unbind(t, q, m), q, m, l) == Bind(t, q, m, l)
  {
    assert (t[q] - {m})[m := l] == t[q][m := l];
  }

  lemma TouchedTwice(a: Inodes, b: Inodes, c: Inodes)
    requires Touched(a, b) && Touched(b, c) && a.Keys == b.Keys
    ensures Touched(a, c)
  {
  }

  /** The spelling under which a name is listed: the special entries without their mark. */
  lemma ShownSpelling(n: Name)
    requires Storable(n)
    ensures Shown([36, 46]) == [46] && Shown([36, 46, 46]) == [46, 46]
    ensures n != [36, 46] && n != [36, 46, 46] ==> Shown(n) == n
  {
  }

  /** The spelling under which a name is listed. */
  function Shown(n: Name): Name {
    if n == SELF then DOT else if n == PARENT then DOT_DOT else n
  }

  lemma ShownForm(e: Bytes, n: Name)
    requires Storable(n) && FormOf(e, n)
    ensures Special(e) <==> Special(n)
    ensures Special(e) ==> Shown(e) == Shown(n)
    ensures !Special(e) ==> Encodes(e, n) && Shown(n) == n
  {
    if !Special(n) {
      EncodesSafe(e, n);
    }
  }

  /** A name that `e` encodes, if there is one. */
  ghost function SomeName(e: Bytes): Name {
    if exists n :: Encodes(e, n) then (var n :| Encodes(e, n); n) else []
  }

  lemma NewNameAgrees(cache: map<Bytes, Name>, e: Bytes, name: Name)
    requires NamesAgree(cache) && (Encodes(e, SomeName(e)) ==> name == SomeName(e))
    ensures NamesAgree(cache[e := name])
  {
    forall n | Encodes(e, n)
      ensures n == name
    {
      EncodesUnique(e, n, SomeName(e));
    }
  }

  lemma FormOfParent(e: Bytes, n: Name)
    requires Storable(n) && FormOf(e, n)
    ensures e == PARENT <==> n == PARENT
    ensures e == SELF <==> n == SELF
    ensures Ordinary(n) ==> n != PARENT
  {
    ShownForm(e, n);
  }

  lemma SelfStored(dirs: Dirs, v: Plain, p: Ino)
    requires p in dirs && Indexed(dirs[p], v) && SELF in v && v[SELF] == Link(p, Directory)
    ensures LinkAt(dirs, p, SELF) == Some(Link(p, Directory))
    ensures LinkAt(dirs, p, PARENT) == if PARENT in v then Some(v[PARENT]) else None
  {
    hide HashFileName;
    var d := dirs[p];
    assert EntryIndexed(d, SELF, v[SELF]);
    if PARENT in v {
      assert EntryIndexed(d, PARENT, v[PARENT]);
    }
    if PARENT in d.ls {
      var n := StoredName(d, v, PARENT);
      FormOfParent(PARENT, n);
    }
  }

  // ----- what a listing does to the cache of inodes and kinds -----

  /** The links shown are the same as before; what is not still to do is in the cache, and other
      directories are as they were. */
  ghost predicate Unmoved(before: Metas, cache: Metas, dirs: Dirs, p: Ino, todo: set<Bytes>) {
    && (forall e | Listed(dirs, p, e) ::
          Shows(cache, dirs, p, e) == Shows(before, dirs, p, e) && (e in todo || (p, e) in cache))
    && (forall q, e | q != p :: (q, e) in cache <==> (q, e) in before)
    && (forall q, e | q != p && (q, e) in before :: cache[(q, e)] == before[(q, e)])
  }

  lemma UnmovedYet(cache: Metas, dirs: Dirs, p: Ino, todo: set<Bytes>)
    requires p in dirs && todo == dirs[p].ls.Keys
    ensures Unmoved(cache, cache, dirs, p, todo)
  {
  }

  lemma SameShows(before: Metas, cache: Metas, dirs: Dirs, p: Ino, todo: set<Bytes>, e: Bytes)
    requires Unmoved(before, cache, dirs, p, todo) && Listed(dirs, p, e)
    ensures Shows(cache, dirs, p, e) == Shows(before, dirs, p, e)
  {
  }

  lemma UnmovedNext(before: Metas, cache: Metas, dirs: Dirs, p: Ino, todo: set<Bytes>, e: Bytes, l: Link)
    requires Unmoved(before, cache, dirs, p, todo) && Some(l) == Shows(cache, dirs, p, e)
    ensures Unmoved(before, cache[(p, e) := l], dirs, p, todo - {e})
  {
  }

  /** Every listing of a dot name has this link. */
  ghost predicate DotsListed(res: seq<Listing>, n: Name, l: Option<Link>) {
    forall x | x in res && x.name == Shown(n) :: Some(x.link) == l
  }

  lemma NoDots(n: Name, l: Option<Link>)
    ensures DotsListed([], n, l)
  {
  }

  lemma MoreDots(res: seq<Listing>, n: Name, l: Option<Link>, x: Listing, m: Name)
    requires Special(n) && Storable(m) && DotsListed(res, n, l) && x.name == Shown(m) && (m == n ==> Some(x.link) == l)
    ensures DotsListed(res + [x], n, l)
  {
    ShownOnce(n, m);
  }

  /** The parent is listed with the link that was cached or else stored, which is the right one
      exactly when nothing else was cached. */
  ghost predicate ParentListed(res: seq<Listing>, cache: Metas, dirs: Dirs, t: Tree, p: Ino) {
    && LinkAt(dirs, p, PARENT) == Get(t, p, PARENT) != None
    && DotsListed(res, PARENT, Shows(cache, dirs, p, PARENT))
    && (DotsListed(res, PARENT, Get(t, p, PARENT)) <==>
          ((p, PARENT) in cache ==> Some(cache[(p, PARENT)]) == Get(t, p, PARENT)))
  }

  /** A listing has each entry once, the directory itself as `.`, and of ordinary names, when
      exact, those of the plain directory. */
  ghost predicate FitsListing(p: Ino, v: Plain, entries: seq<Listing>, exact: bool) {
    && |entries| == |v| && NamesListed(entries, v) && HasDots(entries, p)
    && DotsListed(entries, SELF, Some(Link(p, Directory)))
    && (exact ==> ListsExactly(entries, v))
  }

  /** The directory is listed as `.`, and every one but the first has a `..`. */
  ghost predicate HasDots(res: seq<Listing>, p: Ino) {
    Listing([46], Link(p, Directory)) in res && (p != ROOT ==> exists x :: x in res && x.name == [46, 46])
  }

  lemma DotsAreListed(res: seq<Listing>, v: Plain, p: Ino)
    requires NamesListed(res, v) && SELF in v && DotsListed(res, SELF, Some(Link(p, Directory)))
    requires p != ROOT ==> PARENT in v
    ensures HasDots(res, p)
  {
    var x :| x in res && x.name == Shown(SELF);
    assert x == Listing([46], Link(p, Directory));
    if PARENT in v {
      var y :| y in res && y.name == Shown(PARENT);
    }
  }

  /** Two links cannot both be listed. */
  lemma DotsUnique(res: seq<Listing>, v: Plain, n: Name, l: Option<Link>, k: Option<Link>)
    requires NamesListed(res, v) && n in v && DotsListed(res, n, l)
    ensures DotsListed(res, n, k) <==> k == l
  {
    hide Shown;
    var x :| x in res && x.name == Shown(n);
  }

  lemma ShownOnce(n: Name, m: Name)
    requires Storable(n) && Storable(m)
    ensures Shown(n) == Shown(m) ==> n == m
  {
  }

  function ListingOf(name: FsResult<Name>, l: Link): FsResult<Listing> {
    match name
    case Fail(e) => Fail(e)
    case Done(n) => Done(Listing(n, l))
  }

  /** Of ordinary names, a listing has exactly those of the plain directory. */
  ghost predicate ListsExactly(res: seq<Listing>, v: Plain) {
    forall x: Listing | Ordinary(x.name) :: x in res <==> x.name in v && v[x.name] == x.link
  }

  ghost predicate NamesListed(res: seq<Listing>, v: Plain) {
    forall n | n in v :: exists x :: x in res && x.name == Shown(n)
  }

  lemma NothingListed()
    ensures ListsExactly([], map[]) && NamesListed([], map[])
  {
  }

  lemma ListMore(res: seq<Listing>, v: Plain, x: Listing, n: Name, l: Link, exact: bool)
    requires n !in v && x.name == Shown(n) && Storable(n)
    requires exact && Ordinary(n) ==> x.link == l
    requires NamesListed(res, v) && (exact ==> ListsExactly(res, v))
    ensures NamesListed(res + [x], v[n := l]) && (exact ==> ListsExactly(res + [x], v[n := l]))
  {
    forall m | m in v[n := l]
      ensures exists y :: y in res + [x] && y.name == Shown(m)
    {
      if m == n {
        assert x in res + [x];
      } else {
        var y :| y in res && y.name == Shown(m);
        assert y in res + [x];
      }
    }
    if exact {
      ListMoreExact(res, v, x, n, l);
    }
  }

  lemma ListMoreExact(res: seq<Listing>, v: Plain, x: Listing, n: Name, l: Link)
    requires n !in v && x.name == Shown(n) && Storable(n) && (Ordinary(n) ==> x.link == l) && ListsExactly(res, v)
    ensures ListsExactly(res + [x], v[n := l])
  {
    ShownOrdinary(n);
    hide Ordinary, Shown;
    forall y: Listing | Ordinary(y.name)
      ensures y in res + [x] <==> y.name in v[n := l] && v[n := l][y.name] == y.link
    {
      assert y in res + [x] <==> y in res || y == x;
    }
  }

  lemma ShownOrdinary(n: Name)
    requires Storable(n)
    ensures Ordinary(Shown(n)) <==> Ordinary(n)
    ensures Ordinary(n) ==> Shown(n) == n
  {
  }

  /** `v` is the part of the directory whose LS files are not still to do. */
  ghost predicate Todo(d: Dir, all: Plain, v: Plain, todo: set<Bytes>) {
    && (forall n | n in v :: n in all && v[n] == all[n])
    && (forall n | n in all :: Hashed(d, n) && (n in v <==> EncOf(d, n) !in todo))
  }

  lemma AllTodo(d: Dir, all: Plain)
    requires Indexed(d, all)
    ensures Todo(d, all, map[], d.ls.Keys)
  {
    hide Storable, FormOf, Hashed;
    forall n | n in all
      ensures Hashed(d, n) && EncOf(d, n) in d.ls
    {
      assert EntryIndexed(d, n, all[n]);
    }
  }

  lemma NoneTodo(d: Dir, all: Plain, v: Plain)
    requires Todo(d, all, v, {})
    ensures v == all
  {
    hide Hashed, EncOf;
    assert forall n | n in all :: n in v;
  }

  /** The name listed in an LS file. */
  ghost function StoredName(d: Dir, all: Plain, e: Bytes): (n: Name)
    requires Indexed(d, all) && e in d.ls
    ensures n in all && Hashed(d, n) && EncOf(d, n) == e && Storable(n) && FormOf(e, n) && all[n] == d.ls[e]
  {
    var n :| n in all && Hashed(d, n) && EncOf(d, n) == e;
    assert EntryIndexed(d, n, all[n]);
    n
  }

  lemma TodoNext(d: Dir, all: Plain, v: Plain, todo: set<Bytes>, n: Name)
    requires Indexed(d, all) && Todo(d, all, v, todo) && n in all && EncOf(d, n) in todo
    ensures n !in v && Todo(d, all, v[n := all[n]], todo - {EncOf(d, n)})
  {
    hide Storable, FormOf, Hashed, EncOf;
    forall m | m in all && m != n
      ensures EncOf(d, m) != EncOf(d, n)
    {
      assert EntryIndexed(d, n, all[n]) && EntryIndexed(d, m, all[m]);
      if EncOf(d, m) == EncOf(d, n) {
        FormUnique(EncOf(d, n), m, n);
      }
    }
  }

  class Namespace {
    var inodes: Inodes
    var dirs: Dirs
    var attrCache: Inodes
    var nameCache: map<Bytes, Name>
    var metaCache: Metas
    ghost var tree: Tree
    /** The encrypted names drawn so far, and whether one was drawn twice. */
    ghost var used: set<Bytes>
    ghost var repeats: bool

    ghost function Current(): State
      reads this
    {
      State(Kinds(inodes), tree)
    }

    ghost predicate Consistent()
      reads this
    {
      && Represents(dirs, tree) && AttrsAgree(attrCache, inodes) && NamesAgree(nameCache)
      && (repeats || MetasAgree(metaCache, dirs, used)) && SelvesAgree(metaCache)
    }

    ghost predicate Valid()
      reads this
    {
      Consistent() && SoundState(Current())
    }

    // ----- entries -----

    /** `insert_directory_entry`: the LS file and the HASH file. */
    method InsertEntry(p: Ino, n: Name, l: Link)
      requires Consistent() && p in tree && Storable(n) && (n in tree[p] ==> Special(n))
      modifies this`dirs, this`tree, this`used, this`repeats
      ensures Consistent() && tree == Bind(old(tree), p, n, l) && (old(repeats) ==> repeats)
      ensures Special(n) ==> repeats == old(repeats)
    {
      hide Special, Indexed, MetasAgree, AttrsAgree, NamesAgree, Encodes, Ordinary;
      var enc := EncryptFileName(n);
      NewForm(n, enc);
      RepresentsPut(dirs, tree, p, n, l, enc);
      if !repeats && (Special(enc) || enc !in used) {
        MetasAgreePut(metaCache, dirs, used, p, n, l, enc);
      }
      repeats := repeats || (!Special(enc) && enc in used);
      dirs := dirs[p := PutIndex(dirs[p], n, l, enc)];
      tree := Bind(tree, p, n, l);
      used := used + {enc};
    }

    lemma NewForm(n: Name, enc: Bytes)
      requires Storable(n) && (n == SELF || n == PARENT ==> enc == n) && (Ordinary(n) ==> Encodes(enc, n))
      ensures FormOf(enc, n) && (Special(n) ==> Special(enc))
    {
    }

    /** `remove_directory_entry`: the HASH file, and the LS file it names. */
    method RemoveEntry(p: Ino, n: Name)
      requires Consistent() && p in tree && n in tree[p]
      modifies this`dirs, this`tree
      ensures Consistent() && tree == Unbind(old(tree), p, n)
    {
      hide Special, Indexed, MetasAgree, AttrsAgree, NamesAgree, Hashed, HashFileName;
      RepresentsDrop(dirs, tree, p, n);
      if !repeats {
        MetasAgreeFewer(metaCache, dirs, Drop(dirs, p, n), used);
      }
      dirs := dirs[p := DropIndex(dirs[p], n)];
      tree := Unbind(tree, p, n);
    }

    /** `exists_by_name`, for any name. */
    method ExistsByName(p: Ino, n: Name) returns (r: FsResult<bool>)
      requires Consistent()
      ensures match CheckDir(Current(), p)
              case Some(e) => r == Fail(e)
              case None => r == Done(Stored(n) in tree[p])
    {
      hide Indexed, HashFileName, Stored, AttrsAgree, NamesAgree, MetasAgree;
      if p !in inodes {
        return Fail(InodeNotFound);
      }
      if p !in dirs {
        return Fail(InvalidInodeType);
      }
      HashFinds(dirs[p], tree[p], n);
      r := Done(Hashed(dirs[p], n));
    }

    /** `get_inode_from_cache_or_storage`. */
    method GetInode(ino: Ino) returns (r: FsResult<Inode>)
      requires Consistent()
      modifies this`attrCache
      ensures Consistent()
      ensures ino in inodes ==> r == Done(inodes[ino])
      ensures r == Lookup(old(attrCache), inodes, ino)
    {
      hide Represents, NamesAgree, MetasAgree;
      if ino in attrCache {
        return Done(attrCache[ino]);
      }
      if ino !in inodes {
        return Fail(InodeNotFound);
      }
      r := Done(inodes[ino]);
      attrCache := attrCache[ino := inodes[ino]];
    }

    /** `find_by_name`: a name is found exactly when it has an entry. An ordinary name is found
        with the inode and kind of the entry, a dot name with its inode when that is live, and
        else with what is still cached of it. */
    method FindByName(p: Ino, n: Name) returns (r: Found)
      requires Valid()
      modifies this`attrCache
      ensures Valid()
      ensures Absent(Current(), p, n).Some? ==> r == Absent(Current(), p, n).value
      ensures Has(tree, p, n) ==> Finds(inodes, tree[p][n], r)
      ensures CheckDir(Current(), p).None? ==> FindsVia(old(attrCache), inodes, Get(tree, p, Stored(n)), r)
    {
      hide Consistent, Sound, Indexed, HashFileName, Stored;
      var e := EntryAt(p, n);
      if e.Fail? {
        return Fail(e.error);
      }
      if e.value.None? {
        return Done(None);
      }
      if Has(tree, p, n) {
        SoundEntry(Current(), p, n);
      }
      var i := GetInode(e.value.value);
      r := FoundAs(e.value.value, i);
    }

    method EntryAt(p: Ino, n: Name) returns (r: FsResult<Option<Ino>>)
      requires Valid()
      ensures match CheckDir(Current(), p)
              case Some(e) => r == Fail(e)
              case None => r == Done(if Stored(n) in tree[p] then Some(tree[p][Stored(n)].ino) else None)
      ensures Has(tree, p, n) ==> CheckDir(Current(), p).None? && Stored(n) == n
    {
      hide Indexed, HashFileName, AttrsAgree, NamesAgree, MetasAgree;
      SoundKinds(Current());
      if p !in inodes {
        return Fail(InodeNotFound);
      }
      if p !in dirs {
        return Fail(InvalidInodeType);
      }
      HashFinds(dirs[p], tree[p], n);
      r := Done(if Hashed(dirs[p], n) then Some(dirs[p].hash[HashFileName(n)].ino) else None);
    }

    /** `len`: the number of ordinary entries. */
    method Len(ino: Ino) returns (r: FsResult<nat>)
      requires Valid()
      ensures r == if ino in tree then Done(|Children(tree[ino])|) else Fail(InvalidInodeType)
    {
      hide Indexed, AttrsAgree, NamesAgree, MetasAgree;
      if ino !in dirs {
        return Fail(InvalidInodeType);
      }
      Counted(ino);
      r := Done(|dirs[ino].ls| - (if ino == ROOT then 1 else 2));
    }

    lemma Counted(ino: Ino)
      requires Valid() && ino in tree
      ensures ino in dirs && |Children(tree[ino])| == |dirs[ino].ls| - (if ino == ROOT then 1 else 2)
    {
      hide AttrsAgree, NamesAgree, MetasAgree, AllLive, NamedOnce, Ordinary, HashFileName, FormOf;
      ListedCount(dirs[ino], tree[ino]);
      forall n | n in tree[ino]
        ensures Storable(n)
      {
        assert EntryIndexed(dirs[ino], n, tree[ino][n]);
      }
      ChildCount(tree, ino);
    }

    /** The inode of an ordinary entry. */
    method DirOf(p: Ino, n: Name) returns (ino: Ino)
      requires Valid() && Has(tree, p, n)
      modifies this`attrCache
      ensures Valid() && ino == tree[p][n].ino
    {
      hide Consistent, Sound, Ordinary;
      var f := FindByName(p, n);
      ino := f.value.value.0;
    }

    // ----- attributes -----

    /** `set_attr`, with no handle open: through the cache, and in both places. */
    method SetAttr(ino: Ino, request: SetFileAttr, now: nat)
      requires Consistent() && ino in inodes
      modifies this`inodes, this`attrCache
      ensures Consistent() && Current() == old(Current())
      ensures inodes.Keys == old(inodes).Keys && AllForward(old(inodes), inodes, {})
      ensures request.size.None? ==> Touched(old(inodes), inodes)
      ensures inodes == Touch(old(inodes), ino, request, now)
      ensures OneSet(old(inodes), inodes, ino, request, now)
    {
      TouchMeans(inodes, ino, request, now);
      hide OneSet, Represents, NamesAgree, MetasAgree, MergeAttr;
      var r := GetInode(ino);
      MergeForward(r.value.attr, request, now);
      PutInode(ino, Inode(r.value.kind, Stamped(MergeAttr(r.value.attr, request, false), now)));
      assert Kinds(inodes) == Kinds(old(inodes));
    }

    /** `set_attr` of any inode number. One that is gone but still cached is written back, which
        for a directory breaks the tree. */
    method SetAttrOf(ino: Ino, request: SetFileAttr, now: nat) returns (r: FsResult<()>)
      requires Valid()
      modifies this`inodes, this`attrCache
      ensures Consistent()
      ensures r == if ino in old(inodes) || ino in old(attrCache) then Done(()) else Fail(InodeNotFound)
      ensures r.Fail? ==> inodes == old(inodes) && Valid()
      ensures ino in old(inodes) ==>
                && Valid() && Current() == old(Current()) && inodes == Touch(old(inodes), ino, request, now)
                && OneSet(old(inodes), inodes, ino, request, now)
      ensures ino !in old(inodes) && ino in old(attrCache) ==>
                && inodes == old(inodes)[ino := Merged(old(attrCache)[ino], request, now)]
                && (Valid() <==> old(attrCache)[ino].kind.RegularFile?)
      ensures AllForward(old(inodes), inodes, {})
    {
      hide Consistent, Sound, OneSet, Merged, Touch, AllForward, Kinds;
      NothingSet(inodes);
      var i := GetInode(ino);
      if i.Fail? {
        return Fail(i.error);
      }
      ghost var s := Current();
      RecordSet(inodes, ino, i.value, request, now);
      PutInode(ino, Merged(i.value, request, now));
      if ino !in s.inodes {
        Resurrected(s, Current(), ino, i.value.kind);
      }
      r := Done(());
    }

    /** `write_inode_to_storage`. */
    method PutInode(ino: Ino, i: Inode)
      requires Consistent()
      modifies this`inodes, this`attrCache
      ensures Consistent() && inodes == old(inodes)[ino := i] && attrCache == old(attrCache)[ino := i]
    {
      hide Represents, NamesAgree, MetasAgree;
      inodes := inodes[ino := i];
      attrCache := attrCache[ino := i];
    }

    // ----- creating -----

    /** The directory of a new inode, without entries. */
    method MakeDir(ino: Ino)
      requires Consistent() && ino !in tree
      modifies this`dirs, this`tree
      ensures Consistent() && tree == old(tree)[ino := map[]]
    {
      hide AttrsAgree, NamesAgree, MetasAgree, EntryIndexed;
      if !repeats {
        MetasAgreeFewer(metaCache, dirs, dirs[ino := Dir(map[], map[])], used);
      }
      dirs := dirs[ino := Dir(map[], map[])];
      tree := tree[ino := map[]];
    }

    /** The first directory, made when there is none. */
    constructor (attr: FileAttr)
      ensures Valid() && !repeats
      ensures tree == map[ROOT := map[SELF := Link(ROOT, Directory)]] && inodes == map[ROOT := Inode(Directory, attr)]
    {
      inodes, dirs, attrCache, nameCache, metaCache := map[], map[], map[], map[], map[];
      tree, used, repeats := map[], {}, false;
      new;
      hide Indexed, AttrsAgree, NamesAgree, MetasAgree, Sound, Ordinary;
      assert Consistent() by { EmptyConsistent(); }
      PutInode(ROOT, Inode(Directory, attr));
      MakeDir(ROOT);
      InsertEntry(ROOT, SELF, Link(ROOT, Directory));
      assert Kinds(inodes) == map[ROOT := Directory];
      assert tree[ROOT] == map[SELF := Link(ROOT, Directory)];
      SoundRoot(Current());
    }

    lemma EmptyConsistent()
      requires inodes == map[] && dirs == map[] && attrCache == map[] && nameCache == map[] && metaCache == map[]
      requires tree == map[]
      ensures Consistent()
    {
    }

    method MakeNode(p: Ino, kind: Kind, ino: Ino, attr: FileAttr)
      requires Consistent() && ino !in tree
      modifies this
      ensures Consistent() && inodes == old(inodes)[ino := Inode(kind, attr)] && (old(repeats) ==> repeats)
      ensures tree == if kind.Directory? then old(tree)[ino := NewDirectory(ino, p)] else old(tree)
    {
      hide Consistent, Ordinary, Encodes;
      PutInode(ino, Inode(kind, attr));
      if kind.Directory? {
        MakeDir(ino);
        InsertEntry(ino, SELF, Link(ino, Directory));
        InsertEntry(ino, PARENT, Link(p, Directory));
        assert tree[ino] == NewDirectory(ino, p);
      }
    }

    /** `create`, for an inode number drawn by `generate_next_inode`. */
    method Create(p: Ino, n: Name, kind: Kind, ino: Ino, attr: FileAttr, now: nat) returns (r: FsResult<()>)
      requires Valid() && Allowed(Current(), Op.Create(p, n, kind, ino))
      modifies this
      ensures Valid() && (old(repeats) ==> repeats) && Touched(old(inodes), inodes)
      ensures Outcome(Current(), r) == Apply(old(Current()), Op.Create(p, n, kind, ino))
      ensures inodes == if r.Fail? then old(inodes) else Touch(old(inodes)[ino := Inode(kind, attr)], p, Now(now), now)
    {
      hide Consistent, Sound, Ordinary, Touched, AllForward, OneSet;
      TouchedRefl(inodes);
      if n == DOT || n == DOT_DOT {
        return Fail(InvalidInput);
      }
      if p !in inodes {
        return Fail(InodeNotFound);
      }
      assert Stored(n) == n by { OrdinaryStored(n); }
      var e := ExistsByName(p, n);
      if e != Done(false) {
        return Fail(ErrorElse(e, AlreadyExists));
      }
      SoundKinds(Current());
      SoundStep(Current(), Op.Create(p, n, kind, ino));
      MakeNode(p, kind, ino, attr);
      InsertEntry(p, n, Link(ino, kind));
      ghost var made := inodes;
      assert Kinds(made) == old(Kinds(inodes))[ino := kind];
      SetAttr(p, Now(now), now);
      TouchedNew(old(inodes), made, inodes, ino);
      r := Done(());
    }

    // ----- removing -----

    method RemovalTarget(p: Ino, n: Name, kind: Kind) returns (r: FsResult<Ino>)
      requires Valid() && Ordinary(n)
      modifies this`attrCache
      ensures Valid()
      ensures r == if p !in tree then Fail(InvalidInodeType)
                   else if !Has(tree, p, n) then Fail(FsError.NotFound)
                   else if tree[p][n].kind != kind then Fail(InvalidInodeType)
                   else Done(tree[p][n].ino)
    {
      hide Represents, AttrsAgree, NamesAgree, MetasAgree, Sound, Ordinary, Stored;
      assert dirs.Keys == tree.Keys by { DirsKeys(); }
      SoundKinds(Current());
      assert Stored(n) == n by { OrdinaryStored(n); }
      if p !in dirs {
        return Fail(InvalidInodeType);
      }
      var e := ExistsByName(p, n);
      if e != Done(true) {
        return Fail(ErrorElse(e, FsError.NotFound));
      }
      var f := FindByName(p, n);
      r := OfKind(f, kind);
    }

    lemma DirsKeys()
      requires Consistent()
      ensures dirs.Keys == tree.Keys
    {
    }

    /** The inode file, and the contents directory if there is one. The cached attributes of
        the inode stay. */
    method DropNode(ino: Ino)
      requires Consistent()
      modifies this`inodes, this`dirs, this`tree
      ensures Consistent() && inodes == old(inodes) - {ino} && tree == old(tree) - {ino}
    {
      hide Indexed, NamesAgree, MetasAgree;
      if !repeats {
        MetasAgreeFewer(metaCache, dirs, dirs - {ino}, used);
      }
      inodes, dirs, tree := inodes - {ino}, dirs - {ino}, tree - {ino};
    }

    method RemoveNode(p: Ino, n: Name, ino: Ino, now: nat)
      requires Consistent() && p in tree && n in tree[p] && p != ino && p in inodes
      requires SoundState(State(Kinds(inodes) - {ino}, Unbind(tree, p, n) - {ino}))
      modifies this
      ensures Valid() && repeats == old(repeats) && Touched(old(inodes), inodes)
      ensures Current() == State(Kinds(old(inodes)) - {ino}, Unbind(old(tree), p, n) - {ino})
      ensures inodes == Touch(old(inodes) - {ino}, p, Now(now), now)
    {
      hide Consistent, Sound, Touched, AllForward, OneSet;
      DropNode(ino);
      RemoveEntry(p, n);
      assert tree == Unbind(old(tree), p, n) - {ino};
      RemoveKind(old(inodes), ino);
      ghost var left := inodes;
      SetAttr(p, Now(now), now);
      TouchedFewer(old(inodes), left, inodes);
    }

    /** `remove_file`. */
    method RemoveFile(p: Ino, n: Name, now: nat) returns (r: FsResult<()>)
      requires Valid() && Ordinary(n)
      modifies this
      ensures Valid() && repeats == old(repeats) && Touched(old(inodes), inodes)
      ensures Outcome(Current(), r) == Apply(old(Current()), Op.RemoveFile(p, n))
      ensures r.Done? ==> Has(old(tree), p, n)
      ensures inodes == if r.Fail? then old(inodes) else Touch(old(inodes) - {old(tree)[p][n].ino}, p, Now(now), now)
    {
      hide Consistent, Sound, Ordinary, Touched;
      TouchedRefl(inodes);
      var f := RemovalTarget(p, n, RegularFile);
      if f.Fail? {
        return Fail(f.error);
      }
      SoundStep(Current(), Op.RemoveFile(p, n));
      SoundEntry(Current(), p, n);
      SoundKinds(Current());
      assert Unbind(tree, p, n) - {f.value} == Unbind(tree, p, n);
      RemoveNode(p, n, f.value, now);
      r := Done(());
    }

    /** `remove_dir`. */
    method RemoveDir(p: Ino, n: Name, now: nat) returns (r: FsResult<()>)
      requires Valid() && Ordinary(n)
      modifies this
      ensures Valid() && repeats == old(repeats) && Touched(old(inodes), inodes)
      ensures Outcome(Current(), r) == Apply(old(Current()), Op.RemoveDir(p, n))
      ensures r.Done? ==> Has(old(tree), p, n)
      ensures inodes == if r.Fail? then old(inodes) else Touch(old(inodes) - {old(tree)[p][n].ino}, p, Now(now), now)
    {
      hide Consistent, Sound, Ordinary, Touched, Children;
      TouchedRefl(inodes);
      var f := RemovalTarget(p, n, Directory);
      if f.Fail? {
        return Fail(f.error);
      }
      SoundEntry(Current(), p, n);
      var c := Len(f.value);
      NoChildren(tree, f.value);
      if c != Done(0) {
        return Fail(ErrorElse(c, NotEmpty));
      }
      SoundStep(Current(), Op.RemoveDir(p, n));
      SoundKinds(Current());
      RemoveNode(p, n, f.value, now);
      r := Done(());
    }

    // ----- renaming -----

    method RenameSource(p: Ino, n: Name) returns (r: FsResult<(Ino, Kind)>)
      requires Valid()
      modifies this`attrCache
      ensures Valid()
      ensures Has(tree, p, n) ==> r == Done((tree[p][n].ino, tree[p][n].kind))
    {
      hide Consistent, Sound, Ordinary;
      var f := FindByName(p, n);
      r := SourceOf(f);
    }

    /** Whether the new name is free, or of a file, or of an empty directory. */
    method Replaceable(q: Ino, m: Name) returns (r: FsResult<()>)
      requires Valid() && Ordinary(m) && q in tree
      modifies this`attrCache
      ensures Valid()
      ensures r == if Occupied(tree, q, m) then Fail(NotEmpty) else Done(())
    {
      hide Consistent, Sound, Ordinary, Childless, Children, Stored;
      assert Stored(m) == m by { OrdinaryStored(m); }
      SoundKinds(Current());
      var f := FindByName(q, m);
      if Has(tree, q, m) {
        SoundEntry(Current(), q, m);
      }
      if f.Done? && f.value.Some? && f.value.value.1.kind.Directory? {
        var c := Len(f.value.value.0);
        NoChildren(tree, f.value.value.0);
        if c != Done(0) {
          return Fail(ErrorElse(c, NotEmpty));
        }
      }
      r := Done(());
    }

    /** The entries that a rename removes and inserts. */
    method MoveEntry(p: Ino, n: Name, q: Ino, m: Name, l: Link)
      requires Consistent() && Has(tree, p, n) && q in tree && Ordinary(m) && tree[p][n] == l && q in inodes
      requires l.kind.Directory? ==> l.ino in tree
      modifies this`dirs, this`tree, this`used, this`repeats
      ensures Consistent() && tree == Move(old(tree), p, n, q, m) && (old(repeats) ==> repeats)
    {
      hide Consistent, Ordinary, Special, Stored;
      assert Storable(m) && Storable(PARENT) && Special(PARENT) && Stored(m) == m by {
        OrdinaryStored(m);
        PlainNames(m);
      }
      RemoveEntry(p, n);
      var e := ExistsByName(q, m);
      Overwritten(tree, q, m, l);
      if e == Done(true) {
        RemoveEntry(q, m);
      }
      InsertEntry(q, m, l);
      if l.kind.Directory? {
        InsertEntry(l.ino, PARENT, Link(q, Directory));
      }
    }

    /** `rename`. */
    method Rename(p: Ino, n: Name, q: Ino, m: Name, now: nat) returns (r: FsResult<()>)
      requires Valid() && Ordinary(n) && Ordinary(m)
      modifies this
      ensures Valid() && (old(repeats) ==> repeats) && Touched(old(inodes), inodes)
      ensures Outcome(Current(), r) == Apply(old(Current()), Op.Rename(p, n, q, m))
      ensures r.Done? ==> Has(old(tree), p, n)
      ensures inodes == if r.Fail? || (p == q && n == m) then old(inodes)
                        else TouchRenamed(old(inodes), p, q, old(tree)[p][n].ino, now)
      ensures metaCache == old(metaCache)
    {
      hide Consistent, Sound, Ordinary, Touched, Occupied, Stored, Move;
      TouchedRefl(inodes);
      assert Stored(n) == n by { OrdinaryStored(n); }
      assert dirs.Keys == tree.Keys by { DirsKeys(); }
      if p !in inodes {
        return Fail(InodeNotFound);
      }
      if p !in dirs {
        return Fail(InvalidInodeType);
      }
      if q !in inodes {
        return Fail(InodeNotFound);
      }
      if q !in dirs {
        return Fail(InvalidInodeType);
      }
      var e := ExistsByName(p, n);
      if e != Done(true) {
        return Fail(ErrorElse(e, FsError.NotFound));
      }
      if p == q && n == m {
        return Done(());
      }
      var c := Replaceable(q, m);
      if c.Fail? {
        return Fail(c.error);
      }
      RenameEntries(p, n, q, m, now);
      r := Done(());
    }

    method RenameEntries(p: Ino, n: Name, q: Ino, m: Name, now: nat)
      requires Valid() && Has(tree, p, n) && q in tree && Ordinary(m)
      modifies this
      ensures Valid() && (old(repeats) ==> repeats) && Touched(old(inodes), inodes)
      ensures Current() == old(Current()).(tree := Move(old(tree), p, n, q, m))
      ensures inodes == TouchRenamed(old(inodes), p, q, old(tree)[p][n].ino, now)
      ensures metaCache == old(metaCache)
    {
      hide Consistent, Sound, Ordinary, Touched, Move, Touch, AllForward, Merged, OneSet;
      SoundKinds(Current());
      SoundEntry(Current(), p, n);
      SoundMove(Current(), p, n, q, m);
      var source := RenameSource(p, n);
      var (ino, kind) := source.value;
      ghost var before := inodes;
      MoveEntry(p, n, q, m, Link(ino, kind));
      SetAttr(p, Now(now), now);
      ghost var once := inodes;
      SetAttr(q, Now(now), now);
      ghost var twice := inodes;
      SetAttr(ino, Now(now).(mtime := None), now);
      TouchedTwice(before, once, twice);
      TouchedTwice(before, twice, inodes);
    }

    // ----- listing -----

    /** The name of an LS file, from the cache or by decrypting it. */
    method NameOf(e: Bytes, ghost n: Name) returns (r: FsResult<Name>)
      requires Consistent()
      modifies this`nameCache
      ensures Consistent()
      ensures Storable(n) && FormOf(e, n) ==> r == Done(Shown(n))
    {
      hide Represents, AttrsAgree, MetasAgree, Ordinary, Encodes;
      if Storable(n) && FormOf(e, n) {
        ShownForm(e, n);
      }
      if e == SELF || e == PARENT {
        return Done(Shown(e));
      }
      if e in nameCache {
        return Done(nameCache[e]);
      }
      var d := DecryptFileName(e, SomeName(e));
      if d.Err? {
        return Fail(InvalidInput);
      }
      NewNameAgrees(nameCache, e, d.value);
      nameCache := nameCache[e := d.value];
      r := Done(d.value);
    }

    /** The inode and kind in an LS file, from the cache or by reading it. What is cached is what
        is stored, except that a `$..` file may have been written since. */
    method MetaOf(p: Ino, e: Bytes) returns (l: Link)
      requires Consistent() && Listed(dirs, p, e) && (e == SELF ==> LinkAt(dirs, p, e) == Some(Link(p, Directory)))
      modifies this`metaCache
      ensures Consistent()
      ensures Some(l) == Shows(old(metaCache), dirs, p, e) && metaCache == old(metaCache)[(p, e) := l]
      ensures (!repeats && e != PARENT) || e == SELF ==> Some(l) == LinkAt(dirs, p, e)
    {
      hide Represents, AttrsAgree, NamesAgree;
      if (p, e) in metaCache {
        l := metaCache[(p, e)];
        assert metaCache == metaCache[(p, e) := l];
        return;
      }
      l := dirs[p].ls[e];
      metaCache := metaCache[(p, e) := l];
    }

    /** `create_directory_entry`. */
    method ListEntry(p: Ino, e: Bytes, ghost n: Name) returns (r: FsResult<Listing>)
      requires Consistent() && Listed(dirs, p, e) && Storable(n) && FormOf(e, n)
      requires e == SELF ==> LinkAt(dirs, p, e) == Some(Link(p, Directory))
      modifies this`nameCache, this`metaCache
      ensures Consistent()
      ensures r.Done? && r.value.name == Shown(n) && Some(r.value.link) == Shows(old(metaCache), dirs, p, e)
      ensures metaCache == old(metaCache)[(p, e) := r.value.link]
      ensures (!repeats && n != PARENT) || n == SELF ==> Some(r.value.link) == LinkAt(dirs, p, e)
    {
      hide Consistent, Storable, Ordinary, FormOf, Shown, Special, Shows;
      FormOfParent(e, n);
      var name := NameOf(e, n);
      var l := MetaOf(p, e);
      r := ListingOf(name, l);
    }

    method ListAll(p: Ino) returns (res: seq<Listing>)
      requires Consistent() && p in tree && WellFormed(tree, p)
      modifies this`nameCache, this`metaCache
      ensures Consistent() && |res| == |tree[p]| && NamesListed(res, tree[p])
      ensures !repeats ==> ListsExactly(res, tree[p])
      ensures Unmoved(old(metaCache), metaCache, dirs, p, {})
      ensures DotsListed(res, SELF, Some(Link(p, Directory)))
      ensures Listed(dirs, p, PARENT) ==> DotsListed(res, PARENT, Shows(old(metaCache), dirs, p, PARENT))
    {
      hide Consistent, Indexed, Storable, FormOf, Ordinary, EncOf, Hashed, ListsExactly, NamesListed, Shown;
      hide Todo, Shows, Unmoved, DotsListed;
      res := [];
      DirsIndexed(p);
      ghost var ds, d, all, cache := dirs, dirs[p], tree[p], metaCache;
      SelfStored(ds, all, p);
      ghost var me, up := Some(Link(p, Directory)), Shows(cache, ds, p, PARENT);
      var todo := dirs[p].ls.Keys;
      ghost var v: Plain := map[];
      NothingListed();
      NoDots(SELF, me);
      NoDots(PARENT, up);
      AllTodo(d, all);
      UnmovedYet(cache, ds, p, todo);
      while todo != {}
        invariant Consistent() && todo <= d.ls.Keys
        invariant Todo(d, all, v, todo) && |res| == |v| && NamesListed(res, v)
        invariant !repeats ==> ListsExactly(res, v)
        invariant Unmoved(cache, metaCache, ds, p, todo)
        invariant DotsListed(res, SELF, me) && DotsListed(res, PARENT, up)
        decreases todo
      {
        var e :| e in todo;
        ghost var n, before := StoredName(d, all, e), metaCache;
        FormOfParent(e, n);
        SameShows(cache, before, ds, p, todo, e);
        var x := ListEntry(p, e, n);
        UnmovedNext(cache, before, ds, p, todo, e, x.value.link);
        MoreDots(res, SELF, me, x.value, n);
        MoreDots(res, PARENT, up, x.value, n);
        TodoNext(d, all, v, todo, n);
        ListMore(res, v, x.value, n, all[n], !repeats);
        res := res + [x.value];
        v := v[n := all[n]];
        todo := todo - {e};
      }
      NoneTodo(d, all, v);
    }

    lemma DirFormed(p: Ino)
      requires Valid() && p in tree
      ensures WellFormed(tree, p) && p in dirs && LinkAt(dirs, p, PARENT) == Get(tree, p, PARENT)
    {
      hide AttrsAgree, NamesAgree, MetasAgree, AllLive, NamedOnce, Indexed;
      SelfStored(dirs, tree[p], p);
    }

    lemma DirsIndexed(p: Ino)
      requires Consistent() && p in tree
      ensures p in dirs && Indexed(dirs[p], tree[p])
    {
    }

    /** `read_dir`: once each entry, with its inode and kind; only that of `..` is what was cached
        of it, and right exactly when nothing else was. */
    method ReadDir(p: Ino, now: nat) returns (r: FsResult<seq<Listing>>)
      requires Valid()
      modifies this
      ensures Valid() && Current() == old(Current()) && repeats == old(repeats) && Touched(old(inodes), inodes)
      ensures r.Done? <==> p in tree
      ensures p in tree ==> FitsListing(p, tree[p], r.value, !repeats)
      ensures inodes == if r.Fail? then old(inodes)
                        else Touch(old(inodes), p, Now(now).(mtime := None, ctime := None), now)
      ensures p !in tree ==> r == Fail(InvalidInodeType)
      ensures p in tree ==> Unmoved(old(metaCache), metaCache, dirs, p, {})
      ensures p in tree && p != ROOT ==> ParentListed(r.value, old(metaCache), dirs, tree, p)
    {
      hide Consistent, Sound, Touched, ListsExactly, Unmoved, DotsListed, AllForward, OneSet, HasDots;
      TouchedRefl(inodes);
      assert dirs.Keys == tree.Keys by { DirsKeys(); }
      SoundKinds(Current());
      if p !in dirs {
        return Fail(InvalidInodeType);
      }
      SetAttr(p, Now(now).(mtime := None, ctime := None), now);
      DirFormed(p);
      var res := ListAll(p);
      DotsAreListed(res, tree[p], p);
      if p != ROOT {
        DotsUnique(res, tree[p], PARENT, Shows(old(metaCache), dirs, p, PARENT), Get(tree, p, PARENT));
      }
      r := Done(res);
    }

    /** Any part of the caches may be lost at any time. */
    method Evict(attrs: set<Ino>, names: set<Bytes>, metas: set<(Ino, Bytes)>)
      requires Valid()
      modifies this`attrCache, this`nameCache, this`metaCache
      ensures Valid() && attrCache == old(attrCache) - attrs
      ensures nameCache == old(nameCache) - names && metaCache == old(metaCache) - metas
    {
      hide Represents, Sound, Encodes, Special;
      attrCache, nameCache, metaCache := attrCache - attrs, nameCache - names, metaCache - metas;
    }
  }

  // ----- runs -----

  datatype Step =
    | Do(op: Op, attr: FileAttr, now: nat)
    | Set(ino: Ino, request: SetFileAttr, now: nat)
    | Look(dir: Ino, now: nat)
    | Evict(attrs: set<Ino>, names: set<Bytes>, metas: set<(Ino, Bytes)>)

  /** The operations among the steps. */
  function Ops(steps: seq<Step>): seq<Op> {
    if steps == [] then []
    else
      var last := steps[|steps| - 1];
      Ops(steps[..|steps| - 1]) + (if last.Do? then [last.op] else [])
  }

  datatype Answer = Ran(result: FsResult<()>) | Showed(entries: FsResult<seq<Listing>>) | Evicted

  /** The answer to a step is that of the plain directories; the inodes and kinds of a listing
      are so when `exact`. */
  ghost predicate Fits(s: State, step: Step, a: Answer, exact: bool) {
    match step
    case Do(op, _, _) => a == Ran(Apply(s, op).result)
    case Set(_, _, _) => a == Ran(Done(()))
    case Look(dir, _) =>
      && a.Showed?
      && if dir !in s.tree then a.entries == Fail(InvalidInodeType)
         else a.entries.Done? && FitsListing(dir, s.tree[dir], a.entries.value, exact)
    case Evict(_, _, _) => a == Evicted
  }

  /** As for operations; attributes are set of live inodes. */
  predicate AllowedStep(s: State, step: Step) {
    match step
    case Do(op, _, _) => Allowed(s, op)
    case Set(ino, _, _) => ino in s.inodes
    case _ => true
  }

  /** The inode numbers that a step may put into use. */
  function MadeBy(step: Step): set<Ino> {
    if step.Do? && step.op.Create? then {step.op.ino} else {}
  }

  lemma StepKeys(s: State, step: Step)
    ensures step.Do? ==> Apply(s, step.op).state.inodes.Keys <= s.inodes.Keys + MadeBy(step)
  {
    hide Ordinary;
  }

  method DoStep(fs: Namespace, step: Step) returns (a: Answer)
    requires fs.Valid() && AllowedStep(fs.Current(), step)
    modifies fs
    ensures fs.Valid() && (old(fs.repeats) ==> fs.repeats)
    ensures AllForward(old(fs.inodes), fs.inodes, {}) && fs.inodes.Keys <= old(fs.inodes).Keys + MadeBy(step)
    ensures fs.Current() == if step.Do? then Apply(old(fs.Current()), step.op).state else old(fs.Current())
    ensures Fits(old(fs.Current()), step, a, !fs.repeats)
  {
    hide Namespace.Consistent, SoundState, Apply, Touched, Ordinary, NamesListed;
    hide ListsExactly, Unmoved, DotsListed, HasDots, OneSet;
    hide AllForward, Allowed;
    StepKeys(fs.Current(), step);
    TouchedRefl(fs.inodes);
    ghost var before := fs.inodes;
    assert Kinds(before).Keys == before.Keys;
    match step
    case Do(op, attr, now) =>
      var result := DoOp(fs, op, attr, now);
      assert Kinds(fs.inodes).Keys == fs.inodes.Keys;
      TouchedForward(before, fs.inodes);
      a := Ran(result);
    case Set(ino, request, now) =>
      var result := fs.SetAttrOf(ino, request, now);
      a := Ran(result);
    case Look(dir, now) =>
      var entries := fs.ReadDir(dir, now);
      TouchedForward(before, fs.inodes);
      a := Showed(entries);
    case Evict(attrs, names, metas) =>
      TouchedForward(before, before);
      fs.Evict(attrs, names, metas);
      a := Evicted;
  }

  method DoOp(fs: Namespace, op: Op, attr: FileAttr, now: nat) returns (r: FsResult<()>)
    requires fs.Valid() && Allowed(fs.Current(), op)
    modifies fs
    ensures fs.Valid() && (old(fs.repeats) ==> fs.repeats) && Touched(old(fs.inodes), fs.inodes)
    ensures Outcome(fs.Current(), r) == Apply(old(fs.Current()), op)
  {
    hide Namespace.Consistent, SoundState, Apply, Touched, Ordinary, Touch, TouchRenamed, Unbind;
    match op
    case Create(p, n, kind, ino) => r := fs.Create(p, n, kind, ino, attr, now);
    case RemoveFile(p, n) => r := fs.RemoveFile(p, n, now);
    case RemoveDir(p, n) => r := fs.RemoveDir(p, n, now);
    case Rename(p, n, q, m) => r := fs.Rename(p, n, q, m, now);
  }

  predicate AllAllowed(s: State, steps: seq<Step>) {
    forall i | 0 <= i < |steps| :: AllowedStep(ApplyAll(s, Ops(steps[..i])), steps[i])
  }

  lemma OpsStep(s: State, steps: seq<Step>, i: nat)
    requires i < |steps|
    ensures ApplyAll(s, Ops(steps[..i + 1])) ==
              if steps[i].Do? then Apply(ApplyAll(s, Ops(steps[..i])), steps[i].op).state
              else ApplyAll(s, Ops(steps[..i]))
  {
    hide Apply;
    assert steps[..i + 1][..i] == steps[..i];
    var ops := Ops(steps[..i]);
    if steps[i].Do? {
      assert (ops + [steps[i].op])[..|ops|] == ops;
    } else {
      assert ops + [] == ops;
    }
  }

  /** The answers to the first steps fit. */
  ghost predicate AllFit(s: State, steps: seq<Step>, answers: seq<Answer>, exact: bool)
    requires |answers| <= |steps|
  {
    forall i | 0 <= i < |answers| :: Fits(ApplyAll(s, Ops(steps[..i])), steps[i], answers[i], exact)
  }

  lemma OneMoreFits(s: State, steps: seq<Step>, answers: seq<Answer>, a: Answer, before: bool, exact: bool)
    requires |answers| < |steps| && AllFit(s, steps, answers, before) && (exact ==> before)
    requires Fits(ApplyAll(s, Ops(steps[..|answers|])), steps[|answers|], a, exact)
    ensures AllFit(s, steps, answers + [a], exact)
  {
    hide Apply, ApplyAll, Ops, NamesListed, ListsExactly;
    forall i | 0 <= i < |answers|
      ensures Fits(ApplyAll(s, Ops(steps[..i])), steps[i], answers[i], exact)
    {
      assert Fits(ApplyAll(s, Ops(steps[..i])), steps[i], answers[i], before);
    }
  }

  /** The inode numbers put into use by the first steps. */
  function Made(steps: seq<Step>): set<Ino> {
    if steps == [] then {} else Made(steps[..|steps| - 1]) + MadeBy(steps[|steps| - 1])
  }

  lemma MadeStep(steps: seq<Step>, i: nat)
    requires i < |steps|
    ensures Made(steps[..i + 1]) == Made(steps[..i]) + MadeBy(steps[i]) && Made(steps[..0]) == {}
  {
    assert steps[..i + 1][..i] == steps[..i];
  }

  /** Every run of allowed operations, settings of attributes, directory listings and evictions
      does to the stored indexes what the operations alone do to plain directories, and answers
      what those say. The records of inodes that were there all along have gone forward, and the
      caches agree with what is stored. For the inodes and kinds of listed entries this holds as
      long as no encrypted name was drawn twice. */
  method Run(fs: Namespace, steps: seq<Step>) returns (answers: seq<Answer>)
    requires fs.Valid() && AllAllowed(fs.Current(), steps)
    modifies fs
    ensures fs.Valid() && fs.Current() == ApplyAll(old(fs.Current()), Ops(steps))
    ensures |answers| == |steps| && AllFit(old(fs.Current()), steps, answers, !fs.repeats)
    ensures AllForward(old(fs.inodes), fs.inodes, Made(steps))
    ensures AttrsAgree(fs.attrCache, fs.inodes) && NamesAgree(fs.nameCache)
    ensures !fs.repeats ==> MetasAgree(fs.metaCache, fs.dirs, fs.used)
    ensures Represents(fs.dirs, ApplyAll(old(fs.Current()), Ops(steps)).tree)
  {
    hide Represents, AttrsAgree, NamesAgree, MetasAgree, SoundState, Apply, ApplyAll;
    hide Allowed, Ops, Fits, AllFit, Touched;
    hide AllForward, Made, MadeBy;
    ghost var s := fs.Current();
    answers := [];
    NoOps(s, steps, !fs.repeats);
    TouchedRefl(fs.inodes);
    TouchedForward(fs.inodes, fs.inodes);
    assert Made(steps[..0]) == {} by { NoneMade(steps); }
    for i := 0 to |steps|
      invariant fs.Valid() && fs.Current() == ApplyAll(s, Ops(steps[..i]))
      invariant |answers| == i && AllFit(s, steps, answers, !fs.repeats)
      invariant AllForward(old(fs.inodes), fs.inodes, Made(steps[..i]))
    {
      ghost var before, records := !fs.repeats, fs.inodes;
      OpsStep(s, steps, i);
      var a := DoStep(fs, steps[i]);
      MadeStep(steps, i);
      ForwardTwice(old(fs.inodes), records, fs.inodes, Made(steps[..i]), MadeBy(steps[i]));
      OneMoreFits(s, steps, answers, a, before, !fs.repeats);
      answers := answers + [a];
    }
    assert steps[..|steps|] == steps;
  }

  lemma NoneMade(steps: seq<Step>)
    ensures Made(steps[..0]) == {}
  {
  }

  // ----- a stale entry -----

  lemma ShownParent(cache: Metas, dirs: Dirs, d: Ino, l: Link)
    requires Shows(cache, dirs, d, PARENT) == Some(l) && (d, PARENT) in cache
    ensures cache[(d, PARENT)] == l && forall other: Dirs :: Shows(cache, other, d, PARENT) == Some(l)
  {
  }

  lemma ListedParent(res: seq<Listing>, v: Plain, l: Link)
    requires NamesListed(res, v) && PARENT in v && DotsListed(res, PARENT, Some(l))
    ensures Listing(DOT_DOT, l) in res
  {
    var x :| x in res && x.name == Shown(PARENT);
    assert x == Listing(DOT_DOT, l);
  }

  /** After a listing, the link that was shown is cached. */
  lemma NowCached(before: Metas, cache: Metas, dirs: Dirs, d: Ino)
    requires Unmoved(before, cache, dirs, d, {}) && LinkAt(dirs, d, PARENT).Some?
    ensures (d, PARENT) in cache && Shows(cache, dirs, d, PARENT) == Shows(before, dirs, d, PARENT)
    ensures (d, PARENT) !in before ==> Shows(before, dirs, d, PARENT) == LinkAt(dirs, d, PARENT)
  {
  }

  /** A directory that is listed, moved to another and listed again still says that its parent
      is the old one. */
  method MovedKeepsParent(fs: Namespace, p: Ino, n: Name, q: Ino, m: Name, now: nat) returns (r: FsResult<seq<Listing>>)
    requires fs.Valid() && Has(fs.tree, p, n) && fs.tree[p][n].kind.Directory?
    requires q in fs.tree && q != p && Ordinary(m) && m !in fs.tree[q]
    requires (fs.tree[p][n].ino, PARENT) !in fs.metaCache
    modifies fs
    ensures fs.Valid() && Has(old(fs.tree), p, n)
    ensures Get(fs.tree, old(fs.tree)[p][n].ino, PARENT) == Some(Link(q, Directory))
    ensures r.Done? && Listing(DOT_DOT, Link(p, Directory)) in r.value
  {
    hide Namespace.Consistent, Sound, Ordinary, Unmoved, DotsListed, NamesListed;
    hide ListsExactly, Touched, HasDots, OneSet;
    hide Move, Touch, TouchRenamed, SoundState, Shows, Childless;
    ghost var s := fs.Current();
    var d := fs.DirOf(p, n);
    BackLink(s, p, n);
    SoundEntry(s, p, n);
    SoundKinds(s);
    ghost var cache := fs.metaCache;
    var _ := fs.ReadDir(d, now);
    NowCached(cache, fs.metaCache, fs.dirs, d);
    ShownParent(fs.metaCache, fs.dirs, d, Link(p, Directory));
    RenameFrame(s, p, n, q, m);
    var _ := fs.Rename(p, n, q, m, now);
    r := fs.ReadDir(d, now);
    ListedParent(r.value, fs.tree[d], Link(p, Directory));
  }

  lemma NoOps(s: State, steps: seq<Step>, exact: bool)
    ensures ApplyAll(s, Ops(steps[..0])) == s && AllFit(s, steps, [], exact)
  {
  }
}
