/** File attributes and how they are merged (src/encryptedfs.rs). */
module Attributes {
  import opened Primitives

  datatype Times = Times(atime: nat, mtime: nat, ctime: nat, crtime: nat)

  datatype FileAttr = FileAttr(size: nat, times: Times, perm: nat, uid: nat, gid: nat, flags: nat)

  datatype SetFileAttr = SetFileAttr(
    size: Option<nat>, atime: Option<nat>, mtime: Option<nat>, ctime: Option<nat>, crtime: Option<nat>,
    perm: Option<nat>, uid: Option<nat>, gid: Option<nat>, flags: Option<nat>)

  /** The requests that a read handle and a write handle make when their times, and the size,
      are put back. */
  function TimesOnly(t: Times): SetFileAttr {
    SetFileAttr(None, Some(t.atime), Some(t.mtime), Some(t.ctime), Some(t.crtime), None, None, None, None)
  }

  function TimesAndSize(t: Times, size: nat): SetFileAttr {
    TimesOnly(t).(size := Some(size))
  }

  function Later(now: nat, t: Option<nat>): nat { if t.Some? then Max(now, t.value) else now }

  function Or(now: nat, v: Option<nat>): nat { if v.Some? then v.value else now }

  /** `merge_attr`: times only move forward, and the size only grows unless overwritten. */
  function MergeAttr(a: FileAttr, s: SetFileAttr, overwriteSize: bool): FileAttr {
    FileAttr(
      if overwriteSize then Or(a.size, s.size) else Later(a.size, s.size),
      Times(Later(a.times.atime, s.atime), Later(a.times.mtime, s.mtime),
            Later(a.times.ctime, s.ctime), Later(a.times.crtime, s.crtime)),
      Or(a.perm, s.perm), Or(a.uid, s.uid), Or(a.gid, s.gid), Or(a.flags, s.flags))
  }

  /** Both times that say when the record itself was used and changed. */
  function Stamped(a: FileAttr, now: nat): FileAttr {
    a.(times := a.times.(ctime := now, atime := now))
  }

  /** Modification and creation time have not gone back. */
  predicate TimesForward(a: FileAttr, b: FileAttr) {
    a.times.mtime <= b.times.mtime && a.times.crtime <= b.times.crtime
  }

  /** m is the greatest of b and the values of a time field over a set of time records. */
  ghost predicate IsMax(m: nat, b: nat, ts: set<Times>, field: Times -> nat) {
    && b <= m && (forall t | t in ts :: field(t) <= m)
    && (m == b || exists t :: t in ts && field(t) == m)
  }

  ghost function ATime(): Times -> nat { (t: Times) => t.atime }
  ghost function MTime(): Times -> nat { (t: Times) => t.mtime }
  ghost function CTime(): Times -> nat { (t: Times) => t.ctime }
  ghost function CrTime(): Times -> nat { (t: Times) => t.crtime }

  /** r is `a` with every time moved to the latest among `a` and a set of time records: a
      description that mentions no order. */
  ghost predicate Latest(r: FileAttr, a: FileAttr, ts: set<Times>) {
    && r == a.(times := r.times)
    && IsMax(r.times.atime, a.times.atime, ts, ATime())
    && IsMax(r.times.mtime, a.times.mtime, ts, MTime())
    && IsMax(r.times.ctime, a.times.ctime, ts, CTime())
    && IsMax(r.times.crtime, a.times.crtime, ts, CrTime())
  }

  /** A request merged into the latest of some attributes and times, and stamped. */
  ghost predicate SetTo(r: FileAttr, a: FileAttr, ts: set<Times>, request: SetFileAttr, overwriteSize: bool, now: nat) {
    exists m :: Latest(m, a, ts) && r == Stamped(MergeAttr(m, request, overwriteSize), now)
  }

  lemma SetToUnique(
    r: FileAttr, s: FileAttr, a: FileAttr, ts: set<Times>, request: SetFileAttr, overwriteSize: bool, now: nat)
    requires SetTo(r, a, ts, request, overwriteSize, now) && SetTo(s, a, ts, request, overwriteSize, now)
    ensures r == s
  {
    hide Latest, MergeAttr;
    var m :| Latest(m, a, ts) && r == Stamped(MergeAttr(m, request, overwriteSize), now);
    var n :| Latest(n, a, ts) && s == Stamped(MergeAttr(n, request, overwriteSize), now);
    LatestUnique(m, n, a, ts);
  }

  /** m is the greatest of b, the values of a time field over some records, and one more. */
  ghost predicate Greatest(m: nat, b: nat, ts: set<Times>, field: Times -> nat, more: Option<nat>) {
    && b <= m && (forall t | t in ts :: field(t) <= m) && (more.Some? ==> more.value <= m)
    && (m == b || more == Some(m) || exists t :: t in ts && field(t) == m)
  }

  /** What setting attributes stores, field by field: both stamps are now, the other two times
      are the greatest that the record, the handles or the request have, and nothing else. */
  lemma SetToMeans(r: FileAttr, a: FileAttr, ts: set<Times>, request: SetFileAttr, overwriteSize: bool, now: nat)
    requires SetTo(r, a, ts, request, overwriteSize, now)
    ensures r.times.ctime == now && r.times.atime == now
    ensures Greatest(r.times.mtime, a.times.mtime, ts, (t: Times) => t.mtime, request.mtime)
    ensures Greatest(r.times.crtime, a.times.crtime, ts, (t: Times) => t.crtime, request.crtime)
    ensures r.perm == Given(request.perm, a.perm) && r.uid == Given(request.uid, a.uid)
    ensures r.gid == Given(request.gid, a.gid) && r.flags == Given(request.flags, a.flags)
    ensures match request.size
            case None => r.size == a.size
            case Some(size) => r.size == if overwriteSize || a.size <= size then size else a.size
  {
    var m :| Latest(m, a, ts) && r == Stamped(MergeAttr(m, request, overwriteSize), now);
    IsMaxMore(m.times.mtime, a.times.mtime, ts, MTime(), (t: Times) => t.mtime, request.mtime);
    IsMaxMore(m.times.crtime, a.times.crtime, ts, CrTime(), (t: Times) => t.crtime, request.crtime);
  }

  /** What was asked for, or what there was. */
  function Given(asked: Option<nat>, was: nat): nat {
    match asked
    case Some(v) => v
    case None => was
  }

  lemma IsMaxMore(m: nat, b: nat, ts: set<Times>, field: Times -> nat, same: Times -> nat, more: Option<nat>)
    requires IsMax(m, b, ts, field) && forall t :: field(t) == same(t)
    ensures Greatest(if more.Some? && m < more.value then more.value else m, b, ts, same, more)
  {
  }

  /** The same for a record of its own. */
  predicate SetOn(a: FileAttr, r: FileAttr, request: SetFileAttr, now: nat) {
    && r.times.ctime == now && r.times.atime == now
    && r.times.mtime == (if request.mtime.Some? && a.times.mtime < request.mtime.value then request.mtime.value
                         else a.times.mtime)
    && r.times.crtime == (if request.crtime.Some? && a.times.crtime < request.crtime.value then request.crtime.value
                          else a.times.crtime)
    && r.perm == Given(request.perm, a.perm) && r.uid == Given(request.uid, a.uid)
    && r.gid == Given(request.gid, a.gid) && r.flags == Given(request.flags, a.flags)
    && r.size == if request.size.Some? && a.size < request.size.value then request.size.value else a.size
  }

  lemma MergedSetOn(a: FileAttr, request: SetFileAttr, now: nat)
    ensures SetOn(a, Stamped(MergeAttr(a, request, false), now), request, now)
  {
  }

  lemma IsMaxUnique(m: nat, m': nat, b: nat, ts: set<Times>, field: Times -> nat)
    requires IsMax(m, b, ts, field) && IsMax(m', b, ts, field)
    ensures m == m'
  {
  }

  /** The merge of a set of handles has one outcome, whatever the order of merging. */
  lemma LatestUnique(r: FileAttr, r': FileAttr, a: FileAttr, ts: set<Times>)
    requires Latest(r, a, ts) && Latest(r', a, ts)
    ensures r == r'
  {
    IsMaxUnique(r.times.atime, r'.times.atime, a.times.atime, ts, ATime());
    IsMaxUnique(r.times.mtime, r'.times.mtime, a.times.mtime, ts, MTime());
    IsMaxUnique(r.times.ctime, r'.times.ctime, a.times.ctime, ts, CTime());
    IsMaxUnique(r.times.crtime, r'.times.crtime, a.times.crtime, ts, CrTime());
  }

  lemma LatestNone(a: FileAttr)
    ensures Latest(a, a, {})
  {
  }

  lemma LatestSize(r: FileAttr, a: FileAttr, ts: set<Times>)
    requires Latest(r, a, ts)
    ensures r.size == a.size && TimesForward(a, r)
  {
  }

  lemma IsMaxStep(m: nat, b: nat, ts: set<Times>, t: Times, field: Times -> nat)
    requires IsMax(m, b, ts, field)
    ensures IsMax(Max(m, field(t)), b, ts + {t}, field)
  {
    if field(t) <= m && m != b {
      var u :| u in ts && field(u) == m;
      assert u in ts + {t};
    } else if m < field(t) {
      assert t in ts + {t};
    }
  }

  /** Merging one more handle's times extends the set by them. */
  lemma LatestStep(r: FileAttr, a: FileAttr, ts: set<Times>, t: Times)
    requires Latest(r, a, ts)
    ensures Latest(MergeAttr(r, TimesOnly(t), false), a, ts + {t})
  {
    IsMaxStep(r.times.atime, a.times.atime, ts, t, ATime());
    IsMaxStep(r.times.mtime, a.times.mtime, ts, t, MTime());
    IsMaxStep(r.times.ctime, a.times.ctime, ts, t, CTime());
    IsMaxStep(r.times.crtime, a.times.crtime, ts, t, CrTime());
  }

  /** The same for a handle that also holds a size. */
  lemma LatestStepSize(r: FileAttr, a: FileAttr, ts: set<Times>, t: Times, size: nat)
    requires Latest(r, a, ts)
    ensures Latest(MergeAttr(r, TimesAndSize(t, size), false), a.(size := Max(a.size, size)), ts + {t})
  {
    LatestStep(r, a, ts, t);
  }

  lemma LatestNotBefore(r: FileAttr, a: FileAttr, ts: set<Times>)
    requires Latest(r, a, ts)
    ensures TimesForward(a, r)
  {
  }

  /** Merging the times of handles one after the other. */
  function MergeInOrder(a: FileAttr, ts: seq<Times>): FileAttr {
    if ts == [] then a else MergeAttr(MergeInOrder(a, ts[..|ts| - 1]), TimesOnly(ts[|ts| - 1]), false)
  }

  function Elements(ts: seq<Times>): set<Times> { set t | t in ts }

  lemma {:induction false} MergeInOrderIsLatest(a: FileAttr, ts: seq<Times>)
    ensures Latest(MergeInOrder(a, ts), a, Elements(ts))
  {
    if ts != [] {
      var n := |ts| - 1;
      MergeInOrderIsLatest(a, ts[..n]);
      LatestStep(MergeInOrder(a, ts[..n]), a, Elements(ts[..n]), ts[n]);
      assert ts == ts[..n] + [ts[n]];
      assert Elements(ts[..n]) + {ts[n]} == Elements(ts);
    }
  }

  /** Two orders of visiting the same handles give the same attributes. */
  lemma MergeOrderIrrelevant(a: FileAttr, ts: seq<Times>, us: seq<Times>)
    requires Elements(ts) == Elements(us)
    ensures MergeInOrder(a, ts) == MergeInOrder(a, us)
  {
    MergeInOrderIsLatest(a, ts);
    MergeInOrderIsLatest(a, us);
    LatestUnique(MergeInOrder(a, ts), MergeInOrder(a, us), a, Elements(ts));
  }

  datatype CipherKind = ChaCha20Poly1305 | Aes256Gcm

  /** The most plaintext bytes one file may have. */
  function MaxPlaintextLen(c: CipherKind): nat {
    match c
    case ChaCha20Poly1305 => (0x1_0000_0000 - 1) * 64
    case Aes256Gcm => (0x80_0000_0000 - 256) / 8
  }

  /** In bytes: 64 for each block of a 32-bit counter, but the first; and the 2^39 - 256 bits of
      one invocation. */
  lemma LimitsAre()
    ensures MaxPlaintextLen(ChaCha20Poly1305) == 274_877_906_880 == 64 * 4_294_967_295
    ensures MaxPlaintextLen(Aes256Gcm) == 68_719_476_704 && 8 * MaxPlaintextLen(Aes256Gcm) == 549_755_813_888 - 256
  {
  }
}
