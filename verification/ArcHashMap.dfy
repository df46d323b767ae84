/** The reference-counted lock table (src/arc_hashmap.rs) as interleaved steps of any number of
    threads: the locked lookup, the increment inside it, the decrement of a dropped holder,
    which takes no lock, and the purge, which looks at one entry at a time under the write
    lock while other threads may decrement. */
module LockTable {

  type Tid = nat
  type EntryId = nat
  type HolderId = nat

  /** A value with its counter; both outlive their place in the table. */
  datatype Entry<K, V> = Entry(key: K, val: V, count: nat)

  datatype Lock = Free | Shared(tids: set<Tid>) | Exclusive(tid: Tid)

  /** What a thread is doing. `Found` and `Counted` are inside a lookup, before and after its
      increment; `Missing` is a lookup that found nothing; `Dropping` has decremented and not
      yet purged. */
  datatype Thread<K> =
    | Idle
    | Found(entry: EntryId)
    | Counted
    | Missing
    | Dropping
    | Purging(todo: set<K>)

  datatype State<K, V> = State(
    table: map<K, EntryId>,
    entries: map<EntryId, Entry<K, V>>,
    lock: Lock,
    threads: map<Tid, Thread<K>>,
    holders: map<HolderId, EntryId>)
  {
    function At(t: Tid): Thread<K> { if t in threads then threads[t] else Idle }
  }

  /** The holders of an entry, out of those whose drop has not decremented yet. */
  ghost function Of(holders: map<HolderId, EntryId>, e: EntryId): set<HolderId> {
    set h | h in holders && holders[h] == e
  }

  lemma AddHolder(holders: map<HolderId, EntryId>, h: HolderId, e0: EntryId, e: EntryId)
    requires h !in holders
    ensures |Of(holders[h := e0], e)| == |Of(holders, e)| + if e == e0 then 1 else 0
  {
    assert Of(holders[h := e0], e) == Of(holders, e) + if e == e0 then {h} else {};
  }

  lemma DropHolder(holders: map<HolderId, EntryId>, h: HolderId, e: EntryId)
    requires h in holders
    ensures |Of(holders - {h}, e)| == |Of(holders, e)| - if e == holders[h] then 1 else 0
  {
    assert Of(holders, e) == Of(holders - {h}, e) + if e == holders[h] then {h} else {};
  }

  datatype Step<K, V> =
    | StartInsert(t: Tid, key: K, val: V, freshId: EntryId)
    | StartGet(t: Tid, key: K)
    | Increment(t: Tid, holder: HolderId)
    | Unlock(t: Tid)
    | Decrement(t: Tid, holder: HolderId)
    | StartPurge(t: Tid)
    | PurgeEntry(t: Tid, key: K)
    | EndPurge(t: Tid)

  function Bump<K, V>(s: State<K, V>, e: EntryId, count: nat): map<EntryId, Entry<K, V>>
    requires e in s.entries
  {
    s.entries[e := s.entries[e].(count := count)]
  }

  function Released(lock: Lock, t: Tid): Lock {
    match lock
    case Free => Free
    case Exclusive(_) => Free
    case Shared(ts) => if ts - {t} == {} then Free else Shared(ts - {t})
  }

  /** When a step can be taken. */
  predicate Enabled<K, V>(s: State<K, V>, step: Step<K, V>) {
    match step
    case StartInsert(t, _, _, freshId) => s.At(t).Idle? && s.lock.Free? && freshId !in s.entries
    case StartGet(t, _) => s.At(t).Idle? && !s.lock.Exclusive?
    case Increment(t, h) => s.At(t).Found? && s.At(t).entry in s.entries && h !in s.holders
    case Unlock(t) => s.At(t).Counted? || s.At(t).Missing?
    case Decrement(t, h) =>
      s.At(t).Idle? && h in s.holders && s.holders[h] in s.entries && s.entries[s.holders[h]].count > 0
    case StartPurge(t) => s.At(t).Dropping? && s.lock.Free?
    case PurgeEntry(t, k) =>
      s.At(t).Purging? && k in s.At(t).todo && (k in s.table ==> s.table[k] in s.entries)
    case EndPurge(t) => s.At(t) == Purging({})
  }

  function Take<K(==), V>(s: State<K, V>, step: Step<K, V>): State<K, V>
    requires Enabled(s, step)
  {
    match step
    case StartInsert(t, k, v, freshId) =>
      if k in s.table then s.(lock := Exclusive(t), threads := s.threads[t := Found(s.table[k])])
      else s.(table := s.table[k := freshId], entries := s.entries[freshId := Entry(k, v, 0)],
              lock := Exclusive(t), threads := s.threads[t := Found(freshId)])
    case StartGet(t, k) =>
      s.(lock := Shared((if s.lock.Shared? then s.lock.tids else {}) + {t}),
         threads := s.threads[t := if k in s.table then Found(s.table[k]) else Missing])
    case Increment(t, h) =>
      var e := s.At(t).entry;
      s.(entries := Bump(s, e, s.entries[e].count + 1), threads := s.threads[t := Counted],
         holders := s.holders[h := e])
    case Unlock(t) => s.(lock := Released(s.lock, t), threads := s.threads[t := Idle])
    case Decrement(t, h) =>
      var e := s.holders[h];
      s.(entries := Bump(s, e, s.entries[e].count - 1), threads := s.threads[t := Dropping], holders := s.holders - {h})
    case StartPurge(t) => s.(lock := Exclusive(t), threads := s.threads[t := Purging(s.table.Keys)])
    case PurgeEntry(t, k) =>
      s.(table := if k in s.table && s.entries[s.table[k]].count == 0 then s.table - {k} else s.table,
         threads := s.threads[t := Purging(s.At(t).todo - {k})])
    case EndPurge(t) => s.(lock := Released(s.lock, t), threads := s.threads[t := Idle])
  }

  // ----- invariant -----

  /** Each counter is the number of its holders that have not been decremented. */
  ghost predicate CountsExact<K(!new), V(!new)>(s: State<K, V>) {
    forall e | e in s.entries :: s.entries[e].count == |Of(s.holders, e)|
  }

  /** The table, the holders and the lookups under way all agree on which entry a key has. */
  ghost predicate Linked<K(!new), V(!new)>(s: State<K, V>) {
    && (forall k | k in s.table :: s.table[k] in s.entries && s.entries[s.table[k]].key == k)
    && (forall h | h in s.holders :: InTable(s, s.holders[h]))
    && (forall t | t in s.threads && s.threads[t].Found? :: InTable(s, s.threads[t].entry))
  }

  ghost predicate InTable<K(!new), V(!new)>(s: State<K, V>, e: EntryId) {
    e in s.entries && s.entries[e].key in s.table && s.table[s.entries[e].key] == e
  }

  /** A thread inside the table holds its lock, and a purge holds it alone. */
  predicate LockedAt<K>(lock: Lock, thread: Thread<K>, t: Tid) {
    match thread
    case Idle => !Holds(lock, t)
    case Dropping => !Holds(lock, t)
    case Purging(_) => lock == Exclusive(t)
    case _ => Holds(lock, t)
  }

  ghost predicate Locked<K(!new), V(!new)>(s: State<K, V>) {
    forall t | t in s.threads :: LockedAt(s.lock, s.threads[t], t)
  }

  predicate Holds(lock: Lock, t: Tid) {
    match lock
    case Free => false
    case Shared(ts) => t in ts
    case Exclusive(u) => t == u
  }

  /** Somebody is still going to count up or purge this entry. */
  ghost predicate Pending<K(!new), V(!new)>(s: State<K, V>, k: K)
    requires k in s.table
  {
    exists t :: t in s.threads &&
      (s.threads[t] == Found(s.table[k]) || s.threads[t].Dropping? || (s.threads[t].Purging? && k in s.threads[t].todo))
  }

  ghost predicate ZeroesPending<K(!new), V(!new)>(s: State<K, V>) {
    forall k | k in s.table && s.table[k] in s.entries && s.entries[s.table[k]].count == 0 :: Pending(s, k)
  }

  /** Nobody holds a lock without being a thread of the table, and a shared lock is held. */
  ghost predicate LockOwned<K(!new), V(!new)>(s: State<K, V>) {
    && (forall t | Holds(s.lock, t) :: t in s.threads)
    && (s.lock.Shared? ==> s.lock.tids != {})
  }

  ghost predicate Inv<K(!new), V(!new)>(s: State<K, V>) {
    CountsExact(s) && Linked(s) && Locked(s) && LockOwned(s) && ZeroesPending(s)
  }

  function Init<K, V>(): State<K, V> { State(map[], map[], Free, map[], map[]) }

  // ----- every step keeps it -----

  lemma StepCounts<K(!new), V(!new)>(s: State<K, V>, step: Step<K, V>)
    requires CountsExact(s) && Linked(s) && Enabled(s, step)
    ensures CountsExact(Take(s, step))
  {
    var s' := Take(s, step);
    forall e | e in s'.entries
      ensures s'.entries[e].count == |Of(s'.holders, e)|
    {
      if step.Increment? {
        AddHolder(s.holders, step.holder, s.At(step.t).entry, e);
      } else if step.Decrement? {
        DropHolder(s.holders, step.holder, e);
      } else if e !in s.entries {
        assert Of(s'.holders, e) == {};
      }
    }
  }

  /** A purged entry had no holder, and no lookup was under way. */
  lemma PurgedUnheld<K(!new), V(!new)>(s: State<K, V>, step: Step<K, V>)
    requires CountsExact(s) && Linked(s) && Locked(s) && Enabled(s, step) && step.PurgeEntry?
    requires step.key in s.table && s.entries[s.table[step.key]].count == 0
    ensures forall h | h in s.holders :: s.holders[h] != s.table[step.key]
    ensures forall t | t in s.threads && t != step.t :: !s.threads[t].Found?
  {
    var gone := s.table[step.key];
    assert Of(s.holders, gone) == {};
    forall h | h in s.holders
      ensures s.holders[h] != gone
    {
      assert h !in Of(s.holders, gone);
    }
    forall t | t in s.threads && t != step.t
      ensures !s.threads[t].Found?
    {
      assert !Holds(s.lock, t);
    }
  }

  /** An entry stays in the table unless it is the one that a purge takes out. */
  lemma StepInTable<K(!new), V(!new)>(s: State<K, V>, step: Step<K, V>, e: EntryId)
    requires Enabled(s, step) && InTable(s, e)
    requires step.PurgeEntry? && step.key in s.table && s.entries[s.table[step.key]].count == 0 ==>
               e != s.table[step.key]
    ensures InTable(Take(s, step), e)
  {
  }

  lemma StepTable<K(!new), V(!new)>(s: State<K, V>, step: Step<K, V>)
    requires Linked(s) && Enabled(s, step)
    ensures var s' := Take(s, step);
            forall k | k in s'.table :: s'.table[k] in s'.entries && s'.entries[s'.table[k]].key == k
  {
  }

  lemma StepLinked<K(!new), V(!new)>(s: State<K, V>, step: Step<K, V>)
    requires CountsExact(s) && Linked(s) && Locked(s) && Enabled(s, step)
    ensures Linked(Take(s, step))
  {
    hide CountsExact, Locked, InTable;
    if step.PurgeEntry? && step.key in s.table && s.entries[s.table[step.key]].count == 0 {
      PurgedUnheld(s, step);
    }
    StepTable(s, step);
    var s' := Take(s, step);
    forall h | h in s'.holders
      ensures InTable(s', s'.holders[h])
    {
      StepInTable(s, step, s'.holders[h]);
    }
    forall t | t in s'.threads && s'.threads[t].Found?
      ensures InTable(s', s'.threads[t].entry)
    {
      StepFound(s, step, t);
    }
  }

  /** A lookup under way has found an entry of the table. */
  lemma StepFound<K(!new), V(!new)>(s: State<K, V>, step: Step<K, V>, t: Tid)
    requires Linked(s) && Enabled(s, step) && t in Take(s, step).threads && Take(s, step).threads[t].Found?
    requires step.PurgeEntry? && step.key in s.table && s.entries[s.table[step.key]].count == 0 ==>
               forall u | u in s.threads && u != step.t :: !s.threads[u].Found?
    ensures InTable(Take(s, step), Take(s, step).threads[t].entry)
  {
    if t != step.t {
      StepInTable(s, step, s.threads[t].entry);
    }
  }

  lemma ReleasedHolds(lock: Lock, t: Tid, u: Tid)
    requires Holds(lock, t)
    ensures Holds(Released(lock, t), u) <==> u != t && Holds(lock, u)
  {
    match lock
    case Shared(tids) => assert u in tids - {t} <==> u != t && u in tids;
    case _ =>
  }

  /** What a step does to the lock, seen from another thread. */
  lemma StepLockedOther<K(!new), V(!new)>(s: State<K, V>, step: Step<K, V>, t: Tid)
    requires Locked(s) && Enabled(s, step) && t in s.threads && t != step.t
    ensures t in Take(s, step).threads && Take(s, step).threads[t] == s.threads[t]
    ensures LockedAt(Take(s, step).lock, s.threads[t], t)
  {
    assert LockedAt(s.lock, s.threads[t], t);
    if step.Unlock? || step.EndPurge? {
      assert LockedAt(s.lock, s.threads[step.t], step.t);
      ReleasedHolds(s.lock, step.t, t);
    }
  }

  lemma StepLocked<K(!new), V(!new)>(s: State<K, V>, step: Step<K, V>)
    requires Locked(s) && LockOwned(s) && Enabled(s, step)
    ensures Locked(Take(s, step)) && LockOwned(Take(s, step))
  {
    var s', me := Take(s, step), step.t;
    forall t | t in s'.threads
      ensures LockedAt(s'.lock, s'.threads[t], t)
    {
      if t == me {
        StepLockedSelf(s, step);
      } else {
        StepLockedOther(s, step, t);
      }
    }
    forall t | Holds(s'.lock, t)
      ensures t in s'.threads
    {
      assert t == me || Holds(s.lock, t) by { StepHolds(s, step, t); }
    }
  }

  /** And from the thread that takes it. */
  lemma StepLockedSelf<K(!new), V(!new)>(s: State<K, V>, step: Step<K, V>)
    requires Locked(s) && LockOwned(s) && Enabled(s, step)
    ensures step.t in Take(s, step).threads
    ensures LockedAt(Take(s, step).lock, Take(s, step).threads[step.t], step.t)
  {
    assert step.t in s.threads ==> LockedAt(s.lock, s.threads[step.t], step.t);
    assert step.t !in s.threads ==> !Holds(s.lock, step.t);
    if step.Unlock? || step.EndPurge? {
      ReleasedHolds(s.lock, step.t, step.t);
    }
  }

  lemma StepHolds<K(!new), V(!new)>(s: State<K, V>, step: Step<K, V>, t: Tid)
    requires Locked(s) && Enabled(s, step) && Holds(Take(s, step).lock, t)
    ensures t == step.t || Holds(s.lock, t)
  {
    if step.Unlock? || step.EndPurge? {
      assert LockedAt(s.lock, s.threads[step.t], step.t);
      ReleasedHolds(s.lock, step.t, t);
    }
  }

  lemma StepZeroes<K(!new), V(!new)>(s: State<K, V>, step: Step<K, V>)
    requires Linked(s) && Locked(s) && ZeroesPending(s) && Enabled(s, step)
    ensures ZeroesPending(Take(s, step))
  {
    var s' := Take(s, step);
    forall k | k in s'.table && s'.table[k] in s'.entries && s'.entries[s'.table[k]].count == 0
      ensures Pending(s', k)
    {
      StepZero(s, step, k);
    }
  }

  lemma StepZero<K(!new), V(!new)>(s: State<K, V>, step: Step<K, V>, k: K)
    requires Linked(s) && Locked(s) && ZeroesPending(s) && Enabled(s, step)
    requires var s' := Take(s, step);
             k in s'.table && s'.table[k] in s'.entries && s'.entries[s'.table[k]].count == 0
    ensures Pending(Take(s, step), k)
  {
    var s' := Take(s, step);
    var me := step.t;
    if step.Decrement? || step.StartPurge? || (step.StartInsert? && k !in s.table) {
      assert me in s'.threads;
    } else {
      var t :| t in s.threads &&
        (s.threads[t] == Found(s.table[k]) || s.threads[t].Dropping?
         || (s.threads[t].Purging? && k in s.threads[t].todo));
      assert t in s'.threads;
    }
  }

  lemma StepInv<K(!new), V(!new)>(s: State<K, V>, step: Step<K, V>)
    requires Inv(s) && Enabled(s, step)
    ensures Inv(Take(s, step))
  {
    StepCounts(s, step);
    StepLinked(s, step);
    StepLocked(s, step);
    StepZeroes(s, step);
  }

  // ----- what lookups, drops and purges mean -----

  /** `get_or_insert_with`: a holder of the key's value, which is the one there was, or the new
      one; then the lock is free again. */
  lemma InsertMeans<K(!new), V(!new)>(s: State<K, V>, t: Tid, k: K, v: V, e: EntryId, h: HolderId)
    requires Inv(s) && s.At(t).Idle? && s.lock.Free? && e !in s.entries && h !in s.holders
    ensures Enabled(s, StartInsert(t, k, v, e))
    ensures var found := Take(s, StartInsert(t, k, v, e));
            && found.lock == Exclusive(t) && Enabled(found, Increment(t, h))
            && var held := Take(found, Increment(t, h));
            && Enabled(held, Unlock(t))
            && var done := Take(held, Unlock(t));
            && done.lock == Free && done.At(t) == Idle
            && h in done.holders && done.holders - {h} == s.holders && done.holders[h] in done.entries
            && done.entries[done.holders[h]].key == k
            && done.entries[done.holders[h]].val == (if k in s.table then s.entries[s.table[k]].val else v)
            && k in done.table && done.table[k] == done.holders[h] && done.table - {k} == s.table - {k}
  {
    assert forall f | f in s.holders :: f != h;
  }

  /** `get`: a key in the table is found, with its value, and no other is. */
  lemma GetMeans<K(!new), V(!new)>(s: State<K, V>, t: Tid, k: K, h: HolderId)
    requires Inv(s) && s.At(t).Idle? && !s.lock.Exclusive? && h !in s.holders
    ensures Enabled(s, StartGet(t, k))
    ensures var found := Take(s, StartGet(t, k));
            && found.table == s.table && found.entries == s.entries && found.holders == s.holders
            && Holds(found.lock, t) && found.lock.Shared?
            && (k !in s.table ==> Enabled(found, Unlock(t)) && !Enabled(found, Increment(t, h)))
            && (k in s.table ==>
                  && Enabled(found, Increment(t, h))
                  && var held := Take(found, Increment(t, h));
                  && Enabled(held, Unlock(t)) && held.table == s.table
                  && h in held.holders && held.holders - {h} == s.holders && held.holders[h] == s.table[k]
                  && held.entries[s.table[k]].key == k && held.entries[s.table[k]].val == s.entries[s.table[k]].val)
  {
  }

  /** A dropped holder is gone, and its counter one less; the table is as it was until the purge. */
  lemma DropMeans<K(!new), V(!new)>(s: State<K, V>, t: Tid, h: HolderId)
    requires Inv(s) && s.At(t).Idle? && h in s.holders
    ensures Enabled(s, Decrement(t, h))
    ensures var s' := Take(s, Decrement(t, h));
            && s'.holders == s.holders - {h} && s'.table == s.table && s'.lock == s.lock && s'.At(t) == Dropping
            && s'.entries[s.holders[h]].count + 1 == s.entries[s.holders[h]].count
            && s'.entries[s.holders[h]].val == s.entries[s.holders[h]].val
  {
    assert h in Of(s.holders, s.holders[h]);
    assert InTable(s, s.holders[h]);
  }

  /** A purge takes out of the table exactly those of its keys that nobody holds, and looks at
      every key there was. */
  lemma PurgeMeans<K(!new), V(!new)>(s: State<K, V>, t: Tid, k: K)
    requires Inv(s)
    ensures s.At(t).Dropping? && s.lock.Free? ==>
              Enabled(s, StartPurge(t)) && Take(s, StartPurge(t)).At(t) == Purging(s.table.Keys)
    ensures s.At(t).Purging? && k in s.At(t).todo ==>
              && Enabled(s, PurgeEntry(t, k))
              && var s' := Take(s, PurgeEntry(t, k));
              && s'.At(t) == Purging(s.At(t).todo - {k}) && s'.entries == s.entries && s'.holders == s.holders
              && (forall j | j != k :: j in s'.table <==> j in s.table)
              && (forall j | j in s'.table :: j in s.table && s'.table[j] == s.table[j])
              && (k in s'.table <==> exists h :: h in s.holders && k in s.table && s.holders[h] == s.table[k])
  {
    if s.At(t).Purging? && k in s.At(t).todo && k in s.table {
      assert s.entries[s.table[k]].count == |Of(s.holders, s.table[k])|;
      if s.entries[s.table[k]].count > 0 {
        var h :| h in Of(s.holders, s.table[k]);
      } else {
        assert forall h | h in s.holders :: h !in Of(s.holders, s.table[k]);
      }
    }
  }

  /** Whenever a thread is busy, a busy thread can go on: there is no deadlock. */
  lemma NoDeadlock<K(!new), V(!new)>(s: State<K, V>, t: Tid, h: HolderId)
    requires Inv(s) && !s.At(t).Idle? && h !in s.holders
    ensures exists step: Step<K, V> :: Enabled(s, step) && !s.At(step.t).Idle?
  {
    if s.At(t).Dropping? {
      if s.lock.Free? {
        assert Enabled(s, StartPurge(t));
      } else {
        var u := SomeHolder(s.lock);
        assert LockedAt(s.lock, s.threads[u], u);
        CanGoOn(s, u, h);
      }
    } else {
      CanGoOn(s, t, h);
    }
  }

  ghost function SomeHolder(lock: Lock): (t: Tid)
    requires !lock.Free? && (lock.Shared? ==> lock.tids != {})
    ensures Holds(lock, t)
  {
    match lock
    case Exclusive(t) => t
    case Shared(tids) => var t :| t in tids; t
  }

  /** So can every thread that is inside the table. */
  lemma CanGoOn<K(!new), V(!new)>(s: State<K, V>, t: Tid, h: HolderId)
    requires Inv(s) && !s.At(t).Idle? && !s.At(t).Dropping? && h !in s.holders
    ensures exists step: Step<K, V> :: Enabled(s, step) && step.t == t
  {
    match s.threads[t]
    case Found(_) => assert Enabled(s, Increment(t, h));
    case Purging(todo) =>
      if todo == {} {
        assert Enabled(s, EndPurge(t));
      } else {
        var k :| k in todo;
        assert Enabled(s, PurgeEntry(t, k));
      }
    case Counted => assert Enabled(s, Unlock(t));
    case Missing => assert Enabled(s, Unlock(t));
  }

  // ----- runs -----

  /** A run from the empty table: any threads, any steps, in any order. */
  ghost predicate IsRun<K(!new), V(!new)>(states: seq<State<K, V>>, steps: seq<Step<K, V>>) {
    && |states| == |steps| + 1 && states[0] == Init()
    && forall i | 0 <= i < |steps| :: StepAt(states, steps, i)
  }

  ghost predicate StepAt<K(!new), V(!new)>(states: seq<State<K, V>>, steps: seq<Step<K, V>>, i: nat)
    requires |states| == |steps| + 1 && i < |steps|
  {
    Enabled(states[i], steps[i]) && states[i + 1] == Take(states[i], steps[i])
  }

  lemma {:induction false} RunInv<K(!new), V(!new)>(states: seq<State<K, V>>, steps: seq<Step<K, V>>, i: nat)
    requires IsRun(states, steps) && i < |states|
    ensures Inv(states[i])
  {
    if i > 0 {
      RunInv(states, steps, i - 1);
      assert StepAt(states, steps, i - 1);
      StepInv(states[i - 1], steps[i - 1]);
    }
  }

  /** Two live holders are of the same key exactly when they share one entry, and so one value,
      in every state of every run. */
  lemma HoldersShare<K(!new), V(!new)>(
    states: seq<State<K, V>>, steps: seq<Step<K, V>>, i: nat, h: HolderId, h': HolderId)
    requires IsRun(states, steps) && i < |states|
    requires h in states[i].holders && h' in states[i].holders
    ensures var s := states[i];
            && s.holders[h] in s.entries && s.holders[h'] in s.entries
            && (s.entries[s.holders[h]].key == s.entries[s.holders[h']].key <==> s.holders[h] == s.holders[h'])
            && (s.entries[s.holders[h]].key == s.entries[s.holders[h']].key ==>
                  s.entries[s.holders[h]].val == s.entries[s.holders[h']].val)
  {
    RunInv(states, steps, i);
    var s := states[i];
    assert InTable(s, s.holders[h]) && InTable(s, s.holders[h']);
  }

  /** A lookup under way, or a holder not yet decremented, keeps its entry in the table, with
      a counter that a decrement cannot take below zero. */
  lemma HeldStays<K(!new), V(!new)>(states: seq<State<K, V>>, steps: seq<Step<K, V>>, i: nat)
    requires IsRun(states, steps) && i < |states|
    ensures var s := states[i];
            && (forall h | h in s.holders :: InTable(s, s.holders[h]) && s.entries[s.holders[h]].count > 0)
            && (forall t | t in s.threads && s.threads[t].Found? :: InTable(s, s.threads[t].entry))
            && (forall k | k in s.table :: s.table[k] in s.entries)
  {
    RunInv(states, steps, i);
    var s := states[i];
    forall h | h in s.holders
      ensures InTable(s, s.holders[h]) && s.entries[s.holders[h]].count > 0
    {
      assert h in Of(s.holders, s.holders[h]);
    }
  }

  lemma NoHoldersNoCounts<K(!new), V(!new)>(s: State<K, V>)
    requires CountsExact(s) && Linked(s) && s.holders == map[]
    ensures forall k | k in s.table :: s.entries[s.table[k]].count == 0
  {
    forall k | k in s.table
      ensures s.entries[s.table[k]].count == 0
    {
      assert Of(s.holders, s.table[k]) == {};
    }
  }

  /** Once every holder is dropped and every thread is done, the table is empty. */
  lemma QuiescentEmpty<K(!new), V(!new)>(states: seq<State<K, V>>, steps: seq<Step<K, V>>, i: nat)
    requires IsRun(states, steps) && i < |states|
    requires states[i].holders == map[] && forall t | t in states[i].threads :: states[i].threads[t].Idle?
    ensures states[i].table == map[]
  {
    RunInv(states, steps, i);
    NoHoldersNoCounts(states[i]);
  }
}
