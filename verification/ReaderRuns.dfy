/** Whole runs of the seekable reader, through any number of ends of data: against a plaintext
    with a position and a flag. */
module ReaderRuns {
  import opened Primitives
  import opened Blocks
  import opened HostFiles
  import opened SeekableReader

  datatype Op = SeekTo(from: SeekFrom) | Get(limit: nat)

  datatype Outcome = Moved(to: Result<nat>) | Got(bytes: Bytes)

  function Apply(plain: Bytes, p: Place, op: Op): (Outcome, Place) {
    match op
    case SeekTo(from) =>
      var (to, q) := SeekPlace(|plain|, p, from);
      (Moved(to), q)
    case Get(limit) =>
      var (bytes, q) := ReadPlace(plain, p, limit);
      (Got(bytes), q)
  }

  function ApplyAll(plain: Bytes, p: Place, ops: seq<Op>): (seq<Outcome>, Place) {
    if ops == [] then ([], p)
    else
      var (outcomes, q) := ApplyAll(plain, p, ops[..|ops| - 1]);
      var (outcome, q') := Apply(plain, q, ops[|ops| - 1]);
      (outcomes + [outcome], q')
  }

  /** The reader is at a place of its plaintext. */
  ghost predicate At(r: Reader, p: Place)
    reads r.Repr(), r.input.node
  {
    r.Valid() && r.good && r.Position() == p.pos && (r.Drained() <==> p.drained)
  }

  /** A drained reader is at the end. */
  lemma DrainedAtEnd(r: Reader, p: Place)
    requires At(r, p)
    ensures 0 <= p.pos <= |r.plain|
    ensures p.drained ==> p.pos == |r.plain| && r.plain != [] && r.Reported() == Off(LastBlock(|r.plain|), B)
    ensures !p.drained ==> r.Reported() == p.pos
    ensures r.Len() == Computed(|r.plain|)
    ensures r.plain == [] ==> r.blockIndex == 0
  {
    hide Stores, Off, Block, Index, Within, LenFormula;
    r.ReportedIsPosition();
    r.LenIsPlainLen();
    r.StuckIs(0);
  }

  method SeekStep(r: Reader, ghost p: Place, from: SeekFrom) returns (to: Result<nat>)
    requires At(r, p)
    modifies r.Repr()
    ensures var (to', q) := SeekPlace(|r.plain|, p, from);
            to == to' && At(r, q)
  {
    hide Stores, Off, Block, Index, Within, LenFormula, Computed, LastBlock;
    DrainedAtEnd(r, p);
    ghost var target := Target(from, r.Len(), r.Reported());
    if target >= 0 {
      r.StuckIs(Min(target, r.Len()));
    }
    to := r.Seek(from);
    LastBlockOf(r);
  }

  lemma LastBlockOf(r: Reader)
    requires r.Valid() && r.good
    ensures r.plain != [] ==> LastBlock(|r.plain|) == Index(|r.plain| - 1, B)
    ensures r.Drained() ==> r.Reported() == Off(LastBlock(|r.plain|), B) && r.Position() == |r.plain|
  {
    hide Stores, Off, Block, Index, Within;
    r.ReportedIsPosition();
    r.StuckIs(0);
  }

  method ReadStep(r: Reader, ghost p: Place, limit: nat) returns (bytes: Bytes)
    requires At(r, p) && limit > 0
    modifies r.Repr()
    ensures var (bytes', q) := ReadPlace(r.plain, p, limit);
            bytes == bytes' && At(r, q)
  {
    hide Stores, Off, Block, Index, Within, Room, Slice;
    DrainedAtEnd(r, p);
    SliceAppend(r.plain, p.pos, p.pos, p.pos + Min(limit, Room(p.pos)));
    var got := r.Read(limit);
    bytes := got.value;
    SameSlice(r.plain, p.pos, Min(limit, Room(p.pos)), |bytes|);
    r.ReportedIsPosition();
  }

  lemma SameSlice(s: Bytes, p: nat, n: nat, k: nat)
    requires p <= |s| && k == Min(n, |s| - p)
    ensures Slice(s, p, p + n) == Slice(s, p, p + k)
  {
  }

  /** Reads are of at least one byte. */
  predicate NonEmptyReads(ops: seq<Op>) {
    forall i | 0 <= i < |ops| && ops[i].Get? :: ops[i].limit > 0
  }

  /** For every well-formed stream and every run of seeks and non-empty reads, each read
      returns the bytes and each seek the position that the plain model says. */
  method Run(node: Storage, ghost plain: Bytes, ops: seq<Op>) returns (outcomes: seq<Outcome>)
    requires Stores(node.bytes, plain) && NonEmptyReads(ops)
    ensures outcomes == ApplyAll(plain, Place(0, false), ops).0
  {
    hide Stores, At, Apply;
    var input := new File(node);
    var r := new Reader(input, plain);
    ghost var p := Place(0, false);
    assert At(r, p) by { FreshAt(r); }
    outcomes := [];
    for i := 0 to |ops|
      invariant At(r, p) && r.plain == plain && fresh(r.Repr())
      invariant (outcomes, p) == ApplyAll(plain, Place(0, false), ops[..i])
    {
      assert ops[..i + 1][..i] == ops[..i];
      var outcome := Step(r, p, ops[i]);
      outcomes := outcomes + [outcome];
      p := Apply(plain, p, ops[i]).1;
    }
    assert ops[..|ops|] == ops;
  }

  lemma FreshAt(r: Reader)
    requires r.Valid() && r.good && r.Position() == 0 && !r.Drained()
    ensures At(r, Place(0, false))
  {
  }

  method Step(r: Reader, ghost p: Place, op: Op) returns (outcome: Outcome)
    requires At(r, p) && (op.Get? ==> op.limit > 0)
    modifies r.Repr()
    ensures outcome == Apply(r.plain, p, op).0 && At(r, Apply(r.plain, p, op).1)
  {
    hide At, SeekPlace, ReadPlace;
    match op
    case SeekTo(from) =>
      var to := SeekStep(r, p, from);
      outcome := Moved(to);
    case Get(limit) =>
      var bytes := ReadStep(r, p, limit);
      outcome := Got(bytes);
  }

  // ----- what the model says -----

  /** Until the end of the data is met, a seek from the start leads to the position or to the
      computed length, and a read returns the bytes there, some unless at the end. */
  lemma NotDrained(plain: Bytes, p: Place, offset: nat, limit: nat)
    requires !p.drained && p.pos <= |plain| && limit > 0
    ensures var to := Min(offset, Computed(|plain|));
            Apply(plain, p, SeekTo(Start(offset))) == (Moved(Ok(to)), Place(to, false))
    ensures var (got, q) := Apply(plain, p, Get(limit));
            && got.bytes == Slice(plain, p.pos, q.pos)
            && (q.drained <==> p.pos == |plain| && plain != [])
            && (p.pos < |plain| ==> p.pos < q.pos <= Min(p.pos + limit, |plain|))
  {
    hide Room, Within;
    SameSlice(plain, p.pos, Min(limit, Room(p.pos)), Min(Min(limit, Room(p.pos)), |plain| - p.pos));
  }

  /** A relative seek is one from the start, so far from the position that the reader reports or
      from the computed length; before the beginning is refused. */
  lemma RelativeSeeks(plain: Bytes, p: Place, delta: int)
    ensures var here := if p.drained then Off(LastBlock(|plain|), B) else p.pos;
            Apply(plain, p, SeekTo(Current(delta))) ==
              if here + delta < 0 then (Moved(Err), p) else Apply(plain, p, SeekTo(Start(here + delta)))
    ensures var end := Computed(|plain|);
            Apply(plain, p, SeekTo(End(delta))) ==
              if end + delta < 0 then (Moved(Err), p) else Apply(plain, p, SeekTo(Start(end + delta)))
  {
  }

  /** Whether a seek of a drained reader leads into the last block, or is refused. */
  predicate IntoLast(n: nat, from: SeekFrom) {
    var to := Target(from, Computed(n), Off(LastBlock(n), B));
    to < 0 || Index(Min(to, Computed(n)), B) == LastBlock(n)
  }

  /** Once the end was met, nothing but a seek out of the last block helps: however often the
      reader is sent into that block and read, no bytes come, and every position it reports is
      the start of the block. */
  lemma {:induction false} StuckRun(plain: Bytes, p: Place, ops: seq<Op>)
    requires p == Place(|plain|, true) && plain != []
    requires forall i | 0 <= i < |ops| && ops[i].SeekTo? :: IntoLast(|plain|, ops[i].from)
    ensures var (outcomes, q) := ApplyAll(plain, p, ops);
            && q == p && |outcomes| == |ops|
            && forall i | 0 <= i < |ops| ::
                 if ops[i].Get? then outcomes[i] == Got([])
                 else outcomes[i] in {Moved(Err), Moved(Ok(Off(LastBlock(|plain|), B)))}
  {
    hide LastBlock, Computed, Index, Within, Off, Room;
    if ops != [] {
      StuckRun(plain, p, ops[..|ops| - 1]);
      StuckStep(plain, p, ops[|ops| - 1]);
    }
  }

  lemma StuckStep(plain: Bytes, p: Place, op: Op)
    requires p == Place(|plain|, true) && plain != [] && (op.SeekTo? ==> IntoLast(|plain|, op.from))
    ensures Apply(plain, p, op).1 == p
    ensures if op.Get? then Apply(plain, p, op).0 == Got([])
            else Apply(plain, p, op).0 in {Moved(Err), Moved(Ok(Off(LastBlock(|plain|), B)))}
  {
    hide LastBlock, Computed, Index, Within, Off, Room;
  }

  /** After that, a seek into any block but the last restores the reader. */
  lemma SeekRestores(plain: Bytes, p: Place, offset: nat)
    requires p.drained && plain != []
    ensures var to := Min(offset, Computed(|plain|));
            var (moved, q) := Apply(plain, p, SeekTo(Start(offset)));
            && (!q.drained <==> Index(to, B) != LastBlock(|plain|))
            && (!q.drained ==> moved == Moved(Ok(to)) && q.pos == to)
  {
  }
}
