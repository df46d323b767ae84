/** Whole runs of the seekable writer, as `EncryptedFs::write` drives it: against the plain
    model of a byte sequence with a position. */
module WriterRuns {
  import opened Primitives
  import opened Blocks
  import opened HostFiles
  import opened SeekableWriter

  datatype Op = SeekTo(from: SeekFrom) | Put(data: Bytes)

  /** A plain document: seeking only moves, writing past the end leaves zeros in the gap. */
  datatype Doc = Doc(bytes: Bytes, pos: nat)

  function Apply(d: Doc, op: Op): Doc {
    match op
    case SeekTo(from) =>
      var to := Target(from, |d.bytes|, d.pos);
      if to < 0 then d else d.(pos := to)
    case Put(data) =>
      var n := Min(|data|, Room(d.pos));
      Doc(PWrite(d.bytes, d.pos, data[..n]), d.pos + n)
  }

  function ApplyAll(d: Doc, ops: seq<Op>): Doc {
    if ops == [] then d else Apply(ApplyAll(d, ops[..|ops| - 1]), ops[|ops| - 1])
  }

  /** Writes are not empty; seeks are from the start or the current position, and each is
      followed by a write before the next. */
  predicate Disciplined(ops: seq<Op>) {
    && (forall i | 0 <= i < |ops| :: if ops[i].Put? then ops[i].data != [] else !ops[i].from.End?)
    && (forall i, j | 0 <= i && j == i + 1 < |ops| :: ops[i].Put? || ops[j].Put?)
  }

  datatype Outcome = Moved(to: Result<nat>) | Took(count: nat)

  /** A seek returns the position, unless it is negative; a write the number of bytes that it
      put into the document. */
  function Expected(d: Doc, op: Op): Outcome {
    match op
    case SeekTo(from) =>
      var to := Target(from, |d.bytes|, d.pos);
      Moved(if to < 0 then Err else Ok(to))
    case Put(data) => Took(Apply(d, op).pos - d.pos)
  }

  /** Where a seek leads: to the position given, so far from the end, or so far from where the
      document is; before the beginning is refused. */
  lemma SeekMoves(d: Doc, offset: nat, delta: int)
    ensures Apply(d, SeekTo(Start(offset))) == Doc(d.bytes, offset)
    ensures Expected(d, SeekTo(Start(offset))) == Moved(Ok(offset))
    ensures Apply(d, SeekTo(Current(delta))) == if d.pos + delta < 0 then d else Doc(d.bytes, d.pos + delta)
    ensures Expected(d, SeekTo(Current(delta))) == Moved(if d.pos + delta < 0 then Err else Ok(d.pos + delta))
    ensures Apply(d, SeekTo(End(delta))) == if |d.bytes| + delta < 0 then d else Doc(d.bytes, |d.bytes| + delta)
    ensures Expected(d, SeekTo(End(delta))) == Moved(if |d.bytes| + delta < 0 then Err else Ok(|d.bytes| + delta))
  {
  }

  /** A write that is not empty takes at least one byte and at most all, and puts exactly those
      into the document. */
  lemma TookFirst(d: Doc, data: Bytes)
    requires data != []
    ensures var n := Expected(d, Put(data)).count;
            1 <= n <= |data| && Apply(d, Put(data)) == Doc(PWrite(d.bytes, d.pos, data[..n]), d.pos + n)
  {
  }

  ghost predicate Agrees(w: SeekWriter, d: Doc)
    reads w.Repr(), w.inner.out.node
  {
    && w.Valid() && w.Sound() && !w.Stranded()
    && w.Pos() == d.pos && w.Content() == ZeroExtend(d.bytes, d.pos)
  }

  /** One step keeps the writer and the document together. */
  method Step(w: SeekWriter, ghost d: Doc, op: Op) returns (outcome: Outcome)
    requires Agrees(w, d)
    requires op.SeekTo? ==> !op.from.End? && d.pos <= |d.bytes| && (w.inner.buf.dirty || w.inner.buf.available == 0)
    requires op.Put? ==> op.data != []
    modifies w.Repr(), w.inner.out.node`bytes
    ensures var d' := Apply(d, op);
            && Agrees(w, d')
            && outcome == Expected(d, op)
            && (op.Put? ==> d'.pos <= |d'.bytes| && w.inner.buf.dirty)
  {
    hide Splice, Stores, Off, Index, Within, Block;
    match op
    case SeekTo(from) =>
      w.SoundMoves();
      var to := w.Seek(from);
      outcome := Moved(to);
    case Put(data) =>
      var n := w.Write(data);
      outcome := Took(n);
  }

  /** The outcomes of the first operations. */
  predicate AsExpected(d: Doc, ops: seq<Op>, outcomes: seq<Outcome>)
    requires |outcomes| <= |ops|
  {
    forall i | 0 <= i < |outcomes| :: outcomes[i] == Expected(ApplyAll(d, ops[..i]), ops[i])
  }

  /** A disciplined run, started between a write and a seek. */
  method RunOps(w: SeekWriter, ghost d0: Doc, ops: seq<Op>) returns (outcomes: seq<Outcome>, ghost d: Doc)
    requires Agrees(w, d0) && d0.pos <= |d0.bytes| && (w.inner.buf.dirty || w.inner.buf.available == 0)
    requires Disciplined(ops)
    modifies w.Repr(), w.inner.out.node`bytes
    ensures d == ApplyAll(d0, ops) && Agrees(w, d)
    ensures ops != [] && ops[|ops| - 1].Put? ==> d.pos <= |d.bytes|
    ensures |outcomes| == |ops| && AsExpected(d0, ops, outcomes)
  {
    hide Apply, Agrees, Expected;
    d, outcomes := d0, [];
    while |outcomes| < |ops|
      invariant |outcomes| <= |ops|
      invariant Agrees(w, d) && d == ApplyAll(d0, ops[..|outcomes|])
      invariant if outcomes == [] || ops[|outcomes| - 1].Put?
                then d.pos <= |d.bytes| && (w.inner.buf.dirty || w.inner.buf.available == 0)
                else |outcomes| < |ops| ==> ops[|outcomes|].Put?
      invariant AsExpected(d0, ops, outcomes)
    {
      var i := |outcomes|;
      assert ops[..i + 1][..i] == ops[..i];
      var outcome := Step(w, d, ops[i]);
      d := Apply(d, ops[i]);
      outcomes := outcomes + [outcome];
    }
    assert ops[..|ops|] == ops;
  }

  /** For every well-formed stream and every disciplined run ended by `finish`: the file
      decodes to what the same writes make of the plain bytes, and every write and seek
      returns what they say. */
  method Run(node: Storage, ghost plain: Bytes, ops: seq<Op>) returns (outcomes: seq<Outcome>)
    requires Stores(node.bytes, plain) && Disciplined(ops)
    modifies node
    ensures var d := ApplyAll(Doc(plain, 0), ops);
            && Stores(node.bytes, ZeroExtend(d.bytes, d.pos))
            && Decode(node.bytes) == Some(ZeroExtend(d.bytes, d.pos))
            && (ops != [] && ops[|ops| - 1].Put? ==> Decode(node.bytes) == Some(d.bytes))
    ensures |outcomes| == |ops| && AsExpected(Doc(plain, 0), ops, outcomes)
  {
    hide Splice, Stores, Off, Index, Within, Block, ApplyAll, ZeroExtend, AsExpected;
    var out := new File(node);
    var w := new SeekWriter(out, plain);
    ZeroExtendShort(plain, 0);
    ghost var d;
    outcomes, d := RunOps(w, Doc(plain, 0), ops);
    ZeroExtendShort(d.bytes, d.pos);
    w.Finish();
  }
}
