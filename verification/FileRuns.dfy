/** Whole runs of operations on one file, against a model with nothing but the content, the
    open handles, and where they are. */
module FileRuns {
  import opened Primitives
  import opened Blocks
  import opened SeekableWriter
  import opened SeekableReader
  import opened Attributes
  import opened FileLayer

  datatype FileOp =
    | Open(h: nat, read: bool, write: bool)
    | Write(h: nat, offset: nat, data: Bytes)
    | Read(h: nat, offset: nat, n: nat)
    | SetLen(size: nat)
    | Flush(h: nat)
    | Release(h: nat)
    | SetAttr(request: SetFileAttr)

  /** `cursor` is where the open writer is; when `clean` it has written nothing since it was
      opened or renewed. `drained` are the read handles that have met the end of the data; while
      a writer is open, those that may have. */
  datatype Model = Model(
    content: Bytes, readers: set<nat>, writer: Option<nat>, cursor: nat, clean: bool, drained: set<nat>)

  datatype Outcome =
    | Handle(handle: FsResult<nat>)
    | Count(written: FsResult<nat>)
    | Got(bytes: FsResult<Bytes>)
    | Finished(done: FsResult<()>)

  function NextOpen(m: Model, h: nat, read: bool, write: bool): Model {
    var readers := if read then m.readers + {h} else m.readers;
    if write && m.writer.None? then m.(readers := readers, writer := Some(h), cursor := 0, clean := true)
    else m.(readers := readers)
  }

  function NextWrite(m: Model, h: nat, offset: nat, data: Bytes, limit: nat): (Model, FsResult<nat>) {
    if m.writer != Some(h) then (m, Fail(InvalidFileHandle))
    else if data == [] then (m, Done(0))
    else if offset > limit then (m, Fail(MaxFilesizeExceeded))
    else
      var n := Min(|data|, Min(limit - offset, Room(offset)));
      var next := m.(content := PWrite(m.content, offset, data[..n]), cursor := offset + n);
      (next.(clean := false, drained := {}), Done(n))
  }

  /** The writer's block, or the two that it may be in. */
  function BlockStart(m: Model): nat {
    if m.cursor > 0 && Within(m.cursor, B) == 0 then Max(0, m.cursor - B) else Max(0, m.cursor - Within(m.cursor, B))
  }

  function BlockEnd(m: Model): nat { m.cursor - Within(m.cursor, B) + B }

  /** A read that the writer's buffer has nothing to do with: of what is well before its block,
      or after it. */
  predicate Beside(m: Model, offset: nat, n: nat) {
    || m.writer.None? || m.clean
    || offset + Max(n, OVERHEAD) <= BlockStart(m)
    || (BlockEnd(m) < |m.content| && BlockEnd(m) <= offset)
  }

  /** A read of which the content says everything. A handle that also writes does not reset its
      own reader, and one that may have met the end of older data is not known to be free. */
  predicate Plain(m: Model, h: nat, offset: nat, n: nat) {
    h !in m.readers || n == 0 || m.writer.None? || (m.writer != Some(h) && h !in m.drained && Beside(m, offset, n))
  }

  function ReadBytes(m: Model, h: nat, offset: nat, n: nat): FsResult<Bytes> {
    if h !in m.readers then Fail(InvalidFileHandle)
    else if n == 0 then Done([])
    else Done(ReadAtPlace(m.content, h in m.drained, offset, n).0)
  }

  function NextRead(m: Model, h: nat, offset: nat, n: nat): Model {
    if h !in m.readers || n == 0 then m
    else
      var drains := !Plain(m, h, offset, n) || ReadAtPlace(m.content, h in m.drained, offset, n).1;
      m.(drained := m.drained - {h} + if drains then {h} else {})
  }

  function NextSetLen(m: Model, size: nat): Model {
    if size == |m.content| then m
    else m.(content := Resized(m.content, size), cursor := 0, clean := true, drained := {})
  }

  function NextRelease(m: Model, h: nat): Model {
    if h == 0 then m
    else if m.writer == Some(h) then Model(m.content, m.readers - {h}, None, 0, true, {})
    else m.(readers := m.readers - {h}, drained := m.drained - {h})
  }

  predicate Known(m: Model, h: nat) { h == 0 || h in m.readers || m.writer == Some(h) }

  function Next(m: Model, op: FileOp, limit: nat): Model {
    match op
    case Open(h, read, write) => NextOpen(m, h, read, write)
    case Write(h, offset, data) => NextWrite(m, h, offset, data, limit).0
    case Read(h, offset, n) => NextRead(m, h, offset, n)
    case SetLen(size) => NextSetLen(m, size)
    case Flush(h) => if h != 0 && m.writer == Some(h) then m.(drained := {}) else m
    case SetAttr(_) => m
    case Release(h) => NextRelease(m, h)
  }

  /** The result of every operation, but for the bytes of a read that the open writer's buffer
      may have to do with. */
  function Expected(m: Model, op: FileOp, limit: nat): Option<Outcome> {
    match op
    case Open(h, read, write) =>
      Some(Handle(if !read && !write then Fail(InvalidInput)
                  else if write && m.writer.Some? then Fail(AlreadyOpenForWrite) else Done(h)))
    case Write(h, offset, data) => Some(Count(NextWrite(m, h, offset, data, limit).1))
    case Read(h, offset, n) =>
      if Plain(m, h, offset, n) then Some(Got(ReadBytes(m, h, offset, n))) else None
    case SetLen(_) => Some(Finished(Done(())))
    case SetAttr(_) => Some(Finished(Done(())))
    case Flush(h) => Some(Finished(if Known(m, h) then Done(()) else Fail(InvalidFileHandle)))
    case Release(h) => Some(Finished(if Known(m, h) then Done(()) else Fail(InvalidFileHandle)))
  }

  function NextAll(m: Model, ops: seq<FileOp>, limit: nat): Model {
    if ops == [] then m else Next(NextAll(m, ops[..|ops| - 1], limit), ops[|ops| - 1], limit)
  }

  /** Handles are new when opened. No shrink happens while a reader and a writer are both open,
      no flush while the writer stands between two blocks of the content, and no size beyond the
      end is set as an attribute. */
  predicate Allowed(m: Model, op: FileOp) {
    match op
    case Open(h, _, _) => h !in m.readers && m.writer != Some(h)
    case SetLen(size) => m.writer.None? || m.readers == {} || |m.content| <= size
    case Flush(h) => !(h != 0 && m.writer == Some(h) && BetweenBlocks(m))
    case SetAttr(request) => request.size.None? || request.size.value <= |m.content|
    case _ => true
  }

  predicate BetweenBlocks(m: Model) { 0 < m.cursor < |m.content| && Within(m.cursor, B) == 0 }

  predicate AllowedAll(m: Model, ops: seq<FileOp>, limit: nat) {
    forall i | 0 <= i < |ops| :: Allowed(NextAll(m, ops[..i], limit), ops[i])
  }

  ghost function View(f: InodeFile): Model
    requires f.Valid()
    reads f, f.Repr
  {
    Model(f.Content(), f.readers.Keys, f.Writing(), f.WriterMark().pos, !f.WriterMark().unsaved, f.DrainedHandles())
  }

  /** The model has the content and the handles, and does not say too much of the rest. */
  ghost predicate Agrees(f: InodeFile, m: Model)
    reads f, f.Repr
  {
    && f.Valid()
    && var v := View(f);
    && m == v.(clean := m.clean, drained := m.drained) && (m.clean ==> v.clean)
    && Covers(m, v.drained)
  }

  /** These handles are drained, if any; without a writer, exactly they are. */
  predicate Covers(m: Model, drained: set<nat>) {
    && (forall h | h in drained && m.writer != Some(h) :: h in m.drained)
    && (m.writer.None? ==> m.drained == drained)
  }

  lemma ReadCovers(m: Model, before: set<nat>, after: set<nat>, h: nat, offset: nat, n: nat)
    requires Covers(m, before) && after - {h} == before - {h}
    requires h !in m.readers || n == 0 ==> after == before
    requires h in m.readers && n > 0 && m.writer != Some(h) && Plain(m, h, offset, n) ==>
               after == before - {h} + if ReadAtPlace(m.content, h in m.drained, offset, n).1 then {h} else {}
    requires h in before ==> h in m.readers
    ensures Covers(NextRead(m, h, offset, n), after)
  {
    hide ReadAtPlace, Beside;
    forall k | k in after && k != h
      ensures k in before
    {
      assert k in after - {h};
    }
  }

  /** Only between two blocks of the content does a flush leave the writer in disorder. */
  lemma StrandsBetweenBlocks(f: InodeFile)
    requires f.Valid() && f.writer.Some? && f.writer.value.writer.Strands()
    ensures BetweenBlocks(View(f))
  {
    hide Stores, Off, Within, Index, InodeFile.Table, InodeFile.ReadersCurrent;
    var w := f.writer.value.writer;
    OffNext(w.inner.blockIndex);
    OffUnique(w.Pos(), B, w.inner.blockIndex + 1);
  }

  /** Beside the writer's block the stored bytes are those of the content. */
  lemma StoredBeside(f: InodeFile, m: Model, offset: nat, n: nat)
    requires Agrees(f, m) && f.writer.Some? && n > 0 && Beside(m, offset, n)
    ensures ReadAtPlace(f.stored, false, offset, n) == ReadAtPlace(m.content, false, offset, n)
  {
    hide Stores, Off, Within, Index, Block, Splice;
    hide Slice, InodeFile.Table, InodeFile.ReadersCurrent, InodeFile.DrainedHandles;
    var w := f.writer.value.writer;
    if m.clean {
      w.CleanContent();
    } else {
      WriterBlock(w, m.cursor);
      SpliceLen(w.inner.plain, Off(w.inner.blockIndex, B), w.inner.buf.Contents());
      SliceBesideSplice(w.inner.plain, Off(w.inner.blockIndex, B), w.inner.buf.Contents(), offset, offset + n);
    }
  }

  lemma SpliceLen(s: Bytes, p: nat, x: Bytes)
    requires p <= |s|
    ensures |Splice(s, p, x)| == Max(|s|, p + |x|)
  {
  }

  lemma WriterBlock(w: SeekWriter, cursor: nat)
    requires w.Valid() && cursor == w.Pos()
    ensures var o := Off(w.inner.blockIndex, B);
            && (if cursor > 0 && Within(cursor, B) == 0 then cursor - B <= o else cursor - Within(cursor, B) <= o)
            && o + B <= cursor - Within(cursor, B) + B
  {
    hide Stores, Off, Within, Index;
    OffNext(w.inner.blockIndex);
    if w.inner.buf.posWrite < B {
      OffUnique(cursor, B, w.inner.blockIndex);
    } else {
      OffUnique(cursor, B, w.inner.blockIndex + 1);
    }
  }

  method Step(f: InodeFile, ghost m: Model, op: FileOp, now: nat) returns (outcome: Outcome)
    requires Agrees(f, m) && Allowed(m, op)
    modifies f.Repr
    ensures fresh(f.Repr - old(f.Repr)) && Agrees(f, Next(m, op, MaxPlaintextLen(f.cipher)))
    ensures Expected(m, op, MaxPlaintextLen(f.cipher)) in {None, Some(outcome)}
    ensures TimesForward(old(f.attr), f.attr)
    ensures !op.SetLen? ==> f.attr.size >= old(f.attr.size)
  {
    hide InodeFile.Table, InodeFile.ReadersCurrent, InodeFile.WriterCurrent, Resized, PWrite, MaxPlaintextLen;
    hide InodeFile.WriterMark, InodeFile.DrainedHandles, ReadAtPlace, Clip, Room;
    hide BetweenBlocks, InodeFile.FreshExcept, SetTo;
    hide Plain;
    match op
    case Open(h, read, write) =>
      f.InRepr();
      var handle := f.Open(h, read, write);
      outcome := Handle(handle);
    case Write(h, offset, data) =>
      var written := WriteStep(f, m, h, offset, data, now);
      outcome := Count(written);
    case Read(h, offset, n) =>
      var bytes := ReadStep(f, m, h, offset, n, now);
      outcome := Got(bytes);
    case SetLen(size) =>
      SetLenStep(f, m, size, now);
      outcome := Finished(Done(()));
    case Flush(h) =>
      var done := FlushStep(f, m, h, now);
      outcome := Finished(done);
    case Release(h) =>
      var done := ReleaseStep(f, m, h, now);
      outcome := Finished(done);
    case SetAttr(request) =>
      f.InRepr();
      f.SetAttrOf(request, now);
      outcome := Finished(Done(()));
  }

  method WriteStep(f: InodeFile, ghost m: Model, h: nat, offset: nat, data: Bytes, now: nat) returns (r: FsResult<nat>)
    requires Agrees(f, m)
    modifies f.Repr
    ensures fresh(f.Repr - old(f.Repr))
    ensures var limit := MaxPlaintextLen(f.cipher);
            Agrees(f, NextWrite(m, h, offset, data, limit).0) && r == NextWrite(m, h, offset, data, limit).1
    ensures TimesForward(old(f.attr), f.attr) && f.attr.size >= old(f.attr.size)
  {
    hide InodeFile.Table, InodeFile.ReadersCurrent, InodeFile.WriterCurrent, PWrite, MaxPlaintextLen;
    hide InodeFile.WriterMark, InodeFile.DrainedHandles, Room, InodeFile.FreshExcept;
    r := f.Write(h, offset, data, now);
    if old(f.Writes(h)) && data != [] && offset <= MaxPlaintextLen(f.cipher) {
      f.FreshNotDrained({h});
    }
  }

  method ReadStep(f: InodeFile, ghost m: Model, h: nat, offset: nat, n: nat, now: nat) returns (r: FsResult<Bytes>)
    requires Agrees(f, m)
    modifies f.Repr
    ensures f.Repr == old(f.Repr) && f.attr == old(f.attr)
    ensures Agrees(f, NextRead(m, h, offset, n))
    ensures Plain(m, h, offset, n) ==> r == ReadBytes(m, h, offset, n)
  {
    hide InodeFile.Table, InodeFile.ReadersCurrent, InodeFile.WriterCurrent;
    hide InodeFile.WriterMark, InodeFile.DrainedHandles;
    hide ReadAtPlace, Beside, Covers;
    if f.writer.Some? && n > 0 && Beside(m, offset, n) {
      StoredBeside(f, m, offset, n);
    }
    StoredIsContent(f);
    ghost var before := f.DrainedHandles();
    DrainedRead(f);
    if Plain(m, h, offset, n) && h in m.readers && n > 0 {
      CoversAt(m, before, h, offset, n);
    }
    r := f.Read(h, offset, n, now);
    ReadCovers(m, before, f.DrainedHandles(), h, offset, n);
  }

  lemma CoversAt(m: Model, drained: set<nat>, h: nat, offset: nat, n: nat)
    requires Covers(m, drained) && Plain(m, h, offset, n) && h in m.readers && n > 0
    ensures h in drained <==> h in m.drained
  {
    hide Beside;
  }

  lemma DrainedRead(f: InodeFile)
    ensures f.DrainedHandles() <= f.readers.Keys
  {
  }

  lemma StoredIsContent(f: InodeFile)
    requires f.Valid()
    ensures f.writer.None? ==> f.stored == f.Content()
  {
  }

  method SetLenStep(f: InodeFile, ghost m: Model, size: nat, now: nat)
    requires Agrees(f, m) && Allowed(m, SetLen(size))
    modifies f.Repr
    ensures fresh(f.Repr - old(f.Repr)) && Agrees(f, NextSetLen(m, size))
    ensures TimesForward(old(f.attr), f.attr)
  {
    hide InodeFile.Table, InodeFile.ReadersCurrent, InodeFile.WriterCurrent;
    hide InodeFile.WriterMark, InodeFile.DrainedHandles;
    hide InodeFile.FreshExcept, Resized;
    f.SetLen(size, now);
    if size != |old(f.Content())| {
      f.FreshNotDrained({});
    }
  }

  method FlushStep(f: InodeFile, ghost m: Model, h: nat, now: nat) returns (done: FsResult<()>)
    requires Agrees(f, m) && Allowed(m, Flush(h))
    modifies f.Repr
    ensures fresh(f.Repr - old(f.Repr)) && Agrees(f, Next(m, Flush(h), 0))
    ensures done == if Known(m, h) then Done(()) else Fail(InvalidFileHandle)
    ensures TimesForward(old(f.attr), f.attr) && f.attr.size >= old(f.attr.size)
  {
    hide InodeFile.Table, InodeFile.ReadersCurrent, InodeFile.WriterCurrent;
    hide InodeFile.WriterMark, InodeFile.DrainedHandles;
    hide InodeFile.FreshExcept, Within;
    if h != 0 && f.Writes(h) && f.writer.value.writer.Strands() {
      StrandsBetweenBlocks(f);
    }
    done := f.Flush(h, now);
    if h != 0 && old(f.Writes(h)) {
      f.FreshNotDrained({h});
    }
  }

  method ReleaseStep(f: InodeFile, ghost m: Model, h: nat, now: nat) returns (done: FsResult<()>)
    requires Agrees(f, m)
    modifies f.Repr
    ensures fresh(f.Repr - old(f.Repr)) && Agrees(f, NextRelease(m, h))
    ensures done == if Known(m, h) then Done(()) else Fail(InvalidFileHandle)
    ensures TimesForward(old(f.attr), f.attr) && f.attr.size >= old(f.attr.size)
  {
    hide InodeFile.Table, InodeFile.ReadersCurrent, InodeFile.WriterCurrent;
    hide InodeFile.DrainedHandles, InodeFile.FreshExcept;
    done := f.Release(h, now);
    if h != 0 && old(f.Writes(h)) {
      f.FreshNotDrained({});
    }
  }

  /** The outcomes of the first operations. */
  predicate AsExpected(m: Model, ops: seq<FileOp>, limit: nat, outcomes: seq<Outcome>)
    requires |outcomes| <= |ops|
  {
    forall i | 0 <= i < |outcomes| :: Expected(NextAll(m, ops[..i], limit), ops[i], limit) in {None, Some(outcomes[i])}
  }

  lemma OneMoreExpected(m: Model, ops: seq<FileOp>, limit: nat, outcomes: seq<Outcome>, outcome: Outcome)
    requires |outcomes| < |ops| && AsExpected(m, ops, limit, outcomes)
    requires Expected(NextAll(m, ops[..|outcomes|], limit), ops[|outcomes|], limit) in {None, Some(outcome)}
    ensures AsExpected(m, ops, limit, outcomes + [outcome])
  {
    hide Expected, NextAll;
  }

  lemma NextAllStep(m: Model, ops: seq<FileOp>, limit: nat, i: nat)
    requires i < |ops|
    ensures NextAll(m, ops[..i + 1], limit) == Next(NextAll(m, ops[..i], limit), ops[i], limit)
  {
    hide Next;
    assert ops[..i + 1][..i] == ops[..i];
  }

  /** Every run of allowed operations does to the file what it does to the model, and returns
      what the model says. Sizes agree throughout: with no writer the file decodes to the
      content and the recorded size is its length, and an open writer knows the length. The
      recorded size shrinks only in `set_len`. */
  method Run(f: InodeFile, ops: seq<FileOp>, clock: nat -> nat) returns (outcomes: seq<Outcome>)
    requires f.Valid() && AllowedAll(View(f), ops, MaxPlaintextLen(f.cipher))
    modifies f.Repr
    ensures fresh(f.Repr - old(f.Repr)) && Agrees(f, NextAll(old(View(f)), ops, MaxPlaintextLen(f.cipher)))
    ensures |outcomes| == |ops| && AsExpected(old(View(f)), ops, MaxPlaintextLen(f.cipher), outcomes)
    ensures f.writer.None? ==> Decode(f.path.bytes) == Some(View(f).content) && f.attr.size == |View(f).content|
    ensures f.writer.Some? ==> f.writer.value.size == |View(f).content|
    ensures TimesForward(old(f.attr), f.attr)
    ensures (forall i | 0 <= i < |ops| :: !ops[i].SetLen?) ==> f.attr.size >= old(f.attr.size)
  {
    hide Next, NextAll, Expected, Allowed, AsExpected, MaxPlaintextLen, InodeFile.Valid, View, Agrees;
    ghost var m, limit := View(f), MaxPlaintextLen(f.cipher);
    ghost var n := m;
    outcomes := [];
    assert NextAll(m, ops[..0], limit) == m by { NoOps(m, ops, limit); }
    assert AsExpected(m, ops, limit, outcomes) by { NoOps(m, ops, limit); }
    ViewAgrees(f);
    for i := 0 to |ops|
      invariant fresh(f.Repr - old(f.Repr)) && Agrees(f, n) && n == NextAll(m, ops[..i], limit)
      invariant |outcomes| == i && AsExpected(m, ops, limit, outcomes)
      invariant TimesForward(old(f.attr), f.attr)
      invariant (forall k | 0 <= k < i :: !ops[k].SetLen?) ==> f.attr.size >= old(f.attr.size)
    {
      NextAllStep(m, ops, limit, i);
      var outcome := Step(f, n, ops[i], clock(i));
      n := Next(n, ops[i], limit);
      OneMoreExpected(m, ops, limit, outcomes, outcome);
      outcomes := outcomes + [outcome];
    }
    assert ops[..|ops|] == ops;
    AgreesValid(f, n);
    SizesAgree(f);
  }

  lemma ViewAgrees(f: InodeFile)
    requires f.Valid()
    ensures Agrees(f, View(f))
  {
    hide InodeFile.Valid, InodeFile.DrainedHandles, InodeFile.WriterMark;
  }

  lemma AgreesValid(f: InodeFile, m: Model)
    requires Agrees(f, m)
    ensures f.Valid() && View(f).content == m.content
  {
    hide InodeFile.Valid, InodeFile.DrainedHandles, InodeFile.WriterMark;
  }

  lemma NoOps(m: Model, ops: seq<FileOp>, limit: nat)
    ensures NextAll(m, ops[..0], limit) == m && AsExpected(m, ops, limit, [])
  {
  }

  lemma SizesAgree(f: InodeFile)
    requires f.Valid()
    ensures f.writer.None? ==> Decode(f.path.bytes) == Some(View(f).content) && f.attr.size == |View(f).content|
    ensures f.writer.Some? ==> f.writer.value.size == |View(f).content|
  {
    hide Stores, Decode, InodeFile.Table, InodeFile.ReadersCurrent;
    StoresDecodes(f.path.bytes, f.stored);
  }

  /** Close-to-open: once the write handle is released, the next read of any other open handle
      returns the written bytes, exactly unless the content is a positive number of full
      blocks and the offset is among its last 28 bytes but the first of those. */
  method CloseToOpen(f: InodeFile, writer: nat, reader: nat, offset: nat, n: nat, now: nat) returns (bytes: Bytes)
    requires f.Valid() && f.Writes(writer) && reader in f.readers && reader != writer && writer != 0 && n > 0
    modifies f.Repr
    ensures f.Valid() && fresh(f.Repr - old(f.Repr)) && f.Content() == old(f.Content())
    ensures var c := old(f.Content());
            bytes == Slice(c, offset, offset + n) <==>
              !(|c| > 0 && Within(|c|, B) == 0 && |c| - OVERHEAD < offset < |c|)
  {
    hide InodeFile.Table, InodeFile.ReadersCurrent, Slice, Stores, Within;
    hide LenFormula, Index, ReadAtPlace, InodeFile.FreshExcept;
    var _ := f.Release(writer, now);
    f.FreshNotDrained({});
    var r := f.Read(reader, offset, n, now);
    ReadAtIsRight(f.stored, false, offset, n);
    bytes := r.value;
  }

  /** What the model leaves open is what a read returns while a writer has unsaved bytes: through
      its own handle, one that may have met the end of older data, or too near its block. */
  lemma OpenReads(m: Model, op: FileOp, limit: nat)
    ensures Expected(m, op, limit).None? <==>
              && op.Read? && op.h in m.readers && op.n > 0 && m.writer.Some?
              && (m.writer == Some(op.h) || op.h in m.drained
                  || (!m.clean && !(op.offset + (if op.n < 28 then 28 else op.n) <= BlockStart(m))
                      && !(BlockEnd(m) < |m.content| && BlockEnd(m) <= op.offset)))
  {
  }

  /** With no writer open, a read returns the bytes of the content at its offset, past the end
      none, unless the reader cannot get there: then none as well. */
  lemma ReadReturns(m: Model, h: nat, offset: nat, n: nat, limit: nat)
    requires m.writer.None? && h in m.readers && n > 0
    ensures var c := m.content;
            var right := Some(Got(Done(Slice(c, offset, offset + n))));
            var len := if |c| > 0 && Within(|c|, B) == 0 then |c| - 28 else |c|;
            && Expected(m, Read(h, offset, n), limit) in {right, Some(Got(Done([])))}
            && (Expected(m, Read(h, offset, n), limit) == right <==>
                  |c| <= offset || (offset <= len && !(h in m.drained && Index(offset, B) == Index(|c| - 1, B))))
  {
    ReadAtIsRight(m.content, h in m.drained, offset, n);
  }

  /** A write puts the first of its bytes at its offset, at least one below the limit, and as many
      as it answers. */
  lemma WroteFirst(m: Model, h: nat, offset: nat, data: Bytes, limit: nat)
    requires m.writer == Some(h) && data != [] && offset <= limit
    ensures var (next, r) := NextWrite(m, h, offset, data, limit);
            && r.Done? && r.value <= |data| && offset + r.value <= limit
            && (offset < limit ==> 1 <= r.value)
            && next.content == PWrite(m.content, offset, data[..r.value]) && next.cursor == offset + r.value
  {
  }

  /** Writing alone, through any number of handles, never takes a file past the limit. */
  lemma {:induction false} WritesWithinLimit(m: Model, ops: seq<FileOp>, limit: nat)
    requires forall i | 0 <= i < |ops| :: !ops[i].SetLen?
    ensures |NextAll(m, ops, limit).content| <= Max(|m.content|, limit)
  {
    hide Room, ReadAtPlace;
    if ops != [] {
      WritesWithinLimit(m, ops[..|ops| - 1], limit);
    }
  }
}
