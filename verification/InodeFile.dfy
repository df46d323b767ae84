/** One regular file of `EncryptedFs` with its open handles: the inode record, the contents
    file, any number of read handles and at most one write handle. Operations are atomic
    steps, as under the locks that src/encryptedfs.rs takes. */
module FileLayer {
  import opened Primitives
  import opened Blocks
  import opened HostFiles
  import opened SeekableWriter
  import opened SeekableReader
  import opened Copying
  import opened Attributes

  datatype ReadContext = ReadContext(attr: Times, reader: Reader)
  datatype Mark = Mark(pos: nat, unsaved: bool)
  datatype WriteContext = WriteContext(handle: nat, attr: Times, size: nat, writer: SeekWriter)

  // ----- sets of readers -----

  /** A reader that reads what a file stores. */
  ghost predicate CurrentOn(r: Reader, node: Storage, plain: Bytes)
    reads r.Repr(), r.input.node
  {
    r.input.node == node && r.plain == plain && r.Valid() && r.good
  }

  ghost predicate AllCurrent(rs: set<Reader>, node: Storage, plain: Bytes)
    reads node, set r, o | r in rs && o in r.Repr() :: o
  {
    forall r | r in rs :: r.input.node == node && CurrentOn(r, node, plain)
  }

  /** Readers on a file that can be used, whatever they read. */
  ghost predicate AllSafe(rs: set<Reader>, node: Storage)
    reads node, set r, o | r in rs && o in r.Repr() :: o
  {
    forall r | r in rs :: r.input.node == node && r.Valid()
  }

  ghost predicate AllShaped(rs: set<Reader>, node: Storage)
    reads set r, o | r in rs && o in r.Repr() :: o
  {
    forall r | r in rs :: r.input.node == node && r.Shape()
  }

  /** No reader has met the end of its data. */
  ghost predicate NoneDrained(rs: set<Reader>)
    reads set r, o | r in rs && o in r.Repr() :: o
  {
    forall r | r in rs :: !r.Drained()
  }

  lemma StillCurrent(r: Reader, node: Storage, plain: Bytes)
    requires r.input.node == node && r.Valid()
    ensures r.good && r.plain == plain ==> CurrentOn(r, node, plain)
  {
  }

  lemma CurrentParts(r: Reader, node: Storage, plain: Bytes)
    requires CurrentOn(r, node, plain)
    ensures r.input.node == node && r.Valid() && r.good && r.plain == plain
  {
  }

  lemma SubsetCurrent(rs: set<Reader>, rs': set<Reader>, node: Storage, plain: Bytes)
    requires AllCurrent(rs, node, plain) && rs' <= rs
    ensures AllCurrent(rs', node, plain) && (NoneDrained(rs) ==> NoneDrained(rs'))
  {
  }

  lemma SubsetSafe(rs: set<Reader>, rs': set<Reader>, node: Storage)
    requires AllSafe(rs, node) && rs' <= rs
    ensures AllSafe(rs', node)
  {
  }

  lemma OneMoreCurrent(rs: set<Reader>, r: Reader, node: Storage, plain: Bytes)
    requires AllCurrent(rs, node, plain) && CurrentOn(r, node, plain)
    ensures AllCurrent(rs + {r}, node, plain)
    ensures NoneDrained(rs) && !r.Drained() ==> NoneDrained(rs + {r})
  {
  }

  /** The readers of all handles but the given ones. */
  ghost function ReadersBut(rs: map<nat, ReadContext>, hs: set<nat>): set<Reader> {
    set h | h in rs && h !in hs :: rs[h].reader
  }

  /** The reader of one handle, if there is one. */
  ghost function ReaderAt(rs: map<nat, ReadContext>, h: nat): set<Reader> {
    if h in rs then {rs[h].reader} else {}
  }

  lemma SameReaderAt(rs: map<nat, ReadContext>, rs': map<nat, ReadContext>, h: nat)
    requires h in rs <==> h in rs'
    requires h in rs ==> rs[h] == rs'[h]
    ensures ReaderAt(rs, h) == ReaderAt(rs', h)
  {
  }

  lemma ReadersButUpdate(rs: map<nat, ReadContext>, hs: set<nat>, h: nat, ctx: ReadContext)
    ensures ReadersBut(rs[h := ctx], hs - {h}) == ReadersBut(rs, hs + {h}) + {ctx.reader}
  {
    var rs' := rs[h := ctx];
    forall r | r in ReadersBut(rs, hs + {h}) + {ctx.reader}
      ensures r in ReadersBut(rs', hs - {h})
    {
      if r == ctx.reader {
        assert h in rs' && rs'[h].reader == r;
      } else {
        var k :| k in rs && k !in hs + {h} && rs[k].reader == r;
        assert k in rs' && rs'[k].reader == r;
      }
    }
  }

  lemma UnusedHandle(rs: map<nat, ReadContext>, h: nat, ctx: ReadContext, hs: set<nat>)
    requires h !in rs
    ensures ReadersBut(rs[h := ctx], {h} + hs) == ReadersBut(rs, hs)
  {
    var rs' := rs[h := ctx];
    forall r | r in ReadersBut(rs, hs)
      ensures r in ReadersBut(rs', {h} + hs)
    {
      var k :| k in rs && k !in hs && rs[k].reader == r;
      assert k in rs' && k !in {h} + hs && rs'[k].reader == r;
    }
  }

  lemma FewerReaders(rs: map<nat, ReadContext>, h: nat, hs: set<nat>)
    ensures ReadersBut(rs - {h}, hs) <= ReadersBut(rs, hs)
  {
  }

  lemma NoSuchHandle(rs: map<nat, ReadContext>, h: nat)
    requires h !in rs
    ensures ReadersBut(rs, {h}) == ReadersBut(rs, {})
  {
    forall r | r in ReadersBut(rs, {})
      ensures r in ReadersBut(rs, {h})
    {
      var k :| k in rs && rs[k].reader == r;
      assert k !in {h};
    }
  }

  lemma SameReaders(rs: map<nat, ReadContext>, h: nat, times: Times, hs: set<nat>)
    requires h in rs
    ensures ReadersBut(rs[h := rs[h].(attr := times)], hs) == ReadersBut(rs, hs)
  {
    var rs' := rs[h := rs[h].(attr := times)];
    forall r | r in ReadersBut(rs, hs)
      ensures r in ReadersBut(rs', hs)
    {
      var k :| k in rs && k !in hs && rs[k].reader == r;
      assert k in rs' && rs'[k].reader == r;
    }
  }

  ghost function TimesOf(readers: map<nat, ReadContext>, hs: set<nat>): set<Times>
    requires hs <= readers.Keys
  {
    set h | h in hs :: readers[h].attr
  }

  lemma NoTimes(readers: map<nat, ReadContext>)
    ensures TimesOf(readers, {}) == {}
  {
  }

  lemma TimesOfMore(readers: map<nat, ReadContext>, hs: set<nat>, h: nat)
    requires hs <= readers.Keys && h in readers
    ensures TimesOf(readers, hs + {h}) == TimesOf(readers, hs) + {readers[h].attr}
  {
  }

  /** s cut or zero-extended to a length. */
  function Resized(s: Bytes, size: nat): (r: Bytes)
    ensures |r| == size
  {
    ZeroExtend(s[..Min(|s|, size)], size)
  }

  /** Byte by byte: the front of what there was, and zeros after its end. */
  lemma ResizedAt(s: Bytes, size: nat, k: nat)
    requires k < size
    ensures |Resized(s, size)| == size && Resized(s, size)[k] == if k < |s| then s[k] else 0
  {
  }

  // ----- the writer -----

  /** A writer over what a file stores, whose content has the given length, and which no seek
      up to the limit can make stale. */
  ghost predicate WriterOn(w: SeekWriter, node: Storage, plain: Bytes, size: nat, limit: nat)
    reads w.Repr(), w.inner.out.node
  {
    && w.inner.out.node == node && w.Valid() && w.Sound() && !w.Stranded()
    && w.inner.plain == plain && |w.Content()| == size
    && (!w.inner.buf.dirty && w.inner.buf.available > 0 ==> Within(|plain|, B) != 0 || limit < |plain|)
  }

  /** The bytes that a write at an offset may take below the size limit: the first of them. */
  function Clip(data: Bytes, offset: nat, limit: nat): (x: Bytes)
    requires offset <= limit
    ensures x == data[..Min(|data|, limit - offset)]
  {
    if offset + |data| > limit then data[..limit - offset] else data
  }

  /** No seek up to the limit is stale. */
  lemma NeverStale(w: SeekWriter, node: Storage, plain: Bytes, size: nat, limit: nat, offset: nat)
    requires WriterOn(w, node, plain, size, limit) && offset <= limit
    ensures w.Valid() && !w.Stale(offset)
  {
    hide Splice, Stores, Off, Index, Within, Block;
    OffBound(|plain|, B, Index(|plain|, B));
    OffBound(offset, B, Index(|plain|, B));
  }

  /** The writer's part of a positioned write: seek, clip to the limit, write once. */
  method WriteThrough(w: SeekWriter, offset: nat, data: Bytes, limit: nat, ghost plain: Bytes, ghost size: nat)
    returns (n: nat)
    requires WriterOn(w, w.inner.out.node, plain, size, limit) && offset <= limit && data != []
    modifies w.Repr(), w.inner.out.node`bytes
    ensures w.Valid() && WriterOn(w, w.inner.out.node, w.inner.plain, |w.Content()|, limit)
    ensures w.Pos() == offset + n
    ensures n == Min(|data|, Min(limit - offset, Room(offset)))
    ensures w.Content() == PWrite(old(w.Content()), offset, data[..n])
    ensures |w.Content()| == Max(size, offset + n) <= Max(size, limit)
  {
    hide Splice, Stores, Off, Index, Within, Block;
    NeverStale(w, w.inner.out.node, plain, size, limit, offset);
    w.SoundMoves();
    var _ := w.Seek(Start(offset));
    n := w.Write(Clip(data, offset, limit));
    assert Clip(data, offset, limit)[..n] == data[..n];
    if !w.inner.buf.dirty && w.inner.buf.available > 0 {
      w.CleanLoaded();
    }
  }

  /** The writer's part of a flush. */
  method FlushThrough(w: SeekWriter, ghost plain: Bytes, ghost size: nat, ghost limit: nat)
    requires WriterOn(w, w.inner.out.node, plain, size, limit)
    modifies w.Repr(), w.inner.out.node`bytes
    ensures w.Valid() && w.Sound() && w.Content() == old(w.Content()) && |w.Content()| == size
    ensures w.Pos() == old(w.Pos())
    ensures w.inner.buf.dirty ==> old(w.inner.buf.dirty)
    ensures WriterOn(w, w.inner.out.node, w.inner.plain, size, limit) <==> !old(w.Strands())
  {
    hide Splice, Stores, Off, Index, Within, Block;
    w.Flush();
  }

  /** A new writer over what a file stores. */
  method NewWriter(node: Storage, ghost plain: Bytes, ghost limit: nat) returns (w: SeekWriter)
    requires Stores(node.bytes, plain)
    ensures fresh(w.Repr()) && w.inner.out.node == node && WriterOn(w, node, plain, |plain|, limit)
    ensures w.Valid() && w.Content() == plain && !w.inner.buf.dirty && w.Pos() == 0
  {
    hide Stores, Off, Block, Splice, Index, Within;
    var out := new File(node);
    w := new SeekWriter(out, plain);
  }

  lemma WriterSizeUnique(w: SeekWriter, node: Storage, plain: Bytes, size: nat, limit: nat)
    requires WriterOn(w, node, plain, |plain|, limit) && size != |plain|
    ensures !WriterOn(w, node, plain, size, limit)
  {
  }

  lemma WriterStores(w: SeekWriter, node: Storage, plain: Bytes, size: nat, limit: nat)
    requires WriterOn(w, node, plain, size, limit)
    ensures Stores(node.bytes, plain) && w.Valid() && w.Sound() && |w.Content()| == size
  {
  }

  /** A writer with nothing to write. */
  ghost predicate Idle(w: SeekWriter)
    reads w.Repr()
  {
    w.inner.buf.Valid() && !w.inner.finished && !w.inner.buf.dirty
  }

  class InodeFile {
    const cipher: CipherKind
    /** The inode record in storage, with which the cache agrees. */
    var attr: FileAttr
    /** The file at the contents path. */
    var path: Storage
    var readers: map<nat, ReadContext>
    var writer: Option<WriteContext>
    /** What the contents file stores at this moment. */
    ghost var stored: Bytes
    ghost var Repr: set<object>

    /** Every handle has its own objects. */
    ghost predicate Table()
      reads this`path, this`readers, this`writer, this`Repr
    {
      && this in Repr && path in Repr
      && (forall h | h in readers :: readers[h].reader.Repr() <= Repr)
      && (forall h, k | h in readers && k in readers && h != k :: readers[h].reader.Repr() !! readers[k].reader.Repr())
      && (writer.Some? ==>
            && writer.value.writer.Repr() <= Repr
            && forall h | h in readers :: readers[h].reader.Repr() !! writer.value.writer.Repr())
    }

    predicate Writes(h: nat)
      reads this`writer
    {
      writer.Some? && writer.value.handle == h
    }

    /** The write handle, if the file is open for writing. */
    function Writing(): Option<nat>
      reads this`writer
    {
      if writer.Some? then Some(writer.value.handle) else None
    }

    /** Where the writer is, and whether its buffer has what the file does not. */
    function WriterMark(): Mark
      reads this`writer, if writer.Some? then writer.value.writer.Repr() else {}
    {
      if writer.Some? then Mark(writer.value.writer.Pos(), writer.value.writer.inner.buf.dirty) else Mark(0, false)
    }

    /** The read handles whose readers have met the end of their data. */
    ghost function DrainedHandles(): set<nat>
      reads this`readers, set h, o | h in readers && o in readers[h].reader.Repr() :: o
    {
      set h | h in readers && readers[h].reader.Drained()
    }

    ghost function WriteHandles(): set<nat>
      reads this`writer
    {
      if writer.Some? then {writer.value.handle} else {}
    }

    /** Every reader reads what is stored, except the one that shares the write handle, which
        is only safe to use. */
    ghost predicate ReadersCurrent()
      requires Table()
      reads this, Repr
    {
      && AllSafe(ReadersBut(readers, {}), path)
      && AllCurrent(ReadersBut(readers, WriteHandles()), path, stored)
    }

    /** With no writer, the recorded size is the length of what is stored; a writer knows the
        length of the content it stands for. */
    ghost predicate WriterCurrent()
      requires Table()
      reads this, Repr
    {
      && Stores(path.bytes, stored)
      && if writer.None? then attr.size == |stored| else
           && attr.size <= writer.value.size && writer.value.writer.inner.out.node == path
           && WriterOn(writer.value.writer, path, stored, writer.value.size, MaxPlaintextLen(cipher))
    }

    ghost predicate Valid()
      reads this, Repr
    {
      Table() && ReadersCurrent() && WriterCurrent()
    }

    /** The content of the file: what is stored, or what the open writer will make of it. */
    ghost function Content(): Bytes
      requires Table() && WriterCurrent()
      reads this, Repr
    {
      if writer.None? then stored else writer.value.writer.Content()
    }

    constructor (cipher: CipherKind, attr: FileAttr, path: Storage, ghost content: Bytes)
      requires Stores(path.bytes, content) && attr.size == |content|
      ensures Valid() && fresh(Repr - {path}) && this.cipher == cipher && this.path == path && this.attr == attr
      ensures readers == map[] && writer == None && Content() == content
    {
      this.cipher, this.attr, this.path := cipher, attr, path;
      readers, writer := map[], None;
      stored, Repr := content, {this, path};
    }

    // ----- attributes -----

    /** The times that open handles hold. */
    ghost function HandleTimes(): set<Times>
      reads this`readers, this`writer
    {
      TimesOf(readers, readers.Keys) + if writer.Some? then {writer.value.attr} else {}
    }

    ghost function WriterSize(): nat
      reads this`writer
    {
      if writer.Some? then writer.value.size else 0
    }

    /** The stored attributes merged with those of the open handles, in whatever order the
        read handles are visited. */
    method GetAttr() returns (a: FileAttr)
      ensures Latest(a, attr.(size := Max(attr.size, WriterSize())), HandleTimes())
    {
      hide Latest, MergeAttr, TimesOf;
      a := attr;
      LatestNone(attr);
      var todo := readers.Keys;
      ghost var done: set<nat> := {};
      NoTimes(readers);
      while todo != {}
        invariant todo + done == readers.Keys
        invariant Latest(a, attr, TimesOf(readers, done))
        decreases todo
      {
        var h :| h in todo;
        LatestStep(a, attr, TimesOf(readers, done), readers[h].attr);
        TimesOfMore(readers, done, h);
        a := MergeAttr(a, TimesOnly(readers[h].attr), false);
        todo, done := todo - {h}, done + {h};
      }
      assert done == readers.Keys;
      if writer.Some? {
        LatestStepSize(a, attr, TimesOf(readers, done), writer.value.attr, writer.value.size);
        a := MergeAttr(a, TimesAndSize(writer.value.attr, writer.value.size), false);
      } else {
        assert attr.(size := Max(attr.size, 0)) == attr;
        assert TimesOf(readers, done) + {} == TimesOf(readers, done);
      }
    }

    /** `set_attr2`: merges a request into the attributes and stores them. Modification and
        creation time never go back, and the size shrinks only when it is overwritten. */
    method SetAttr(request: SetFileAttr, overwriteSize: bool, now: nat)
      modifies this`attr
      ensures attr.size == if overwriteSize && request.size.Some? then request.size.value
                           else Max(Max(old(attr.size), WriterSize()), Or(0, request.size))
      ensures TimesForward(old(attr), attr) && attr.times.atime == attr.times.ctime == now
      ensures attr.perm == Or(old(attr.perm), request.perm) && attr.uid == Or(old(attr.uid), request.uid)
      ensures attr.gid == Or(old(attr.gid), request.gid) && attr.flags == Or(old(attr.flags), request.flags)
      ensures SetTo(attr, old(attr).(size := Max(old(attr.size), WriterSize())), HandleTimes(),
                    request, overwriteSize, now)
      ensures Greatest(attr.times.mtime, old(attr).times.mtime, HandleTimes(), (t: Times) => t.mtime, request.mtime)
      ensures Greatest(attr.times.crtime, old(attr).times.crtime, HandleTimes(), (t: Times) => t.crtime, request.crtime)
    {
      var a := GetAttr();
      ghost var was := attr.(size := Max(attr.size, WriterSize()));
      attr := Stamped(MergeAttr(a, request, overwriteSize), now);
      SetToMeans(attr, was, HandleTimes(), request, overwriteSize, now);
    }

    /** `set_attr`. The file stays in order exactly when no size beyond its end is asked for. */
    method SetAttrOf(request: SetFileAttr, now: nat)
      requires Valid()
      modifies this`attr
      ensures Table() && Stores(path.bytes, stored)
      ensures Valid() <==> request.size.None? || request.size.value <= |old(Content())|
      ensures Valid() ==> Content() == old(Content())
      ensures WriterMark() == old(WriterMark()) && DrainedHandles() == old(DrainedHandles())
      ensures SetTo(attr, old(attr).(size := Max(old(attr.size), WriterSize())), HandleTimes(), request, false, now)
      ensures TimesForward(old(attr), attr) && attr.size >= old(attr.size)
      ensures Greatest(attr.times.mtime, old(attr).times.mtime, HandleTimes(), (t: Times) => t.mtime, request.mtime)
      ensures Greatest(attr.times.crtime, old(attr).times.crtime, HandleTimes(), (t: Times) => t.crtime, request.crtime)
      ensures attr.times.ctime == now && attr.times.atime == now
    {
      hide CurrentOn, Table, AllCurrent, AllSafe, NoneDrained, Stores;
      hide WriterOn, ReadersBut, SetTo, HandleTimes, Greatest;
      ghost var all, current := ReadersBut(readers, {}), ReadersBut(readers, WriteHandles());
      NotPartOf(all);
      NotPartOf(current);
      if writer.Some? {
        NotPartOfWriter(writer.value.writer);
        WriterStores(writer.value.writer, path, stored, writer.value.size, MaxPlaintextLen(cipher));
      }
      assert AllSafe(all, path) && AllCurrent(current, path, stored);
      SetAttr(request, false, now);
      assert AllSafe(all, path) && AllCurrent(current, path, stored);
    }

    // ----- resetting read handles -----

    lemma NotPartOf(rs: set<Reader>)
      ensures forall r | r in rs :: this !in r.Repr()
    {
    }

    method NewReader() returns (r: Reader)
      requires Stores(path.bytes, stored)
      ensures fresh(r.Repr()) && r.input.node == path && CurrentOn(r, path, stored) && !r.Drained()
    {
      hide Stores, Off, Block;
      var input := new File(path);
      r := new Reader(input, stored);
    }

    method PutReader(h: nat, ctx: ReadContext)
      requires Table() && ctx.reader.Repr() !! Repr
      modifies this`readers, this`Repr
      ensures Table() && Repr == old(Repr) + ctx.reader.Repr()
      ensures readers == old(readers)[h := ctx]
    {
      readers := readers[h := ctx];
      Repr := Repr + ctx.reader.Repr();
    }

    /** Saves the times of one read handle and gives it a new reader (`reset_handles`). */
    method ResetReader(h: nat, now: nat)
      requires Table() && h in readers && Stores(path.bytes, stored)
      modifies this`attr, this`readers, this`Repr
      ensures Table() && old(Repr) <= Repr && fresh(Repr - old(Repr))
      ensures h in readers && readers == old(readers)[h := readers[h]]
      ensures readers[h].reader.input.node == path
      ensures CurrentOn(readers[h].reader, path, stored) && !readers[h].reader.Drained()
      ensures attr.size == Max(old(attr.size), WriterSize()) && TimesForward(old(attr), attr)
      ensures readers[h].attr == attr.times && old(readers)[h].attr.mtime <= attr.times.mtime
      ensures old(readers)[h].attr.crtime <= attr.times.crtime
    {
      hide Stores, Latest, TimesOf, CurrentOn, Table, SetTo, HandleTimes;
      SetAttr(TimesOnly(readers[h].attr), false, now);
      var reader := NewReader();
      PutReader(h, ReadContext(attr.times, reader));
    }

    /** Every read handle but the given ones has a fresh reader on what is stored. */
    ghost predicate FreshExcept(hs: set<nat>)
      requires Table()
      reads this, Repr
    {
      AllCurrent(ReadersBut(readers, hs), path, stored) && NoneDrained(ReadersBut(readers, hs))
    }

    method ResetNext(h: nat, hs: set<nat>, now: nat)
      requires Table() && h in readers && Stores(path.bytes, stored) && FreshExcept(hs)
      modifies this`attr, this`readers, this`Repr
      ensures Table() && old(Repr) <= Repr && fresh(Repr - old(Repr))
      ensures h in readers && readers == old(readers)[h := readers[h]] && FreshExcept(hs - {h})
      ensures attr.size == Max(old(attr.size), WriterSize()) && TimesForward(old(attr), attr)
    {
      hide Stores, CurrentOn, Table, AllCurrent, NoneDrained;
      ghost var rs := ReadersBut(readers, hs + {h});
      SubsetCurrent(ReadersBut(readers, hs), rs, path, stored);
      NotPartOf(rs);
      ResetReader(h, now);
      ReadersButUpdate(old(readers), hs, h, readers[h]);
      OneMoreCurrent(rs, readers[h].reader, path, stored);
    }

    /** Resets all read handles but those to skip. */
    method ResetReaders(skip: set<nat>, now: nat)
      requires Table() && Stores(path.bytes, stored)
      modifies this`attr, this`readers, this`Repr
      ensures Table() && old(Repr) <= Repr && fresh(Repr - old(Repr))
      ensures readers.Keys == old(readers).Keys && FreshExcept(skip)
      ensures forall h | h in readers && h in skip :: readers[h] == old(readers)[h]
      ensures attr.size == if readers.Keys <= skip then old(attr.size) else Max(old(attr.size), WriterSize())
      ensures TimesForward(old(attr), attr)
    {
      hide Stores, CurrentOn, Table;
      var todo := readers.Keys - skip;
      while todo != {}
        invariant Table() && old(Repr) <= Repr && fresh(Repr - old(Repr))
        invariant todo <= readers.Keys == old(readers).Keys && todo !! skip && FreshExcept(skip + todo)
        invariant forall h | h in readers && h in skip :: readers[h] == old(readers)[h]
        invariant attr.size == if readers.Keys - skip <= todo then old(attr.size) else Max(old(attr.size), WriterSize())
        invariant TimesForward(old(attr), attr)
        decreases todo
      {
        var h :| h in todo;
        ResetNext(h, skip + todo, now);
        assert skip + todo - {h} == skip + (todo - {h});
        todo := todo - {h};
      }
    }

    // ----- after a step of the writer -----

    lemma NotPartOfWriter(w: SeekWriter)
      ensures this !in w.Repr() && forall r: Reader :: r !in w.Repr()
    {
    }

    /** The reader that shares the write handle loses track. */
    method Disturb(h: nat)
      requires AllShaped(ReaderAt(readers, h), path)
      modifies ReaderAt(readers, h)`good
      ensures AllSafe(ReaderAt(readers, h), path)
    {
      if h in readers {
        readers[h].reader.good := false;
      }
    }

    lemma OthersAndOwn(h: nat)
      requires AllCurrent(ReadersBut(readers, {h}), path, stored) && AllSafe(ReaderAt(readers, h), path)
      ensures AllSafe(ReadersBut(readers, {}), path)
    {
    }

    /** Gives all readers but the one at the write handle a fresh start. */
    method ResetOthers(h: nat, now: nat)
      requires Table() && Writes(h) && Stores(path.bytes, stored) && AllSafe(ReaderAt(readers, h), path)
      requires attr.size <= writer.value.size
      modifies this`attr, this`readers, this`Repr
      ensures Table() && old(Repr) <= Repr && fresh(Repr - old(Repr)) && Stores(path.bytes, stored)
      ensures FreshExcept({h}) && readers.Keys == old(readers).Keys && TimesForward(old(attr), attr)
      ensures old(attr.size) <= attr.size <= writer.value.size
      ensures Valid() <==> old(WriterCurrent())
      ensures Valid() ==> Content() == old(Content())
      ensures WriterMark() == old(WriterMark())
    {
      hide CurrentOn, Table, AllCurrent, AllSafe, NoneDrained, Stores, WriterOn, ReadersBut, MaxPlaintextLen;
      ghost var own := ReaderAt(readers, h);
      NotPartOfWriter(writer.value.writer);
      NotPartOf(own);
      ResetReaders({h}, now);
      OthersAndOwn(h);
    }

    /** The writer has moved on: the stored plaintext is the one it knows, and the other
        readers start afresh on it. */
    method Settle(h: nat, now: nat)
      requires Table() && Writes(h) && writer.value.writer.inner.out.node == path && writer.value.writer.Valid()
      requires attr.size <= writer.value.size && AllShaped(ReaderAt(readers, h), path)
      modifies this`attr, this`readers, this`Repr, this`stored, ReaderAt(readers, h)`good
      ensures Table() && old(Repr) <= Repr && fresh(Repr - old(Repr)) && Stores(path.bytes, stored)
      ensures FreshExcept({h}) && readers.Keys == old(readers).Keys && TimesForward(old(attr), attr)
      ensures old(attr.size) <= attr.size <= writer.value.size
      ensures Valid() <==> old(WriterOn(writer.value.writer, path, writer.value.writer.inner.plain, writer.value.size,
                                        MaxPlaintextLen(cipher)))
      ensures Valid() ==> Content() == old(writer.value.writer.Content())
      ensures WriterMark() == old(WriterMark())
    {
      hide CurrentOn, Table, AllCurrent, AllSafe, NoneDrained, Stores;
      hide WriterOn, ReadersBut, MaxPlaintextLen, WriterMark;
      NotPartOfWriter(writer.value.writer);
      stored := writer.value.writer.inner.plain;
      KnownStored(writer.value.writer);
      Disturb(h);
      ResetOthers(h, now);
    }

    lemma KnownStored(w: SeekWriter)
      requires w.Valid()
      ensures Stores(w.inner.out.node.bytes, w.inner.plain)
    {
    }

    // ----- operations -----

    /** What the table says about the objects of one handle. */
    lemma Parts(h: nat)
      requires Table() && AllSafe(ReadersBut(readers, {}), path)
      ensures this in Repr && path in Repr
      ensures writer.Some? ==> writer.value.writer.Repr() <= Repr && this !in writer.value.writer.Repr()
      ensures forall r | r in ReaderAt(readers, h) :: r.Repr() <= Repr && this !in r.Repr()
      ensures writer.Some? ==> forall r | r in ReaderAt(readers, h) :: r.Repr() !! writer.value.writer.Repr()
      ensures AllSafe(ReaderAt(readers, h), path) && AllShaped(ReaderAt(readers, h), path)
    {
      assert h in readers ==> readers[h].reader in ReadersBut(readers, {});
    }

    /** Replaces what the write handle remembers. */
    method Remember(times: Times, size: nat)
      requires Table() && writer.Some?
      modifies this`writer
      ensures Table() && writer == Some(old(writer).value.(attr := times, size := size))
    {
      writer := Some(writer.value.(attr := times, size := size));
    }

    method WriteAndSettle(h: nat, offset: nat, data: Bytes, now: nat) returns (n: nat)
      requires Valid() && Writes(h) && data != [] && offset <= MaxPlaintextLen(cipher)
      modifies Repr
      ensures Valid() && fresh(Repr - old(Repr)) && readers.Keys == old(readers).Keys
      ensures n == Min(|data|, Min(MaxPlaintextLen(cipher) - offset, Room(offset)))
      ensures Content() == PWrite(old(Content()), offset, data[..n])
      ensures |Content()| <= Max(|old(Content())|, MaxPlaintextLen(cipher))
      ensures FreshExcept({h}) && TimesForward(old(attr), attr) && attr.size >= old(attr.size)
      ensures Writing() == old(Writing())
      ensures WriterMark().pos == offset + n
      ensures writer.Some? && writer.value.attr == Times(now, now, now, old(writer).value.attr.crtime)
    {
      hide CurrentOn, Table, AllCurrent, AllSafe, AllShaped, NoneDrained;
      hide Stores, WriterOn, ReadersBut, MaxPlaintextLen, ReaderAt;
      Parts(h);
      var ctx := writer.value;
      WriterStores(ctx.writer, path, stored, ctx.size, MaxPlaintextLen(cipher));
      n := WriteThrough(ctx.writer, offset, data, MaxPlaintextLen(cipher), stored, ctx.size);
      Remember(ctx.attr.(mtime := now, ctime := now, atime := now), Max(ctx.size, offset + n));
      Settle(h, now);
    }

    /** A positioned write through the write handle. One call takes at most the rest of a
        block. The content changes as a plain byte sequence does, a gap becomes zeros, the
        length never passes both its old value and the limit, and every other reader then
        starts afresh. */
    method Write(h: nat, offset: nat, data: Bytes, now: nat) returns (r: FsResult<nat>)
      requires Valid()
      modifies Repr
      ensures Valid() && fresh(Repr - old(Repr)) && readers.Keys == old(readers).Keys
      ensures var limit := MaxPlaintextLen(cipher);
              if !old(Writes(h)) then r == Fail(InvalidFileHandle) && Content() == old(Content())
              else if data == [] then r == Done(0) && Content() == old(Content())
              else if offset > limit then r == Fail(MaxFilesizeExceeded) && Content() == old(Content())
              else
                && r == Done(Min(|data|, Min(limit - offset, Room(offset))))
                && Content() == PWrite(old(Content()), offset, data[..r.value])
                && |Content()| <= Max(|old(Content())|, limit)
                && FreshExcept({h}) && WriterMark().pos == offset + r.value
      ensures !old(Writes(h)) || data == [] || offset > MaxPlaintextLen(cipher) ==>
                WriterMark() == old(WriterMark()) && DrainedHandles() == old(DrainedHandles())
      ensures TimesForward(old(attr), attr) && attr.size >= old(attr.size) && Writing() == old(Writing())
      ensures old(Writes(h)) && data != [] && offset <= MaxPlaintextLen(cipher) ==>
                writer.Some? && writer.value.attr == Times(now, now, now, old(writer).value.attr.crtime)
    {
      hide CurrentOn, Table, AllCurrent, AllSafe, NoneDrained, Stores, ReadersBut, MaxPlaintextLen;
      if !Writes(h) {
        return Fail(InvalidFileHandle);
      }
      if data == [] {
        return Done(0);
      }
      if offset > MaxPlaintextLen(cipher) {
        return Fail(MaxFilesizeExceeded);
      }
      var n := WriteAndSettle(h, offset, data, now);
      return Done(n);
    }

    method FlushAndSettle(h: nat, now: nat)
      requires Valid() && Writes(h)
      modifies Repr
      ensures Table() && old(Repr) <= Repr && fresh(Repr - old(Repr)) && Stores(path.bytes, stored)
      ensures Valid() <==> !old(writer.value.writer.Strands())
      ensures Valid() ==> Content() == old(Content())
      ensures writer == old(writer) && writer.value.writer.Valid() && writer.value.writer.Content() == old(Content())
      ensures FreshExcept({h}) && readers.Keys == old(readers).Keys
      ensures TimesForward(old(attr), attr) && attr.size >= old(attr.size)
      ensures WriterMark().pos == old(WriterMark()).pos && (WriterMark().unsaved ==> old(WriterMark()).unsaved)
    {
      hide CurrentOn, Table, AllCurrent, AllSafe, AllShaped, NoneDrained, Stores;
      hide WriterOn, ReadersBut, MaxPlaintextLen, ReaderAt, SeekWriter.Strands;
      Parts(h);
      var ctx := writer.value;
      WriterStores(ctx.writer, path, stored, ctx.size, MaxPlaintextLen(cipher));
      FlushThrough(ctx.writer, stored, ctx.size, MaxPlaintextLen(cipher));
      Settle(h, now);
    }

    /** Writes a full changed block out and gives the other readers a fresh start. No content
        is lost; the writer stays in order exactly when it is not left in front of a stored
        block with an empty buffer. */
    method Flush(h: nat, now: nat) returns (r: FsResult<()>)
      requires Valid()
      modifies Repr
      ensures Table() && old(Repr) <= Repr && fresh(Repr - old(Repr)) && Stores(path.bytes, stored)
      ensures r == if h == 0 || h in old(readers) || old(Writes(h)) then Done(()) else Fail(InvalidFileHandle)
      ensures Valid() <==> !(h != 0 && old(Writes(h) && writer.value.writer.Strands()))
      ensures Valid() ==> Content() == old(Content())
      ensures writer == old(writer) && readers.Keys == old(readers).Keys
      ensures writer.Some? ==> writer.value.writer.Valid() && writer.value.writer.Content() == old(Content())
      ensures h != 0 && old(Writes(h)) ==> FreshExcept({h})
      ensures TimesForward(old(attr), attr) && attr.size >= old(attr.size)
      ensures WriterMark().pos == old(WriterMark()).pos && (WriterMark().unsaved ==> old(WriterMark()).unsaved)
      ensures (!old(Writes(h)) || h == 0 ==> DrainedHandles() == old(DrainedHandles()))
    {
      hide CurrentOn, Table, AllCurrent, AllSafe, NoneDrained, Stores;
      hide ReadersBut, MaxPlaintextLen, SeekWriter.Strands, FreshExcept;
      if h == 0 {
        return Done(());
      }
      r := if h in readers then Done(()) else Fail(InvalidFileHandle);
      if Writes(h) {
        FlushAndSettle(h, now);
        r := Done(());
      }
    }

    /** One reader, and those that share nothing with it. */
    lemma TakeApart(h: nat)
      requires Table() && ReadersCurrent() && h in readers
      ensures forall r, o | r in ReadersBut(readers, {h}) && o in r.Repr() :: o !in readers[h].reader.Repr()
      ensures forall r, o | r in ReadersBut(readers, {h} + WriteHandles()) && o in r.Repr() ::
                o !in readers[h].reader.Repr()
      ensures AllSafe(ReadersBut(readers, {h}), path)
      ensures AllCurrent(ReadersBut(readers, {h} + WriteHandles()), path, stored)
      ensures readers[h].reader.input.node == path && readers[h].reader.Valid() && path !in readers[h].reader.Repr()
      ensures !Writes(h) ==> CurrentOn(readers[h].reader, path, stored)
      ensures !Writes(h) ==> readers[h].reader.good && readers[h].reader.plain == stored
    {
      hide Stores, Off, Block;
      assert readers[h].reader in ReadersBut(readers, {});
      assert !Writes(h) ==> readers[h].reader in ReadersBut(readers, WriteHandles());
      assert ReadersBut(readers, {h} + WriteHandles()) <= ReadersBut(readers, WriteHandles());
    }

    lemma PutTogether(h: nat)
      requires Table() && h in readers
      requires AllSafe(ReadersBut(readers, {h}), path)
      requires AllCurrent(ReadersBut(readers, {h} + WriteHandles()), path, stored)
      requires readers[h].reader.input.node == path && readers[h].reader.Valid()
      requires !Writes(h) ==> CurrentOn(readers[h].reader, path, stored)
      ensures ReadersCurrent()
    {
    }

    method ReplaceTimes(h: nat, times: Times)
      requires Table() && h in readers
      modifies this`readers
      ensures Table() && DrainedHandles() == old(DrainedHandles())
      ensures readers == old(readers)[h := old(readers)[h].(attr := times)]
    {
      readers := readers[h := readers[h].(attr := times)];
    }

    /** Replaces the times of a read handle. */
    method Touch(h: nat, times: Times)
      requires Valid() && h in readers
      modifies this`readers
      ensures Valid() && Content() == old(Content()) && readers.Keys == old(readers).Keys
      ensures WriterMark() == old(WriterMark()) && DrainedHandles() == old(DrainedHandles())
      ensures readers == old(readers)[h := old(readers)[h].(attr := times)]
    {
      hide CurrentOn, Table, AllCurrent, AllSafe, NoneDrained, Stores, WriterOn, MaxPlaintextLen, ReadersBut;
      ghost var all, current := ReadersBut(readers, {}), ReadersBut(readers, WriteHandles());
      NotPartOf(all);
      NotPartOf(current);
      Parts(h);
      SameReaders(readers, h, times, {});
      SameReaders(readers, h, times, WriteHandles());
      assert AllSafe(all, path) && AllCurrent(current, path, stored);
      ReplaceTimes(h, times);
      assert AllSafe(all, path) && AllCurrent(current, path, stored) && WriteHandles() == old(WriteHandles());
    }

    lemma ApartFrom(h: nat, k: nat)
      requires Table() && h in readers && k in readers && k != h
      ensures readers[k].reader.Repr() !! readers[h].reader.Repr()
    {
    }

    /** The reader's part of a read, which the other readers do not notice. */
    method ReadThrough(h: nat, offset: nat, n: nat) returns (r: Result<Bytes>, arrived: bool)
      requires Table() && h in readers && readers[h].reader.Valid() && n > 0
      requires this !in readers[h].reader.Repr()
      requires writer.Some? ==> readers[h].reader.Repr() !! writer.value.writer.Repr()
      modifies readers[h].reader.Repr()
      ensures WriterMark() == old(WriterMark())
      ensures readers[h].reader.Valid() && readers[h].reader.good == old(readers[h].reader.good)
      ensures readers[h].reader.good ==>
                var (bytes, drained) :=
                  ReadAtPlace(readers[h].reader.plain, old(readers[h].reader.Drained()), offset, n);
                r == Ok(bytes) && readers[h].reader.Drained() == drained
      ensures forall k | k in readers && k != h :: readers[k].reader.Drained() == old(readers[k].reader.Drained())
      ensures r.Ok? && r.value != [] ==> arrived
    {
      hide Table, Stores, Off, Block, LenFormula, Slice, Index, Within, Reader.Drained;
      forall k | k in readers && k != h
        ensures readers[k].reader.Repr() !! readers[h].reader.Repr()
      {
        ApartFrom(h, k);
      }
      var reader := readers[h].reader;
      if reader.good {
        reader.LenIsPlainLen();
        reader.StuckIs(offset);
        reader.StuckIs(Min(offset, reader.Len()));
      }
      ghost var drained := reader.Drained();
      r, arrived := reader.ReadAt(offset, n);
      assert reader.good ==> (r, reader.Drained()) == (Ok(ReadAtPlace(reader.plain, drained, offset, n).0),
                                                       ReadAtPlace(reader.plain, drained, offset, n).1);
    }

    method ReadHandle(h: nat, offset: nat, n: nat) returns (r: Result<Bytes>, arrived: bool)
      requires Valid() && h in readers && n > 0
      modifies Repr
      ensures Valid() && Repr == old(Repr) && readers == old(readers)
      ensures Content() == old(Content()) && stored == old(stored) && attr == old(attr) && writer == old(writer)
      ensures WriterMark() == old(WriterMark())
      ensures forall k | k in readers && k != h :: readers[k].reader.Drained() == old(readers[k].reader.Drained())
      ensures !Writes(h) ==>
                var (bytes, drained) := ReadAtPlace(stored, old(readers[h].reader.Drained()), offset, n);
                r == Ok(bytes) && readers[h].reader.Drained() == drained
      ensures r.Ok? && r.value != [] ==> arrived
    {
      hide CurrentOn, Table, AllCurrent, AllSafe, NoneDrained, Stores, WriterOn;
      hide ReadersBut, MaxPlaintextLen, ReadAtPlace, WriterMark, Reader.Drained;
      Parts(h);
      TakeApart(h);
      var reader := readers[h].reader;
      ghost var others, rest := ReadersBut(readers, {h}), ReadersBut(readers, {h} + WriteHandles());
      assert forall r, o | r in others && o in r.Repr() :: o !in reader.Repr();
      assert forall r, o | r in rest && o in r.Repr() :: o !in reader.Repr();
      assert AllSafe(others, path) && AllCurrent(rest, path, stored) && path !in reader.Repr();
      r, arrived := ReadThrough(h, offset, n);
      assert AllSafe(others, path) && AllCurrent(rest, path, stored);
      assert WriteHandles() == old(WriteHandles());
      StillCurrent(reader, path, stored);
      PutTogether(h);
    }

    /** A positioned read. Through a read handle that does not also write it answers from the
        stored plaintext. */
    method Read(h: nat, offset: nat, n: nat, now: nat) returns (r: FsResult<Bytes>)
      requires Valid()
      modifies Repr
      ensures Valid() && Repr == old(Repr) && readers.Keys == old(readers).Keys
      ensures Content() == old(Content()) && stored == old(stored) && attr == old(attr) && writer == old(writer)
      ensures h !in readers ==> r == Fail(InvalidFileHandle)
      ensures h in readers && n == 0 ==> r == Done([])
      ensures WriterMark() == old(WriterMark())
      ensures DrainedHandles() - {h} == old(DrainedHandles()) - {h}
      ensures h !in readers || n == 0 ==> DrainedHandles() == old(DrainedHandles())
      ensures h in readers && n > 0 && !Writes(h) ==>
                var (bytes, drained) := ReadAtPlace(stored, h in old(DrainedHandles()), offset, n);
                && r == Done(bytes)
                && DrainedHandles() == old(DrainedHandles()) - {h} + if drained then {h} else {}
      ensures h in readers && r.Done? && r.value != [] ==>
                readers == old(readers)[h := old(readers)[h].(attr := old(readers)[h].attr.(atime := now))]
      ensures forall k | k in readers && k != h :: k in old(readers) && readers[k] == old(readers)[k]
    {
      hide CurrentOn, Table, AllCurrent, AllSafe, NoneDrained, Stores;
      hide WriterOn, ReadersBut, MaxPlaintextLen, LenFormula, Slice;
      if h !in readers {
        return Fail(InvalidFileHandle);
      }
      if n == 0 {
        return Done([]);
      }
      var bytes, arrived := ReadHandle(h, offset, n);
      r := if bytes.Ok? then Done(bytes.value) else Fail(Io);
      Parts(h);
      if arrived {
        Touch(h, readers[h].attr.(atime := now));
      }
    }

    /** Adds a read handle with a reader of its own. */
    method InstallReader(h: nat, ctx: ReadContext)
      requires Valid() && h !in readers && !Writes(h)
      requires ctx.reader.Repr() !! Repr && ctx.reader.input.node == path && CurrentOn(ctx.reader, path, stored)
      modifies this`readers, this`Repr
      ensures Valid() && Repr == old(Repr) + ctx.reader.Repr() && Content() == old(Content())
      ensures readers == old(readers)[h := ctx]
      ensures WriterMark() == old(WriterMark())
      ensures !ctx.reader.Drained() ==> DrainedHandles() == old(DrainedHandles())
    {
      hide CurrentOn, Table, AllCurrent, AllSafe, NoneDrained, Stores, WriterOn, MaxPlaintextLen, ReadersBut;
      ghost var all, current := ReadersBut(readers, {}), ReadersBut(readers, WriteHandles());
      NotPartOf(all + current + {ctx.reader});
      Parts(h);
      UnusedHandle(readers, h, ctx, {});
      UnusedHandle(readers, h, ctx, WriteHandles());
      assert AllSafe(all, path) && AllCurrent(current, path, stored);
      PutReader(h, ctx);
      assert AllSafe(all, path) && AllCurrent(current, path, stored) && WriteHandles() == old(WriteHandles());
      assert {h} + {} == {h};
      CurrentParts(ctx.reader, path, stored);
      PutTogether(h);
    }

    method OpenRead(h: nat)
      requires Valid() && h !in readers && !Writes(h)
      modifies this`readers, this`Repr
      ensures Valid() && old(Repr) <= Repr && fresh(Repr - old(Repr)) && Content() == old(Content())
      ensures readers.Keys == old(readers).Keys + {h} && writer == old(writer)
      ensures WriterMark() == old(WriterMark()) && DrainedHandles() == old(DrainedHandles())
      ensures readers[h].attr == attr.times && readers - {h} == old(readers)
    {
      hide CurrentOn, Table, ReadersCurrent, Stores, WriterOn, MaxPlaintextLen;
      var reader := NewReader();
      InstallReader(h, ReadContext(attr.times, reader));
    }

    /** Installs a writer whose objects are all its own. */
    method PutWriter(ctx: WriteContext)
      requires Table() && ctx.writer.Repr() !! Repr
      modifies this`writer, this`Repr
      ensures Table() && Repr == old(Repr) + ctx.writer.Repr() && writer == Some(ctx)
    {
      writer := Some(ctx);
      Repr := Repr + ctx.writer.Repr();
    }

    /** The readers do not notice a new writer under the same handle, or the first one. */
    method InstallWriter(ctx: WriteContext)
      requires Table() && ReadersCurrent() && ctx.writer.Repr() !! Repr
      requires writer.None? || Writes(ctx.handle)
      modifies this`writer, this`Repr
      ensures Table() && ReadersCurrent() && Repr == old(Repr) + ctx.writer.Repr() && writer == Some(ctx)
      ensures old(FreshExcept({})) ==> FreshExcept({})
      ensures DrainedHandles() == old(DrainedHandles())
    {
      hide CurrentOn, Table, AllCurrent, AllSafe, NoneDrained, Stores, ReadersBut;
      ghost var all, current := ReadersBut(readers, {}), ReadersBut(readers, {ctx.handle});
      NotPartOf(all + current);
      if writer.None? {
        FewerCurrent(ctx.handle);
      }
      ghost var wasFresh := FreshExcept({});
      assert AllSafe(all, path) && AllCurrent(current, path, stored);
      assert wasFresh ==> AllCurrent(all, path, stored) && NoneDrained(all);
      PutWriter(ctx);
      assert AllSafe(all, path) && AllCurrent(current, path, stored);
      assert wasFresh ==> AllCurrent(all, path, stored) && NoneDrained(all);
    }

    /** No fresh reader is drained. */
    lemma FreshNotDrained(hs: set<nat>)
      requires Table() && FreshExcept(hs)
      ensures DrainedHandles() <= hs
    {
      hide CurrentOn, AllCurrent;
      forall h | h in readers && h !in hs
        ensures !readers[h].reader.Drained()
      {
        assert readers[h].reader in ReadersBut(readers, hs);
      }
    }

    lemma FewerCurrent(h: nat)
      requires AllCurrent(ReadersBut(readers, {}), path, stored)
      ensures AllCurrent(ReadersBut(readers, {h}), path, stored)
      ensures AllSafe(ReadersBut(readers, {}), path)
    {
    }

    method OpenWrite(h: nat)
      requires Valid() && writer.None?
      modifies this`writer, this`Repr
      ensures Valid() && old(Repr) <= Repr && fresh(Repr - old(Repr)) && Content() == old(Content())
      ensures Writes(h) && WriterMark() == Mark(0, false) && DrainedHandles() == old(DrainedHandles())
      ensures attr.times.mtime <= writer.value.attr.mtime && attr.times.crtime <= writer.value.attr.crtime
    {
      hide CurrentOn, Table, ReadersCurrent, Stores, WriterOn, MaxPlaintextLen, Latest, FreshExcept;
      var a := GetAttr();
      LatestSize(a, attr.(size := Max(attr.size, WriterSize())), HandleTimes());
      LatestNotBefore(a, attr.(size := Max(attr.size, WriterSize())), HandleTimes());
      var w := NewWriter(path, stored, MaxPlaintextLen(cipher));
      NotPartOfWriter(w);
      InstallWriter(WriteContext(h, a.times, a.size, w));
    }

    /** Opens the file under a new handle number. Asking to write a file that is being written
        is refused, and then a read handle that was asked for as well stays open. */
    method Open(h: nat, read: bool, write: bool) returns (r: FsResult<nat>)
      requires Valid() && h !in readers && !Writes(h)
      modifies this`readers, this`writer, this`Repr
      ensures Valid() && old(Repr) <= Repr && fresh(Repr - old(Repr)) && Content() == old(Content())
      ensures r == if !read && !write then Fail(InvalidInput)
                   else if write && old(writer.Some?) then Fail(AlreadyOpenForWrite) else Done(h)
      ensures readers.Keys == old(readers).Keys + if read then {h} else {}
      ensures if write && old(writer.None?) then Writes(h) else writer == old(writer)
      ensures WriterMark() == if write && old(writer.None?) then Mark(0, false) else old(WriterMark())
      ensures DrainedHandles() == old(DrainedHandles())
      ensures read ==> readers[h].attr == attr.times
      ensures forall k | k in old(readers) :: k in readers && readers[k] == old(readers)[k]
    {
      hide Table, ReadersCurrent, WriterCurrent, AllCurrent, AllSafe, WriterOn, Stores;
      if !read && !write {
        return Fail(InvalidInput);
      }
      if read {
        OpenRead(h);
      }
      if write {
        if writer.Some? {
          return Fail(AlreadyOpenForWrite);
        }
        OpenWrite(h);
      }
      return Done(h);
    }

    method DropReader(h: nat)
      requires Table()
      modifies this`readers
      ensures Table() && readers == old(readers) - {h}
    {
      readers := readers - {h};
    }

    /** Closes a read handle; its times are merged into the stored attributes. */
    method CloseRead(h: nat, now: nat)
      requires Valid() && h in readers
      modifies this`readers, this`attr
      ensures Valid() && Content() == old(Content()) && readers == old(readers) - {h}
      ensures attr.size >= old(attr.size) && TimesForward(old(attr), attr)
      ensures WriterMark() == old(WriterMark()) && DrainedHandles() == old(DrainedHandles()) - {h}
      ensures old(readers)[h].attr.mtime <= attr.times.mtime && old(readers)[h].attr.crtime <= attr.times.crtime
    {
      hide CurrentOn, Table, AllCurrent, AllSafe, NoneDrained, Stores;
      hide WriterOn, MaxPlaintextLen, ReadersBut, SetTo, HandleTimes;
      ghost var all, current := ReadersBut(readers - {h}, {}), ReadersBut(readers - {h}, WriteHandles());
      FewerReaders(readers, h, {});
      FewerReaders(readers, h, WriteHandles());
      SubsetSafe(ReadersBut(readers, {}), all, path);
      SubsetCurrent(ReadersBut(readers, WriteHandles()), current, path, stored);
      Parts(h);
      NotPartOf(all);
      NotPartOf(current);
      assert AllSafe(all, path) && AllCurrent(current, path, stored);
      var times := readers[h].attr;
      DropReader(h);
      SetAttr(TimesOnly(times), false, now);
      assert AllSafe(all, path) && AllCurrent(current, path, stored) && WriteHandles() == old(WriteHandles());
    }

    method DropWriter()
      requires Table()
      modifies this`writer
      ensures Table() && writer == None
    {
      writer := None;
    }

    /** Closes the write handle: the file stores the content, its recorded size is the length
        of that, and every reader starts afresh on it. */
    method CloseWrite(h: nat, now: nat)
      requires Valid() && Writes(h) && h !in readers
      modifies Repr
      ensures Valid() && old(Repr) <= Repr && fresh(Repr - old(Repr))
      ensures writer == None && Content() == stored == old(Content()) && readers.Keys == old(readers).Keys
      ensures FreshExcept({}) && attr.size >= old(attr.size) && TimesForward(old(attr), attr)
      ensures old(writer).value.attr.mtime <= attr.times.mtime && old(writer).value.attr.crtime <= attr.times.crtime
    {
      hide CurrentOn, Table, AllCurrent, AllSafe, NoneDrained, Stores, WriterOn;
      hide MaxPlaintextLen, ReadersBut, Decode, SetTo, HandleTimes;
      Parts(h);
      var ctx := writer.value;
      WriterStores(ctx.writer, path, stored, ctx.size, MaxPlaintextLen(cipher));
      stored := Content();
      ctx.writer.Finish();
      DropWriter();
      SetAttr(TimesAndSize(ctx.attr, ctx.size), false, now);
      ResetReaders({h}, now);
      NoSuchHandle(readers, h);
      FewerCurrent(h);
    }

    /** Closes a handle, for reading, writing or both. */
    method Release(h: nat, now: nat) returns (r: FsResult<()>)
      requires Valid()
      modifies Repr
      ensures Valid() && old(Repr) <= Repr && fresh(Repr - old(Repr)) && Content() == old(Content())
      ensures r == if h == 0 || old(h in readers) || old(Writes(h)) then Done(()) else Fail(InvalidFileHandle)
      ensures h == 0 ==> readers == old(readers) && writer == old(writer) && attr == old(attr)
      ensures h != 0 ==> readers.Keys == old(readers).Keys - {h}
      ensures h != 0 && old(Writes(h)) ==> writer == None && stored == old(Content()) && FreshExcept({})
      ensures h != 0 && !old(Writes(h)) ==> writer == old(writer)
      ensures attr.size >= old(attr.size) && TimesForward(old(attr), attr)
      ensures !old(Writes(h)) || h == 0 ==>
                && WriterMark() == old(WriterMark())
                && DrainedHandles() == if h == 0 then old(DrainedHandles()) else old(DrainedHandles()) - {h}
      ensures h != 0 && h in old(readers) ==>
                old(readers)[h].attr.mtime <= attr.times.mtime && old(readers)[h].attr.crtime <= attr.times.crtime
      ensures h != 0 && old(Writes(h)) ==>
                old(writer).value.attr.mtime <= attr.times.mtime && old(writer).value.attr.crtime <= attr.times.crtime
      ensures h != 0 && !old(Writes(h)) ==> readers == old(readers) - {h}
    {
      hide Table, ReadersCurrent, AllCurrent, AllSafe, NoneDrained, WriterOn, Stores, ReadersBut;
      if h == 0 {
        return Done(());
      }
      r := Fail(InvalidFileHandle);
      InRepr();
      if h in readers {
        CloseRead(h, now);
        r := Done(());
      }
      if Writes(h) {
        CloseWrite(h, now);
        r := Done(());
      }
    }

    lemma InRepr()
      requires Table()
      ensures this in Repr && path in Repr
    {
    }

    // ----- set_len -----

    /** Gives the write handle a fresh writer and the stored attributes. Its state agrees with
        the file exactly when the recorded size is right. */
    method RenewWriter()
      requires Table() && ReadersCurrent() && writer.Some? && Stores(path.bytes, stored)
      modifies this`writer, this`Repr
      ensures Table() && ReadersCurrent() && old(Repr) <= Repr && fresh(Repr - old(Repr))
      ensures writer.Some? && writer.value.handle == old(writer).value.handle && !writer.value.writer.inner.buf.dirty
      ensures writer.value.size == attr.size && (WriterCurrent() <==> attr.size == |stored|)
      ensures WriterCurrent() ==> Content() == stored
      ensures old(FreshExcept({})) ==> FreshExcept({})
      ensures WriterMark() == Mark(0, false)
      ensures writer.value.attr == attr.times
    {
      hide CurrentOn, Table, ReadersCurrent, Stores, WriterOn, MaxPlaintextLen, FreshExcept;
      var w := NewWriter(path, stored, MaxPlaintextLen(cipher));
      NotPartOfWriter(w);
      InstallWriter(WriteContext(writer.value.handle, attr.times, attr.size, w));
      if attr.size != |stored| {
        WriterSizeUnique(w, path, stored, attr.size, MaxPlaintextLen(cipher));
      }
    }

    /** Finishes the open writer and saves its attributes. */
    method FinishWriter(now: nat)
      requires Valid() && writer.Some?
      modifies Repr
      ensures Table() && ReadersCurrent() && old(Repr) <= Repr && fresh(Repr - old(Repr))
      ensures Stores(path.bytes, stored) && stored == old(Content()) && readers.Keys == old(readers).Keys
      ensures writer == old(writer) && attr.size == |stored| && TimesForward(old(attr), attr)
    {
      hide CurrentOn, Table, AllCurrent, AllSafe, AllShaped, NoneDrained, Stores, WriterOn, Greatest;
      hide MaxPlaintextLen, ReadersBut, ReaderAt, Decode, SetTo, HandleTimes;
      var ctx := writer.value;
      var h := ctx.handle;
      Parts(h);
      WriterStores(ctx.writer, path, stored, ctx.size, MaxPlaintextLen(cipher));
      stored := Content();
      ctx.writer.Finish();
      SetAttr(TimesAndSize(ctx.attr, ctx.size), false, now);
      Disturb(h);
      ghost var own := ReaderAt(readers, h);
      assert AllSafe(own, path);
      ResetReaders({h}, now);
      assert own == ReaderAt(readers, h) by { SameReaderAt(old(readers), readers, h); }
      OthersAndOwn(h);
    }

    /** Finishes the open writer and replaces it by a fresh one. */
    method FlushAndResetWriter(now: nat)
      requires Valid() && writer.Some?
      modifies Repr
      ensures Valid() && old(Repr) <= Repr && fresh(Repr - old(Repr))
      ensures Content() == stored == old(Content()) && readers.Keys == old(readers).Keys
      ensures writer.Some? && writer.value.handle == old(writer).value.handle && !writer.value.writer.inner.buf.dirty
      ensures attr.size == writer.value.size == |stored| && TimesForward(old(attr), attr)
      ensures WriterMark() == Mark(0, false)
      ensures writer.value.attr == attr.times
    {
      hide Table, ReadersCurrent, AllCurrent, AllSafe, NoneDrained, WriterOn, Stores, ReadersBut;
      FinishWriter(now);
      InRepr();
      RenewWriter();
    }

    /** Puts the resized content in place: truncation to nothing in the same file, anything
        else through a new file. */
    method ReplaceContents(attrSize: nat, size: nat)
      requires Table() && Stores(path.bytes, stored) && attrSize == |stored|
      modifies this`path, this`stored, this`Repr, path`bytes
      ensures Table() && Stores(path.bytes, stored) && stored == Resized(old(stored), size)
      ensures old(Repr) <= Repr && fresh(Repr - old(Repr))
    {
      hide Stores;
      if size == 0 {
        EmptyStores();
        path.bytes := [];
        stored := [];
      } else {
        var file := Rewrite(path, attrSize, size, stored);
        stored := Resized(stored, size);
        path := file.value;
        Repr := Repr + {path};
      }
    }

    lemma KnownSize(a: FileAttr)
      requires Table() && WriterCurrent()
      requires Latest(a, attr.(size := Max(attr.size, WriterSize())), HandleTimes())
      ensures a.size == |Content()|
    {
      LatestSize(a, attr.(size := Max(attr.size, WriterSize())), HandleTimes());
    }

    /** Finishing a writer that has nothing to write changes nothing but itself. */
    method FinishIdleWriter()
      requires Table() && FreshExcept({}) && writer.Some? && Idle(writer.value.writer)
      modifies writer.value.writer.Repr(), writer.value.writer.inner.out.node`bytes
      ensures Table() && FreshExcept({}) && path.bytes == old(path.bytes)
    {
      hide CurrentOn, Table, AllCurrent, NoneDrained, Stores, ReadersBut;
      ghost var all, w := ReadersBut(readers, {}), writer.value.writer;
      ReadersApartFromWriter();
      assert forall r, o | r in all && o in r.Repr() :: o !in w.Repr();
      assert AllCurrent(all, path, stored) && NoneDrained(all);
      writer.value.writer.Finish();
      assert AllCurrent(all, path, stored) && NoneDrained(all);
    }

    lemma ReadersApartFromWriter()
      requires Table() && writer.Some?
      ensures forall r, o | r in ReadersBut(readers, {}) && o in r.Repr() :: o !in writer.value.writer.Repr()
      ensures this !in writer.value.writer.Repr() && path !in writer.value.writer.Repr()
    {
    }

    /** The steps of `set_len` after the writer was flushed. */
    method ChangeLen(attrSize: nat, size: nat, now: nat)
      requires Valid() && Content() == stored && attrSize == attr.size == |stored|
      requires writer.Some? ==> !writer.value.writer.inner.buf.dirty && writer.value.size == |stored|
      modifies Repr
      ensures Table() && old(Repr) <= Repr && fresh(Repr - old(Repr))
      ensures Stores(path.bytes, stored) && stored == Resized(old(stored), size)
      ensures attr.size == if writer.Some? && readers != map[] && size < |old(stored)| then |old(stored)| else size
      ensures FreshExcept({}) && readers.Keys == old(readers).Keys && Writing() == old(Writing())
      ensures Valid() <==> attr.size == size
      ensures Valid() ==> Content() == stored
      ensures TimesForward(old(attr), attr)
      ensures WriterMark() == Mark(0, false)
      ensures now <= attr.times.mtime
    {
      hide CurrentOn, Table, AllCurrent, AllSafe, NoneDrained, Stores, WriterOn;
      hide MaxPlaintextLen, ReadersBut, Resized, Idle, SetTo, HandleTimes;
      InRepr();
      if writer.Some? {
        WriterInRepr();
        assert Idle(writer.value.writer);
      }
      ReplaceContents(attrSize, size);
      SetAttr(SetFileAttr(Some(size), Some(now), Some(now), Some(now), None, None, None, None, None), true, now);
      ResetReaders({}, now);
      if writer.Some? {
        FinishIdleWriter();
        FreshIsCurrent();
        RenewWriter();
      } else {
        FreshIsCurrent();
      }
    }

    lemma WriterInRepr()
      requires Table() && writer.Some? && WriterCurrent()
      ensures writer.value.writer.Repr() <= Repr && writer.value.writer.inner.out.node in Repr
      ensures this !in writer.value.writer.Repr() && path !in writer.value.writer.Repr()
      ensures !writer.value.writer.inner.buf.dirty ==> Idle(writer.value.writer)
    {
    }

    lemma FreshIsCurrent()
      requires Table() && FreshExcept({})
      ensures ReadersCurrent()
    {
    }

    /** A shrink while both readers and a writer are open: resetting a reader merges the size
        that the write handle still remembers back into the stored one. */
    ghost predicate SizeComesBack(size: nat)
      requires Valid()
      reads this, Repr
    {
      writer.Some? && readers != map[] && size < |Content()|
    }

    /** Truncates the file or extends it with zeros. The content is always right; the recorded
        size, and so the agreement of the handles with it, exactly when it does not come
        back. */
    method SetLen(size: nat, now: nat)
      requires Valid()
      modifies Repr
      ensures Table() && old(Repr) <= Repr && fresh(Repr - old(Repr))
      ensures Stores(path.bytes, stored)
      ensures size == |old(Content())| ==> Valid() && Content() == old(Content()) && attr == old(attr)
                                             && WriterMark() == old(WriterMark())
                                             && DrainedHandles() == old(DrainedHandles())
      ensures size != |old(Content())| ==>
                && stored == Resized(old(Content()), size)
                && attr.size == (if old(SizeComesBack(size)) then |old(Content())| else size)
                && FreshExcept({}) && WriterMark() == Mark(0, false)
                && (Valid() <==> !old(SizeComesBack(size)))
                && (Valid() ==> Content() == stored)
      ensures TimesForward(old(attr), attr) && readers.Keys == old(readers).Keys && Writing() == old(Writing())
      ensures size != |old(Content())| ==> now <= attr.times.mtime
    {
      hide CurrentOn, Table, AllCurrent, AllSafe, NoneDrained, Stores;
      hide WriterOn, MaxPlaintextLen, ReadersBut, Latest, Resized;
      var a := GetAttr();
      KnownSize(a);
      if size == a.size {
        return;
      }
      InRepr();
      if writer.Some? {
        FlushAndResetWriter(now);
        InRepr();
      }
      ChangeLen(a.size, size, now);
    }
  }
}
