/** Inputs on which the code does not do what a reader of its interface expects. Each is an
    instance of an exact condition that the contracts of the operation state. */
module Divergences {
  import opened Primitives
  import opened Blocks
  import opened HostFiles
  import opened SequentialWriter
  import opened SeekableWriter
  import opened SeekableReader
  import opened FileLayer

  /** One full block is taken for 28 bytes less. */
  lemma OneFullBlockIsShort()
    ensures LenFormula(CipherLen(B)) == B - OVERHEAD
  {
    hide CipherLen, LenFormula, Index, Within, Off;
    OffNext(0);
    OffUnique(B, B, 1);
    LengthInversion(B);
  }

  lemma OneFullBlock(plain: Bytes)
    requires |plain| == B
    ensures Block(plain, B, 0) == plain
  {
    OffNext(0);
  }

  // ----- a stale seek, and what is written after it -----

  /** The bytes that a stale seek left in the buffer end up in the content. Only by chance is
      that what the same write makes of the content itself: the bytes written reach to the end
      of those left, and the ones in front of them are zeros. */
  predicate ByChance(content: Bytes, left: Bytes, to: nat, x: Bytes)
    requires |content| <= to
  {
    && to < |content| + |left| && to + |x| == |content| + |left|
    && left[..to - |content|] == Zeros(to - |content|)
  }

  lemma StaleIsWrong(content: Bytes, left: Bytes, to: nat, x: Bytes)
    requires |content| <= to < |content| + |left| && to + |x| <= |content| + |left|
    ensures Splice(content + left, to, x) == PWrite(content, to, x) <==> ByChance(content, left, to, x)
  {
    var s, t, gap := Splice(content + left, to, x), PWrite(content, to, x), to - |content|;
    assert |s| == |content| + |left| && |t| == to + |x|;
    assert s[|content|..to] == left[..gap];
    assert t[|content|..to] == Zeros(gap);
    if ByChance(content, left, to, x) {
      assert s[..|content|] == content == t[..|content|];
      assert s[to..] == x == t[to..];
      assert s == s[..|content|] + s[|content|..to] + s[to..];
      assert t == t[..|content|] + t[|content|..to] + t[to..];
    }
  }

  /** A stale seek is to the content's end or beyond. */
  lemma StaleIsPastEnd(w: SeekWriter, to: nat)
    requires w.Valid() && w.Sound() && w.Stale(to)
    ensures |w.Content()| <= to && |w.inner.buf.Contents()| == B
    ensures to < |w.Content()| + B ==> to + Room(to) == |w.Content()| + B
  {
    hide Splice, Stores, Off, Index, Within, Block;
    w.StaleFull(to);
    OffBound(to, B, Index(|w.Content()|, B));
    OffNext(Index(|w.Content()|, B));
    if to < |w.Content()| + B {
      OffUnique(to, B, Index(|w.Content()|, B));
    }
  }

  lemma KnownFile(w: SeekWriter, plain: Bytes)
    requires w.Valid() && w.inner.plain == plain
    ensures Decode(w.inner.out.node.bytes) == Some(plain)
  {
    hide Stores, Decode;
    StoresDecodes(w.inner.out.node.bytes, plain);
  }

  /** Seek, write once, finish. The file decodes to what the write makes of the content exactly
      when the seek is not stale, but for the chance above; after a stale seek the bytes left
      in the buffer are written as well, and beyond them nothing is. */
  method SeekWriteFinish(w: SeekWriter, to: nat, src: Bytes) returns (moved: Result<nat>, n: nat)
    requires w.Valid() && w.Sound() && (w.Stranded() ==> to != w.Pos()) && src != []
    modifies w.Repr(), w.inner.out.node`bytes
    ensures old(w.Stale(to)) ==> |old(w.Content())| <= to && |old(w.inner.buf.Contents())| == B
    ensures n == if old(w.Stale(to)) && |old(w.Content())| + B <= to then 0 else Min(|src|, Room(to))
    ensures var x, c, left := src[..Min(|src|, Room(to))], old(w.Content()), old(w.inner.buf.Contents());
            && Decode(w.inner.out.node.bytes) ==
                 Some(if !old(w.Stale(to)) then PWrite(c, to, x)
                      else if to < |c| + B then Splice(c + left, to, x) else c)
            && (Decode(w.inner.out.node.bytes) == Some(PWrite(c, to, x)) <==>
                  old(w.Stale(to)) ==> ByChance(c, left, to, x))
  {
    hide Splice, Stores, Off, Index, Within, Block, Decode, ZeroExtend, CutShort, ByChance;
    ghost var stale, c, left := w.Stale(to), w.Content(), w.inner.buf.Contents();
    ghost var x := src[..Min(|src|, Room(to))];
    if stale {
      StaleIsPastEnd(w, to);
      if to < |c| + B {
        StaleIsWrong(c, left, to, x);
      } else {
        BeyondIsWrong(c, left, to, x);
      }
    }
    n := 0;
    w.SoundMoves();
    moved := w.Seek(Start(to));
    if moved.Ok? {
      n := w.Write(src);
    }
    if stale && n == 0 {
      KnownFile(w, c);
    }
    w.Finish();
  }

  lemma BeyondIsWrong(content: Bytes, left: Bytes, to: nat, x: Bytes)
    requires |content| + |left| <= to && left != []
    ensures content != PWrite(content, to, x) && !ByChance(content, left, to, x)
  {
    assert |PWrite(content, to, x)| == to + |x|;
  }

  /** A writer that has sought into the only, full block. */
  method InFirstBlock(node: Storage, ghost plain: Bytes) returns (w: SeekWriter)
    requires Stores(node.bytes, plain) && |plain| == B
    modifies node
    ensures fresh(w.Repr()) && w.inner.out.node == node && w.Valid() && w.Sound() && !w.Stranded()
    ensures w.Content() == plain && w.inner.buf.Contents() == plain && w.Pos() == 1
    ensures w.Stale(B) && w.Stale(B + B)
  {
    hide Splice, Stores, Off, Index, Within, Block, ZeroExtend;
    var out := new File(node);
    w := new SeekWriter(out, plain);
    OffNext(0);
    OffNext(1);
    OffUnique(1, B, 0);
    OffUnique(B, B, 1);
    OffUnique(B + B, B, 2);
    OffUnique(0, B, 0);
    ZeroExtendShort(plain, 1);
    w.SoundMoves();
    var _ := w.Seek(Start(1));
    OffBound(1, B, w.inner.blockIndex);
    w.CleanContent();
    OneFullBlock(plain);
  }

  /** A seek into the only, full block and then to its end, and one byte written: the file has
      the rest of the block once more behind that byte. */
  method StaleSeekDoubles(node: Storage, ghost plain: Bytes, y: byte) returns (n: nat)
    requires Stores(node.bytes, plain) && |plain| == B
    modifies node
    ensures n == 1 && Decode(node.bytes) == Some(plain + [y] + plain[1..])
  {
    hide Splice, Stores, Within, Decode, PWrite, ByChance;
    hide SeekWriter.Stale, SeekWriter.Stranded, SeekWriter.Content, SeekWriter.Sound, SeekWriter.Pos;
    var w := InFirstBlock(node, plain);
    SpliceSecond(plain, y);
    var _, n' := SeekWriteFinish(w, B, [y]);
    n := n';
  }

  lemma SpliceSecond(plain: Bytes, y: byte)
    requires |plain| == B
    ensures Splice(plain + plain, B, [y]) == plain + [y] + plain[1..]
    ensures forall k: nat | k > 0 :: [y][..Min(1, k)] == [y]
  {
  }

  /** From the end of the bytes that a stale seek left, one position further: the writer gets
      there, with one byte of those left and a block of zeros behind the content. */
  method SeekPastLeftover(node: Storage, ghost plain: Bytes) returns (w: SeekWriter, r: Result<nat>)
    requires Stores(node.bytes, plain) && |plain| == B
    modifies node
    ensures w.Valid() && w.Sound() && r == Ok(B + B + 1) && w.Content() == plain + plain[..1] + Zeros(B)
  {
    hide Splice, Stores, Off, Index, Within, Block, ZeroExtend;
    w := InFirstBlock(node, plain);
    w.SoundMoves();
    var _ := w.Seek(Start(B + B));
    assert w.Overshoots(B + B + 1);
    ZerosOver(plain);
    r := w.Seek(Start(B + B + 1));
  }

  lemma ZerosOver(plain: Bytes)
    requires |plain| == B
    ensures Splice(plain + plain, B + 1, Zeros(B)) == plain + plain[..1] + Zeros(B)
  {
  }

  // ----- a flush in front of a stored block, and what is written after it -----

  lemma SpliceMiddle(a: Bytes, b: Bytes, d: Bytes, x: Bytes)
    requires |x| <= |b|
    ensures Splice(a + b + d, |a|, x) == a + (x + b[|x|..]) + d
  {
  }

  lemma SplicedBlock(c: Bytes, i: nat, x: Bytes)
    requires |x| < |Block(c, B, i)|
    ensures Off(i, B) <= |c|
    ensures Splice(c, Off(i, B), x) == c[..Off(i, B)] + (x + Block(c, B, i)[|x|..]) + Rest(c, i + 1)
  {
    hide Off, Splice, Block;
    BlockLen(c, B, i);
    RestSplits(c, i);
    SpliceMiddle(c[..Off(i, B)], Block(c, B, i), Rest(c, i + 1), x);
    AllOf(c, Off(i, B), Block(c, B, i), Rest(c, i + 1));
  }

  lemma AllOf(c: Bytes, o: nat, b: Bytes, d: Bytes)
    requires o <= |c| && c[o..] == b + d
    ensures c[..o] + b + d == c
  {
  }

  lemma SameMiddle(a: Bytes, b: Bytes, b': Bytes, c: Bytes)
    requires |b| == |b'|
    ensures a + b + c == a + b' + c <==> b == b'
  {
    if a + b + c == a + b' + c {
      assert b == (a + b + c)[|a|..|a| + |b|];
      assert b' == (a + b' + c)[|a|..|a| + |b'|];
    }
  }

  /** The mixed block is as long as the old one. */
  lemma MixedLen(file': Bytes, file: Bytes, plain: Bytes, i: nat, x: Bytes)
    requires Stores(file, plain) && ResealedAt(file', file, i, x) && 0 < |x| < |Block(plain, B, i)|
    ensures |Block(file', C, i)| == |Block(plain, B, i)| + OVERHEAD
  {
    hide Splice, Stores, Off, Block, Decode, CutMeaning;
    var nonce: Nonce :| file' == Splice(file, Off(i, C), nonce + SealBlock(i, nonce, x));
    CutDecodes(file, plain, i, nonce, x);
    StoredBlockLen(file, plain, i);
  }

  /** A file with a block cut short means the spliced content exactly when the mixed block opens
      to the bytes written followed by the rest of the old block. */
  lemma CutIsRight(file': Bytes, file: Bytes, plain: Bytes, i: nat, x: Bytes)
    requires Stores(file, plain) && CutShort(file', file, plain, i, x) && 0 < |x| < |Block(plain, B, i)|
    ensures Off(i, B) <= |plain|
    ensures Decode(file') == Some(Splice(plain, Off(i, B), x)) <==>
              OpenBlock(i, Block(file', C, i)) == Some(x + Block(plain, B, i)[|x|..])
  {
    hide Splice, Stores, Off, Block, Decode, OpenBlock, Rest;
    MixedLen(file', file, plain, i, x);
    SplicedBlock(plain, i, x);
    var pt := OpenBlock(i, Block(file', C, i));
    if pt.Some? {
      SameMiddle(plain[..Off(i, B)], pt.value, x + Block(plain, B, i)[|x|..], Rest(plain, i + 1));
    }
  }

  /** Flush, write once, finish. The file decodes to the content with the bytes written, exactly
      as it should, unless the buffer is then empty in front of a stored block and the write is
      shorter than that: then the block is cut, and `before` is the file it is cut in. */
  method FlushWriteFinish(w: SeekWriter, src: Bytes) returns (n: nat, ghost before: Bytes)
    requires w.Valid() && w.Sound() && src != []
    modifies w.Repr(), w.inner.out.node`bytes
    ensures var c, p := old(w.Content()), old(w.Pos());
            var i, x := Index(p, B), src[..Min(|src|, Room(p))];
            && n == |x|
            && if old(w.Strands() || w.Stranded()) && |x| < |Block(c, B, i)|
               then Stores(before, c) && CutShort(w.inner.out.node.bytes, before, c, i, x)
               else Decode(w.inner.out.node.bytes) == Some(Splice(c, p, x))
    ensures var c, p, file' := old(w.Content()), old(w.Pos()), w.inner.out.node.bytes;
            var i, x := Index(p, B), src[..Min(|src|, Room(p))];
            Decode(file') == Some(Splice(c, p, x)) <==>
              (old(w.Strands() || w.Stranded()) && |x| < |Block(c, B, i)| ==>
                 OpenBlock(i, Block(file', C, i)) == Some(x + Block(c, B, i)[|x|..]))
  {
    hide Splice, Stores, Off, Index, Within, Block, Decode, CutShort;
    w.Flush();
    before := w.inner.out.node.bytes;
    if w.Stranded() {
      w.StrandedContent();
      OffNext(0);
      OffUnique(w.Pos(), B, w.inner.blockIndex);
    }
    n := w.Write(src);
    w.Finish();
    ghost var c, i, x := old(w.Content()), Index(old(w.Pos()), B), src[..n];
    if old(w.Strands() || w.Stranded()) && |x| < |Block(c, B, i)| {
      CutIsRight(w.inner.out.node.bytes, before, c, i, x);
    }
  }

  /** Over two stored blocks: a full block, a flush and one byte. The second block is cut, and
      the file decodes to nothing unless the mixture of the two seals opens. */
  method StrandedWriteCuts(node: Storage, ghost plain: Bytes, first: Bytes, y: byte) returns (ghost before: Bytes)
    requires Stores(node.bytes, plain) && |plain| == B + B && |first| == B
    modifies node
    ensures Stores(before, first + plain[B..]) && ResealedAt(node.bytes, before, 1, [y])
    ensures OpenBlock(1, Block(node.bytes, C, 1)) == None ==> Decode(node.bytes) == None
  {
    hide Splice, Stores, Off, Index, Within, Block, Decode, OpenBlock, ResealedAt;
    var out := new File(node);
    var w := new SeekWriter(out, plain);
    OffNext(0);
    OffUnique(0, B, 0);
    OffUnique(B, B, 1);
    SpliceFirst(plain, first);
    var _ := w.Write(first);
    assert w.Strands();
    BlockLen(w.Content(), B, 1);
    SpliceSecond(first, y);
    var _, before' := FlushWriteFinish(w, [y]);
    before := before';
  }

  lemma SpliceFirst(plain: Bytes, first: Bytes)
    requires |plain| == B + B && |first| == B
    ensures Splice(plain, 0, first) == first + plain[B..]
    ensures first[..B] == first
  {
  }

  // ----- readers and sizes -----

  /** After reading everything, going back to the start succeeds and nothing is there. */
  method DrainedReaderIsStuck(node: Storage, ghost plain: Bytes) returns (moved: Result<nat>, bytes: Result<Bytes>)
    requires Stores(node.bytes, plain) && |plain| == 2
    ensures moved == Ok(0) && bytes == Ok([]) && bytes != Ok(plain)
  {
    hide Stores, Off, Block, Index, Within, LenFormula;
    var input := new File(node);
    var reader := new Reader(input, plain);
    OffNext(0);
    OffUnique(2, B, 0);
    OffUnique(0, B, 0);
    var _ := reader.ReadFull(3);
    OffNext(reader.blockIndex - 1);
    OffBound(2, B, reader.blockIndex - 1);
    reader.ReportedIsPosition();
    reader.LenIsPlainLen();
    assert reader.Stuck(0);
    moved := reader.Seek(Start(0));
    bytes := reader.ReadFull(2);
  }

  /** A read of nothing in between loses the rest of a block. */
  method EmptyReadSkips(node: Storage, ghost plain: Bytes) returns (first: Result<Bytes>, rest: Result<Bytes>)
    requires Stores(node.bytes, plain) && |plain| == 2
    ensures first == Ok(plain[..1]) && rest == Ok([])
  {
    hide Stores, Off, Block, Index, Within, LenFormula;
    var input := new File(node);
    var reader := new Reader(input, plain);
    OffNext(0);
    OffUnique(2, B, 0);
    first := reader.Read(1);
    OffBound(2, B, reader.blockIndex);
    assert reader.NextStart() == 2;
    var _ := reader.Read(0);
    rest := reader.Read(1);
  }

  /** Cutting a file of two bytes to one, while it is open for reading and for writing, stores
      one byte and records two. */
  method SizeReturns(f: InodeFile, now: nat)
    requires f.Valid() && |f.Content()| == 2 && f.readers == map[] && f.writer == None
    modifies f.Repr
    ensures Stores(f.path.bytes, f.stored) && f.stored == old(f.Content())[..1] && f.attr.size == 2 && !f.Valid()
  {
    hide InodeFile.Table, InodeFile.ReadersCurrent, InodeFile.WriterCurrent, Stores;
    f.InRepr();
    var _ := f.Open(1, true, false);
    var _ := f.Open(2, false, true);
    f.SetLen(1, now);
  }
}
