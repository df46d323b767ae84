/** The seekable encrypting writer (`RingCryptoWriteSeek` of src/crypto/write.rs): it moves by
    writing out the buffered block, loading the target block and filling gaps with zeros. */
module SeekableWriter {
  import opened Primitives
  import opened Blocks
  import opened HostFiles
  import opened BlockBuffer
  import opened BlockLoader
  import opened SequentialWriter

  /** Replaces the contents of one buffer by the unread contents of another. */
  method TakeUnread(from: BufMut, to: BufMut)
    requires from.Valid() && from != to && from.data != to.data
    requires from.AvailableRead() <= to.data.Length
    modifies to, to.data
    ensures to.Valid() && to.posWrite == 0 && !to.dirty
    ensures to.Contents() == from.data[from.posRead..from.available]
  {
    to.Clear();
    var n := from.AvailableRead();
    var _ := to.SeekAvailable(Start(n));
    forall k | 0 <= k < n {
      to.data[k] := from.data[from.posRead + k];
    }
  }

  class SeekWriter {
    const inner: Writer
    const decryptBuf: BufMut

    ghost function Repr(): set<object> { {this, decryptBuf, decryptBuf.data} + inner.Repr() }

    ghost predicate Shape()
      reads Repr()
    {
      && inner.buf.Valid() && inner.buf.data.Length == B && !inner.finished
      && decryptBuf.data.Length == C
      && decryptBuf != inner.buf && decryptBuf.data != inner.buf.data
    }

    ghost predicate Stored()
      reads Repr(), inner.out.node
    {
      Shape() && inner.Stored()
    }

    ghost predicate Valid()
      reads Repr(), inner.out.node
    {
      Stored() && inner.Valid()
    }

    ghost predicate Sound()
      requires Valid()
      reads Repr(), inner.out.node
    {
      inner.Sound()
    }

    ghost function Content(): Bytes
      requires Valid()
      reads Repr(), inner.out.node
    {
      inner.Content()
    }

    function Pos(): nat
      reads Repr()
    {
      inner.Pos()
    }

    /** A clean loaded block is in the buffer, and the seek goes to the block that would
        follow the last full one, or beyond: nothing can be loaded there, and the loaded
        bytes stay in the buffer. */
    ghost predicate Stale(to: nat)
      requires Valid()
      reads Repr(), inner.out.node
    {
      && !inner.buf.dirty && inner.buf.available > 0
      && Index(to, B) != Index(Pos(), B)
      && Within(|inner.plain|, B) == 0 && Index(|inner.plain|, B) <= Index(to, B)
    }

    /** What a stale seek leaves behind: a clean buffer with a full block that the file does not
        have at its end. */
    ghost predicate Leftover()
      requires Valid()
      reads Repr(), inner.out.node
    {
      !inner.buf.dirty && inner.buf.available == B && Off(inner.blockIndex, B) == |inner.plain| && inner.plain != []
    }

    /** The content without bytes that a stale seek left. */
    ghost function Kept(): Bytes
      requires Valid()
      reads Repr(), inner.out.node
    {
      if Leftover() then inner.plain else Content()
    }

    /** In order, or but for the bytes that a stale seek left. */
    ghost predicate Movable()
      reads Repr(), inner.out.node
    {
      Valid() && (Sound() || Leftover())
    }

    /** A flush would empty a full changed buffer in front of a stored block. */
    ghost predicate Strands()
      reads Repr()
    {
      inner.Full() && Off(inner.blockIndex, B) + B < |inner.plain|
    }

    /** An explicit flush has emptied a full buffer in front of a stored block. */
    ghost predicate Stranded()
      reads Repr()
    {
      inner.Unloaded() && inner.blockIndex > 0
    }

    constructor (out: File, ghost plain: Bytes)
      requires Stores(out.node.bytes, plain) && out.pos == 0
      ensures Valid() && Sound() && fresh(Repr() - {out}) && inner.out == out
      ensures Content() == plain && Pos() == 0 && inner.buf.available == 0 && inner.blockIndex == 0
      ensures inner.plain == plain
    {
      inner := new Writer(out, plain);
      decryptBuf := new BufMut(C);
    }

    /** `decrypt_block`: loads what the file has at its cursor as the block at the block index,
        and leaves the file cursor in front of it. If there is nothing, or it does not open,
        the buffer is not touched. */
    method LoadBlock() returns (r: Result<bool>)
      requires Shape()
      modifies Repr()
      ensures Shape() && inner.plain == old(inner.plain) && inner.blockIndex == old(inner.blockIndex)
      ensures var pt := Loaded(inner.blockIndex, inner.out.node.bytes, old(inner.out.pos));
              && (r.Err? <==> pt.None?)
              && (r == Ok(true) <==> pt.Some? && pt.value != [])
              && (r == Ok(true) ==> inner.buf.Contents() == pt.value && inner.buf.posWrite == 0 && !inner.buf.dirty)
      ensures r != Ok(true) ==>
                && inner.buf.Contents() == old(inner.buf.Contents()) && inner.buf.posWrite == old(inner.buf.posWrite)
                && inner.buf.dirty == old(inner.buf.dirty)
      ensures old(Valid()) ==>
                && Valid() && r == Ok(Block(inner.plain, B, inner.blockIndex) != [])
                && (r == Ok(true) ==> inner.buf.Contents() == Block(inner.plain, B, inner.blockIndex))
    {
      hide Splice, Off, Stores, Block, Slice, OpenBlock;
      if Valid() {
        StoredOffset(inner.out.node.bytes, inner.plain, inner.blockIndex);
        StoredLoads(inner.out.node.bytes, inner.plain, inner.blockIndex, inner.out.pos);
      }
      var oldBlockIndex := inner.blockIndex;
      var i := DecryptBlock(inner.blockIndex, decryptBuf, inner.out);
      if i.Err? {
        return Err;
      }
      if i.value == oldBlockIndex {
        return Ok(false);
      }
      LoadedLen(inner.blockIndex, inner.out.node.bytes, old(inner.out.pos));
      inner.out.Seek(Off(inner.blockIndex, C));
      TakeUnread(decryptBuf, inner.buf);
      return Ok(true);
    }

    /** What the writer takes for the length of its content: 28 short exactly when the stored
        stream is a positive number of full blocks and no changed block follows them. Bytes that
        a stale seek left do not count. */
    ghost function ReportedLen(): int
      requires Valid()
      reads Repr(), inner.out.node
    {
      if Leftover() then |inner.plain| - OVERHEAD
      else if !(inner.buf.dirty && inner.blockIndex == Index(|inner.plain|, B))
         && |inner.plain| > 0 && Within(|inner.plain|, B) == 0
      then |Content()| - OVERHEAD else |Content()|
    }

    /** Computes the length from the stored length and, at the last block, from the buffer. */
    method GetPlaintextLen() returns (len: nat)
      requires Movable()
      ensures len == ReportedLen()
    {
      hide Splice, Stores, Off, Index, Within;
      if Leftover() {
        OffUnique(|inner.plain|, B, inner.blockIndex);
      }
      StoresLen(inner.out.node.bytes, inner.plain);
      LengthInversion(|inner.plain|);
      OffBound(|inner.plain|, B, inner.blockIndex);
      var cipherLen := |inner.out.node.bytes|;
      if cipherLen == 0 && inner.buf.available == 0 {
        return 0;
      }
      if inner.blockIndex == Index(cipherLen, C) && inner.buf.dirty {
        return Off(inner.blockIndex, B) + inner.buf.available;
      }
      assert Leftover() || |Content()| == |inner.plain|;
      return LenFormula(cipherLen);
    }

    /** The content is as given, and the position is the wanted one, or short of it at the
        very end of the content. */
    ghost predicate Reached(content: Bytes, to: nat)
      reads Repr(), inner.out.node
    {
      && Valid() && Sound() && Content() == content && !inner.Unloaded()
      && Pos() <= to && (Pos() < to ==> inner.Appending())
    }

    /** Moves inside the current block, as far as its bytes go. */
    method SeekInBlock(to: nat)
      requires Valid()
      modifies Repr()
      ensures Valid() && Content() == old(Content()) && inner.buf.Contents() == old(inner.buf.Contents())
      ensures inner.plain == old(inner.plain) && inner.blockIndex == old(inner.blockIndex)
      ensures inner.buf.dirty == old(inner.buf.dirty) && inner.finished == old(inner.finished)
      ensures inner.buf.posWrite == Min(Within(to, B), inner.buf.available)
      ensures inner.blockIndex == Index(to, B) && old(Sound() && !inner.Unloaded()) ==> Reached(old(Content()), to)
    {
      hide Splice, Stores, Off, Index, Within;
      OffIndex(to, B);
      var _ := inner.buf.SeekWrite(Start(Min(Within(to, B), inner.buf.available)));
    }

    /** Moves to the end of the current block, which is the last one before the wanted
        position. */
    method SeekToBlockEnd(to: nat)
      requires Valid() && Off(inner.blockIndex, B) + B <= to
      requires |inner.plain| < Off(inner.blockIndex, B) + B
      modifies Repr()
      ensures Valid() && Content() == old(Content()) && inner.buf.Contents() == old(inner.buf.Contents())
      ensures inner.plain == old(inner.plain) && inner.blockIndex == old(inner.blockIndex)
      ensures inner.buf.dirty == old(inner.buf.dirty) && inner.finished == old(inner.finished)
      ensures inner.buf.posWrite == inner.buf.available
      ensures old(Sound() && !inner.Unloaded() && !inner.buf.dirty) ==> Reached(old(Content()), to)
    {
      hide Splice, Stores, Off;
      BlockLen(inner.plain, B, inner.blockIndex);
      var _ := inner.buf.SeekWrite(Start(inner.buf.available));
    }

    /** Writes out a changed block; the file then stores the content. */
    method WriteOut()
      requires Movable()
      modifies Repr(), inner.out.node`bytes
      ensures Stored() && inner.plain == old(Kept()) && !inner.buf.dirty
      ensures if old(inner.buf.dirty) then inner.buf.available == 0
              else inner.buf.Contents() == old(inner.buf.Contents()) && inner.plain == old(inner.plain)
    {
      hide Splice, Stores, Off, Index, Within;
      if inner.buf.dirty {
        inner.EncryptAndWrite();
      } else {
        KeptClean();
      }
    }

    /** Puts the writer on the given block and loads it, if the file has it. */
    method GoToBlock(target: nat) returns (loaded: bool)
      requires Stored() && !inner.buf.dirty && Off(target, B) <= |inner.plain|
      modifies Repr()
      ensures Valid() && inner.plain == old(inner.plain) && inner.blockIndex == target && !inner.buf.dirty
      ensures loaded <==> Block(inner.plain, B, target) != []
      ensures loaded ==> inner.buf.Contents() == Block(inner.plain, B, target) && Content() == inner.plain && Sound()
      ensures !loaded ==> inner.buf.Contents() == old(inner.buf.Contents())
                          && Content() == inner.plain + inner.buf.Contents()
    {
      hide Splice, Stores, Off, Index, Within;
      inner.out.Seek(Off(target, C));
      inner.blockIndex := target;
      var r := LoadBlock();
      loaded := r.value;
      if loaded {
        SpliceOwnBlock(inner.plain, B, target);
      } else {
        SpliceAtEnd(inner.plain, inner.buf.Contents());
      }
    }

    /** After a stale move: the bytes left in the buffer have joined the content, without the
        file knowing, and the writer is at the wanted position or jammed at their end. */
    ghost predicate Misled(content: Bytes, left: Bytes, to: nat)
      reads Repr(), inner.out.node
    {
      && Valid() && !Sound() && Content() == content + left && !inner.buf.dirty
      && |left| == B && Pos() == Min(to, |content| + B) && (Pos() < to ==> inner.Jammed())
      && inner.plain == content != [] && Off(inner.blockIndex, B) == |content|
    }

    /** The bytes that a stale move leaves in the buffer are a full block. */
    lemma StaleFull(to: nat)
      requires Movable() && Stale(to)
      ensures inner.buf.available == B && |inner.plain| == Off(Index(|inner.plain|, B), B)
      ensures Kept() == inner.plain != [] && (Sound() ==> Content() == inner.plain)
    {
      hide Splice, Stores, Off, Index, Within, Block;
      OffIndex(|inner.plain|, B);
      BlockLen(inner.plain, B, inner.blockIndex);
      OffBound(|inner.plain|, B, inner.blockIndex);
      SpliceOwnBlock(inner.plain, B, inner.blockIndex);
    }

    /** With nothing changed, what is kept is what the file stores. */
    lemma KeptClean()
      requires Movable() && !inner.buf.dirty
      ensures Kept() == inner.plain
    {
      hide Splice, Stores, Off, Index, Within, Block;
      SpliceOwnBlock(inner.plain, B, inner.blockIndex);
      SpliceNothing(inner.plain, Off(inner.blockIndex, B));
    }

    /** Moves to another block: writes out a changed block, goes to the target block or the
        last one there is, and loads it. The content survives exactly when the move is not
        stale; a stale move appends the bytes left in the buffer to it. */
    method SeekOtherBlock(to: nat)
      requires Movable() && Index(Pos(), B) != Index(to, B)
      modifies Repr(), inner.out.node`bytes
      ensures Valid() && !inner.buf.dirty
      ensures !old(Stale(to)) ==> Reached(old(Kept()), to)
      ensures old(Stale(to)) ==> Misled(old(Kept()), old(inner.buf.Contents()), to)
    {
      hide Splice, Stores, Off, Index, Within, Block, Kept, Leftover;
      ghost var stale := Stale(to);
      if stale {
        StaleFull(to);
      }
      WriteOut();
      StoresLen(inner.out.node.bytes, inner.plain);
      var last := Index(|inner.out.node.bytes|, C);
      var target := Min(Index(to, B), last);
      OffBound(|inner.plain|, B, target);
      OffBound(to, B, target);
      BlockLen(inner.plain, B, target);
      var loaded := GoToBlock(target);
      assert inner.plain + [] == inner.plain;
      assert !stale ==> Sound() && !inner.Unloaded() && Content() == inner.plain;
      if inner.blockIndex == Index(to, B) {
        SeekInBlock(to);
      } else {
        SeekToBlockEnd(to);
      }
    }

    /** From the end of a full changed block, or from an empty buffer, loads the block that
        the position is in. */
    method EnterBlock()
      requires Movable()
      requires inner.buf.available == 0 || inner.buf.posWrite == B
      modifies Repr(), inner.out.node`bytes
      ensures Valid() && Content() == old(Content()) && Pos() == old(Pos()) && !inner.buf.dirty
      ensures old(Sound()) ==> Sound() && !inner.Unloaded() && inner.buf.posWrite == 0
      ensures old(Leftover()) ==>
                && Leftover() && inner.blockIndex == old(inner.blockIndex)
                && inner.buf.posWrite == old(inner.buf.posWrite)
                && inner.buf.Contents() == old(inner.buf.Contents())
      ensures inner.plain == if old(inner.buf.dirty) then old(Content()) else old(inner.plain)
      ensures !old(inner.buf.dirty) ==> inner.out.node.bytes == old(inner.out.node.bytes)
    {
      hide Splice, Stores, Off, Index, Within;
      ghost var content := Content();
      OffNext(inner.blockIndex);
      if inner.buf.dirty {
        inner.EncryptAndWrite();
      }
      SpliceNothing(inner.plain, Off(inner.blockIndex, B));
      assert Content() == content;
      SpliceOwnBlock(inner.plain, B, inner.blockIndex);
      BlockLen(inner.plain, B, inner.blockIndex);
      var _ := LoadBlock();
    }

    /** First use of a fresh writer: loads block 0. */
    method EnterFirstBlock()
      requires Valid() && Sound() && Pos() == 0 && inner.buf.available == 0
      modifies Repr(), inner.out.node`bytes
      ensures Valid() && Sound() && !inner.Unloaded() && !inner.buf.dirty
      ensures Content() == old(Content()) && Pos() == 0 && inner.buf.posWrite == 0 && inner.blockIndex == 0
      ensures inner.plain == old(inner.plain) && inner.out.node.bytes == old(inner.out.node.bytes)
    {
      hide Splice, Stores, Off, Index, Within;
      OffNext(0);
      OffUnique(0, B, 0);
      OffBound(0, B, inner.blockIndex);
      inner.out.Seek(0);
      inner.blockIndex := 0;
      EnterBlock();
      OffBound(0, B, inner.blockIndex);
    }

    /** Moves within the block of the current position. At the end of bytes that a stale seek
        left this moves within them, a block too low. */
    method SeekSameBlock(to: nat)
      requires Movable() && Index(Pos(), B) == Index(to, B)
      modifies Repr(), inner.out.node`bytes
      ensures Valid() && (inner.buf.dirty ==> old(inner.buf.dirty))
      ensures old(Sound()) ==> Reached(old(Content()), to)
      ensures old(Leftover()) ==>
                && Leftover() && inner.plain == old(inner.plain) && Content() == old(Content())
                && inner.buf.Contents() == old(inner.buf.Contents()) && inner.buf.posWrite == Within(to, B)
    {
      hide Splice, Stores, Off, Index, Within;
      if Pos() == 0 && inner.buf.available == 0 {
        EnterFirstBlock();
      }
      if inner.buf.posWrite < B {
        OffUnique(Pos(), B, inner.blockIndex);
      } else {
        OffNext(inner.blockIndex);
        OffUnique(Pos(), B, inner.blockIndex + 1);
      }
      var atFullBlockEnd := Within(Pos(), B) == 0 && inner.buf.posWrite == inner.buf.available;
      if inner.buf.available == 0 || atFullBlockEnd {
        EnterBlock();
        if inner.buf.posWrite < B {
          OffUnique(Pos(), B, inner.blockIndex);
        }
      }
      SeekInBlock(to);
    }

    ghost function SeekTarget(from: SeekFrom): int
      requires Valid()
      reads Repr(), inner.out.node
    {
      Target(from, ReportedLen(), Pos())
    }

    /** At the end of bytes that a stale seek left, and sent into the block after them. */
    ghost predicate Overshoots(to: nat)
      requires Valid()
      reads Repr(), inner.out.node
    {
      Leftover() && inner.buf.posWrite == B && |inner.plain| + B < to < |inner.plain| + B + B
    }

    /** A move that leads to, or keeps to, bytes that were loaded for another block. */
    ghost predicate Misleads(to: nat)
      requires Valid()
      reads Repr(), inner.out.node
    {
      if Leftover() then |inner.plain| <= to && !Overshoots(to) else Stale(to)
    }

    /** Moves towards a position as far as the content goes. */
    method Approach(to: nat)
      requires Movable() && to != Pos()
      modifies Repr(), inner.out.node`bytes
      ensures Valid() && (inner.buf.dirty ==> old(inner.buf.dirty))
      ensures !old(Misleads(to)) && !old(Overshoots(to)) ==> Reached(old(Kept()), to)
      ensures old(Misleads(to)) ==> Misled(old(Kept()), old(inner.buf.Contents()), to)
      ensures old(Overshoots(to)) ==>
                && Leftover() && inner.plain == old(inner.plain) && Content() == old(Content()) && Pos() == to - B
    {
      hide Splice, Stores, Off, Index, Within, Block, Reached, Misled;
      if Leftover() {
        LeftoverBlocks(to);
      }
      if Index(Pos(), B) == Index(to, B) {
        SeekSameBlock(to);
        if old(Leftover()) && !old(Overshoots(to)) {
          StillMisled(to);
        }
      } else {
        SeekOtherBlock(to);
      }
    }

    /** Where a position is from the bytes that a stale seek left. */
    lemma LeftoverBlocks(to: nat)
      requires Valid() && Leftover() && to != Pos()
      ensures Content() == inner.plain + inner.buf.Contents()
      ensures to < |inner.plain| ==> Index(Pos(), B) != Index(to, B)
      ensures Index(Pos(), B) == Index(to, B) ==>
                if Overshoots(to) then to == |inner.plain| + B + Within(to, B)
                else inner.buf.posWrite < B && to == |inner.plain| + Within(to, B)
      ensures Overshoots(to) ==> Index(Pos(), B) == Index(to, B)
      ensures Index(Pos(), B) != Index(to, B) ==> (Stale(to) <==> |inner.plain| <= to)
    {
      hide Splice, Stores, Index, Within, Block;
      OffNext(inner.blockIndex);
      OffNext(inner.blockIndex + 1);
      SpliceAtEnd(inner.plain, inner.buf.Contents());
      if inner.buf.posWrite < B {
        OffUnique(Pos(), B, inner.blockIndex);
      } else {
        OffUnique(Pos(), B, inner.blockIndex + 1);
      }
      OffUnique(|inner.plain|, B, inner.blockIndex);
      OffBound(to, B, inner.blockIndex);
      OffBound(to, B, inner.blockIndex + 1);
      if Overshoots(to) {
        OffUnique(to, B, inner.blockIndex + 1);
      }
    }

    lemma StillMisled(to: nat)
      requires Valid() && Leftover() && inner.buf.posWrite < B && Pos() == to
      ensures Misled(inner.plain, inner.buf.Contents(), to)
    {
      hide Splice, Stores, Off;
      BlockLen(inner.plain, B, inner.blockIndex);
      SpliceAtEnd(inner.plain, inner.buf.Contents());
    }

    /** Moves to another position, with zeros for what lies beyond the content. */
    method MoveAway(to: nat) returns (r: Result<()>)
      requires Movable() && to != Pos()
      modifies Repr(), inner.out.node`bytes
      ensures Valid() && (r.Ok? <==> Pos() == to)
      ensures old(Misleads(to)) ==>
                && Misled(old(Kept()), old(inner.buf.Contents()), to)
                && (r.Ok? <==> to <= |old(Kept())| + B)
      ensures !old(Misleads(to)) ==> r.Ok? && Sound() && !inner.Unloaded()
      ensures !old(Misleads(to)) && !old(Overshoots(to)) ==>
                && Content() == ZeroExtend(old(Kept()), to)
                && (if to > |old(Kept())| then inner.buf.dirty else inner.buf.dirty ==> old(inner.buf.dirty))
      ensures old(Overshoots(to)) ==>
                && inner.buf.dirty && to - B <= |old(Content())|
                && Content() == Splice(old(Content()), to - B, Zeros(B))
    {
      hide Splice, Stores, Off, Index, Within, Block, Kept;
      Approach(to);
      AppendingAtEnd(inner);
      if Pos() < to {
        r := FillZeros(inner, to - Pos());
        AppendingAtEnd(inner);
      } else {
        r := Ok(());
      }
    }

    /** Moves to a position, unless the writer is there. */
    method MoveTo(to: nat) returns (r: Result<()>)
      requires Movable()
      modifies Repr(), inner.out.node`bytes
      ensures Valid() && (r.Ok? <==> Pos() == to)
      ensures old(Misleads(to)) ==>
                && Misled(old(Kept()), old(inner.buf.Contents()), to)
                && (r.Ok? <==> to <= |old(Kept())| + B)
      ensures !old(Misleads(to)) ==> r.Ok? && Sound() && (Stranded() ==> old(Stranded()) && to == old(Pos()))
      ensures !old(Misleads(to)) && !old(Overshoots(to)) ==>
                && Content() == ZeroExtend(old(Kept()), to)
                && (if to > |old(Kept())| then inner.buf.dirty else inner.buf.dirty ==> old(inner.buf.dirty))
      ensures old(Overshoots(to)) ==>
                && inner.buf.dirty && !Stranded() && |old(Content())| == |old(Kept())| + B && to - B <= |old(Content())|
                && Content() == Splice(old(Content()), to - B, Zeros(B))
    {
      hide Splice, Stores, Off, Index, Within, ZeroExtend;
      hide Misled, Overshoots, Misleads, Stale, Content, Kept;
      AtPos();
      if to == Pos() {
        return Ok(());
      }
      if Overshoots(to) {
        OvershootsOver(to);
      }
      r := MoveAway(to);
    }

    /** Moves to a position, which fills a gap after the end with zeros. The content is kept
        exactly when the move is not stale; a stale one appends a block to it, and fails
        beyond that block. After a stale move, one to a stored block puts the content right
        again; one within the bytes left, or past their end, keeps them; and one from their end
        into the block after them is taken for one within them, and makes up for it by writing
        a block of zeros. */
    method Seek(from: SeekFrom) returns (r: Result<nat>)
      requires Movable()
      modifies Repr(), inner.out.node`bytes
      ensures Valid()
      ensures var to, c, left := old(SeekTarget(from)), old(Kept()), old(inner.buf.Contents());
              if to < 0 then
                && r.Err? && Pos() == old(Pos()) && Content() == old(Content())
                && (Sound() <==> old(Sound())) && (Leftover() <==> old(Leftover())) && (Stranded() <==> old(Stranded()))
              else if old(Misleads(to)) then
                Misled(c, left, to) && r == if to <= |c| + B then Ok(to) else Err
              else if old(Overshoots(to)) then
                && Sound() && !Stranded() && r == Ok(to) && Pos() == to && inner.buf.dirty
                && |old(Content())| == |c| + B && Content() == Splice(old(Content()), to - B, Zeros(B))
              else
                && Sound() && r == Ok(to) && Pos() == to && Content() == ZeroExtend(c, to)
                && (if to > |c| then inner.buf.dirty else inner.buf.dirty ==> old(inner.buf.dirty))
                && (Stranded() ==> old(Stranded()) && to == old(Pos()))
      ensures match from
              case Start(offset) =>
                && (r.Ok? ==> r == Ok(offset) && Pos() == offset)
                && (r.Err? <==> old(Misleads(offset)) && |old(Kept())| + B < offset)
              case Current(delta) =>
                && (r.Ok? ==> r == Ok(old(Pos()) + delta) && Pos() == old(Pos()) + delta)
                && (r.Err? <==> old(Pos()) + delta < 0
                                || (old(Misleads(Pos() + delta)) && |old(Kept())| + B < old(Pos()) + delta))
              case End(delta) =>
                && (r.Ok? ==> r == Ok(old(ReportedLen()) + delta) && Pos() == old(ReportedLen()) + delta)
                && (r.Err? <==> old(ReportedLen()) + delta < 0
                                || (old(Misleads(ReportedLen() + delta))
                                    && |old(Kept())| + B < old(ReportedLen()) + delta))
    {
      hide Splice, Stores, Off, Index, Within, ZeroExtend;
      hide Misled, Sound, Leftover, Overshoots, Misleads, Stale, Content, Kept;
      var len := 0;
      if from.End? {
        len := GetPlaintextLen();
      }
      var to := Target(from, len, Pos());
      if to < 0 {
        return Err;
      }
      var moved := MoveTo(to);
      return if moved.Err? then Err else Ok(Pos());
    }

    lemma OvershootsOver(to: nat)
      requires Movable() && Overshoots(to)
      ensures |Content()| == |Kept()| + B
    {
      hide Stores, Off;
      SpliceAtEnd(inner.plain, inner.buf.Contents());
    }

    /** In order, only a stale move misleads. */
    lemma SoundMoves()
      requires Valid() && Sound()
      ensures !Leftover() && Movable() && Kept() == Content()
      ensures forall to: nat :: !Overshoots(to) && (Misleads(to) <==> Stale(to))
    {
      hide Stores, Off, Index, Within, Splice;
      BlockLen(inner.plain, B, inner.blockIndex);
    }

    /** A seek to where the writer is does nothing. */
    lemma AtPos()
      requires Movable()
      ensures !(Sound() && Leftover()) && !Overshoots(Pos())
      ensures if Leftover() then Misleads(Pos()) && Misled(Kept(), inner.buf.Contents(), Pos()) && Pos() <= |Kept()| + B
              else !Misleads(Pos()) && ZeroExtend(Kept(), Pos()) == Content() && Pos() <= |Kept()|
    {
      hide Stores, Off;
      BlockLen(inner.plain, B, inner.blockIndex);
      SpliceAtEnd(inner.plain, inner.buf.Contents());
      ZeroExtendShort(Kept(), Pos());
    }

    /** Before a write: loads block 0 on first use, and the next block after a full one. In any
        other state it does nothing. */
    method LoadForWrite()
      requires Valid()
      modifies Repr(), inner.out.node`bytes
      ensures Valid() && Content() == old(Content()) && Pos() == old(Pos()) && (Sound() <==> old(Sound()))
      ensures inner.plain == if old(inner.Full()) then old(Content()) else old(inner.plain)
      ensures if old(inner.Full() || (Pos() == 0 && inner.buf.available == 0))
              then !inner.Unloaded() && !inner.buf.dirty && inner.buf.posWrite == 0
              else inner.blockIndex == old(inner.blockIndex) && inner.buf.Contents() == old(inner.buf.Contents())
                   && inner.buf.posWrite == old(inner.buf.posWrite) && inner.buf.dirty == old(inner.buf.dirty)
      ensures inner.Unloaded() <==> old(Stranded())
      ensures inner.Unloaded() ==> inner.blockIndex == old(inner.blockIndex)
      ensures !old(inner.Full()) ==> inner.out.node.bytes == old(inner.out.node.bytes)
    {
      hide Splice, Stores, Off, Index, Within, Block;
      OffNext(0);
      OffBound(0, B, inner.blockIndex);
      OffUnique(0, B, 0);
      if Pos() == 0 && inner.buf.available == 0 {
        EnterFirstBlock();
      } else if inner.buf.dirty && inner.buf.Remaining() == 0 {
        var _ := inner.Flush();
        StoredOffset(inner.out.node.bytes, inner.plain, inner.blockIndex);
        if Off(inner.blockIndex, C) < |inner.out.node.bytes| {
          EnterBlock();
        }
      }
    }

    /** A clean buffer holds bytes of a block that the file does not have. */
    ghost predicate Ahead()
      requires Valid()
      reads Repr(), inner.out.node
    {
      !inner.buf.dirty && inner.buf.available > 0 && Off(inner.blockIndex, B) == |inner.plain|
    }

    /** Writes as much as the current block takes, nothing when jammed: the splice of those
        bytes at the position. The layout survives exactly when no stranded stored block is
        cut short, and is restored exactly when the bytes that a stale seek left are written
        over, or a cut block is filled up again. */
    method Write(src: Bytes) returns (n: nat)
      requires Valid()
      modifies Repr(), inner.out.node`bytes
      ensures Valid()
      ensures n == if old(inner.Jammed()) then 0 else Min(|src|, Room(old(Pos())))
      ensures Content() == Splice(old(Content()), old(Pos()), src[..n]) && Pos() == old(Pos()) + n
      ensures inner.plain == if old(inner.Full()) then old(Content()) else old(inner.plain)
      ensures n > 0 ==> inner.buf.dirty && inner.blockIndex == Index(old(Pos()), B)
      ensures n == 0 ==> (inner.buf.dirty <==> old(inner.buf.dirty && !inner.Full()))
      ensures old(Stranded()) ==> inner.buf.Contents() == src[..n]
      ensures old(Sound()) ==>
                (Sound() <==> !(old(Stranded()) && 0 < n < |Block(old(inner.plain), B, old(inner.blockIndex))|))
      ensures old(Ahead()) ==> (Sound() <==> old(Sound()) || n > 0)
      ensures old(inner.buf.dirty && !Sound()) ==>
                (Sound() <==> |Block(old(inner.plain), B, old(inner.blockIndex))| <= old(inner.buf.posWrite) + n)
      ensures Stranded() ==> old(Stranded())
      ensures !old(inner.Full()) ==> inner.out.node.bytes == old(inner.out.node.bytes)
    {
      hide Splice, Stores, Off, Index, Within, Block, Room;
      LoadForWrite();
      assert !inner.Full();
      BlockLen(inner.plain, B, inner.blockIndex);
      inner.RoomLeft();
      if inner.buf.posWrite < B {
        OffUnique(Pos(), B, inner.blockIndex);
      }
      var r := inner.Write(src);
      if old(Stranded()) {
        SpliceAtEnd([], src[..r.value]);
        assert [] + src[..r.value] == src[..r.value];
      }
      return r.value;
    }

    /** Writes out a full changed block without loading the next one. */
    method Flush()
      requires Valid()
      modifies Repr(), inner.out.node`bytes
      ensures Valid() && Content() == old(Content()) && Pos() == old(Pos()) && (Sound() <==> old(Sound()))
      ensures if old(inner.Full()) then inner.buf.available == 0 && inner.plain == old(Content())
              else inner.plain == old(inner.plain) && inner.buf.Contents() == old(inner.buf.Contents())
                   && inner.buf.dirty == old(inner.buf.dirty) && inner.blockIndex == old(inner.blockIndex)
      ensures Stranded() <==> old(Stranded() || Strands())
    {
      hide Splice, Stores, Index, Within;
      var _ := inner.Flush();
    }

    /** Closes the writer; the file now stores the content, and decodes to it, unless a stored
        block was cut short. */
    method Finish()
      requires inner.buf.Valid() && !inner.finished && (inner.buf.dirty ==> Valid())
      modifies Repr(), inner.out.node`bytes
      ensures inner.finished
      ensures old(Valid() && Sound()) ==>
                && Stores(inner.out.node.bytes, old(Content()))
                && Decode(inner.out.node.bytes) == Some(old(Content()))
      ensures old(inner.buf.dirty && !Sound()) ==>
                CutShort(inner.out.node.bytes, old(inner.out.node.bytes), old(inner.plain), old(inner.blockIndex),
                         old(inner.buf.Contents()))
      ensures !old(inner.buf.dirty) ==> inner.out.node.bytes == old(inner.out.node.bytes)
    {
      var _ := inner.Finish();
    }

    /** With nothing changed, the content is what the file stores. */
    lemma CleanContent()
      requires Valid() && Sound() && !inner.buf.dirty
      ensures Content() == inner.plain
    {
      hide Splice, Stores, Off, Index, Within, Block;
      SpliceOwnBlock(inner.plain, B, inner.blockIndex);
      SpliceNothing(inner.plain, Off(inner.blockIndex, B));
    }

    /** So it is when the buffer is empty. */
    lemma StrandedContent()
      requires Valid() && Stranded()
      ensures Content() == inner.plain && inner.buf.posWrite == 0
    {
      hide Splice, Stores, Off;
      SpliceNothing(inner.plain, Off(inner.blockIndex, B));
    }

    /** A clean loaded block is not the last full one, or the position is before the end: so
        a seek to this position or below is never stale. */
    lemma CleanLoaded()
      requires Valid() && Sound() && !inner.buf.dirty && inner.buf.available > 0
      ensures Within(|inner.plain|, B) != 0 || Pos() < |inner.plain|
    {
      hide Splice, Stores, Off, Index, Within, Block;
      BlockLen(inner.plain, B, inner.blockIndex);
      OffBound(|inner.plain|, B, inner.blockIndex);
    }
  }
}
