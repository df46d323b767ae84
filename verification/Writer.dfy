/** The sequential encrypting writer (`RingCryptoWrite` of src/crypto/write.rs). Its state is
    one buffered block over a well-formed stored stream; `Content` is the plain byte sequence
    it stands for, and `Pos` the position of the next byte written. */
module SequentialWriter {
  import opened Primitives
  import opened Blocks
  import opened HostFiles
  import opened BlockBuffer

  /** Writes nonce, text and tag one after the other at the file cursor. */
  method WriteSealed(out: File, nonce: Nonce, text: Bytes, tag: Bytes)
    requires out.pos <= |out.node.bytes|
    modifies out, out.node`bytes
    ensures out.node.bytes == Splice(old(out.node.bytes), old(out.pos), nonce + (text + tag))
    ensures out.pos == old(out.pos) + NONCE_LEN + |text| + |tag|
  {
    hide Splice;
    SpliceThrice(out.node.bytes, out.pos, nonce, text, tag);
    out.WriteAll(nonce);
    out.WriteAll(text);
    out.WriteAll(tag);
  }

  /** Block i of a file that stored `plain` was resealed with fewer bytes: what the file then
      decodes to is what the new block, with the tail of the old one behind it, opens to. */
  ghost predicate CutShort(file': Bytes, file: Bytes, plain: Bytes, i: nat, data: Bytes) {
    ResealedAt(file', file, i, data) && Decode(file') == CutMeaning(file', plain, i)
  }

  lemma BecomesCutShort(file: Bytes, plain: Bytes, i: nat, nonce: Nonce, data: Bytes)
    requires Stores(file, plain) && 0 < |data| < |Block(plain, B, i)|
    ensures Off(i, C) <= |file|
    ensures CutShort(Splice(file, Off(i, C), nonce + SealBlock(i, nonce, data)), file, plain, i, data)
  {
    hide Splice, Stores, Off, Block, Decode, CutMeaning;
    CutDecodes(file, plain, i, nonce, data);
  }

  class Writer {
    const out: File
    const buf: BufMut
    var blockIndex: nat
    var finished: bool
    /** The plaintext that the file stores at this moment, buffer aside. */
    ghost var plain: Bytes

    ghost function Repr(): set<object> { {this, out, buf, buf.data} }

    ghost predicate Stored()
      reads Repr(), out.node
    {
      && buf.Valid() && buf.data.Length == B
      && Stores(out.node.bytes, plain)
    }

    /** The layout invariant: the file is well formed, and its cursor is where the buffered
        block belongs. */
    ghost predicate Valid()
      reads Repr(), out.node
    {
      && Stored()
      && Off(blockIndex, B) <= |plain|
      && out.pos == Off(blockIndex, C)
      && (buf.dirty ==> buf.available > 0)
    }

    /** The buffer is empty, or a loaded block, or a changed block no shorter than the stored
        one it will replace. */
    ghost predicate Sound()
      requires Valid()
      reads Repr(), out.node
    {
      || buf.available == 0
      || (if buf.dirty then |Block(plain, B, blockIndex)| <= buf.available
          else buf.posWrite < B && buf.Contents() == Block(plain, B, blockIndex))
    }

    /** The buffer is empty although the file has a block at its place. */
    ghost predicate Unloaded()
      reads Repr()
    {
      buf.available == 0 && Off(blockIndex, B) < |plain|
    }

    /** The writer stands at the very end of its content. */
    ghost predicate Appending()
      reads Repr(), out.node
    {
      && Valid() && Sound() && !finished
      && buf.posWrite == buf.available
      && |plain| <= Off(blockIndex, B) + buf.available
    }

    /** Nothing is stored beyond the buffer, so that nothing can be cut short. */
    ghost predicate Covering()
      reads Repr(), out.node
    {
      Valid() && !finished && |plain| <= Off(blockIndex, B) + buf.available
    }

    /** A clean buffer is full, and the cursor at its end: no write gets any further. */
    ghost predicate Jammed()
      reads Repr(), out.node
    {
      Valid() && !finished && !buf.dirty && buf.posWrite == B
    }

    ghost function Content(): Bytes
      requires Valid()
      reads Repr(), out.node
    {
      Splice(plain, Off(blockIndex, B), buf.Contents())
    }

    function Pos(): nat
      reads Repr()
    {
      Off(blockIndex, B) + buf.posWrite
    }

    constructor (out: File, ghost plain: Bytes)
      requires Stores(out.node.bytes, plain) && out.pos == 0
      ensures Valid() && Sound() && !finished
      ensures this.out == out && this.plain == plain && fresh(Repr() - {out})
      ensures blockIndex == 0 && buf.available == 0 && Content() == plain && Pos() == 0
    {
      this.out := out;
      buf := new BufMut(B);
      blockIndex, finished := 0, false;
      this.plain := plain;
      new;
      SpliceNothing(plain, 0);
    }

    /** Seals the buffered block under its index and a new nonce, and writes nonce, text and
        tag at the file cursor. When the block replaced is not longer, the file stores the
        content afterwards. */
    method EncryptAndWrite()
      requires Valid() && buf.dirty
      modifies Repr(), out.node`bytes
      ensures buf.Valid() && buf.data.Length == B
      ensures buf.available == 0 && buf.posWrite == 0 && !buf.dirty
      ensures blockIndex == old(blockIndex) + 1 && finished == old(finished)
      ensures out.pos == old(out.pos) + old(buf.available) + OVERHEAD
      ensures old(Sound()) ==> Stored() && plain == old(Content())
      ensures old(!Sound()) ==>
                CutShort(out.node.bytes, old(out.node.bytes), old(plain), old(blockIndex), old(buf.Contents()))
    {
      hide Splice, Stores, Off, Index, Within, Decode, CutShort;
      ghost var file, content := out.node.bytes, Content();
      StoredOffset(file, plain, blockIndex);
      var data := buf.data[..buf.available];
      var nonce: Nonce := *;
      var sealed := SealBlock(blockIndex, nonce, data);
      forall k | 0 <= k < |data| {
        buf.data[k] := sealed[k];
      }
      if old(Sound()) {
        OverwriteBlock(file, plain, blockIndex, nonce, data);
      } else {
        BecomesCutShort(file, plain, blockIndex, nonce, data);
      }
      WriteSealed(out, nonce, sealed[..|data|], sealed[|data|..]);
      assert sealed[..|data|] + sealed[|data|..] == sealed;
      buf.Clear();
      blockIndex := blockIndex + 1;
      plain := content;
    }

    /** Puts bytes into the buffer, as many as there is room for. */
    method Fill(src: Bytes) returns (n: nat)
      requires Valid()
      modifies Repr()
      ensures Valid() && finished == old(finished) && plain == old(plain) && blockIndex == old(blockIndex)
      ensures n == Min(|src|, B - old(buf.posWrite))
      ensures Content() == Splice(old(Content()), old(Pos()), src[..n])
      ensures buf.posWrite == old(buf.posWrite) + n && buf.available == Max(old(buf.available), buf.posWrite)
      ensures buf.dirty == (old(buf.dirty) || n > 0)
      ensures buf.Contents() == Splice(old(buf.Contents()), old(buf.posWrite), src[..n])
      ensures n == 0 ==> (Sound() <==> old(Sound())) && buf.Contents() == old(buf.Contents())
      ensures old(Appending()) ==> Appending()
      ensures old(Covering()) ==> Covering()
    {
      hide Splice, Stores, Off, Index, Within;
      ghost var o, c, p, content := Off(blockIndex, B), buf.Contents(), buf.posWrite, Content();
      n := buf.Write(src);
      assert Content() == Splice(content, o + p, src[..n]) by { SpliceTwice(plain, o, c, p, src[..n]); }
      assert content == old(Content()) && old(Pos()) == o + p;
      if n == 0 {
        SpliceNothing(c, p);
      }
    }

    /** A full changed buffer, which the next write or flush writes out. */
    predicate Full()
      reads Repr()
    {
      buf.dirty && buf.posWrite == B
    }

    /** Writes as much as the current block takes, or nothing when jammed. The content becomes
        the splice of those bytes. A changed block that is shorter than the stored one cuts
        it, so the layout survives exactly when no unloaded stored block is cut short. */
    method Write(src: Bytes) returns (r: Result<nat>)
      requires Valid()
      modifies Repr(), out.node`bytes
      ensures Valid() && finished == old(finished)
      ensures r.Ok? <==> !finished
      ensures finished ==> (Sound() <==> old(Sound())) && Content() == old(Content()) && Pos() == old(Pos())
      ensures !finished ==>
                && r.value == (if old(Jammed()) then 0 else Min(|src|, Room(old(Pos()))))
                && Content() == Splice(old(Content()), old(Pos()), src[..r.value]) && Pos() == old(Pos()) + r.value
                && plain == (if old(Full()) then old(Content()) else old(plain))
                && blockIndex == old(blockIndex) + (if old(Full()) then 1 else 0)
                && buf.available == (if old(Full()) then r.value
                                     else Max(old(buf.available), old(buf.posWrite) + r.value))
                && buf.dirty == (r.value > 0 || (old(buf.dirty) && !old(Full())))
                && (r.value == 0 ==> (Sound() <==> old(Sound())))
      ensures !finished && !old(Full()) ==>
                && buf.Contents() == Splice(old(buf.Contents()), old(buf.posWrite), src[..r.value])
                && (r.value == 0 ==> buf.Contents() == old(buf.Contents()))
      ensures !old(Full()) ==> out.node.bytes == old(out.node.bytes)
      ensures old(Appending()) ==> Appending()
      ensures old(Covering()) ==> Covering()
    {
      hide Splice, Stores, Off, Index, Within, Block, Room, Appending;
      if finished {
        return Err;
      }
      RoomLeft();
      if buf.dirty && buf.Remaining() == 0 {
        var _ := Flush();
        RoomLeft();
      }
      var n := Fill(src);
      return Ok(n);
    }

    lemma RoomLeft()
      requires Valid()
      ensures buf.posWrite < B ==> Room(Pos()) == B - buf.posWrite
    {
      hide Off, Within, Stores;
      if buf.posWrite < B {
        OffUnique(Pos(), B, blockIndex);
      }
    }

    /** Writes out a full changed block; the content and the position stay the same. */
    method Flush() returns (r: Result<()>)
      requires Valid()
      modifies Repr(), out.node`bytes
      ensures Valid() && Content() == old(Content()) && Pos() == old(Pos()) && (Sound() <==> old(Sound()))
      ensures finished == old(finished) && (r.Ok? <==> !finished)
      ensures if !finished && old(Full())
              then blockIndex == old(blockIndex) + 1 && buf.available == 0 && !buf.dirty && plain == old(Content())
              else blockIndex == old(blockIndex) && plain == old(plain) && buf.Contents() == old(buf.Contents())
                   && buf.dirty == old(buf.dirty) && buf.posWrite == old(buf.posWrite)
      ensures old(Appending()) ==> Appending()
      ensures old(Covering()) ==> Covering()
    {
      hide Off, Stores;
      if finished {
        return Err;
      }
      OffNext(blockIndex);
      if buf.dirty && buf.Remaining() == 0 {
        EncryptAndWrite();
        SpliceNothing(plain, Off(blockIndex, B));
      }
      return Ok(());
    }

    /** Writes out the last block, full or not, and closes the writer. The file now stores the
        content, unless a stored block was cut short. A writer with nothing to write does not
        touch the file. */
    method Finish() returns (r: Result<()>)
      requires buf.Valid() && (buf.dirty ==> Valid())
      modifies Repr(), out.node`bytes
      ensures finished && (r.Ok? <==> !old(finished))
      ensures r.Ok? && old(Valid() && Sound()) ==>
                Stores(out.node.bytes, old(Content())) && Decode(out.node.bytes) == Some(old(Content()))
      ensures r.Ok? && old(buf.dirty && !Sound()) ==>
                CutShort(out.node.bytes, old(out.node.bytes), old(plain), old(blockIndex), old(buf.Contents()))
      ensures r.Err? || !old(buf.dirty) ==> out.node.bytes == old(out.node.bytes)
    {
      hide Splice, Off, Block, Stores, Decode, CutShort;
      if finished {
        return Err;
      }
      if buf.dirty {
        EncryptAndWrite();
      } else if Valid() && Sound() {
        SpliceOwnBlock(plain, B, blockIndex);
        SpliceNothing(plain, Off(blockIndex, B));
      }
      if old(Valid() && Sound()) {
        StoresDecodes(out.node.bytes, old(Content()));
      }
      finished := true;
      return Ok(());
    }
  }

  // ----- std write_all, and src/stream_util.rs -----

  lemma AppendingAtEnd(w: Writer)
    ensures w.Appending() ==> w.Covering() && w.Pos() == |w.Content()| && !w.Jammed()
    ensures w.Covering() ==> w.Pos() <= |w.Content()| && (w.buf.dirty ==> w.Sound())
  {
    hide Stores, Off, Index, Within, Block;
    if w.Covering() {
      BlockLen(w.plain, B, w.blockIndex);
    }
  }

  /** Writes some of the bytes, or none when the writer is jammed. */
  method WriteSome(w: Writer, data: Bytes) returns (n: nat)
    requires w.Covering() && data != []
    modifies w.Repr(), w.out.node`bytes
    ensures w.Covering() && (old(w.Appending()) ==> w.Appending())
    ensures n == 0 <==> old(w.Jammed())
    ensures old(w.Jammed()) ==>
              && w.Jammed() && w.plain == old(w.plain) && w.blockIndex == old(w.blockIndex)
              && w.buf.Contents() == old(w.buf.Contents())
    ensures !old(w.Jammed()) ==>
              && n <= |data| && w.Content() == Splice(old(w.Content()), old(w.Pos()), data[..n])
              && w.Pos() == old(w.Pos()) + n && w.buf.dirty
  {
    hide Splice, Stores, Off, Index, Within, Writer.Content, Writer.Appending;
    AppendingAtEnd(w);
    var r := w.Write(data);
    n := r.value;
    if n == 0 {
      SpliceNothing([], 0);
    }
  }

  /** Writes all the bytes, one block remainder at a time, over what is there and beyond. It
      fails when a write takes none, which is when the writer is jammed. */
  method WriteAll(w: Writer, data: Bytes) returns (r: Result<()>)
    requires w.Covering()
    modifies w.Repr(), w.out.node`bytes
    ensures w.Covering()
    ensures old(w.Appending()) ==> w.Appending() && w.Content() == old(w.Content()) + data
    ensures !old(w.Jammed()) ==>
              && r.Ok? && w.Content() == Splice(old(w.Content()), old(w.Pos()), data)
              && w.Pos() == old(w.Pos()) + |data|
              && (data != [] ==> w.buf.dirty) && (data == [] ==> w.buf.dirty == old(w.buf.dirty))
    ensures old(w.Jammed()) ==>
              && (r.Ok? <==> data == []) && w.Jammed() && w.plain == old(w.plain) && w.blockIndex == old(w.blockIndex)
              && w.buf.Contents() == old(w.buf.Contents())
  {
    hide Splice, Stores, Off, Index, Within, Writer.Content, Writer.Sound, Writer.Appending;
    AppendingAtEnd(w);
    ghost var c, p := w.Content(), w.Pos();
    SpliceNothing(c, p);
    if w.Appending() {
      SpliceAtEnd(c, data);
    }
    var done := 0;
    while done < |data|
      invariant 0 <= done <= |data|
      invariant w.Covering() && (old(w.Appending()) ==> w.Appending())
      invariant !old(w.Jammed()) ==> w.Content() == Splice(c, p, data[..done]) && w.Pos() == p + done
      invariant !old(w.Jammed()) ==> (done > 0 ==> w.buf.dirty) && !w.Jammed()
      invariant done == 0 ==> w.buf.dirty == old(w.buf.dirty)
      invariant old(w.Jammed()) ==>
                  && done == 0 && w.Jammed() && w.plain == old(w.plain) && w.blockIndex == old(w.blockIndex)
                  && w.buf.Contents() == old(w.buf.Contents())
    {
      var n := WriteSome(w, data[done..]);
      if n == 0 {
        return Err;
      }
      SpliceAppend(c, p, data[..done], data[done..][..n]);
      assert data[..done] + data[done..][..n] == data[..done + n];
      done := done + n;
    }
    assert data[..|data|] == data;
    return Ok(());
  }

  /** Writes zeros, a bounded buffer at a time, over what is there and beyond. */
  method FillZeros(w: Writer, len: nat) returns (r: Result<()>)
    requires w.Covering()
    modifies w.Repr(), w.out.node`bytes
    ensures w.Covering()
    ensures old(w.Appending()) ==> w.Appending() && w.Content() == old(w.Content()) + Zeros(len)
    ensures !old(w.Jammed()) ==>
              && r.Ok? && w.Content() == Splice(old(w.Content()), old(w.Pos()), Zeros(len))
              && w.Pos() == old(w.Pos()) + len
              && (len > 0 ==> w.buf.dirty)
    ensures old(w.Jammed()) ==>
              && (r.Ok? <==> len == 0) && w.Jammed() && w.plain == old(w.plain) && w.blockIndex == old(w.blockIndex)
              && w.buf.Contents() == old(w.buf.Contents())
  {
    hide Splice, Stores, Off, Index, Within, Writer.Content, Writer.Sound, Writer.Appending;
    AppendingAtEnd(w);
    ghost var c, p := w.Content(), w.Pos();
    SpliceNothing(c, p);
    if w.Appending() {
      SpliceAtEnd(c, Zeros(len));
    }
    var written := 0;
    while written < len
      invariant 0 <= written <= len
      invariant w.Covering() && (old(w.Appending()) ==> w.Appending())
      invariant !old(w.Jammed()) ==> w.Content() == Splice(c, p, Zeros(written)) && w.Pos() == p + written
      invariant !old(w.Jammed()) ==> (written > 0 ==> w.buf.dirty) && !w.Jammed()
      invariant old(w.Jammed()) ==>
                  && written == 0 && w.Jammed() && w.plain == old(w.plain) && w.blockIndex == old(w.blockIndex)
                  && w.buf.Contents() == old(w.buf.Contents())
    {
      var n := Min(BUF_SIZE, len - written);
      var put := WriteAll(w, Zeros(n));
      if put.Err? {
        return Err;
      }
      SpliceAppend(c, p, Zeros(written), Zeros(n));
      assert Zeros(written) + Zeros(n) == Zeros(written + n);
      written := written + n;
    }
    return Ok(());
  }
}
