/** Copying between an encrypted reader and an encrypted writer (src/stream_util.rs), and what
    is built on it: rewriting a file to a new length, and the sequential round trip. */
module Copying {
  import opened Primitives
  import opened Blocks
  import opened HostFiles
  import opened SequentialWriter
  import opened SeekableReader

  ghost predicate Apart(r: Reader, w: Writer) {
    r.Repr() !! w.Repr() && r.input.node != w.out.node
  }

  /** Copies what one read returns. */
  method CopyPiece(r: Reader, w: Writer, limit: nat) returns (n: Result<nat>)
    requires r.Valid() && w.Appending() && Apart(r, w) && limit > 0
    modifies r.Repr(), w.Repr(), w.out.node`bytes
    ensures r.Valid() && r.good == old(r.good) && w.Appending()
    ensures n.Ok? ==> n.value <= limit
    ensures r.good ==> var p := old(r.Position());
                       && 0 <= p <= |r.plain| && n.Ok? && p + n.value <= |r.plain|
                       && r.Position() == p + n.value
                       && (n.value == 0 <==> p == |r.plain|)
                       && w.Content() == old(w.Content()) + Slice(r.plain, p, p + n.value)
  {
    hide Stores, Off, Slice, Block, Splice, Index, Within;
    if r.good {
      r.ReportedIsPosition();
    }
    var piece := r.Read(limit);
    if piece.Err? {
      return Err;
    }
    if r.good {
      r.ReportedIsPosition();
    }
    var _ := WriteAll(w, piece.value);
    return Ok(|piece.value|);
  }

  /** Copies exactly `len` bytes, or all there are and then fails. */
  method CopyExact(r: Reader, w: Writer, len: nat) returns (res: Result<()>)
    requires r.Valid() && w.Appending() && Apart(r, w)
    modifies r.Repr(), w.Repr(), w.out.node`bytes
    ensures r.Valid() && r.good == old(r.good) && w.Appending()
    ensures r.good ==> var p := old(r.Position());
                       && 0 <= p <= |r.plain|
                       && (res.Ok? <==> p + len <= |r.plain|)
                       && w.Content() == old(w.Content()) + Slice(r.plain, p, p + len)
  {
    hide Stores, Off, Slice, Block, Splice, Index;
    hide Within, Writer.Content, Writer.Sound, Reader.Aligned, Reader.Position;
    ghost var p := r.Position();
    if r.good {
      r.ReportedIsPosition();
      SliceEmpty(r.plain, p);
    }
    var done := 0;
    while done < len
      invariant 0 <= done <= len && r.Valid() && r.good == old(r.good) && w.Appending()
      invariant r.good ==> && r.Position() == p + done <= |r.plain|
                           && w.Content() == old(w.Content()) + Slice(r.plain, p, p + done)
      decreases len - done
    {
      var n := CopyPiece(r, w, Min(BUF_SIZE, len - done));
      if n.Err? {
        return Err;
      }
      if r.good {
        SliceAppend(r.plain, p, p + done, p + done + n.value);
        SliceAppend(r.plain, p, p + done, p + len);
        SliceAppend(r.plain, p + done, p + done, p + len);
      }
      done := done + n.value;
      if done < len && n.value == 0 {
        return Err;
      }
    }
    return Ok(());
  }

  lemma CopiedAndFilled(plain: Bytes, attrSize: nat, size: nat)
    requires Min(attrSize, size) <= |plain|
    ensures Slice(plain, 0, Min(attrSize, size)) + Zeros(Max(0, size - attrSize))
            == ZeroExtend(plain[..Min(attrSize, size)], size)
  {
  }

  /** Copies the old bytes, up to the shorter of the two sizes, and fills up with zeros. */
  method CopyAndFill(r: Reader, w: Writer, attrSize: nat, size: nat) returns (res: Result<()>)
    requires r.Valid() && r.good && r.Position() == 0 && w.Appending() && w.Content() == [] && Apart(r, w)
    modifies r.Repr(), w.Repr(), w.out.node`bytes
    ensures w.Appending() && (res.Ok? <==> Min(attrSize, size) <= |r.plain|)
    ensures res.Ok? ==> w.Content() == ZeroExtend(r.plain[..Min(attrSize, size)], size)
  {
    hide Stores, Off, Slice, Block, Splice, Index, Within, ZeroExtend;
    var len := if size > attrSize then attrSize else size;
    res := CopyExact(r, w, len);
    if res.Err? {
      return;
    }
    CopiedAndFilled(r.plain, attrSize, size);
    if size > attrSize {
      var _ := FillZeros(w, size - attrSize);
    }
  }

  /** A writer at the start of a new file. */
  method NewFile() returns (w: Writer)
    ensures fresh(w.Repr()) && fresh(w.out.node) && w.Appending() && w.Content() == []
  {
    hide Stores, Off, Splice, Index, Within;
    var dst := new Storage([]);
    var out := new File(dst);
    EmptyStores();
    OffNext(0);
    w := new Writer(out, []);
  }

  /** The content part of `set_len`: writes the resized content into a new file. */
  method Rewrite(src: Storage, attrSize: nat, size: nat, ghost plain: Bytes) returns (r: Result<Storage>)
    requires Stores(src.bytes, plain)
    ensures r.Ok? <==> Min(attrSize, size) <= |plain|
    ensures r.Ok? ==> fresh(r.value) && Stores(r.value.bytes, ZeroExtend(plain[..Min(attrSize, size)], size))
  {
    hide Stores, Off, Slice, Block, Splice, Index, Within;
    hide ZeroExtend, Decode, Reader.Aligned, Writer.Sound, Writer.Content;
    var input := new File(src);
    var reader := new Reader(input, plain);
    var writer := NewFile();
    var copied := CopyAndFill(reader, writer, attrSize, size);
    if copied.Err? {
      return Err;
    }
    var _ := writer.Finish();
    return Ok(writer.out.node);
  }

  /** When the recorded size is right, that is truncation or extension with zeros. */
  lemma RewriteMeaning(plain: Bytes, size: nat)
    ensures ZeroExtend(plain[..Min(|plain|, size)], size)
            == if size <= |plain| then plain[..size] else plain + Zeros(size - |plain|)
  {
    assert plain[..|plain|] == plain;
  }

  // ----- sequential round trip -----

  datatype SeqOp = PutAll(data: Bytes) | FlushNow

  function Written(ops: seq<SeqOp>): Bytes {
    if ops == [] then []
    else
      var last := ops[|ops| - 1];
      Written(ops[..|ops| - 1]) + if last.PutAll? then last.data else []
  }

  /** Writes a split of some bytes, flushing anywhere, into a new file. */
  method WriteSplit(ops: seq<SeqOp>) returns (node: Storage)
    ensures fresh(node) && Stores(node.bytes, Written(ops))
  {
    hide Stores, Off, Block, Splice, Index, Within;
    var w := NewFile();
    node := w.out.node;
    for i := 0 to |ops|
      invariant w.Appending() && fresh(w.Repr()) && w.out.node == node && w.Content() == Written(ops[..i])
    {
      assert ops[..i + 1][..i] == ops[..i];
      match ops[i]
      case PutAll(data) =>
        var _ := WriteAll(w, data);
      case FlushNow => var _ := w.Flush();
    }
    assert ops[..|ops|] == ops;
    var _ := w.Finish();
  }

  /** Reads on to the end, in reads of any non-zero sizes, or to the first error, which a
      well-formed file does not have. */
  method ReadRest(reader: Reader, sizes: nat -> nat) returns (r: Result<Bytes>)
    requires reader.Valid() && reader.Position() == 0
    requires forall i :: sizes(i) > 0
    modifies reader.Repr()
    ensures reader.Valid() && reader.good == old(reader.good)
    ensures reader.good ==> r == Ok(reader.plain)
  {
    hide Stores, Off, Block, Slice, Index, Within;
    var bytes, i := [], 0;
    SliceEmpty(reader.plain, 0);
    while true
      invariant reader.Valid() && reader.good == old(reader.good)
      invariant reader.good ==>
                  reader.Position() == |bytes| <= |reader.plain| && bytes == Slice(reader.plain, 0, |bytes|)
      decreases reader.Unread()
    {
      var piece := reader.Read(sizes(i));
      if piece.Err? {
        return Err;
      }
      if reader.good {
        reader.ReportedIsPosition();
        SliceAppend(reader.plain, 0, |bytes|, |bytes| + |piece.value|);
      }
      if piece.value == [] {
        SliceAll(reader.plain);
        return Ok(bytes);
      }
      bytes, i := bytes + piece.value, i + 1;
    }
  }

  /** Reads a file from start to end. */
  method ReadToEnd(node: Storage, ghost plain: Bytes, sizes: nat -> nat) returns (r: Result<Bytes>)
    requires forall i :: sizes(i) > 0
    ensures Stores(node.bytes, plain) ==> r == Ok(plain)
  {
    hide Stores, Off, Block;
    var input := new File(node);
    var reader := new Reader(input, plain);
    r := ReadRest(reader, sizes);
  }

  /** Write, finish, read to the end: the bytes come back, however both sides are cut up. */
  method RoundTrip(ops: seq<SeqOp>, sizes: nat -> nat) returns (bytes: Bytes)
    requires forall i :: sizes(i) > 0
    ensures bytes == Written(ops)
  {
    var node := WriteSplit(ops);
    var r := ReadToEnd(node, Written(ops), sizes);
    bytes := r.value;
  }
}
