/** Loading one stored block into a buffer (the `decrypt_block!` macro of src/crypto/read.rs). */
module BlockLoader {
  import opened Primitives
  import opened Blocks
  import opened HostFiles
  import opened BlockBuffer

  /** Reads until the buffer is full or the file ends, whatever sizes the reads come in. */
  method FillFromFile(buf: BufMut, input: File) returns (len: nat)
    modifies input, buf.data
    ensures len <= buf.data.Length
    ensures buf.data[..len] == Slice(input.node.bytes, old(input.pos), old(input.pos) + buf.data.Length)
    ensures input.pos == old(input.pos) + len
  {
    hide Slice;
    ghost var file, p := input.node.bytes, input.pos;
    SliceEmpty(file, p);
    len := 0;
    while true
      invariant len <= buf.data.Length
      invariant input.pos == old(input.pos) + len
      invariant len > 0 ==> input.pos <= |input.node.bytes|
      invariant buf.data[..len] == Slice(input.node.bytes, old(input.pos), old(input.pos) + len)
      decreases buf.data.Length - len
    {
      ghost var before := buf.data[..len];
      var n := input.Read(buf.data, len);
      assert buf.data[..len + n] == before + buf.data[len..len + n];
      SliceAppend(file, p, p + len, p + len + n);
      len := len + n;
      if n == 0 {
        SliceAppend(file, p, p + len, p + buf.data.Length);
        SliceAppend(file, p + len, p + len, p + buf.data.Length);
        break;
      }
    }
  }

  /** The plaintext that the stored bytes at a file position hold as block i: none at end of
      file, and undefined when they do not open. */
  function Loaded(i: nat, file: Bytes, pos: nat): Option<Bytes> {
    var ct := Slice(file, pos, pos + C);
    if ct == [] then Some([]) else OpenBlock(i, ct)
  }

  /** With the cursor at block i of a well-formed file, or at its end, that is block i. */
  lemma StoredLoads(file: Bytes, plain: Bytes, i: nat, pos: nat)
    requires Stores(file, plain) && pos == Min(Off(i, C), |file|)
    ensures Loaded(i, file, pos) == Some(Block(plain, B, i))
    ensures pos + |Slice(file, pos, pos + C)| == Min(Off(i + 1, C), |file|)
    ensures Block(plain, B, i) == [] ==> Slice(file, pos, pos + C) == []
  {
    var ct, pt := Block(file, C, i), Block(plain, B, i);
    assert SealedAs(i, ct, pt);
    assert Slice(file, pos, pos + C) == ct;
    if pt != [] {
      SealedOpens(i, ct, pt);
    }
  }

  lemma LoadedLen(i: nat, file: Bytes, pos: nat)
    ensures Loaded(i, file, pos).Some? ==> |Loaded(i, file, pos).value| <= B
  {
  }

  /** Puts a plaintext after the place of the nonce, ready to be read. */
  method PutPlaintext(buf: BufMut, plaintext: Bytes)
    requires buf.Valid() && NONCE_LEN + |plaintext| <= buf.data.Length
    modifies buf, buf.data
    ensures buf.Valid() && buf.posWrite <= old(buf.posWrite) && buf.dirty == old(buf.dirty)
    ensures buf.posRead == NONCE_LEN && buf.available == NONCE_LEN + |plaintext|
    ensures buf.data[NONCE_LEN..buf.available] == plaintext
  {
    forall k | 0 <= k < |plaintext| {
      buf.data[NONCE_LEN + k] := plaintext[k];
    }
    var _ := buf.SeekAvailable(Start(NONCE_LEN + |plaintext|));
    var _ := buf.SeekRead(Start(NONCE_LEN));
  }

  /** Loads the block at the file cursor as block `blockIndex`. The block is opened in place;
      its plaintext follows the nonce. Nothing is loaded at end of file, nor from a block
      that holds no plaintext; a block that does not open is an error. */
  method DecryptBlock(blockIndex: nat, buf: BufMut, input: File) returns (r: Result<nat>)
    requires buf.data.Length == C
    modifies buf, buf.data, input
    ensures buf.Valid() && buf.posWrite == 0 && !buf.dirty
    ensures input.pos == old(input.pos) + |Slice(input.node.bytes, old(input.pos), old(input.pos) + C)|
    ensures var pt := Loaded(blockIndex, input.node.bytes, old(input.pos));
            && (r.Ok? <==> pt.Some?)
            && (r.Ok? && pt.value == [] ==> r.value == blockIndex && buf.available == 0)
            && (r.Ok? && pt.value != [] ==>
                  && r.value == blockIndex + 1 && buf.posRead == NONCE_LEN && buf.available == NONCE_LEN + |pt.value|
                  && buf.data[NONCE_LEN..buf.available] == pt.value)
    ensures r.Err? ==> buf.available == 0
    ensures buf.AvailableRead() <= |Slice(input.node.bytes, old(input.pos), old(input.pos) + C)|
    ensures buf.available == 0 ==> buf.posRead == 0
  {
    hide Slice;
    buf.Clear();
    var len := FillFromFile(buf, input);
    if len == 0 {
      return Ok(blockIndex);
    }
    var ct := buf.data[..len];
    assert Loaded(blockIndex, input.node.bytes, old(input.pos)) == OpenBlock(blockIndex, ct);
    if len < NONCE_LEN {
      return Err;
    }
    var clear := CIPHER.open(LeBytes(blockIndex), ct[..NONCE_LEN], ct[NONCE_LEN..]);
    if clear.None? {
      return Err;
    }
    if clear.value == [] {
      return Ok(blockIndex);
    }
    PutPlaintext(buf, clear.value);
    return Ok(blockIndex + 1);
  }
}
