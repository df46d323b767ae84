/** The decrypting reader (`RingCryptoRead` of src/crypto/read.rs), sequential and seekable.
    While `good` holds, the file is a well-formed stream of `plain` and the reader is at a
    `Position` of it; a reader whose file was changed under it is not good, and only stays
    safe to use. */
module SeekableReader {
  import opened Primitives
  import opened Blocks
  import opened HostFiles
  import opened BlockBuffer
  import opened BlockLoader

  // ----- the reader as its user sees it -----

  /** A position in a plaintext, and whether the end was met there. */
  datatype Place = Place(pos: nat, drained: bool)

  /** The length that a reader computes for a plaintext of n bytes. */
  function Computed(n: nat): nat {
    if n > 0 && Within(n, B) == 0 then n - OVERHEAD else n
  }

  /** The block of the last byte. */
  function LastBlock(n: nat): nat { if n == 0 then 0 else Index(n - 1, B) }

  function ReportedAt(n: nat, p: Place): nat { if p.drained then Off(LastBlock(n), B) else p.pos }

  /** The result of a seek, and where it leads: past the end of the data nowhere within the
      last block. */
  function SeekPlace(n: nat, p: Place, from: SeekFrom): (Result<nat>, Place) {
    var to := Target(from, Computed(n), ReportedAt(n, p));
    if to < 0 then (Err, p)
    else
      var q := Min(to, Computed(n));
      if p.drained && Index(q, B) == LastBlock(n) then (Ok(ReportedAt(n, p)), p) else (Ok(q), Place(q, false))
  }

  /** The bytes of one read: at most those up to the end of the block. */
  function ReadPlace(plain: Bytes, p: Place, limit: nat): (Bytes, Place) {
    var bytes := Slice(plain, p.pos, p.pos + Min(limit, Room(p.pos)));
    (bytes, Place(p.pos + |bytes|, bytes == [] && plain != []))
  }

  /** The bytes of a positioned read that first seeks and gives up unless it arrives, and
      whether the end was met in it. */
  function ReadAtPlace(plain: Bytes, drained: bool, offset: nat, n: nat): (Bytes, bool) {
    var q := Min(offset, Computed(|plain|));
    var stuck := drained && Index(q, B) == LastBlock(|plain|);
    if offset == q && !stuck then (Slice(plain, offset, offset + n), plain != [] && |plain| < offset + n)
    else ([], stuck)
  }

  /** The bytes are right exactly when the offset is past the end, or is one the reader gets to. */
  lemma ReadAtIsRight(plain: Bytes, drained: bool, offset: nat, n: nat)
    requires n > 0
    ensures ReadAtPlace(plain, drained, offset, n).0 == Slice(plain, offset, offset + n) <==>
              || |plain| <= offset
              || (offset <= Computed(|plain|) && !(drained && Index(offset, B) == LastBlock(|plain|)))
    ensures ReadAtPlace(plain, drained, offset, n).0 in {Slice(plain, offset, offset + n), []}
  {
    hide Index, Within;
  }

  class Reader {
    const input: File
    const buf: BufMut
    var blockIndex: nat
    ghost const plain: Bytes
    ghost var good: bool

    ghost function Repr(): set<object> { {this, input, buf, buf.data} }

    ghost predicate Shape()
      reads Repr()
    {
      buf.Valid() && buf.data.Length == C
    }

    /** The file cursor is at block `blockIndex`, and the buffer is empty or holds the block
        before it. */
    ghost predicate Aligned()
      reads Repr(), input.node
    {
      && Shape() && Stores(input.node.bytes, plain)
      && input.pos == Min(Off(blockIndex, C), |input.node.bytes|)
      && (blockIndex > 0 ==> Off(blockIndex, B) < |plain| + B)
      && if buf.available == 0 then buf.posRead == 0
         else blockIndex > 0 && NONCE_LEN <= buf.posRead
              && buf.data[NONCE_LEN..buf.available] == Block(plain, B, blockIndex - 1)
    }

    /** A read has met the end of the data, which leaves the buffer empty. */
    ghost predicate Drained()
      reads Repr()
    {
      buf.available == 0 && blockIndex > 0
    }

    ghost predicate Valid()
      reads Repr(), input.node
    {
      && Shape()
      && (good ==> Aligned() && (Drained() ==> |plain| <= Off(blockIndex, B)))
    }

    /** Where the plaintext of the next stored block starts. */
    ghost function NextStart(): nat
      reads Repr()
    {
      Min(Off(blockIndex, B), |plain|)
    }

    /** The position of the next byte that a read returns. */
    ghost function Position(): int
      reads Repr()
    {
      NextStart() - (buf.available - buf.posRead)
    }

    /** An upper bound for the bytes that reads can still return. */
    ghost function Unread(): nat
      requires Shape()
      reads Repr(), input.node
    {
      Max(0, |input.node.bytes| - input.pos) + buf.AvailableRead()
    }

    /** The position the reader itself reports (`pos`). */
    function Reported(): nat
      reads Repr()
    {
      (if blockIndex == 0 then 0 else Off(blockIndex - 1, B))
      + (if buf.posRead < NONCE_LEN then 0 else buf.posRead - NONCE_LEN)
    }

    constructor (input: File, ghost plain: Bytes)
      requires input.pos == 0
      ensures Valid() && fresh(Repr() - {input}) && this.input == input && this.plain == plain
      ensures good == Stores(input.node.bytes, plain)
      ensures Position() == 0 && !Drained()
    {
      this.input := input;
      this.plain := plain;
      buf := new BufMut(C);
      blockIndex := 0;
      good := Stores(input.node.bytes, plain);
    }

    /** What is reported is the position, except after a drained read. */
    lemma ReportedIsPosition()
      requires Aligned()
      ensures if Drained() then Reported() == Off(blockIndex - 1, B) else Reported() == Position()
      ensures 0 <= Position() <= |plain|
      ensures plain == [] ==> blockIndex == 0
    {
      hide Stores, Off, Block, Slice;
      OffNext(0);
      if blockIndex > 0 {
        OffNext(blockIndex - 1);
        BlockLen(plain, B, blockIndex - 1);
      }
    }

    /** What is left in the buffer reaches to the end of the block or of the plaintext. */
    lemma AvailableIsRoom()
      requires Aligned() && buf.AvailableRead() > 0
      ensures Position() >= 0 && buf.AvailableRead() == Min(Room(Position()), |plain| - Position())
    {
      hide Stores, Off, Block, Index, Within;
      BlockLen(plain, B, blockIndex - 1);
      OffNext(blockIndex - 1);
      OffUnique(Position(), B, blockIndex - 1);
    }

    /** The block index that the reported position lies in. */
    lemma LocateReported()
      requires good ==> Aligned()
      ensures good && blockIndex == 0 ==> Reported() == Index(Reported(), B) == Within(Reported(), B) == 0
      ensures good && blockIndex > 0 && buf.posRead < NONCE_LEN + B ==>
                && Index(Reported(), B) == blockIndex - 1
                && Within(Reported(), B) == Max(0, buf.posRead - NONCE_LEN)
      ensures good && blockIndex > 0 && buf.posRead == NONCE_LEN + B ==>
                && Index(Reported(), B) == blockIndex && Within(Reported(), B) == 0 && buf.AvailableRead() == 0
    {
      hide Stores, Index, Within, Off, Block;
      if good {
        if blockIndex == 0 {
          OffNext(0);
          OffUnique(0, B, 0);
        } else if buf.posRead < NONCE_LEN + B {
          OffUnique(Reported(), B, blockIndex - 1);
        } else if buf.posRead == NONCE_LEN + B {
          OffNext(blockIndex - 1);
          OffUnique(Reported(), B, blockIndex);
        }
      }
    }

    /** Loads the next block. */
    method Load() returns (r: Result<()>)
      requires Shape() && (good ==> Aligned())
      modifies Repr()
      ensures Valid() && good == old(good)
      ensures good ==> && r.Ok? && Position() == old(NextStart())
                       && (buf.available == 0 <==> |plain| <= old(NextStart()))
                       && (buf.available > 0 ==> buf.posRead == NONCE_LEN)
                       && (buf.available == 0 ==> blockIndex == old(blockIndex))
      ensures buf.available > 0 ==> buf.AvailableRead() > 0
      ensures Unread() <= old(Unread())
    {
      hide Stores, Off, Slice, Block, Loaded, OpenBlock;
      if good {
        StoredLoads(input.node.bytes, plain, blockIndex, input.pos);
      }
      SliceAppend(input.node.bytes, input.pos, input.pos, input.pos + C);
      BlockLen(plain, B, blockIndex);
      OffNext(blockIndex);
      var i := DecryptBlock(blockIndex, buf, input);
      if i.Err? {
        return Err;
      }
      blockIndex := i.value;
      return Ok(());
    }

    /** Takes bytes from the buffer. */
    method Take(limit: nat) returns (out: Bytes)
      requires Shape() && (good ==> Aligned())
      modifies buf`posRead
      ensures Shape() && (good ==> Aligned())
      ensures |out| == Min(limit, old(buf.AvailableRead())) && Unread() + |out| == old(Unread())
      ensures good ==> out == Slice(plain, old(Position()), old(Position()) + |out|)
                       && Position() == old(Position()) + |out|
    {
      hide Stores, Off, Slice, Block;
      ghost var p, from, n := Position(), buf.posRead, Min(limit, buf.AvailableRead());
      if good {
        ReportedIsPosition();
        SliceEmpty(plain, p);
        if buf.available > 0 {
          var data, k := buf.data[..], from - NONCE_LEN;
          SliceOfBlock(plain, B, blockIndex - 1, k, k + n);
          assert data[NONCE_LEN..buf.available] == Block(plain, B, blockIndex - 1);
          SliceOfSlice(data, NONCE_LEN, buf.available, k, k + n);
        }
      }
      out := buf.Read(limit);
    }

    lemma KnowAvailable()
      requires good ==> Aligned()
      ensures good ==> 0 <= Position() <= |plain|
      ensures good && buf.AvailableRead() > 0 ==> buf.AvailableRead() == Min(Room(Position()), |plain| - Position())
    {
      hide Stores, Off, Block, Room;
      if good {
        ReportedIsPosition();
        if buf.AvailableRead() > 0 {
          AvailableIsRoom();
        }
      }
    }

    /** Reads from the current block, or from the next one when that is used up. The result
        is the plaintext at the position, and empty only at the end of the data. A read of
        nothing moves to the next block instead. */
    method Read(limit: nat) returns (r: Result<Bytes>)
      requires Shape() && (good ==> Aligned())
      modifies Repr()
      ensures Valid() && good == old(good)
      ensures r.Ok? ==> |r.value| <= limit && Unread() + |r.value| <= old(Unread())
      ensures good && limit > 0 ==>
                && r.Ok? && 0 <= old(Position()) <= |plain|
                && r.value == Slice(plain, old(Position()), old(Position()) + |r.value|)
                && Position() == old(Position()) + |r.value|
                && (r.value == [] <==> |plain| <= old(Position()))
                && (r.value == [] <==> buf.available == 0)
                && (r.value == [] ==> blockIndex == old(blockIndex))
                && |r.value| == Min(limit, Min(Room(old(Position())), |plain| - old(Position())))
      ensures good && limit == 0 ==> r == Ok([]) && Position() == old(NextStart())
    {
      hide Stores, Off, Slice, Block, Room;
      KnowAvailable();
      var out := Take(limit);
      if out != [] {
        return Ok(out);
      }
      var loaded := Load();
      if loaded.Err? {
        return Err;
      }
      KnowAvailable();
      out := Take(limit);
      return Ok(out);
    }

    /** Reads until `n` bytes are there or the data ends (`stream_util::read`). */
    method ReadFull(n: nat) returns (r: Result<Bytes>)
      requires Valid() && n > 0
      modifies Repr()
      ensures Valid() && good == old(good)
      ensures r.Ok? ==> |r.value| <= n
      ensures good ==> && r == Ok(Slice(plain, old(Position()), old(Position()) + n))
                       && Position() == old(Position()) + |r.value|
                       && (|r.value| < n <==> buf.available == 0)
    {
      hide Stores, Off, Slice, Block, Room, Aligned, Position, NextStart;
      ghost var p := Position();
      if good {
        ReportedIsPosition();
        SliceEmpty(plain, p);
        SliceAppend(plain, p, p, p + n);
      }
      var out := [];
      while |out| < n
        invariant Valid() && good == old(good) && |out| <= n
        invariant good ==> && Position() == p + |out| <= |plain|
                           && out == Slice(plain, p, p + |out|) && (out == [] || buf.available > 0)
        decreases n - |out|
      {
        var k := |out|;
        var more := Read(n - k);
        if more.Err? {
          return Err;
        }
        if good {
          SliceAppend(plain, p, p + k, p + k + |more.value|);
          SliceAppend(plain, p, p + k, p + n);
          ReportedIsPosition();
        }
        if more.value == [] {
          break;
        }
        out := out + more.value;
      }
      return Ok(out);
    }

    /** Skips `len` bytes by reading them. At the end of the data it stops, or fails
        (`seek_forward`). */
    method SeekForward(len: nat, stopOnEof: bool) returns (r: Result<nat>)
      requires Shape() && (good ==> Aligned())
      modifies Repr()
      ensures Shape() && good == old(good) && (good ==> Aligned()) && (len > 0 ==> Valid())
      ensures len == 0 ==> unchanged(Repr())
      ensures good ==> && 0 <= old(Position()) <= |plain|
                       && Position() == Min(old(Position()) + len, |plain|)
                       && r == (if !stopOnEof && |plain| < old(Position()) + len then Err
                                else Ok(Position() - old(Position())))
                       && (len > 0 ==> (buf.available == 0 <==> |plain| < old(Position()) + len))
                       && (old(Position()) == |plain| ==> blockIndex == old(blockIndex))
    {
      hide Stores, Off, Slice, Block, Room;
      ghost var p := Position();
      if good {
        ReportedIsPosition();
      }
      var pos := 0;
      while pos < len
        invariant 0 <= pos <= len && Shape() && good == old(good) && (good ==> Aligned())
        invariant pos == 0 ==> unchanged(Repr())
        invariant pos > 0 ==> Valid() && (good ==> p < |plain| && buf.available > 0)
        invariant good ==> Position() == p + pos <= |plain|
        decreases len - pos
      {
        var readLen := if pos + BUF_SIZE > len then len - pos else BUF_SIZE;
        var skipped := Read(readLen);
        if skipped.Err? {
          return Err;
        }
        pos := pos + |skipped.value|;
        if good {
          ReportedIsPosition();
        }
        if skipped.value == [] {
          if !stopOnEof {
            return Err;
          }
          break;
        }
      }
      return Ok(pos);
    }

    /** Moves within the block of the reported position. A drained reader cannot: its buffer
        is empty and its file at the end, so it stays where it is. */
    method SeekInBlock(p: nat) returns (r: Result<()>)
      requires Valid() && Index(Reported(), B) == Index(p, B) && Reported() != p
      requires good ==> p <= |plain|
      modifies Repr()
      ensures Valid() && good == old(good)
      ensures good && !old(Drained()) ==> r.Ok? && Position() == p && !Drained()
      ensures good && old(Drained()) ==> r.Ok? && Drained() && Position() == |plain| && blockIndex == old(blockIndex)
    {
      hide Stores, Off, Slice, Block, Index, Within;
      if good {
        ReportedIsPosition();
      }
      LocateReported();
      OffIndex(p, B);
      var atFullBlockEnd := Within(Reported(), B) == 0 && buf.AvailableRead() == 0;
      if buf.available > 0 && !atFullBlockEnd {
        if good {
          BlockLen(plain, B, blockIndex - 1);
          OffNext(blockIndex - 1);
        }
        var moved := buf.SeekRead(Start(NONCE_LEN + Within(p, B)));
        r := if moved.Err? then Err else Ok(());
      } else {
        var moved := SeekForward(Within(p, B), true);
        r := if moved.Err? then Err else Ok(());
      }
    }

    /** Moves to another block: goes there in the file, loads it and skips into it. */
    method SeekToBlock(p: nat) returns (r: Result<()>)
      requires Valid()
      requires good ==> p <= |plain| && (Within(p, B) == 0 ==> p < |plain|)
      modifies Repr()
      ensures Valid() && good == old(good)
      ensures good ==> r.Ok? && Position() == p && !Drained()
    {
      hide Stores, Off, Slice, Block, Index, Within;
      OffIndex(p, B);
      if good {
        StoredOffset(input.node.bytes, plain, Index(p, B));
      }
      input.Seek(Off(Index(p, B), C));
      buf.Clear();
      blockIndex := Index(p, B);
      if Within(p, B) == 0 {
        r := Load();
        if r.Err? {
          return;
        }
      }
      var moved := SeekForward(Within(p, B), true);
      r := if moved.Err? then Err else Ok(());
    }

    /** The plaintext length that the reader computes from the length of the file. */
    function Len(): nat
      reads this, input.node
    {
      LenFormula(|input.node.bytes|)
    }

    /** A drained reader is asked into the last block. */
    ghost predicate Stuck(p: nat)
      reads Repr()
    {
      Drained() && Index(p, B) + 1 == blockIndex
    }

    /** The computed length is the length of the plaintext, or 28 less when that is a positive
        number of full blocks. */
    lemma LenIsPlainLen()
      requires Stores(input.node.bytes, plain)
      ensures Len() == if |plain| > 0 && Within(|plain|, B) == 0 then |plain| - OVERHEAD else |plain|
    {
      hide Off, Index, Within, Stores;
      StoresLen(input.node.bytes, plain);
      LengthInversion(|plain|);
    }

    /** The start of the last block, which a drained reader reports, is before the computed
        length. */
    lemma LastBlockStart()
      requires Valid() && good && Drained()
      ensures Reported() == Off(blockIndex - 1, B) < Len() && Index(Reported(), B) + 1 == blockIndex
    {
      hide Stores, LenFormula, Index, Within, Off;
      LenIsPlainLen();
      OffNext(blockIndex - 1);
      OffUnique(Reported(), B, blockIndex - 1);
      OffBound(|plain|, B, blockIndex - 1);
    }

    /** The last block is where the last byte is. */
    lemma StuckIs(p: nat)
      requires Valid() && good
      ensures Drained() ==> plain != [] && blockIndex == Index(|plain| - 1, B) + 1
      ensures Stuck(p) <==> Drained() && plain != [] && Index(p, B) == Index(|plain| - 1, B)
    {
      hide Stores, Off, Block, Index, Within;
      if Drained() {
        ReportedIsPosition();
        OffNext(0);
        OffNext(blockIndex - 1);
        OffUnique(|plain| - 1, B, blockIndex - 1);
      }
    }

    /** Moves to a position, at most to the computed length. It gets there exactly when it is
        not stuck. */
    method Seek(from: SeekFrom) returns (r: Result<nat>)
      requires Valid()
      modifies Repr()
      ensures Valid() && good == old(good)
      ensures good ==>
                var to := Target(from, Len(), old(Reported()));
                var p := Min(to, Len());
                if to < 0 then r.Err? && unchanged(Repr())
                else if old(Stuck(p)) then
                  r == Ok(Reported()) && Drained() && Position() == |plain| && blockIndex == old(blockIndex)
                else r == Ok(p) && Position() == p && Reported() == p && !Drained()
      ensures good ==>
                match from
                case Start(offset) => r.Ok? && (!Drained() ==> r.value == Min(offset, Len()))
                case Current(delta) =>
                  && (r.Err? <==> old(Reported()) + delta < 0)
                  && (r.Ok? && !Drained() ==> r.value == Min(old(Reported()) + delta, Len()))
                case End(delta) =>
                  && (r.Err? <==> Len() + delta < 0)
                  && (r.Ok? && !Drained() ==> r.value == Min(Len() + delta, Len()))
    {
      hide Stores, Off, Slice, Block, Index, Within, LenFormula;
      var to := Target(from, Len(), Reported());
      if to < 0 {
        return Err;
      }
      var p := Min(to, Len());
      if good {
        LenIsPlainLen();
        ReportedIsPosition();
        LocateReported();
      }
      if Reported() == p {
        return Ok(p);
      }
      var moved: Result<()>;
      if Index(Reported(), B) == Index(p, B) {
        moved := SeekInBlock(p);
      } else {
        moved := SeekToBlock(p);
      }
      if moved.Err? {
        return Err;
      }
      if good {
        ReportedIsPosition();
      }
      return Ok(Reported());
    }

    /** Seeks to an offset and asks for the position: is it the wanted one? */
    method SeekExact(offset: nat) returns (r: Result<bool>)
      requires Valid()
      modifies Repr()
      ensures Valid() && good == old(good)
      ensures good && offset <= Len() && !old(Stuck(offset)) ==> r == Ok(true) && Position() == offset && !Drained()
      ensures good && !(offset <= Len() && !old(Stuck(offset))) ==>
                r.Ok? && (r.value ==> Position() == |plain| && Drained())
                && (Drained() <==> old(Stuck(Min(offset, Len()))))
    {
      hide Stores, Off, Slice, Block, Index, Within, LenFormula;
      if good {
        LenIsPlainLen();
      }
      var moved := Seek(Start(offset));
      if moved.Err? {
        return Err;
      }
      if good {
        ReportedIsPosition();
        if Drained() {
          LastBlockStart();
        }
      }
      var pos := Seek(Current(0));
      r := if pos.Err? then Err else Ok(pos.value == offset);
    }

    /** A positioned read as `EncryptedFs::read` makes it: seek, ask for the position, and give
        up unless it is the wanted one. The bytes are right exactly when the offset is past
        the end, or is one the reader can get to; otherwise none come back. */
    method ReadAt(offset: nat, n: nat) returns (r: Result<Bytes>, arrived: bool)
      requires Valid() && n > 0
      modifies Repr()
      ensures Valid() && good == old(good)
      ensures good ==> r == Ok(if offset <= Len() && !old(Stuck(offset)) then Slice(plain, offset, offset + n) else [])
      ensures good ==> (r == Ok(Slice(plain, offset, offset + n)) <==>
                          |plain| <= offset || (offset <= Len() && !old(Stuck(offset))))
      ensures good ==>
                (Drained() <==> if offset <= Len() && !old(Stuck(offset)) then plain != [] && |plain| < offset + n
                                else old(Stuck(Min(offset, Len()))))
      ensures r.Ok? && r.value != [] ==> arrived
    {
      hide Stores, Off, Slice, Block, Index, Within, LenFormula;
      var there := SeekExact(offset);
      if there.Err? {
        return Err, false;
      }
      ghost var p := Position();
      if good {
        LenIsPlainLen();
        ReportedIsPosition();
        SliceAppend(plain, offset, offset, offset + n);
        SliceAppend(plain, p, p, p + n);
        OffNext(0);
      }
      if !there.value {
        return Ok([]), false;
      }
      arrived := true;
      r := ReadFull(n);
      if good {
        ReportedIsPosition();
      }
    }
  }
}
