/** The one-block buffer with separate read, write and fill cursors (src/crypto/buf_mut.rs). */
module BlockBuffer {
  import opened Primitives
  import opened Blocks

  class BufMut {
    const data: array<byte>
    var posWrite: nat
    var posRead: nat
    var available: nat
    var dirty: bool

    ghost predicate Valid()
      reads this
    {
      posRead <= available && posWrite <= available <= data.Length
    }

    /** The filled part of the buffer. */
    ghost function Contents(): Bytes
      requires Valid()
      reads this, data
    {
      data[..available]
    }

    constructor (capacity: nat)
      ensures Valid() && fresh(data) && data.Length == capacity
      ensures available == 0 && !dirty
    {
      data := new byte[capacity](_ => 0);
      posWrite, posRead, available, dirty := 0, 0, 0, false;
    }

    function Remaining(): nat
      requires Valid()
      reads this
    {
      data.Length - posWrite
    }

    function AvailableRead(): nat
      requires Valid()
      reads this
    {
      available - posRead
    }

    method Clear()
      modifies this
      ensures Valid() && available == 0 && posRead == 0 && posWrite == 0 && !dirty
    {
      posWrite, posRead, available, dirty := 0, 0, 0, false;
    }

    method SeekRead(from: SeekFrom) returns (r: Result<nat>)
      requires Valid()
      modifies this`posRead
      ensures Valid()
      ensures var to := Target(from, data.Length, old(posRead));
              if 0 <= to <= available then r == Ok(to) && posRead == to else r.Err? && posRead == old(posRead)
      ensures match from
              case Start(offset) => r == if offset <= available then Ok(offset) else Err
              case End(delta) => r == if 0 <= data.Length + delta <= available then Ok(data.Length + delta) else Err
              case Current(delta) =>
                r == if 0 <= old(posRead) + delta <= available then Ok(old(posRead) + delta) else Err
    {
      var to := Target(from, data.Length, posRead);
      if to < 0 || available < to {
        return Err;
      }
      posRead := to;
      return Ok(to);
    }

    /** Moving the write cursor past the filled part makes the bytes in between part of it. */
    method SeekWrite(from: SeekFrom) returns (r: Result<nat>)
      requires Valid()
      modifies this`posWrite, this`available
      ensures Valid()
      ensures var to := Target(from, data.Length, old(posWrite));
              if 0 <= to <= data.Length
              then r == Ok(to) && posWrite == to && available == Max(old(available), to)
              else r.Err? && posWrite == old(posWrite) && available == old(available)
      ensures match from
              case Start(offset) => r == if offset <= data.Length then Ok(offset) else Err
              case End(delta) => r == if 0 <= data.Length + delta <= data.Length then Ok(data.Length + delta) else Err
              case Current(delta) =>
                r == if 0 <= old(posWrite) + delta <= data.Length then Ok(old(posWrite) + delta) else Err
    {
      var to := Target(from, data.Length, posWrite);
      if to < 0 || data.Length < to {
        return Err;
      }
      posWrite := to;
      available := Max(posWrite, available);
      return Ok(to);
    }

    /** Cutting the filled part pulls both cursors back into it. */
    method SeekAvailable(from: SeekFrom) returns (r: Result<nat>)
      requires Valid()
      modifies this`posRead, this`posWrite, this`available
      ensures Valid()
      ensures var to := Target(from, data.Length, old(available));
              if 0 <= to <= data.Length
              then r == Ok(to) && available == to && posWrite == Min(old(posWrite), to)
                   && posRead == Min(old(posRead), to)
              else r.Err? && available == old(available) && posWrite == old(posWrite) && posRead == old(posRead)
      ensures match from
              case Start(offset) => r == if offset <= data.Length then Ok(offset) else Err
              case End(delta) => r == if 0 <= data.Length + delta <= data.Length then Ok(data.Length + delta) else Err
              case Current(delta) =>
                r == if 0 <= old(available) + delta <= data.Length then Ok(old(available) + delta) else Err
    {
      var to := Target(from, data.Length, available);
      if to < 0 || data.Length < to {
        return Err;
      }
      available := to;
      posWrite := Min(posWrite, available);
      posRead := Min(posRead, available);
      return Ok(to);
    }

    method Write(src: Bytes) returns (n: nat)
      requires Valid()
      modifies this`posWrite, this`available, this`dirty, data
      ensures Valid()
      ensures n == Min(old(Remaining()), |src|)
      ensures posWrite == old(posWrite) + n
      ensures Contents() == Splice(old(Contents()), old(posWrite), src[..n])
      ensures dirty == (old(dirty) || n > 0)
    {
      n := Min(Remaining(), |src|);
      if n == 0 {
        return;
      }
      forall k | 0 <= k < n {
        data[posWrite + k] := src[k];
      }
      posWrite := posWrite + n;
      available := Max(posWrite, available);
      dirty := true;
    }

    method Read(limit: nat) returns (out: Bytes)
      requires Valid()
      modifies this`posRead
      ensures Valid()
      ensures |out| == Min(old(AvailableRead()), limit)
      ensures out == data[old(posRead)..old(posRead) + |out|]
      ensures posRead == old(posRead) + |out|
    {
      var n := Min(AvailableRead(), limit);
      out := data[posRead..posRead + n];
      posRead := posRead + n;
    }
  }
}
