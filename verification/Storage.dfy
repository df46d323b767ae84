/** Files of the host: `Storage` is the file on disk, `File` an open descriptor on it. */
module HostFiles {
  import opened Primitives
  import opened Blocks

  class Storage {
    var bytes: Bytes

    constructor (bytes: Bytes)
      ensures this.bytes == bytes
    {
      this.bytes := bytes;
    }
  }

  class File {
    const node: Storage
    var pos: nat

    constructor (node: Storage)
      ensures this.node == node && pos == 0
    {
      this.node := node;
      pos := 0;
    }

    /** Reads into dst[from..]. Any non-zero number of bytes may come back, zero only at
        end of file or when there is no room. */
    method Read(dst: array<byte>, from: nat) returns (n: nat)
      requires from <= dst.Length
      modifies this, dst
      ensures n <= dst.Length - from
      ensures n == 0 <==> from == dst.Length || |node.bytes| <= old(pos)
      ensures pos == old(pos) + n
      ensures n > 0 ==> pos <= |node.bytes|
      ensures dst[from..from + n] == Slice(node.bytes, old(pos), old(pos) + n)
      ensures dst[..from] == old(dst[..from])
    {
      if from == dst.Length || |node.bytes| <= pos {
        return 0;
      }
      n :| 1 <= n <= dst.Length - from && n <= |node.bytes| - pos;
      forall k | 0 <= k < n {
        dst[from + k] := node.bytes[pos + k];
      }
      pos := pos + n;
    }

    method WriteAll(data: Bytes)
      modifies this, node`bytes
      ensures node.bytes == PWrite(old(node.bytes), old(pos), data)
      ensures pos == old(pos) + |data|
    {
      node.bytes := PWrite(node.bytes, pos, data);
      pos := pos + |data|;
    }

    method Seek(to: nat)
      modifies this
      ensures pos == to
    {
      pos := to;
    }
  }
}
