/** The foreign pieces the file system is built on, taken as parameters: an AEAD cipher
    bound to one key, and the block size. Both are unspecified constants of an inhabited
    type, so every theorem holds for each cipher that obeys the laws and each block size. */
module Primitives {

  newtype byte = x: int | 0 <= x < 256
  type Bytes = seq<byte>

  datatype Option<+T> = None | Some(value: T)
  datatype Result<+T> = Ok(value: T) | Err

  /** The errors of file-system operations, and their results. */
  datatype FsError =
    | InvalidInput | InodeNotFound | InvalidInodeType | InvalidFileHandle | AlreadyExists
    | AlreadyOpenForWrite | NotFound | NotEmpty | MaxFilesizeExceeded | Io

  datatype FsResult<+T> = Done(value: T) | Fail(error: FsError)

  datatype SeekFrom = Start(offset: nat) | End(delta: int) | Current(delta: int)

  /** Where a seek asks to go, given the length and the position the stream reports. */
  function Target(from: SeekFrom, len: int, pos: int): int {
    match from
    case Start(offset) => offset
    case End(delta) => len + delta
    case Current(delta) => pos + delta
  }

  function Min(a: int, b: int): int { if a <= b then a else b }
  function Max(a: int, b: int): int { if a <= b then b else a }

  function Zeros(n: nat): (r: Bytes)
    ensures |r| == n && forall i | 0 <= i < n :: r[i] == 0
  {
    seq(n, _ => 0)
  }

  const NONCE_LEN: nat := 12
  const TAG_LEN: nat := 16
  /** Ciphertext bytes that a block has beyond its plaintext. */
  const OVERHEAD: nat := NONCE_LEN + TAG_LEN

  type Nonce = n: Bytes | |n| == NONCE_LEN witness Zeros(12)

  /** Authenticated encryption under one key: associated data, nonce, text. */
  datatype Aead = Aead(seal: (Bytes, Bytes, Bytes) -> Bytes, open: (Bytes, Bytes, Bytes) -> Option<Bytes>) {
    ghost predicate Lawful() {
      && (forall aad, n, p :: |seal(aad, n, p)| == |p| + TAG_LEN && open(aad, n, seal(aad, n, p)) == Some(p))
      && (forall aad, n, c :: open(aad, n, c).Some? ==> |open(aad, n, c).value| + TAG_LEN == |c|)
    }
  }

  const IDENTITY_AEAD := Aead(
    (aad, n, p) => p + Zeros(TAG_LEN),
    (aad, n, c) => if |c| < TAG_LEN then None else Some(c[..|c| - TAG_LEN]))

  lemma IdentityAeadIsLawful()
    ensures IDENTITY_AEAD.Lawful()
  {
    forall aad, n, p
      ensures IDENTITY_AEAD.open(aad, n, IDENTITY_AEAD.seal(aad, n, p)) == Some(p)
    {
      var c := IDENTITY_AEAD.seal(aad, n, p);
      assert c[..|c| - TAG_LEN] == p;
    }
  }

  type LawfulAead = a: Aead | a.Lawful() witness (IdentityAeadIsLawful(); IDENTITY_AEAD)

  const CIPHER: LawfulAead

  type BlockSize = n: nat | n > OVERHEAD witness 16384

  /** Plaintext bytes in a full block. */
  const B: BlockSize
  /** Stored bytes of a full block. */
  const C: nat := B + OVERHEAD

  /** Bytes handled at once by the copying, filling and skipping loops. */
  const BUF_SIZE: nat := 1024 * 1024

  /** A block index as the eight little-endian bytes used as associated data. */
  function LeBytes(i: nat, width: nat := 8): (bytes: Bytes)
    ensures |bytes| == width
    decreases width
  {
    if width == 0 then [] else [(i % 256) as byte] + LeBytes(i / 256, width - 1)
  }

  function Pow256(width: nat): (p: nat)
    ensures p > 0
  {
    if width == 0 then 1 else 256 * Pow256(width - 1)
  }

  lemma DivTwice(i: nat, p: nat)
    requires p > 0
    ensures i / 256 / p == i / (256 * p)
  {
    var q, t := i / 256 / p, i / 256 % p * 256 + i % 256;
    assert i / 256 == p * q + i / 256 % p;
    assert i == 256 * p * q + t;
    assert 0 <= t < 256 * p;
    DivUnique(i, 256 * p, q, t);
  }

  lemma LessTimes(d: nat, k: nat, q: nat)
    requires k < q
    ensures d * k + d <= d * q
  {
    assert d * (k + 1) <= d * q;
  }

  lemma DivUnique(i: nat, d: nat, q: nat, t: nat)
    requires d > 0 && i == d * q + t && t < d
    ensures i / d == q
  {
    if i / d < q {
      LessTimes(d, i / d, q);
    } else if q < i / d {
      LessTimes(d, q, i / d);
    }
  }

  /** The lowest digit comes first. */
  lemma {:induction false} LeBytesAt(i: nat, width: nat, k: nat)
    requires k < width
    ensures LeBytes(i, width)[k] as int == i / Pow256(k) % 256
  {
    if k > 0 {
      LeBytesAt(i / 256, width - 1, k - 1);
      DivTwice(i, Pow256(k - 1));
    }
  }

  /** Different block indices below 2^64 get different associated data. */
  lemma {:induction false} LeBytesInjective(i: nat, j: nat, width: nat)
    requires i < Pow256(width) && j < Pow256(width)
    requires LeBytes(i, width) == LeBytes(j, width)
    ensures i == j
  {
    if width == 0 {
    } else {
      assert LeBytes(i, width)[0] == LeBytes(j, width)[0];
      assert LeBytes(i / 256, width - 1) == LeBytes(i, width)[1..];
      assert LeBytes(j / 256, width - 1) == LeBytes(j, width)[1..];
      LeBytesInjective(i / 256, j / 256, width - 1);
    }
  }
}
