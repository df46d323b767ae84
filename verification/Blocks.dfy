/** The stored form of a plaintext: what a stream of sealed blocks means, how overwriting
    one block changes that meaning, and how the stored length relates to the plain length. */
module Blocks {
  import opened Primitives

  /** The offset i * n of block i, by repeated addition so that reasoning stays linear. */
  function Off(i: nat, n: nat): nat { if i == 0 then 0 else Off(i - 1, n) + n }

  lemma {:induction false} OffIsProduct(i: nat, n: nat)
    ensures Off(i, n) == i * n
  {
    if i > 0 {
      OffIsProduct(i - 1, n);
      assert i * n == (i - 1) * n + n;
    }
  }

  lemma {:induction false} OffStep(i: nat, j: nat, n: nat)
    requires i < j
    ensures Off(i, n) + n <= Off(j, n)
  {
    if i < j - 1 {
      OffStep(i, j - 1, n);
    }
  }

  lemma OffNext(i: nat)
    ensures Off(i + 1, B) == Off(i, B) + B && Off(i + 1, C) == Off(i, C) + C
    ensures Off(0, B) == 0 && Off(0, C) == 0 && Off(1, B) == B
  {
  }

  /** The index p / n of the block that position p is in, by repeated subtraction. */
  function Index(p: nat, n: nat): nat
    requires n > 0
  {
    if p < n then 0 else 1 + Index(p - n, n)
  }

  /** The offset p % n of position p in its block. */
  function Within(p: nat, n: nat): (r: nat)
    requires n > 0
    ensures r < n
  {
    if p < n then p else Within(p - n, n)
  }

  lemma {:induction false} OffIndex(p: nat, n: nat)
    requires n > 0
    ensures p == Off(Index(p, n), n) + Within(p, n)
  {
    if p >= n {
      OffIndex(p - n, n);
    }
  }

  /** Index and Within are quotient and remainder. */
  lemma IndexIsQuotient(p: nat, n: nat)
    requires n > 0
    ensures Index(p, n) == p / n && Within(p, n) == p % n
  {
    hide Off, Index, Within;
    var q, q' := Index(p, n), p / n;
    OffIndex(p, n);
    OffIsProduct(q, n);
    OffIsProduct(q', n);
    assert p == q' * n + p % n;
    if q < q' {
      OffStep(q, q', n);
    } else if q' < q {
      OffStep(q', q, n);
    }
  }

  /** Where an offset stands against the block index of a position. */
  lemma OffBound(p: nat, n: nat, i: nat)
    requires n > 0
    ensures Off(i, n) <= p <==> i <= Index(p, n)
    ensures i < Index(p, n) ==> Off(i, n) + n <= p
    ensures i == Index(p, n) ==> p == Off(i, n) + Within(p, n)
  {
    OffIndex(p, n);
    if i < Index(p, n) {
      OffStep(i, Index(p, n), n);
    } else if Index(p, n) < i {
      OffStep(Index(p, n), i, n);
    }
  }

  lemma OffUnique(p: nat, n: nat, i: nat)
    requires Off(i, n) <= p < Off(i, n) + n
    ensures Index(p, n) == i && Within(p, n) == p - Off(i, n)
  {
    OffBound(p, n, i);
  }

  /** Bytes from position pos to the end of its block. */
  function Room(pos: nat): (r: nat)
    ensures 0 < r <= B
  {
    B - Within(pos, B)
  }

  lemma RoomIs(pos: nat)
    ensures Room(pos) == B - pos % B
  {
    IndexIsQuotient(pos, B);
  }

  /** The bytes of s from position a up to b, as far as s goes. */
  function Slice(s: Bytes, a: nat, b: nat): Bytes
    requires a <= b
  {
    s[Min(a, |s|)..Min(b, |s|)]
  }

  /** The i-th run of n elements of s; the last one may be short, later ones are empty. */
  function Block(s: Bytes, n: nat, i: nat): (r: Bytes)
    ensures |r| <= n
  {
    Slice(s, Off(i, n), Off(i, n) + n)
  }

  lemma BlockLen(s: Bytes, n: nat, i: nat)
    ensures |Block(s, n, i)| == Max(0, Min(n, |s| - Off(i, n)))
  {
  }

  lemma SliceOfBlock(s: Bytes, n: nat, i: nat, a: nat, b: nat)
    requires a <= b <= |Block(s, n, i)|
    ensures Block(s, n, i)[a..b] == Slice(s, Off(i, n) + a, Off(i, n) + b)
  {
    hide Off;
    if b > 0 {
      SliceOfSlice(s, Off(i, n), Min(Off(i, n) + n, |s|), a, b);
    }
  }

  lemma SliceOfSlice(s: Bytes, a: nat, b: nat, c: nat, d: nat)
    requires a <= b <= |s| && c <= d <= b - a
    ensures s[a..b][c..d] == s[a + c..a + d]
  {
    var l, r := s[a..b][c..d], s[a + c..a + d];
    assert |l| == |r|;
    forall k | 0 <= k < |l|
      ensures l[k] == r[k]
    {
      assert l[k] == s[a..b][c + k] == s[a + c + k];
    }
  }

  lemma SliceAppend(s: Bytes, a: nat, b: nat, c: nat)
    requires a <= b <= c && (b <= |s| || b == a)
    ensures Slice(s, a, b) + Slice(s, b, c) == Slice(s, a, c)
    ensures |Slice(s, a, c)| == Max(0, Min(c, |s|) - a)
  {
  }

  lemma SliceAll(s: Bytes)
    ensures Slice(s, 0, |s|) == s
  {
  }

  lemma SliceEmpty(s: Bytes, a: nat)
    ensures Slice(s, a, a) == []
  {
  }

  /** s with the bytes from position p on replaced by x, growing s when x runs past its end. */
  function Splice(s: Bytes, p: nat, x: Bytes): (r: Bytes)
    requires p <= |s|
    ensures |r| == Max(|s|, p + |x|)
  {
    seq(Max(|s|, p + |x|), k requires 0 <= k < Max(|s|, p + |x|) => if p <= k < p + |x| then x[k - p] else s[k])
  }

  /** s padded with zeros to length n, or s itself when it is long enough. */
  function ZeroExtend(s: Bytes, n: nat): (r: Bytes)
    ensures |r| == Max(|s|, n)
  {
    if n <= |s| then s else s + Zeros(n - |s|)
  }

  /** A positioned write into a plain byte sequence: a gap before p is filled with zeros. */
  function PWrite(s: Bytes, p: nat, x: Bytes): Bytes {
    Splice(ZeroExtend(s, p), p, x)
  }

  /** Byte by byte: a splice puts x at p and leaves the rest. */
  lemma SpliceAt(s: Bytes, p: nat, x: Bytes, k: nat)
    requires p <= |s| && k < |Splice(s, p, x)|
    ensures |Splice(s, p, x)| == if p + |x| <= |s| then |s| else p + |x|
    ensures Splice(s, p, x)[k] == if p <= k < p + |x| then x[k - p] else s[k]
  {
  }

  /** Byte by byte: a positioned write puts x at p, leaves the rest, and has zeros in the gap. */
  lemma PWriteAt(s: Bytes, p: nat, x: Bytes, k: nat)
    requires k < |PWrite(s, p, x)|
    ensures |PWrite(s, p, x)| == if p + |x| <= |s| then |s| else p + |x|
    ensures PWrite(s, p, x)[k] == if p <= k < p + |x| then x[k - p] else if k < |s| then s[k] else 0
  {
  }

  /** Byte by byte: an extension has zeros after the end. */
  lemma ZeroExtendAt(s: Bytes, n: nat, k: nat)
    requires k < |ZeroExtend(s, n)|
    ensures |ZeroExtend(s, n)| == if n <= |s| then |s| else n
    ensures ZeroExtend(s, n)[k] == if k < |s| then s[k] else 0
  {
  }

  lemma SliceBesideSplice(s: Bytes, p: nat, x: Bytes, a: nat, b: nat)
    requires p <= |s| && a <= b
    requires b <= p || p + |x| <= a
    ensures Slice(Splice(s, p, x), a, b) == Slice(s, a, b)
  {
    var l, r := Slice(Splice(s, p, x), a, b), Slice(s, a, b);
    assert |l| == |r|;
    forall k | 0 <= k < |l|
      ensures l[k] == r[k]
    {
      assert l[k] == Splice(s, p, x)[a + k] && r[k] == s[a + k];
    }
  }

  lemma SliceOfSplice(s: Bytes, p: nat, x: Bytes, b: nat)
    requires p <= |s| && p + |x| <= b
    requires b == p + |x| || |s| <= p + |x|
    ensures Slice(Splice(s, p, x), p, b) == x
  {
    assert Slice(Splice(s, p, x), p, b) == Splice(s, p, x)[p..p + |x|];
  }

  /** Overwriting one block with a block that is not shorter changes that block only. */
  lemma BlockOfSplice(s: Bytes, n: nat, i: nat, x: Bytes, j: nat)
    requires Off(i, n) <= |s|
    requires |Block(s, n, i)| <= |x| <= n
    ensures Block(Splice(s, Off(i, n), x), n, j) == if j == i then x else Block(s, n, j)
  {
    if j == i {
      SliceOfSplice(s, Off(i, n), x, Off(i, n) + n);
    } else {
      if j < i {
        OffStep(j, i, n);
      } else {
        OffStep(i, j, n);
      }
      SliceBesideSplice(s, Off(i, n), x, Off(j, n), Off(j, n) + n);
    }
  }

  lemma SpliceTwice(s: Bytes, p: nat, y: Bytes, q: nat, x: Bytes)
    requires p <= |s| && q <= |y|
    ensures Splice(Splice(s, p, y), p + q, x) == Splice(s, p, Splice(y, q, x))
  {
    var l, r := Splice(Splice(s, p, y), p + q, x), Splice(s, p, Splice(y, q, x));
    assert |l| == |r|;
    forall k | 0 <= k < |l|
      ensures l[k] == r[k]
    {
    }
  }

  lemma SpliceAppend(s: Bytes, p: nat, x: Bytes, y: Bytes)
    requires p <= |s|
    ensures Splice(Splice(s, p, x), p + |x|, y) == Splice(s, p, x + y)
  {
    SpliceTwice(s, p, x, |x|, y);
    assert Splice(x, |x|, y) == x + y;
  }

  /** Three writes one after the other are one write. */
  lemma SpliceThrice(s: Bytes, p: nat, x: Bytes, y: Bytes, z: Bytes)
    requires p <= |s|
    ensures Splice(Splice(Splice(s, p, x), p + |x|, y), p + |x| + |y|, z) == Splice(s, p, x + (y + z))
  {
    SpliceAppend(s, p, x, y);
    SpliceAppend(s, p, x + y, z);
    assert x + y + z == x + (y + z);
  }

  lemma SpliceAtEnd(s: Bytes, x: Bytes)
    ensures Splice(s, |s|, x) == s + x
  {
  }

  lemma ZeroExtendShort(s: Bytes, n: nat)
    ensures n <= |s| ==> ZeroExtend(s, n) == s
  {
  }

  lemma SpliceNothing(s: Bytes, p: nat)
    requires p <= |s|
    ensures Splice(s, p, []) == s
  {
  }

  lemma SpliceOwnBlock(s: Bytes, n: nat, i: nat)
    requires Off(i, n) <= |s|
    ensures Splice(s, Off(i, n), Block(s, n, i)) == s
  {
  }

  // ----- sealed blocks -----

  /** Stored bytes `ct` are block i of the stream and hold plaintext `pt`. */
  predicate SealedAs(i: nat, ct: Bytes, pt: Bytes) {
    if pt == [] then ct == []
    else
      && |ct| == |pt| + OVERHEAD
      && ct[NONCE_LEN..] == CIPHER.seal(LeBytes(i), ct[..NONCE_LEN], pt)
  }

  /** What the opening key makes of the stored bytes of block i. */
  function OpenBlock(i: nat, ct: Bytes): (r: Option<Bytes>)
    ensures r.Some? ==> |r.value| + OVERHEAD == |ct|
  {
    if |ct| < NONCE_LEN then None else CIPHER.open(LeBytes(i), ct[..NONCE_LEN], ct[NONCE_LEN..])
  }

  /** Text and tag of block i, sealed under the given nonce. */
  function SealBlock(i: nat, nonce: Nonce, data: Bytes): (sealed: Bytes)
    ensures |sealed| == |data| + TAG_LEN
  {
    CIPHER.seal(LeBytes(i), nonce, data)
  }

  lemma SealedOpens(i: nat, ct: Bytes, pt: Bytes)
    requires SealedAs(i, ct, pt) && pt != []
    ensures OpenBlock(i, ct) == Some(pt)
  {
  }

  /** The layout: block i of the plaintext is sealed under index i at offset i * C. */
  ghost predicate Stores(file: Bytes, plain: Bytes) {
    forall i: nat :: SealedAs(i, Block(file, C, i), Block(plain, B, i))
  }

  /** The empty file stores the empty plaintext. */
  lemma EmptyStores()
    ensures Stores([], [])
  {
  }

  /** Reading the blocks one after the other, the reference meaning of a stored file. */
  function DecodeFrom(file: Bytes, i: nat): Option<Bytes>
    decreases |file| - Off(i, C)
  {
    if Block(file, C, i) == [] then Some([])
    else
      match OpenBlock(i, Block(file, C, i))
      case None => None
      case Some(pt) =>
        match DecodeFrom(file, i + 1)
        case None => None
        case Some(rest) => Some(pt + rest)
  }

  function Decode(file: Bytes): Option<Bytes> { DecodeFrom(file, 0) }

  /** The bytes from block i on. */
  function Rest(s: Bytes, i: nat): Bytes { s[Min(Off(i, B), |s|)..] }

  lemma RestSplits(s: Bytes, i: nat)
    ensures Rest(s, i) == Block(s, B, i) + Rest(s, i + 1)
    ensures Block(s, B, i) == [] ==> Rest(s, i) == []
  {
  }

  lemma {:induction false} StoresDecodesFrom(file: Bytes, plain: Bytes, i: nat)
    requires Stores(file, plain)
    ensures DecodeFrom(file, i) == Some(Rest(plain, i))
    decreases |Rest(plain, i)|
  {
    var ct, pt := Block(file, C, i), Block(plain, B, i);
    assert SealedAs(i, ct, pt);
    RestSplits(plain, i);
    if pt != [] {
      SealedOpens(i, ct, pt);
      StoresDecodesFrom(file, plain, i + 1);
    }
  }

  /** A well-formed stream decodes to the plaintext it stores. */
  lemma StoresDecodes(file: Bytes, plain: Bytes)
    requires Stores(file, plain)
    ensures Decode(file) == Some(plain)
  {
    StoresDecodesFrom(file, plain, 0);
    assert Rest(plain, 0) == plain;
  }

  /** Sealing block i of a well-formed stream anew, never shorter than it was, keeps the
      stream well formed and splices the plaintext. */
  lemma OverwriteBlock(file: Bytes, plain: Bytes, i: nat, nonce: Nonce, data: Bytes)
    requires Stores(file, plain) && Off(i, B) <= |plain| && Off(i, C) <= |file|
    requires |Block(plain, B, i)| <= |data| <= B && data != []
    ensures Stores(Splice(file, Off(i, C), nonce + SealBlock(i, nonce, data)), Splice(plain, Off(i, B), data))
  {
    var ct := nonce + SealBlock(i, nonce, data);
    assert ct[..NONCE_LEN] == nonce && ct[NONCE_LEN..] == SealBlock(i, nonce, data);
    assert SealedAs(i, ct, data);
    assert SealedAs(i, Block(file, C, i), Block(plain, B, i));
    var file', plain' := Splice(file, Off(i, C), ct), Splice(plain, Off(i, B), data);
    forall j: nat
      ensures SealedAs(j, Block(file', C, j), Block(plain', B, j))
    {
      BlockOfSplice(file, C, i, ct, j);
      BlockOfSplice(plain, B, i, data, j);
      assert SealedAs(j, Block(file, C, j), Block(plain, B, j));
    }
  }

  /** Where block i is: nonce, text and tag at i * (B + 28), sealed with i as associated data. */
  lemma Layout(file: Bytes, plain: Bytes, i: nat)
    requires Stores(file, plain) && i * B < |plain|
    ensures var n, o := Min(B, |plain| - i * B), i * (B + 28);
            && 0 <= o && o + n + 28 <= |file| && 0 < n
            && file[o + 12..o + n + 28] == CIPHER.seal(LeBytes(i), file[o..o + 12], plain[i * B..i * B + n])
  {
    hide Stores, SealedAs, Off, Block;
    OffIsProduct(i, B);
    OffIsProduct(i, C);
    BlockIs(plain, B, i);
    BlockLen(file, C, i);
    SealedBlock(file, plain, i);
    BlockIs(file, C, i);
    SliceParts(file, Off(i, C), |Block(file, C, i)|);
  }

  lemma SliceParts(s: Bytes, o: nat, n: nat)
    requires 12 <= n && o + n <= |s|
    ensures s[o..o + n][..12] == s[o..o + 12] && s[o..o + n][12..] == s[o + 12..o + n]
  {
  }

  lemma SealedBlock(file: Bytes, plain: Bytes, i: nat)
    requires Stores(file, plain) && Block(plain, B, i) != []
    ensures var ct, pt := Block(file, C, i), Block(plain, B, i);
            |ct| == |pt| + 28 && ct[12..] == CIPHER.seal(LeBytes(i), ct[..12], pt)
  {
    assert SealedAs(i, Block(file, C, i), Block(plain, B, i));
  }

  lemma BlockIs(s: Bytes, n: nat, i: nat)
    requires Off(i, n) <= |s|
    ensures Block(s, n, i) == s[Off(i, n)..Off(i, n) + Min(n, |s| - Off(i, n))]
  {
  }

  // ----- a stored block cut short -----

  /** The file after block i was sealed anew in place, over whatever was there. */
  ghost predicate ResealedAt(file': Bytes, file: Bytes, i: nat, data: Bytes) {
    Off(i, C) <= |file| && exists nonce: Nonce :: file' == Splice(file, Off(i, C), nonce + SealBlock(i, nonce, data))
  }

  /** What a file decodes to when block i of a well-formed stream was overwritten by a shorter
      one: nothing when the mixed block does not open. */
  function CutMeaning(file': Bytes, plain: Bytes, i: nat): Option<Bytes> {
    match OpenBlock(i, Block(file', C, i))
    case None => None
    case Some(pt) => Some(plain[..Min(Off(i, B), |plain|)] + pt + Rest(plain, i + 1))
  }

  lemma {:induction false} SameDecode(file: Bytes, file': Bytes, i: nat)
    requires forall j | i <= j :: Block(file', C, j) == Block(file, C, j)
    ensures DecodeFrom(file', i) == DecodeFrom(file, i)
    decreases |file| - Off(i, C)
  {
    hide Block;
    BlockLen(file, C, i);
    if Block(file, C, i) != [] {
      SameDecode(file, file', i + 1);
    }
  }

  /** The plaintext of the blocks from j up to i. */
  function Between(s: Bytes, j: nat, i: nat): Bytes { Slice(s, Off(j, B), Max(Off(j, B), Off(i, B))) }

  lemma BetweenNext(s: Bytes, j: nat, i: nat)
    requires j < i && Off(i, B) <= |s|
    ensures Between(s, j, i) == Block(s, B, j) + Between(s, j + 1, i)
  {
    OffNext(j);
    OffStep(j, i, B);
    SliceAppend(s, Off(j, B), Off(j, B) + B, Off(i, B));
  }

  /** Decoding from block j on, up to the mixed block i and past it. */
  lemma {:induction false} CutDecodesFrom(file: Bytes, file': Bytes, plain: Bytes, i: nat, j: nat)
    requires Stores(file, plain) && j <= i && Off(i, B) < |plain|
    requires Block(file', C, i) != [] && forall k: nat | k != i :: Block(file', C, k) == Block(file, C, k)
    ensures DecodeFrom(file', j) ==
              match OpenBlock(i, Block(file', C, i))
              case None => None
              case Some(pt) => Some(Between(plain, j, i) + pt + Rest(plain, i + 1))
    decreases i - j
  {
    hide Block, Stores, Rest, OpenBlock, Off, Between;
    if j == i {
      SameDecode(file, file', i + 1);
      StoresDecodesFrom(file, plain, i + 1);
      BetweenNone(plain, i);
    } else {
      OffStep(j, i, B);
      StoredBlockOpens(file, plain, j);
      CutDecodesFrom(file, file', plain, i, j + 1);
      BetweenNext(plain, j, i);
      var pt := OpenBlock(i, Block(file', C, i));
      if pt.Some? {
        Regroup(Block(plain, B, j), Between(plain, j + 1, i), pt.value, Rest(plain, i + 1));
      }
    }
  }

  lemma Regroup(a: Bytes, b: Bytes, c: Bytes, d: Bytes)
    ensures a + (b + c + d) == (a + b) + c + d
  {
  }

  lemma BetweenNone(s: Bytes, i: nat)
    ensures forall t :: Between(s, i, i) + t == t
  {
  }

  lemma StoredBlockOpens(file: Bytes, plain: Bytes, i: nat)
    requires Stores(file, plain) && Off(i, B) < |plain|
    ensures Block(file, C, i) != [] && OpenBlock(i, Block(file, C, i)) == Some(Block(plain, B, i))
  {
    hide Block;
    BlockLen(plain, B, i);
    assert SealedAs(i, Block(file, C, i), Block(plain, B, i));
    SealedOpens(i, Block(file, C, i), Block(plain, B, i));
  }

  /** Overwriting the front of a block changes that block only, and only its front. */
  lemma CutBlocks(s: Bytes, n: nat, i: nat, x: Bytes, k: nat)
    requires Off(i, n) <= |s| && |x| < |Block(s, n, i)|
    ensures Block(Splice(s, Off(i, n), x), n, k) ==
              if k == i then x + Block(s, n, i)[|x|..] else Block(s, n, k)
  {
    hide Off;
    var s' := Splice(s, Off(i, n), x);
    BlockLen(s, n, i);
    if k == i {
      BlockLen(s', n, i);
      assert Block(s', n, i) == x + Block(s, n, i)[|x|..];
    } else {
      hide Splice;
      if k < i {
        OffStep(k, i, n);
      } else {
        OffStep(i, k, n);
      }
      SliceBesideSplice(s, Off(i, n), x, Off(k, n), Off(k, n) + n);
    }
  }

  /** Resealing a stored block with fewer bytes leaves the tail of the old one behind the new,
      and the file means whatever that mixture opens to, if it does. */
  lemma CutDecodes(file: Bytes, plain: Bytes, i: nat, nonce: Nonce, data: Bytes)
    requires Stores(file, plain) && 0 < |data| < |Block(plain, B, i)|
    ensures Off(i, C) <= |file|
    ensures var ct := nonce + SealBlock(i, nonce, data);
            var file' := Splice(file, Off(i, C), ct);
            && |ct| < |Block(file, C, i)|
            && Block(file', C, i) == ct + Block(file, C, i)[|ct|..]
            && Decode(file') == CutMeaning(file', plain, i)
  {
    hide Off, Stores, Block, Splice, OpenBlock, Between;
    var ct := nonce + SealBlock(i, nonce, data);
    BlockLen(plain, B, i);
    StoredOffset(file, plain, i);
    StoredBlockLen(file, plain, i);
    var file' := Splice(file, Off(i, C), ct);
    CutBlocks(file, C, i, ct, i);
    forall k: nat | k != i
      ensures Block(file', C, k) == Block(file, C, k)
    {
      CutBlocks(file, C, i, ct, k);
    }
    CutDecodesFrom(file, file', plain, i, 0);
    FromStart(plain, i);
  }

  lemma FromStart(s: Bytes, i: nat)
    ensures Between(s, 0, i) == s[..Min(Off(i, B), |s|)]
  {
  }

  /** The offset of block i is inside the stored file, or at its end, when it is so in the
      plaintext. */
  lemma StoredOffset(file: Bytes, plain: Bytes, i: nat)
    requires Stores(file, plain) && Off(i, B) <= |plain|
    ensures Off(i, C) <= |file|
    ensures Off(i, B) == |plain| <==> Off(i, C) == |file|
  {
    if i > 0 {
      assert SealedAs(i - 1, Block(file, C, i - 1), Block(plain, B, i - 1));
    }
    assert SealedAs(i, Block(file, C, i), Block(plain, B, i));
  }

  // ----- lengths -----

  /** Stored length of a plaintext of n bytes. */
  function CipherLen(n: nat): nat {
    Off(Index(n, B), C) + if Within(n, B) == 0 then 0 else Within(n, B) + OVERHEAD
  }

  /** The stored length is a function of the plain length, and both have their last
      (short or missing) block at the same index. */
  lemma StoresLen(file: Bytes, plain: Bytes)
    requires Stores(file, plain)
    ensures |file| == CipherLen(|plain|)
    ensures Index(|file|, C) == Index(|plain|, B)
    ensures Within(|file|, C) == 0 <==> Within(|plain|, B) == 0
  {
    hide Off, Index, Within, Stores, Block;
    var q := Index(|plain|, B);
    OffIndex(|plain|, B);
    StoredOffset(file, plain, q);
    StoredBlockLen(file, plain, q);
    BlockLen(plain, B, q);
    BlockLen(file, C, q);
    OffUnique(|file|, C, q);
  }

  lemma StoredBlockLen(file: Bytes, plain: Bytes, i: nat)
    requires Stores(file, plain)
    ensures |Block(file, C, i)| == if Block(plain, B, i) == [] then 0 else |Block(plain, B, i)| + OVERHEAD
  {
    assert SealedAs(i, Block(file, C, i), Block(plain, B, i));
  }

  /** The bytes that a stream of i full blocks and a short or missing one has beyond its
      plaintext, as the readers count them: one overhead for each, present or not. */
  function Overheads(i: nat): nat { (i + 1) * (C - B) }

  /** The length formula of the reader: no block is known, only the stored length. The
      subtraction is the unsigned 64-bit one. */
  function LenFormula(cipherLen: nat): nat {
    if cipherLen == 0 then 0
    else
      var cut := Overheads(Index(cipherLen, C));
      if cut <= cipherLen then cipherLen - cut else Max(0, cipherLen - cut + 0x1_0000_0000_0000_0000)
  }

  lemma {:induction false} OverheadsAre(i: nat)
    ensures Off(i, C) + OVERHEAD == Off(i, B) + Overheads(i)
  {
    if i > 0 {
      OverheadsAre(i - 1);
      assert (i + 1) * (C - B) == i * (C - B) + (C - B);
    }
  }

  /** The formula inverts the stored length, except that it is 28 short exactly when the
      plaintext is a positive number of full blocks. */
  lemma LengthInversion(n: nat)
    ensures LenFormula(CipherLen(n)) == if n > 0 && Within(n, B) == 0 then n - OVERHEAD else n
  {
    hide Off, Index, Within, Overheads;
    OffIndex(n, B);
    OverheadsAre(Index(n, B));
    OffUnique(CipherLen(n), C, Index(n, B));
    OffBound(n, B, 1);
    OffNext(0);
  }
}
