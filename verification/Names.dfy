/** File names on disk (src/crypto.rs): encrypted, base64 and made safe for a path, or hashed.
    A name is its UTF-8 bytes. */
module FileNames {
  import opened Primitives
  import opened Blocks
  import opened HostFiles
  import opened Copying

  type Name = Bytes

  const SLASH: byte := 47
  const BACKSLASH: byte := 92
  const SPACE: byte := 32
  const PIPE: byte := 124
  const DOLLAR: byte := 36
  const DOT: Name := [46]
  const DOT_DOT: Name := [46, 46]
  const SELF: Name := [DOLLAR, 46]
  const PARENT: Name := [DOLLAR, 46, 46]

  predicate Alphabet(b: byte) {
    48 <= b <= 57 || 65 <= b <= 90 || 97 <= b <= 122 || b == 43 || b == SLASH
  }

  // ----- base64 and the name hash, as parameters -----

  /** Unpadded base64 with the standard alphabet: what is used of it. */
  datatype Base64 = Base64(encode: Bytes -> Bytes, decode: Bytes -> Option<Bytes>) {
    ghost predicate Lawful() {
      && (forall b :: decode(encode(b)) == Some(b))
      && (forall b, i :: 0 <= i < |encode(b)| ==> Alphabet(encode(b)[i]))
    }
  }

  /** An instance of the laws: two letters for a byte. */
  function Letters(b: Bytes): (s: Bytes)
    ensures |s| == 2 * |b|
    ensures forall i | 0 <= i < |s| :: 65 <= s[i] <= 80
  {
    if b == [] then [] else [65 + b[0] / 16, 65 + b[0] % 16] + Letters(b[1..])
  }

  function Unletters(s: Bytes): Option<Bytes> {
    if s == [] then Some([])
    else if |s| == 1 || !(65 <= s[0] <= 80) || !(65 <= s[1] <= 80) then None
    else
      match Unletters(s[2..])
      case None => None
      case Some(rest) => Some([(s[0] - 65) * 16 + (s[1] - 65)] + rest)
  }

  lemma {:induction false} LettersInvert(b: Bytes)
    ensures Unletters(Letters(b)) == Some(b)
  {
    if b != [] {
      LettersInvert(b[1..]);
      assert Letters(b)[2..] == Letters(b[1..]);
      assert b == [b[0]] + b[1..];
    }
  }

  const LETTERS := Base64(b => Letters(b), s => Unletters(s))

  lemma LettersLawful()
    ensures LETTERS.Lawful()
  {
    forall b
      ensures LETTERS.decode(LETTERS.encode(b)) == Some(b)
    {
      LettersInvert(b);
    }
  }

  type LawfulBase64 = e: Base64 | e.Lawful() witness (LettersLawful(); LETTERS)
  const BASE64: LawfulBase64

  /** The hexadecimal digest of a name, taken to be free of collisions. */
  ghost predicate NoCollisions(f: Name -> Bytes) {
    && (forall n, m :: f(n) == f(m) ==> n == m)
    && (forall n :: DOLLAR !in f(n))
  }

  lemma LettersNoCollisions()
    ensures NoCollisions(b => Letters(b))
  {
    forall n, m | Letters(n) == Letters(m)
      ensures n == m
    {
      LettersInvert(n);
      LettersInvert(m);
    }
  }

  type NameHash = f: Name -> Bytes | NoCollisions(f) witness (LettersNoCollisions(); b => Letters(b))
  const HASH: NameHash

  // ----- the codec -----

  /** A name without anything special about it. */
  predicate Ordinary(n: Name) {
    n != [] && SLASH !in n && BACKSLASH !in n && n != DOT && n != DOT_DOT && n != SELF && n != PARENT
  }

  function Replace(s: Bytes, from: set<byte>, to: byte): (r: Bytes)
    ensures |r| == |s|
    ensures forall i | 0 <= i < |s| :: r[i] == if s[i] in from then to else s[i]
  {
    seq(|s|, i requires 0 <= i < |s| => if s[i] in from then to else s[i])
  }

  /** `e` is the form on disk of a name: the stream of its bytes under some nonces, in base64
      with its slashes replaced. */
  ghost predicate Encodes(e: Bytes, n: Name) {
    exists file :: Stores(file, n) && e == Replace(BASE64.encode(file), {SLASH}, PIPE)
  }

  lemma Unpipe(file: Bytes)
    ensures Replace(Replace(BASE64.encode(file), {SLASH}, PIPE), {PIPE}, SLASH) == BASE64.encode(file)
  {
    var s := BASE64.encode(file);
    var r := Replace(Replace(s, {SLASH}, PIPE), {PIPE}, SLASH);
    forall i | 0 <= i < |s|
      ensures r[i] == s[i]
    {
      assert Alphabet(s[i]);
    }
  }

  /** The form on disk determines the name, whatever nonces were drawn. */
  lemma EncodesUnique(e: Bytes, n: Name, m: Name)
    requires Encodes(e, n) && Encodes(e, m)
    ensures n == m
  {
    var f :| Stores(f, n) && e == Replace(BASE64.encode(f), {SLASH}, PIPE);
    var g :| Stores(g, m) && e == Replace(BASE64.encode(g), {SLASH}, PIPE);
    Unpipe(f);
    Unpipe(g);
    assert f == g by {
      assert BASE64.decode(BASE64.encode(f)) == Some(f) && BASE64.decode(BASE64.encode(g)) == Some(g);
    }
    StoresDecodes(f, n);
    StoresDecodes(f, m);
  }

  /** It is safe in a path, and never one of the two special entries. */
  lemma EncodesSafe(e: Bytes, n: Name)
    requires Encodes(e, n)
    ensures 47 !in e && 36 !in e && e != [36, 46] && e != [36, 46, 46]
    ensures forall i | 0 <= i < |e| ::
              48 <= e[i] <= 57 || 65 <= e[i] <= 90 || 97 <= e[i] <= 122 || e[i] == 43 || e[i] == 124
  {
    var f :| Stores(f, n) && e == Replace(BASE64.encode(f), {SLASH}, PIPE);
    forall i | 0 <= i < |e|
      ensures e[i] != 47 && e[i] != 36
      ensures 48 <= e[i] <= 57 || 65 <= e[i] <= 90 || 97 <= e[i] <= 122 || e[i] == 43 || e[i] == 124
    {
      assert Alphabet(BASE64.encode(f)[i]);
    }
  }

  /** `encrypt_file_name`. */
  method EncryptFileName(n: Name) returns (e: Bytes)
    ensures n == SELF || n == PARENT ==> e == n
    ensures n == DOT ==> e == SELF
    ensures n == DOT_DOT ==> e == PARENT
    ensures n !in {SELF, PARENT, DOT, DOT_DOT} ==> Encodes(e, Replace(n, {47, 92}, 32))
    ensures Ordinary(n) ==> Encodes(e, n)
  {
    if n == SELF || n == PARENT {
      return n;
    }
    if n == DOT || n == DOT_DOT {
      return [DOLLAR] + n;
    }
    var normalized := Replace(n, {SLASH, BACKSLASH}, SPACE);
    assert Ordinary(n) ==> normalized == n;
    var node := WriteSplit([PutAll(normalized)]);
    assert Written([PutAll(normalized)]) == normalized;
    e := Replace(BASE64.encode(node.bytes), {SLASH}, PIPE);
  }

  /** `decrypt_file_name`, which gives back what was encrypted: `n` only says what that was. */
  method DecryptFileName(e: Bytes, ghost n: Name) returns (r: Result<Name>)
    ensures Encodes(e, n) ==> r == Ok(n)
  {
    var bytes := BASE64.decode(Replace(e, {PIPE}, SLASH));
    if bytes.None? {
      assert !Encodes(e, n) by { EncodedDecodes(e, n); }
      return Err;
    }
    if Encodes(e, n) {
      EncodedDecodes(e, n);
    }
    var node := new Storage(bytes.value);
    r := ReadToEnd(node, n, _ => BUF_SIZE);
  }

  lemma EncodedDecodes(e: Bytes, n: Name)
    ensures Encodes(e, n) ==>
              && BASE64.decode(Replace(e, {PIPE}, SLASH)).Some?
              && Stores(BASE64.decode(Replace(e, {PIPE}, SLASH)).value, n)
  {
    if Encodes(e, n) {
      var f :| Stores(f, n) && e == Replace(BASE64.encode(f), {SLASH}, PIPE);
      Unpipe(f);
    }
  }

  /** `hash_file_name`. */
  function HashFileName(n: Name): Bytes {
    if n == SELF || n == PARENT then n
    else if n == DOT || n == DOT_DOT then [DOLLAR] + n
    else HASH(n)
  }

  /** The special entries are stored under their own names, and the dot names with them; the hash
      of any other name has no dollar sign, so it is never one of those. */
  lemma HashSafe(n: Name)
    ensures HashFileName([36, 46]) == [36, 46] == HashFileName([46])
    ensures HashFileName([36, 46, 46]) == [36, 46, 46] == HashFileName([46, 46])
    ensures n !in {[36, 46], [36, 46, 46], [46], [46, 46]} ==>
              HashFileName(n) == HASH(n) && DOLLAR !in HashFileName(n)
              && HashFileName(n) != [36, 46] && HashFileName(n) != [36, 46, 46]
  {
    assert DOLLAR == [36, 46][0] && DOLLAR == [36, 46, 46][0];
  }

  /** Two names have the same hash only when they are the same, or one is the short and one
      the stored spelling of a special entry. */
  lemma HashInjective(n: Name, m: Name)
    requires HashFileName(n) == HashFileName(m)
    ensures n == m || {n, m} == {DOT, SELF} || {n, m} == {DOT_DOT, PARENT}
  {
  }
}
