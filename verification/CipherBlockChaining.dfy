/** AES in CBC mode with PKCS#7 padding, over any block permutation. */
module CipherBlockChaining {
  import opened Prelude

  const BlockSize := 16

  type Block = b: Bytes | |b| == BlockSize witness seq(BlockSize, _ => 0)

  // ---------------------------------------------------------------------------------------------
  // Exclusive or.

  function XorBits(a: nat, b: nat): nat
    decreases a + b
  {
    if a == 0 && b == 0 then 0 else (a + b) % 2 + 2 * XorBits(a / 2, b / 2)
  }

  lemma {:induction false} Halves(a: nat, p: nat)
    requires p < 2
    ensures (2 * a + p) / 2 == a && (2 * a + p) % 2 == p
  {
  }

  lemma {:induction false} SumOfLowest(a: nat, p: nat, b: nat, q: nat)
    requires p < 2 && q < 2
    ensures (2 * a + p + (2 * b + q)) % 2 == if p == q then 0 else 1
  {
    if p + q == 2 {
      Halves(a + b + 1, 0);
    } else {
      Halves(a + b, p + q);
    }
  }

  /** Bit by bit, starting with the lowest. */
  lemma {:induction false} XorBitsPair(a: nat, p: nat, b: nat, q: nat)
    requires p < 2 && q < 2
    ensures XorBits(2 * a + p, 2 * b + q) == (if p == q then 0 else 1) + 2 * XorBits(a, b)
  {
    Halves(a, p);
    Halves(b, q);
    SumOfLowest(a, p, b, q);
    if a == p == b == q == 0 {
      assert XorBits(a, b) == 0;
    }
  }

  lemma {:induction false} XorBitsTwice(a: nat, p: nat, b: nat, q: nat)
    requires p < 2 && q < 2
    ensures XorBits(XorBits(2 * a + p, 2 * b + q), 2 * b + q) == p + 2 * XorBits(XorBits(a, b), b)
  {
    XorBitsPair(a, p, b, q);
    XorBitsPair(XorBits(a, b), if p == q then 0 else 1, b, q);
  }

  lemma {:induction false} XorBitsCancel(a: nat, b: nat)
    ensures XorBits(XorBits(a, b), b) == a
    decreases a + b
  {
    if a != 0 || b != 0 {
      XorBitsTwice(a / 2, a % 2, b / 2, b % 2);
      XorBitsCancel(a / 2, b / 2);
    }
  }

  /** The result has no more bits than the operands. */
  lemma {:induction false} XorBitsBound(a: nat, b: nat, k: nat)
    requires a < Pow2(k) && b < Pow2(k)
    ensures XorBits(a, b) < Pow2(k)
  {
    if k > 0 {
      XorBitsBound(a / 2, b / 2, k - 1);
    }
  }

  function Xor(a: Byte, b: Byte): Byte {
    assert Pow2(8) == 256;
    XorBitsBound(a, b, 8);
    XorBits(a, b)
  }

  /** Bit k, from the lowest. */
  predicate Bit(a: nat, k: nat) {
    if k == 0 then a % 2 == 1 else Bit(a / 2, k - 1)
  }

  lemma {:induction false} BitPair(a: nat, p: nat, k: nat)
    requires p < 2
    ensures Bit(2 * a + p, k) <==> if k == 0 then p == 1 else Bit(a, k - 1)
  {
    Halves(a, p);
  }

  lemma {:induction false} XorBitsAt(a: nat, b: nat, k: nat)
    ensures Bit(XorBits(a, b), k) <==> Bit(a, k) != Bit(b, k)
    decreases k
  {
    var x, p, y, q := a / 2, a % 2, b / 2, b % 2;
    XorBitsPair(x, p, y, q);
    BitPair(x, p, k);
    BitPair(y, q, k);
    BitPair(XorBits(x, y), if p == q then 0 else 1, k);
    if k > 0 {
      XorBitsAt(x, y, k - 1);
    }
  }

  /** Each bit of the result says whether the bits of the operands differ. */
  lemma {:induction false} XorDiffers(a: Byte, b: Byte)
    ensures forall k: nat :: Bit(Xor(a, b), k) <==> Bit(a, k) != Bit(b, k)
  {
    forall k: nat ensures Bit(Xor(a, b), k) <==> Bit(a, k) != Bit(b, k) {
      XorBitsAt(a, b, k);
    }
  }

  function XorBlock(a: Block, b: Block): (r: Block)
    ensures forall i :: 0 <= i < BlockSize ==> r[i] == Xor(a[i], b[i])
  {
    seq(BlockSize, i requires 0 <= i < BlockSize => Xor(a[i], b[i]))
  }

  lemma {:induction false} XorBlockCancel(a: Block, b: Block)
    ensures XorBlock(XorBlock(a, b), b) == a
  {
    forall i | 0 <= i < BlockSize ensures XorBlock(XorBlock(a, b), b)[i] == a[i] {
      XorBitsCancel(a[i], b[i]);
    }
  }

  // ---------------------------------------------------------------------------------------------
  // The mode, section 6.2 of NIST SP 800-38A.

  datatype Cipher = Cipher(encrypt: Block -> Block, decrypt: Block -> Block)

  ghost predicate Permutation(c: Cipher) {
    (forall b :: c.decrypt(c.encrypt(b)) == b) && (forall b :: c.encrypt(c.decrypt(b)) == b)
  }

  predicate Aligned(s: Bytes) {
    |s| % BlockSize == 0
  }

  /** n blocks of plaintext, encrypted one after the other. */
  function CbcEncrypt(c: Cipher, iv: Block, n: nat, plain: Bytes): (r: Bytes)
    requires |plain| == 16 * n
    ensures |r| == |plain|
    decreases n
  {
    if n == 0 then []
    else
      var b := c.encrypt(XorBlock(plain[..BlockSize], iv));
      b + CbcEncrypt(c, b, n - 1, plain[BlockSize..])
  }

  function CbcDecrypt(c: Cipher, iv: Block, n: nat, text: Bytes): (r: Bytes)
    requires |text| == 16 * n
    ensures |r| == |text|
    decreases n
  {
    if n == 0 then []
    else XorBlock(c.decrypt(text[..BlockSize]), iv) + CbcDecrypt(c, text[..BlockSize], n - 1, text[BlockSize..])
  }

  lemma {:induction false} FirstBlock(b: Block, rest: Bytes)
    ensures (b + rest)[..BlockSize] == b && (b + rest)[BlockSize..] == rest
  {
  }

  lemma {:induction false} CbcRoundTrip(c: Cipher, iv: Block, n: nat, plain: Bytes)
    requires Permutation(c) && |plain| == 16 * n
    ensures CbcDecrypt(c, iv, n, CbcEncrypt(c, iv, n, plain)) == plain
    decreases n
  {
    if n > 0 {
      var first: Block := plain[..BlockSize];
      var b := c.encrypt(XorBlock(first, iv));
      var rest := CbcEncrypt(c, b, n - 1, plain[BlockSize..]);
      FirstBlock(b, rest);
      CbcRoundTrip(c, b, n - 1, plain[BlockSize..]);
      XorBlockCancel(first, iv);
      assert plain == first + plain[BlockSize..];
    }
  }

  lemma {:induction false} CbcRoundTripBack(c: Cipher, iv: Block, n: nat, text: Bytes)
    requires Permutation(c) && |text| == 16 * n
    ensures CbcEncrypt(c, iv, n, CbcDecrypt(c, iv, n, text)) == text
    decreases n
  {
    if n > 0 {
      var first: Block := text[..BlockSize];
      var p := XorBlock(c.decrypt(first), iv);
      var rest := CbcDecrypt(c, first, n - 1, text[BlockSize..]);
      FirstBlock(p, rest);
      CbcRoundTripBack(c, first, n - 1, text[BlockSize..]);
      XorBlockCancel(c.decrypt(first), iv);
      assert text == first + text[BlockSize..];
    }
  }

  // ---------------------------------------------------------------------------------------------
  // The mode, block by block.

  /** Block i of a text. */
  function BlockAt(text: Bytes, i: nat): Block
    requires 16 * i + 16 <= |text|
  {
    text[16 * i..16 * i + 16]
  }

  /** What block i is chained with: the block before it, or the IV. */
  function Before(iv: Block, text: Bytes, i: nat): Block
    requires 16 * i <= |text|
  {
    if i == 0 then iv else BlockAt(text, i - 1)
  }

  /** The bits of x are set where those of a and b differ. */
  ghost predicate Differs(x: Block, a: Block, b: Block) {
    forall j, k: nat :: 0 <= j < 16 ==> (Bit(x[j], k) <==> Bit(a[j], k) != Bit(b[j], k))
  }

  lemma {:induction false} XorBlockDiffers(a: Block, b: Block)
    ensures Differs(XorBlock(a, b), a, b)
  {
    forall j, k: nat | 0 <= j < 16 ensures Bit(XorBlock(a, b)[j], k) <==> Bit(a[j], k) != Bit(b[j], k) {
      XorDiffers(a[j], b[j]);
    }
  }

  lemma {:induction false} BlockBehind(b: Block, rest: Bytes, i: nat)
    requires 16 * i + 16 <= |rest|
    ensures BlockAt(b + rest, i + 1) == BlockAt(rest, i)
  {
  }

  lemma {:induction false} CbcEncryptAt(c: Cipher, iv: Block, n: nat, plain: Bytes, i: nat)
    requires |plain| == 16 * n && i < n
    ensures var text := CbcEncrypt(c, iv, n, plain);
            BlockAt(text, i) == c.encrypt(XorBlock(BlockAt(plain, i), Before(iv, text, i)))
    decreases n
  {
    var first: Block := plain[..BlockSize];
    var b := c.encrypt(XorBlock(first, iv));
    var rest := CbcEncrypt(c, b, n - 1, plain[BlockSize..]);
    FirstBlock(b, rest);
    if i > 0 {
      CbcEncryptAt(c, b, n - 1, plain[BlockSize..], i - 1);
      assert plain == first + plain[BlockSize..];
      BlockBehind(first, plain[BlockSize..], i - 1);
      BlockBehind(b, rest, i - 1);
      if i > 1 {
        BlockBehind(b, rest, i - 2);
      }
    }
  }

  lemma {:induction false} CbcDecryptAt(c: Cipher, iv: Block, n: nat, text: Bytes, i: nat)
    requires |text| == 16 * n && i < n
    ensures BlockAt(CbcDecrypt(c, iv, n, text), i) == XorBlock(c.decrypt(BlockAt(text, i)), Before(iv, text, i))
    decreases n
  {
    var first: Block := text[..BlockSize];
    var p := XorBlock(c.decrypt(first), iv);
    var rest := CbcDecrypt(c, first, n - 1, text[BlockSize..]);
    FirstBlock(p, rest);
    if i > 0 {
      CbcDecryptAt(c, first, n - 1, text[BlockSize..], i - 1);
      assert text == first + text[BlockSize..];
      BlockBehind(first, text[BlockSize..], i - 1);
      BlockBehind(p, rest, i - 1);
      if i > 1 {
        BlockBehind(first, text[BlockSize..], i - 2);
      }
    }
  }

  // ---------------------------------------------------------------------------------------------
  // Padding, section 6.3 of RFC 5652.

  function Padding(length: nat): (p: Byte)
    ensures 1 <= p <= BlockSize && (length + p) % BlockSize == 0
  {
    BlockSize - length % BlockSize
  }

  function Pad(src: Bytes): (r: Bytes)
    ensures Aligned(r) && r != []
  {
    src + seq(Padding(|src|), _ => Padding(|src|))
  }

  datatype Outcome = Plain(bytes: Bytes) | Failed | Panic

  /** The last n bytes all have the value n. */
  predicate EndsWithPadding(src: Bytes, n: nat)
    requires n <= |src|
  {
    forall i :: |src| - n <= i < |src| ==> src[i] == n
  }

  function Unpad(src: Bytes): Outcome {
    if src == [] then Panic
    else
      var n := src[|src| - 1];
      if n > BlockSize || n == 0 then Failed
      else if n > |src| then Panic
      else if EndsWithPadding(src, n) then Plain(src[..|src| - n])
      else Failed
  }

  /** pkcs7UnPadding, with its loop over the padding bytes. */
  method UnpadBytes(src: Bytes) returns (r: Outcome)
    ensures r == Unpad(src)
  {
    var length := |src|;
    if length == 0 {
      return Panic;
    }
    var unpadding := src[length - 1];
    if unpadding > BlockSize || unpadding == 0 {
      return Failed;
    }
    if unpadding > length {
      return Panic;
    }
    var pad := src[length - unpadding..];
    for i := 0 to unpadding
      invariant forall j :: 0 <= j < i ==> pad[j] == unpadding
    {
      if pad[i] != unpadding {
        assert src[length - unpadding + i] != unpadding;
        return Failed;
      }
    }
    assert forall i :: length - unpadding <= i < length ==> src[i] == pad[i - (length - unpadding)];
    return Plain(src[..length - unpadding]);
  }

  /** What padding appends: between one and sixteen bytes, each of which is their number. */
  ghost predicate PaddedTo(m: Bytes, padded: Bytes) {
    && |m| < |padded| <= |m| + 16 && |padded| % 16 == 0
    && m <= padded
    && forall i :: |m| <= i < |padded| ==> padded[i] == |padded| - |m|
  }

  lemma {:induction false} PadExact(m: Bytes, padded: Bytes)
    ensures padded == Pad(m) <==> PaddedTo(m, padded)
  {
    var n := Padding(|m|);
    assert Pad(m)[..|m|] == m;
    if PaddedTo(m, padded) {
      assert |padded| == |Pad(m)|;
      assert padded == padded[..|m|] + padded[|m|..];
      assert padded[|m|..] == seq(n, _ => n);
    }
  }

  /** Unpadding strips n bytes of value n, for n between 1 and 16, and nothing else. */
  lemma {:induction false} UnpadIff(src: Bytes, m: Bytes)
    ensures Unpad(src) == Plain(m) <==>
            && |m| < |src| <= |m| + 16 && m <= src
            && forall i :: |m| <= i < |src| ==> src[i] == |src| - |m|
    ensures Unpad(src) == Panic <==> src == [] || |src| < src[|src| - 1] <= 16
  {
    if |m| < |src| <= |m| + 16 && m <= src && forall i :: |m| <= i < |src| ==> src[i] == |src| - |m| {
      assert src[|src| - 1] == |src| - |m|;
      assert src[..|m|] == m;
    }
  }

  lemma {:induction false} UnpadPad(m: Bytes)
    ensures Unpad(Pad(m)) == Plain(m)
  {
    assert Pad(m)[..|m|] == m;
  }

  /** On a non-empty multiple of the block size, whatever unpads is what padding makes. */
  lemma {:induction false} PadUnpad(src: Bytes)
    requires src != [] && Aligned(src) && Unpad(src).Plain?
    ensures Pad(Unpad(src).bytes) == src
  {
    var n := src[|src| - 1];
    var m := src[..|src| - n];
    assert Padding(|m|) == n;
    assert src[|src| - n..] == seq(n, _ => n);
    assert src == m + src[|src| - n..];
  }

  // ---------------------------------------------------------------------------------------------
  // The compositions.

  /** aes.NewCipher: a block permutation for every key of an admitted length. */
  type KeySchedule = Bytes -> Option<Cipher>

  ghost predicate ProperSchedule(ks: KeySchedule) {
    forall key :: ks(key).Some? ==> Permutation(ks(key).value)
  }

  /** The number of blocks in a buffer. */
  function Blocks(s: Bytes): (n: nat)
    requires Aligned(s)
    ensures |s| == 16 * n
  {
    |s| / BlockSize
  }

  /** AESCBCPKCS7Encrypt with the IV drawn as `iv`. */
  function Encrypt(ks: KeySchedule, key: Bytes, iv: Block, plain: Bytes): Option<Bytes> {
    match ks(key)
    case None => None
    case Some(c) => Some(iv + CbcEncrypt(c, iv, Blocks(Pad(plain)), Pad(plain)))
  }

  function Decrypt(ks: KeySchedule, key: Bytes, text: Bytes): Outcome {
    match ks(key)
    case None => Failed
    case Some(c) =>
      if |text| < BlockSize || !Aligned(text[BlockSize..]) then Failed
      else Unpad(CbcDecrypt(c, text[..BlockSize], Blocks(text[BlockSize..]), text[BlockSize..]))
  }

  method WriteBlock(buf: array<Byte>, at: nat, b: Block)
    requires at + BlockSize <= buf.Length
    modifies buf
    ensures buf[..at] == old(buf[..at])
    ensures buf[at..at + BlockSize] == b
    ensures buf[at + BlockSize..] == old(buf[at + BlockSize..])
  {
    forall i | 0 <= i < BlockSize { buf[at + i] := b[i]; }
  }

  /** Appends one block to the filled part of the buffer. */
  method AppendBlock(buf: array<Byte>, at: nat, b: Block)
    requires at + BlockSize <= buf.Length
    modifies buf
    ensures buf[..at + BlockSize] == old(buf[..at]) + b
  {
    WriteBlock(buf, at, b);
    assert buf[..at + BlockSize] == buf[..at] + buf[at..at + BlockSize];
  }

  /** Encryption of a non-empty text, behind what is done already. */
  lemma {:induction false} FirstEncrypted(c: Cipher, chained: Block, n: nat, text: Bytes, done: Bytes)
    requires n > 0 && |text| == 16 * n
    ensures var next := c.encrypt(XorBlock(text[..BlockSize], chained));
            done + CbcEncrypt(c, chained, n, text) == done + next + CbcEncrypt(c, next, n - 1, text[BlockSize..])
  {
    var next := c.encrypt(XorBlock(text[..BlockSize], chained));
    assert CbcEncrypt(c, chained, n, text) == next + CbcEncrypt(c, next, n - 1, text[BlockSize..]);
  }

  /** Fills buf[16..] with the encryption of src, block by block, from the IV in buf[..16]. */
  method CryptBlocks(c: Cipher, buf: array<Byte>, n: nat, src: Bytes)
    requires |src| == 16 * n && buf.Length == BlockSize + |src|
    modifies buf
    ensures buf[..] == old(buf[..BlockSize]) + CbcEncrypt(c, old(buf[..BlockSize]), n, src)
  {
    ghost var iv: Block := buf[..BlockSize];
    var chained: Block := buf[..BlockSize];
    var rest := src;
    ghost var done: Bytes := iv;
    for i := 0 to n
      invariant |rest| == 16 * (n - i)
      invariant |done| == BlockSize + 16 * i && buf[..|done|] == done
      invariant done + CbcEncrypt(c, chained, n - i, rest) == iv + CbcEncrypt(c, iv, n, src)
    {
      var at := BlockSize + 16 * i;
      FirstEncrypted(c, chained, n - i, rest, done);
      chained := c.encrypt(XorBlock(rest[..BlockSize], chained));
      rest := rest[BlockSize..];
      AppendBlock(buf, at, chained);
      done := done + chained;
    }
    assert buf[..|done|] == buf[..];
  }

  /** Decrypts one block of the buffer in place, reading the one before it. */
  method DecryptBlock(c: Cipher, buf: array<Byte>, k: nat)
    requires k + BlockSize + BlockSize <= buf.Length
    modifies buf
    ensures buf[..k + BlockSize] == old(buf[..k + BlockSize])
    ensures buf[k + BlockSize..] ==
            XorBlock(c.decrypt(old(buf[k + BlockSize..k + BlockSize + BlockSize])), old(buf[k..k + BlockSize])) +
            old(buf[k + BlockSize + BlockSize..])
  {
    var at := k + BlockSize;
    var out := XorBlock(c.decrypt(buf[at..at + BlockSize]), buf[k..at]);
    WriteBlock(buf, at, out);
    assert buf[at..] == buf[at..at + BlockSize] + buf[at + BlockSize..];
  }

  /** `whole` is an IV and n blocks of ciphertext: decrypting from block i on, with block i - 1 or the IV before it. */
  ghost function DecryptFrom(c: Cipher, n: nat, whole: Bytes, i: nat): Bytes
    requires |whole| == BlockSize + 16 * n && i <= n
  {
    CbcDecrypt(c, whole[16 * i..16 * i + BlockSize], n - i, whole[16 * i + BlockSize..])
  }

  lemma {:induction false} DecryptFromStep(c: Cipher, n: nat, whole: Bytes, i: nat)
    requires |whole| == BlockSize + 16 * n && i < n
    ensures var k := 16 * i;
            DecryptFrom(c, n, whole, i) ==
            XorBlock(c.decrypt(whole[k + BlockSize..k + BlockSize + BlockSize]), whole[k..k + BlockSize]) +
            DecryptFrom(c, n, whole, i + 1)
  {
    var k := 16 * i;
    var rest := whole[k + BlockSize..];
    assert rest[..BlockSize] == whole[k + BlockSize..k + BlockSize + BlockSize];
    assert rest[BlockSize..] == whole[k + BlockSize + BlockSize..];
  }

  /** Decrypts buf[16..] in place, last block first, so that each block still has its predecessor. */
  method DecryptInPlace(c: Cipher, buf: array<Byte>, n: nat)
    requires buf.Length == BlockSize + 16 * n
    modifies buf
    ensures buf[..BlockSize] == old(buf[..BlockSize])
    ensures buf[BlockSize..] == CbcDecrypt(c, old(buf[..BlockSize]), n, old(buf[BlockSize..]))
  {
    ghost var whole := buf[..];
    for i := n downto 0
      invariant buf[..16 * i + BlockSize] == whole[..16 * i + BlockSize]
      invariant buf[16 * i + BlockSize..] == DecryptFrom(c, n, whole, i)
    {
      SamePrefix(buf[..], whole, 16 * i);
      DecryptFromStep(c, n, whole, i);
      DecryptBlock(c, buf, 16 * i);
    }
  }

  /** Two buffers that agree up to block k agree on that block and the one before it. */
  lemma {:induction false} SamePrefix(a: Bytes, b: Bytes, k: nat)
    requires k + BlockSize + BlockSize <= |a| == |b|
    requires a[..k + BlockSize + BlockSize] == b[..k + BlockSize + BlockSize]
    ensures a[k + BlockSize..k + BlockSize + BlockSize] == b[k + BlockSize..k + BlockSize + BlockSize]
    ensures a[k..k + BlockSize] == b[k..k + BlockSize]
    ensures a[..k + BlockSize] == b[..k + BlockSize]
  {
    var front := a[..k + BlockSize + BlockSize];
    assert front[..k + BlockSize] == a[..k + BlockSize] && front[..k + BlockSize] == b[..k + BlockSize];
    assert front[k..k + BlockSize] == a[k..k + BlockSize] && front[k..k + BlockSize] == b[k..k + BlockSize];
    assert front[k + BlockSize..] == a[k + BlockSize..k + BlockSize + BlockSize];
    assert front[k + BlockSize..] == b[k + BlockSize..k + BlockSize + BlockSize];
  }

  /** AESCBCPKCS7Encrypt. */
  method EncryptBytes(ks: KeySchedule, key: Bytes, iv: Block, src: Bytes) returns (r: Option<Bytes>)
    ensures r == Encrypt(ks, key, iv, src)
  {
    var tmp := Pad(src);
    var block := ks(key);
    if block.None? {
      return None;
    }
    var ciphertext := new Byte[BlockSize + |tmp|](_ => 0);
    forall i | 0 <= i < BlockSize { ciphertext[i] := iv[i]; }
    assert ciphertext[..BlockSize] == iv;
    CryptBlocks(block.value, ciphertext, Blocks(tmp), tmp);
    return Some(ciphertext[..]);
  }

  /** AESCBCPKCS7Decrypt: leaves the padded plaintext in the caller's buffer, behind the IV. */
  method DecryptBytes(ks: KeySchedule, key: Bytes, src: array<Byte>) returns (r: Outcome)
    modifies src
    ensures r == Decrypt(ks, key, old(src[..]))
    ensures r.Plain? ==> src[..] == old(src[..BlockSize]) + Pad(r.bytes)
  {
    var block := ks(key);
    if block.None? {
      return Failed;
    }
    if src.Length < BlockSize {
      return Failed;
    }
    ghost var text := src[..];
    assert text[..BlockSize] == src[..BlockSize] && text[BlockSize..] == src[BlockSize..];
    if !Aligned(src[BlockSize..]) {
      return Failed;
    }
    DecryptInPlace(block.value, src, Blocks(src[BlockSize..]));
    r := UnpadBytes(src[BlockSize..]);
    if r.Plain? {
      PadUnpad(src[BlockSize..]);
      assert src[..] == src[..BlockSize] + src[BlockSize..];
    }
  }

  /** Decryption undoes encryption, for every plaintext and IV. */
  lemma {:induction false} DecryptEncrypt(ks: KeySchedule, key: Bytes, iv: Block, plain: Bytes)
    requires ProperSchedule(ks) && ks(key).Some?
    ensures Encrypt(ks, key, iv, plain).Some?
    ensures Decrypt(ks, key, Encrypt(ks, key, iv, plain).value) == Plain(plain)
  {
    var text := Encrypt(ks, key, iv, plain).value;
    var n := Blocks(Pad(plain));
    assert text[..BlockSize] == iv && text[BlockSize..] == CbcEncrypt(ks(key).value, iv, n, Pad(plain));
    CbcRoundTrip(ks(key).value, iv, n, Pad(plain));
    UnpadPad(plain);
  }

  /**
   What the ciphertext is, block by block: each block encrypts the bits in which the padded plaintext
   differs from the block before, or from the IV.
   */
  lemma {:induction false} EncryptExact(ks: KeySchedule, key: Bytes, iv: Block, plain: Bytes) returns (padded: Bytes, text: Bytes)
    requires ks(key).Some?
    ensures Encrypt(ks, key, iv, plain) == Some(iv + text)
    ensures PaddedTo(plain, padded) && |text| == |padded|
    ensures forall i :: 0 <= i && 16 * i < |text| ==>
              exists x :: Differs(x, BlockAt(padded, i), Before(iv, text, i)) && BlockAt(text, i) == ks(key).value.encrypt(x)
  {
    padded := Pad(plain);
    PadExact(plain, padded);
    var c, n := ks(key).value, Blocks(padded);
    text := CbcEncrypt(c, iv, n, padded);
    forall i | 0 <= i && 16 * i < |text|
      ensures exists x :: Differs(x, BlockAt(padded, i), Before(iv, text, i)) && BlockAt(text, i) == c.encrypt(x)
    {
      CbcEncryptAt(c, iv, n, padded, i);
      XorBlockDiffers(BlockAt(padded, i), Before(iv, text, i));
    }
  }

  /**
   What decryption returns: a plaintext only for an IV and a positive number of whole blocks, and then
   the padded plaintext is set where the decrypted block differs from the block before, or from the IV.
   */
  lemma {:induction false} DecryptExact(ks: KeySchedule, key: Bytes, text: Bytes) returns (padded: Bytes)
    requires Decrypt(ks, key, text).Plain?
    ensures ks(key).Some? && |text| >= 32 && |text| % 16 == 0
    ensures PaddedTo(Decrypt(ks, key, text).bytes, padded) && |padded| == |text| - 16
    ensures forall i :: 0 <= i && 16 * i < |padded| ==>
              Differs(BlockAt(padded, i), ks(key).value.decrypt(BlockAt(text[16..], i)), Before(text[..16], text[16..], i))
  {
    var c := ks(key).value;
    var iv: Block, body := text[..16], text[16..];
    var n := Blocks(body);
    padded := CbcDecrypt(c, iv, n, body);
    UnpadIff(padded, Unpad(padded).bytes);
    forall i | 0 <= i && 16 * i < |padded|
      ensures Differs(BlockAt(padded, i), c.decrypt(BlockAt(body, i)), Before(iv, body, i))
    {
      CbcDecryptAt(c, iv, n, body, i);
      XorBlockDiffers(c.decrypt(BlockAt(body, i)), Before(iv, body, i));
    }
  }

  /** Of an IV and whole blocks, it refuses exactly those that do not decrypt to a padded text. */
  lemma {:induction false} DecryptPlainIff(ks: KeySchedule, key: Bytes, text: Bytes, padded: Bytes)
    requires ks(key).Some? && |text| > 16 && |text| % 16 == 0
    requires padded == CbcDecrypt(ks(key).value, text[..16], (|text| - 16) / 16, text[16..])
    ensures Decrypt(ks, key, text).Plain? <==> exists m :: PaddedTo(m, padded)
  {
    assert Decrypt(ks, key, text) == Unpad(padded);
    if Unpad(padded).Plain? {
      UnpadIff(padded, Unpad(padded).bytes);
      assert PaddedTo(Unpad(padded).bytes, padded);
    }
    if m :| PaddedTo(m, padded) {
      UnpadIff(padded, m);
    }
  }

  /** And encryption under the same IV undoes decryption: no two ciphertexts share plaintext and IV. */
  lemma {:induction false} EncryptDecrypt(ks: KeySchedule, key: Bytes, text: Bytes)
    requires ProperSchedule(ks) && Decrypt(ks, key, text).Plain?
    ensures Encrypt(ks, key, text[..BlockSize], Decrypt(ks, key, text).bytes) == Some(text)
  {
    var c := ks(key).value;
    var iv: Block := text[..BlockSize];
    var n := Blocks(text[BlockSize..]);
    PadUnpad(CbcDecrypt(c, iv, n, text[BlockSize..]));
    CbcRoundTripBack(c, iv, n, text[BlockSize..]);
    assert text == iv + text[BlockSize..];
  }

  /** Decryption panics on exactly one kind of input: an IV with nothing behind it. */
  lemma {:induction false} DecryptPanicsIff(ks: KeySchedule, key: Bytes, text: Bytes)
    ensures Decrypt(ks, key, text) == Panic <==> ks(key).Some? && |text| == 16
    ensures ks(key).None? ==> Decrypt(ks, key, text) == Failed && forall iv, plain :: Encrypt(ks, key, iv, plain).None?
  {
  }
}
