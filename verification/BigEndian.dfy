/** Integers as big-endian bytes: the minimal form of big.Int, and the fixed-width forms made of it. */
module BigEndian {
  import opened Prelude
  import opened Certificates
  import opened Ecdsa

  /** big.Int.Bytes: no leading zero. */
  function BytesOf(n: nat): Bytes {
    if n == 0 then [] else BytesOf(n / 256) + [n % 256]
  }

  /** big.Int.SetBytes. */
  function FromBytes(b: Bytes): nat {
    if b == [] then 0 else FromBytes(b[..|b| - 1]) * 256 + b[|b| - 1]
  }

  function Zeros(k: nat): Bytes {
    seq(k, _ => 0)
  }

  function Pow256(k: nat): nat
    ensures Pow256(k) > 0
  {
    if k == 0 then 1 else 256 * Pow256(k - 1)
  }

  lemma {:induction false} FromBytesOf(n: nat)
    ensures FromBytes(BytesOf(n)) == n
  {
    if n > 0 {
      FromBytesOf(n / 256);
      assert BytesOf(n)[..|BytesOf(n)| - 1] == BytesOf(n / 256);
    }
  }

  lemma {:induction false} LeadingZeros(k: nat, b: Bytes)
    ensures FromBytes(Zeros(k) + b) == FromBytes(b)
  {
    var padded := Zeros(k) + b;
    if b != [] {
      assert padded[..|padded| - 1] == Zeros(k) + b[..|b| - 1];
      LeadingZeros(k, b[..|b| - 1]);
    } else if k > 0 {
      assert padded[..|padded| - 1] == Zeros(k - 1) + b;
      LeadingZeros(k - 1, b);
    } else {
      assert padded == b;
    }
  }

  /** The bytes in front weigh more: big-endian. */
  lemma {:induction false} FromBytesConcat(a: Bytes, b: Bytes)
    ensures FromBytes(a + b) == FromBytes(a) * Pow256(|b|) + FromBytes(b)
    decreases |b|
  {
    if b == [] {
      assert a + b == a;
    } else {
      var last := |b| - 1;
      assert (a + b)[..|a + b| - 1] == a + b[..last];
      FromBytesConcat(a, b[..last]);
      assert FromBytes(a + b) == FromBytes(a + b[..last]) * 256 + b[last];
      Shifted(FromBytes(a), Pow256(last), FromBytes(b[..last]), b[last]);
    }
  }

  lemma {:induction false} Shifted(x: nat, p: nat, y: nat, z: nat)
    ensures (x * p + y) * 256 + z == x * (256 * p) + (y * 256 + z)
  {
  }

  lemma {:induction false} FromByte(x: Byte)
    ensures FromBytes([x]) == x
  {
    assert [x][..0] == [];
  }

  lemma {:induction false} FromBytesBound(b: Bytes)
    ensures FromBytes(b) < Pow256(|b|)
  {
    if b != [] {
      FromBytesBound(b[..|b| - 1]);
    }
  }

  /** A number fits in w bytes exactly when it is below 256^w. */
  lemma {:induction false} FitsIff(n: nat, w: nat)
    ensures |BytesOf(n)| <= w <==> n < Pow256(w)
  {
    if n > 0 && w > 0 {
      FitsIff(n / 256, w - 1);
      assert n / 256 < Pow256(w - 1) <==> n < 256 * Pow256(w - 1);
    }
  }

  /** n left-padded with zeros to w bytes. */
  function FixedWidth(n: nat, w: nat): (b: Bytes)
    requires |BytesOf(n)| <= w
    ensures |b| == w
  {
    Zeros(w - |BytesOf(n)|) + BytesOf(n)
  }

  lemma {:induction false} FixedWidthRoundTrip(n: nat, w: nat)
    requires |BytesOf(n)| <= w
    ensures FromBytes(FixedWidth(n, w)) == n
  {
    LeadingZeros(w - |BytesOf(n)|, BytesOf(n));
    FromBytesOf(n);
  }

  // ---------------------------------------------------------------------------------------------
  // The padded private scalar.

  function BitLen(n: nat): nat {
    if n == 0 then 0 else 1 + BitLen(n / 2)
  }

  lemma {:induction false} BitLenByte(n: nat)
    requires n >= 256
    ensures BitLen(n) == 8 + BitLen(n / 256)
  {
    var a := n / 2;
    var b := a / 2;
    var c := b / 2;
    var d := c / 2;
    assert BitLen(n) == 1 + BitLen(a) && BitLen(a) == 1 + BitLen(b);
    assert BitLen(b) == 1 + BitLen(c) && BitLen(c) == 1 + BitLen(d);
    var e := d / 2;
    var f := e / 2;
    var g := f / 2;
    assert BitLen(d) == 1 + BitLen(e) && BitLen(e) == 1 + BitLen(f);
    assert BitLen(f) == 1 + BitLen(g) && BitLen(g) == 1 + BitLen(g / 2);
    assert g / 2 == n / 256;
  }

  /** The width (BitLen + 7) / 8 is the number of bytes of the order. */
  lemma {:induction false} WidthOfOrder(n: nat)
    ensures (BitLen(n) + 7) / 8 == |BytesOf(n)|
  {
    if n >= 256 {
      BitLenByte(n);
      WidthOfOrder(n / 256);
    } else if n > 0 {
      assert BytesOf(n / 256) == [];
      assert Pow2(8) == 256;
      BitLenIff(n, 8);
    }
  }

  /** BitLen is the least number of bits that hold n. */
  lemma {:induction false} BitLenIff(n: nat, k: nat)
    ensures BitLen(n) <= k <==> n < Pow2(k)
  {
    if n > 0 && k > 0 {
      BitLenIff(n / 2, k - 1);
    }
  }

  /** Fills dst[at..at + |src|] from src. */
  method CopyAt(dst: array<Byte>, at: nat, src: Bytes)
    requires at + |src| <= dst.Length
    modifies dst
    ensures dst[..] == old(dst[..at]) + src + old(dst[at + |src|..])
  {
    for i := 0 to |src|
      invariant dst[..at] == old(dst[..at])
      invariant dst[at..at + i] == src[..i]
      invariant dst[at + i..] == old(dst[at + i..])
    {
      dst[at + i] := src[i];
    }
    assert dst[..] == dst[..at] + dst[at..at + |src|] + dst[at + |src|..];
  }

  /** The padding of D in PrivateKeyToPEM; None where the slice bounds panic. */
  method PadScalar(d: nat, order: nat) returns (padded: Option<Bytes>)
    ensures padded.Some? <==> d < Pow256((BitLen(order) + 7) / 8)
    ensures d < order ==> padded.Some?
    ensures padded.Some? ==> |padded.value| == (BitLen(order) + 7) / 8 && FromBytes(padded.value) == d
  {
    var privateKeyBytes := BytesOf(d);
    var buffer := new Byte[(BitLen(order) + 7) / 8](_ => 0);
    FitsIff(d, buffer.Length);
    WidthOfOrder(order);
    FitsIff(order, buffer.Length);
    if |privateKeyBytes| > buffer.Length {
      return None;
    }
    assert buffer[..buffer.Length - |privateKeyBytes|] == Zeros(buffer.Length - |privateKeyBytes|);
    CopyAt(buffer, buffer.Length - |privateKeyBytes|, privateKeyBytes);
    assert buffer[..] == FixedWidth(d, buffer.Length);
    FixedWidthRoundTrip(d, buffer.Length);
    return Some(buffer[..]);
  }

  // ---------------------------------------------------------------------------------------------
  // The raw signatures exchanged with a PKCS#11 token.

  /** signP11ECDSA: each half of the token's signature is one integer. */
  function Halves(sig: Bytes): (nat, nat) {
    (FromBytes(sig[..|sig| / 2]), FromBytes(sig[|sig| / 2..]))
  }

  /** What verifyP11ECDSA writes: r at the end of the first half, then s at the end of the buffer. */
  ghost function Overlaid(r: Bytes, s: Bytes, byteSize: nat): Bytes
    requires |r| <= byteSize && |s| <= 2 * byteSize
  {
    var first := Zeros(byteSize - |r|) + r + Zeros(byteSize);
    first[..2 * byteSize - |s|] + s
  }

  /** The encoding in verifyP11ECDSA; None where the slice bounds panic. */
  method EncodeForToken(R: nat, S: nat, byteSize: nat) returns (sig: Option<Bytes>)
    ensures sig.Some? <==> |BytesOf(R)| <= byteSize && |BytesOf(S)| <= 2 * byteSize
    ensures sig.Some? ==> sig.value == Overlaid(BytesOf(R), BytesOf(S), byteSize)
  {
    var r, s := BytesOf(R), BytesOf(S);
    var buffer := new Byte[2 * byteSize](_ => 0);
    if |r| > byteSize {
      return None;
    }
    assert buffer[..byteSize - |r|] == Zeros(byteSize - |r|) && buffer[byteSize..] == Zeros(byteSize);
    CopyAt(buffer, byteSize - |r|, r);
    if |s| > 2 * byteSize {
      return None;
    }
    CopyAt(buffer, 2 * byteSize - |s|, s);
    return Some(buffer[..]);
  }

  /** The two halves, when s keeps to its own. */
  lemma {:induction false} OverlaidHalves(R: nat, S: nat, byteSize: nat)
    requires |BytesOf(R)| <= byteSize && |BytesOf(S)| <= byteSize
    ensures Overlaid(BytesOf(R), BytesOf(S), byteSize) == FixedWidth(R, byteSize) + FixedWidth(S, byteSize)
  {
    var r, s := BytesOf(R), BytesOf(S);
    var first := Zeros(byteSize - |r|) + r + Zeros(byteSize);
    assert first == FixedWidth(R, byteSize) + Zeros(byteSize);
    assert first[..2 * byteSize - |s|] == FixedWidth(R, byteSize) + Zeros(byteSize - |s|);
  }

  /** The token sees (R, S) exactly when both fit in byteSize bytes; otherwise it panics or sees another pair. */
  lemma {:induction false} TokenSeesIff(R: nat, S: nat, byteSize: nat)
    requires |BytesOf(R)| <= byteSize && |BytesOf(S)| <= 2 * byteSize
    ensures Halves(Overlaid(BytesOf(R), BytesOf(S), byteSize)) == (R, S) <==> S < Pow256(byteSize)
  {
    var sig := Overlaid(BytesOf(R), BytesOf(S), byteSize);
    FitsIff(S, byteSize);
    if |BytesOf(S)| <= byteSize {
      OverlaidHalves(R, S, byteSize);
      assert sig[..byteSize] == FixedWidth(R, byteSize);
      assert sig[byteSize..] == FixedWidth(S, byteSize);
      FixedWidthRoundTrip(R, byteSize);
      FixedWidthRoundTrip(S, byteSize);
    } else {
      FromBytesBound(sig[byteSize..]);
    }
  }

  /** Curve.Params().BitSize / 8. */
  function ByteSize(curve: Curve): nat
    requires curve != OtherCurve
  {
    match curve
    case P224 => 28
    case P256 => 32
    case P384 => 48
    case P521 => 65
  }

  lemma {:induction false} Pow2OfBytes(k: nat)
    ensures Pow2(8 * k) == Pow256(k)
  {
    if k > 0 {
      Pow2OfBytes(k - 1);
      var m := 8 * (k - 1);
      assert Pow2(m + 8) == 2 * Pow2(m + 7) && Pow2(m + 7) == 2 * Pow2(m + 6) && Pow2(m + 6) == 2 * Pow2(m + 5);
      assert Pow2(m + 5) == 2 * Pow2(m + 4) && Pow2(m + 4) == 2 * Pow2(m + 3) && Pow2(m + 3) == 2 * Pow2(m + 2);
      assert Pow2(m + 2) == 2 * Pow2(m + 1) && Pow2(m + 1) == 2 * Pow2(m);
    }
  }

  /** A number between half of 256^w and 256^w, or just above, has 8 w bits, or one more. */
  lemma {:induction false} BitLenBetween(n: nat, w: nat)
    requires w > 0
    ensures Pow256(w) <= 2 * n && n < Pow256(w) ==> BitLen(n) == 8 * w
    ensures Pow256(w) <= n < 2 * Pow256(w) ==> BitLen(n) == 8 * w + 1
  {
    Pow2OfBytes(w);
    assert Pow2(8 * w) == 2 * Pow2(8 * w - 1) && Pow2(8 * w + 1) == 2 * Pow2(8 * w);
    BitLenIff(n, 8 * w - 1);
    BitLenIff(n, 8 * w);
    BitLenIff(n, 8 * w + 1);
  }

  /** The byte size is that of the bits of the order, rounded down. */
  lemma {:induction false} ByteSizeExact(curve: Curve)
    requires curve != OtherCurve
    ensures ByteSize(curve) == BitLen(Order(curve).value) / 8
    ensures BitLen(Order(curve).value) % 8 == 0 <==> curve != P521
  {
    BitLenBetween(Order(curve).value, ByteSize(curve));
    match curve
    case P224 => Pow256At28(1);
    case P256 => Pow256At32(1);
    case P384 => Pow256At48(1);
    case P521 => Pow256At65(1);
  }

  /** Every r below the order fits, except on P-521, whose orders need one byte more. */
  lemma {:induction false} FitsOnCurve(curve: Curve)
    requires curve != OtherCurve
    ensures Order(curve).value <= Pow256(ByteSize(curve)) <==> curve != P521
    ensures Order(curve).value / 2 < Pow256(ByteSize(curve))
  {
    match curve
    case P224 => Pow256At28(1);
    case P256 => Pow256At32(1);
    case P384 => Pow256At48(1);
    case P521 => Pow256At65(1);
  }

  // Powers of 256 up to the four byte sizes, by repeated squaring. One is written i so that the
  // verifier reasons with these lemmas instead of unrolling Pow256.

  lemma {:induction false} Pow256At4(i: nat)
    requires i == 1
    ensures Pow256(i) == 0x100 && Pow256(4 * i) == 0x1_00000000
  {
    assert Pow256(i) == 256 * Pow256(i - 1);
    Pow256Product(i, i, 0x100, 0x100);
    Pow256Product(2 * i, 2 * i, 0x1_0000, 0x1_0000);
  }

  lemma {:induction false} Pow256At16(i: nat)
    requires i == 1
    ensures Pow256(8 * i) == 0x1_00000000_00000000
    ensures Pow256(16 * i) == 0x1_00000000_00000000_00000000_00000000
  {
    Pow256At4(i);
    Pow256Product(4 * i, 4 * i, 0x1_00000000, 0x1_00000000);
    Pow256Product(8 * i, 8 * i, 0x1_00000000_00000000, 0x1_00000000_00000000);
  }

  lemma {:induction false} Pow256At28(i: nat)
    requires i == 1
    ensures Pow256(24 * i) == 0x1_00000000_00000000_00000000_00000000_00000000_00000000
    ensures Pow256(28 * i) == 0x1_00000000_00000000_00000000_00000000_00000000_00000000_00000000
  {
    Pow256At4(i);
    Pow256At16(i);
    Pow256Product(16 * i, 8 * i, 0x1_00000000_00000000_00000000_00000000, 0x1_00000000_00000000);
    Pow256Product(24 * i, 4 * i, 0x1_00000000_00000000_00000000_00000000_00000000_00000000, 0x1_00000000);
  }

  lemma {:induction false} Pow256At32(i: nat)
    requires i == 1
    ensures Pow256(32 * i) == 0x1_00000000_00000000_00000000_00000000_00000000_00000000_00000000_00000000
  {
    Pow256At16(i);
    Pow256Product(16 * i, 16 * i, 0x1_00000000_00000000_00000000_00000000, 0x1_00000000_00000000_00000000_00000000);
  }

  lemma {:induction false} Pow256At48(i: nat)
    requires i == 1
    ensures Pow256(48 * i) == 0x1_00000000_00000000_00000000_00000000_00000000_00000000_00000000_00000000_00000000_00000000_00000000_00000000
  {
    Pow256At16(i);
    Pow256At32(i);
    Pow256Product(32 * i, 16 * i, 0x1_00000000_00000000_00000000_00000000_00000000_00000000_00000000_00000000, 0x1_00000000_00000000_00000000_00000000);
  }

  lemma {:induction false} Pow256At65(i: nat)
    requires i == 1
    ensures Pow256(65 * i) == 0x1_00_00000000_00000000_00000000_00000000_00000000_00000000_00000000_00000000_00000000_00000000_00000000_00000000_00000000_00000000_00000000_00000000
  {
    Pow256At4(i);
    Pow256At32(i);
    Pow256Product(32 * i, 32 * i, 0x1_00000000_00000000_00000000_00000000_00000000_00000000_00000000_00000000, 0x1_00000000_00000000_00000000_00000000_00000000_00000000_00000000_00000000);
    Pow256Product(64 * i, i, 0x1_00000000_00000000_00000000_00000000_00000000_00000000_00000000_00000000_00000000_00000000_00000000_00000000_00000000_00000000_00000000_00000000, 0x100);
  }

  lemma {:induction false} Pow256Product(a: nat, b: nat, x: nat, y: nat)
    requires Pow256(a) == x && Pow256(b) == y
    ensures Pow256(a + b) == x * y
  {
    Pow256Add(a, b);
  }

  lemma {:induction false} Pow256Add(a: nat, b: nat)
    ensures Pow256(a + b) == Pow256(a) * Pow256(b)
  {
    if a > 0 {
      Pow256Add(a - 1, b);
    }
  }

  // ---------------------------------------------------------------------------------------------
  // Verification by the token against verification in software.

  /** What the token answers for the pair; None where encoding it panics. */
  ghost function TokenAnswer(r: nat, s: nat, curve: Curve, token: Bytes -> bool): Option<Result<bool, SignatureError>>
    requires curve != OtherCurve
  {
    if |BytesOf(r)| <= ByteSize(curve) && |BytesOf(s)| <= 2 * ByteSize(curve)
    then Some(Ok(token(Overlaid(BytesOf(r), BytesOf(s), ByteSize(curve))))) else None
  }

  /** What the PKCS#11 provider answers: as in software, but with the token's answer for a well-formed low-S pair. */
  ghost function TokenVerification(codec: Codec, curve: Curve, token: Bytes -> bool, signature: Bytes):
    Option<Result<bool, SignatureError>>
  {
    match Unmarshal(codec, signature)
    case None => Some(Err(BadEncoding))
    case Some((r, s)) =>
      if Order(curve).None? then Some(Err(CurveNotRecognized))
      else if s > Order(curve).value / 2 then Some(Err(HighS))
      else TokenAnswer(r, s, curve, token)
  }

  /** verifyECDSA of the PKCS#11 provider; None where it panics. `token` answers for a raw signature. */
  method VerifyWithToken(codec: Codec, curve: Curve, softVerify: bool, primitive: (int, int) -> bool,
                         token: Bytes -> bool, signature: Bytes) returns (valid: Option<Result<bool, SignatureError>>)
    ensures softVerify ==> valid == Some(VerifySignature(codec, curve, primitive, signature))
    ensures !softVerify ==> valid == TokenVerification(codec, curve, token, signature)
    ensures valid.None? ==> VerifySignature(codec, curve, primitive, signature).Ok?
    ensures VerifySignature(codec, curve, primitive, signature).Err? ==>
              valid == Some(VerifySignature(codec, curve, primitive, signature))
  {
    var pair := Unmarshal(codec, signature);
    if pair.None? {
      return Some(Err(BadEncoding));
    }
    var (r, s) := pair.value;
    if Order(curve).None? {
      return Some(Err(CurveNotRecognized));
    }
    if s > Order(curve).value / 2 {
      return Some(Err(HighS));
    }
    if softVerify {
      return Some(Ok(primitive(r, s)));
    }
    var sig := EncodeForToken(r, s, ByteSize(curve));
    if sig.None? {
      return None;
    }
    return Some(Ok(token(sig.value)));
  }

  /**
   For a low-S pair and a token that decides the halves it is given, the provider answers what
   software answers exactly when r fits in the byte size; otherwise it panics. Below the order that
   can happen on P-521 only.
   */
  lemma {:induction false} TokenAgreesIff(curve: Curve, primitive: (int, int) -> bool, token: Bytes -> bool, r: nat, s: nat)
    requires curve != OtherCurve && s <= Order(curve).value / 2
    requires forall sig :: token(sig) == primitive(Halves(sig).0, Halves(sig).1)
    ensures TokenAnswer(r, s, curve, token) ==
            if r < Pow256(ByteSize(curve)) then Some(Ok(primitive(r, s))) else None
    ensures r < Order(curve).value && TokenAnswer(r, s, curve, token).None? ==> curve == P521
  {
    FitsOnCurve(curve);
    FitsIff(r, ByteSize(curve));
    FitsIff(s, ByteSize(curve));
    if |BytesOf(r)| <= ByteSize(curve) {
      TokenSeesIff(r, s, ByteSize(curve));
    }
  }

  /** And on P-521 it does happen: here is an r below the order on which the call panics, whatever s and the token. */
  lemma {:induction false} P521Overflows(s: nat, token: Bytes -> bool)
    ensures Pow256(ByteSize(P521)) < Order(P521).value
    ensures TokenAnswer(Pow256(ByteSize(P521)), s, P521, token).None?
  {
    FitsOnCurve(P521);
    FitsIff(Pow256(ByteSize(P521)), ByteSize(P521));
  }
}
