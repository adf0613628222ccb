/**
 The byte format of keyring signatures: a two byte header followed by the fixed-size
 version 1 body, which stores two big integers without their leading zero bytes.
 */
module SignatureCodec {
  import opened Common

  /** Width of the R and S fields, in bytes (P-224 scalars). */
  const FIELD_LEN: nat := 28

  const SIGNATURE_LEN: nat := 60

  /** The first number that does not fit FIELD_LEN bytes. */
  const TWO_POW_224: nat := 0x1_00000000_00000000_00000000_00000000_00000000_00000000_00000000

  function Pow256(n: nat): (p: nat)
    ensures p >= 1
  {
    if n == 0 then 1 else 256 * Pow256(n - 1)
  }

  lemma FieldCapacity()
    ensures Pow256(FIELD_LEN) == TWO_POW_224
  {
    assert Pow256(4) == 0x1_00000000;
    assert Pow256(8) == 0x1_00000000_00000000;
    assert Pow256(12) == 0x1_00000000_00000000_00000000;
    assert Pow256(16) == 0x1_00000000_00000000_00000000_00000000;
    assert Pow256(20) == 0x1_00000000_00000000_00000000_00000000_00000000;
    assert Pow256(24) == 0x1_00000000_00000000_00000000_00000000_00000000_00000000;
  }

  /** big.Int.Bytes: big-endian, no leading zero byte; zero is the empty slice. */
  function IntBytes(v: nat): (s: seq<Byte>) {
    if v == 0 then [] else IntBytes(v / 256) + [v % 256]
  }

  /** big.Int.SetBytes. */
  function BytesInt(s: seq<Byte>): nat {
    if s == [] then 0 else 256 * BytesInt(s[..|s| - 1]) + s[|s| - 1]
  }

  lemma {:induction false} IntBytesRoundTrip(v: nat)
    ensures BytesInt(IntBytes(v)) == v
  {
    if v != 0 {
      IntBytesRoundTrip(v / 256);
      assert IntBytes(v)[..|IntBytes(v)| - 1] == IntBytes(v / 256);
    }
  }

  /** A number takes at most n bytes exactly when it is below 256^n. */
  lemma {:induction false} IntBytesLength(v: nat, n: nat)
    ensures |IntBytes(v)| <= n <==> v < Pow256(n)
  {
    if v != 0 && n != 0 {
      IntBytesLength(v / 256, n - 1);
    }
  }

  function Zeros(n: nat): (z: seq<Byte>)
    ensures |z| == n
  {
    seq(n, _ => 0)
  }

  /** copy(field[:], b) into a zeroed field of FIELD_LEN bytes: extra bytes are dropped. */
  function CopyToField(b: seq<Byte>): (f: seq<Byte>)
    ensures |f| == FIELD_LEN
  {
    if |b| <= FIELD_LEN then b + Zeros(FIELD_LEN - |b|) else b[..FIELD_LEN]
  }

  datatype Header = Header(version: Byte, keyIndex: Byte)

  datatype Signature = Signature(keyIndex: Byte, r: nat, s: nat)

  function Encode(sig: Signature): (bytes: seq<Byte>)
    ensures |bytes| == SIGNATURE_LEN
  {
    [1, sig.keyIndex, ToByte(|IntBytes(sig.r)|), ToByte(|IntBytes(sig.s)|)]
    + CopyToField(IntBytes(sig.r)) + CopyToField(IntBytes(sig.s))
  }

  /** The decoding half of Verify, in the order of its checks. */
  function Decode(bytes: seq<Byte>): Option<Signature> {
    if |bytes| < 2 then None
    else if bytes[0] != 1 then None
    else if |bytes| - 2 < 2 + 2 * FIELD_LEN then None
    else if |bytes| != SIGNATURE_LEN then None
    else if bytes[2] > FIELD_LEN || bytes[3] > FIELD_LEN then None
    else Some(Signature(bytes[1],
                        BytesInt(bytes[4..4 + FIELD_LEN][..bytes[2]]),
                        BytesInt(bytes[4 + FIELD_LEN..][..bytes[3]])))
  }

  /** Every other length, version and field length is rejected, and nothing else is. */
  lemma DecodeAccepts(bytes: seq<Byte>)
    ensures Decode(bytes).Some? <==>
            |bytes| == SIGNATURE_LEN && bytes[0] == 1 && bytes[2] <= FIELD_LEN && bytes[3] <= FIELD_LEN
  {
  }

  /** The bytes as a reader of the format sees them: which numbers they carry, in which places. */
  predicate Carries(bytes: seq<Byte>, sig: Signature) {
    && |bytes| == 60
    && bytes[0] == 1 && bytes[1] == sig.keyIndex
    && bytes[2] <= 28 && BytesInt(bytes[4..4 + bytes[2]]) == sig.r
    && bytes[3] <= 28 && BytesInt(bytes[32..32 + bytes[3]]) == sig.s
  }

  lemma DecodesWhatBytesCarry(bytes: seq<Byte>, sig: Signature)
    ensures Decode(bytes) == Some(sig) <==> Carries(bytes, sig)
  {
    if |bytes| == 60 && bytes[2] <= 28 && bytes[3] <= 28 {
      assert bytes[4..4 + FIELD_LEN][..bytes[2]] == bytes[4..4 + bytes[2]];
      assert bytes[4 + FIELD_LEN..][..bytes[3]] == bytes[32..32 + bytes[3]];
    }
  }

  lemma FieldRoundTrip(v: nat)
    requires v < TWO_POW_224
    ensures |IntBytes(v)| <= FIELD_LEN
    ensures BytesInt(CopyToField(IntBytes(v))[..|IntBytes(v)|]) == v
  {
    FieldCapacity();
    IntBytesLength(v, FIELD_LEN);
    IntBytesRoundTrip(v);
    assert CopyToField(IntBytes(v))[..|IntBytes(v)|] == IntBytes(v);
  }

  /** Index, r and s survive the encoding, whatever leading zero bytes were stripped. */
  lemma SignatureRoundTrip(sig: Signature)
    requires sig.r < TWO_POW_224 && sig.s < TWO_POW_224
    ensures Decode(Encode(sig)) == Some(sig)
  {
    FieldRoundTrip(sig.r);
    FieldRoundTrip(sig.s);
    DecodeOfEncode(sig);
  }

  lemma DecodeOfEncode(sig: Signature)
    requires |IntBytes(sig.r)| <= FIELD_LEN && |IntBytes(sig.s)| <= FIELD_LEN
    ensures Decode(Encode(sig)) == Some(Signature(sig.keyIndex,
                                                  BytesInt(CopyToField(IntBytes(sig.r))[..|IntBytes(sig.r)|]),
                                                  BytesInt(CopyToField(IntBytes(sig.s))[..|IntBytes(sig.s)|])))
  {
    EncodeLayout(sig, IntBytes(sig.r), IntBytes(sig.s));
    DecodeOfParts(Encode(sig), sig.keyIndex, |IntBytes(sig.r)|, |IntBytes(sig.s)|,
                  CopyToField(IntBytes(sig.r)), CopyToField(IntBytes(sig.s)));
  }

  /** Where Encode puts its parts. */
  lemma EncodeLayout(sig: Signature, r: seq<Byte>, s: seq<Byte>)
    requires r == IntBytes(sig.r) && s == IntBytes(sig.s)
    ensures Encode(sig)[..4] == [1, sig.keyIndex, ToByte(|r|), ToByte(|s|)]
    ensures Encode(sig)[4..4 + FIELD_LEN] == CopyToField(r)
    ensures Encode(sig)[4 + FIELD_LEN..] == CopyToField(s)
  {
  }

  /** Decode of bytes laid out as a version 1 signature. */
  lemma DecodeOfParts(bytes: seq<Byte>, index: Byte, rLen: nat, sLen: nat, r: seq<Byte>, s: seq<Byte>)
    requires |bytes| == SIGNATURE_LEN && |r| == |s| == FIELD_LEN
    requires rLen <= FIELD_LEN && sLen <= FIELD_LEN
    requires bytes[..4] == [1, index, rLen, sLen]
    requires bytes[4..4 + FIELD_LEN] == r && bytes[4 + FIELD_LEN..] == s
    ensures Decode(bytes) == Some(Signature(index, BytesInt(r[..rLen]), BytesInt(s[..sLen])))
  {
    assert forall i :: 0 <= i < 4 ==> bytes[i] == bytes[..4][i];
  }

  /** The bound is exact: a field that stores only 28 bytes loses every larger number. */
  lemma SignatureRoundTripOnlyBelow(sig: Signature)
    ensures Decode(Encode(sig)) == Some(sig) <==> sig.r < TWO_POW_224 && sig.s < TWO_POW_224
  {
    if sig.r < TWO_POW_224 && sig.s < TWO_POW_224 {
      SignatureRoundTrip(sig);
    } else if Decode(Encode(sig)) == Some(sig) {
      var bytes := Encode(sig);
      DecodedFieldBound(bytes[4..4 + FIELD_LEN][..bytes[2]]);
      DecodedFieldBound(bytes[4 + FIELD_LEN..][..bytes[3]]);
      assert false;
    }
  }

  lemma {:induction false} BytesIntBound(s: seq<Byte>)
    ensures BytesInt(s) < Pow256(|s|)
  {
    if s != [] {
      BytesIntBound(s[..|s| - 1]);
    }
  }

  lemma {:induction false} Pow256Monotone(a: nat, b: nat)
    requires a <= b
    ensures Pow256(a) <= Pow256(b)
  {
    if a < b {
      Pow256Monotone(a, b - 1);
    }
  }

  lemma DecodedFieldBound(s: seq<Byte>)
    requires |s| <= FIELD_LEN
    ensures BytesInt(s) < TWO_POW_224
  {
    BytesIntBound(s);
    Pow256Monotone(|s|, FIELD_LEN);
    FieldCapacity();
  }

  /** Numbers are big-endian: the first byte is the most significant one. */
  lemma {:induction false} BytesAreBigEndian(x: Byte, rest: seq<Byte>)
    ensures BytesInt([x] + rest) == x * Pow256(|rest|) + BytesInt(rest)
  {
    if rest == [] {
      assert [x] + rest == [x] && BytesInt([]) == 0;
    } else {
      var init, last := rest[..|rest| - 1], rest[|rest| - 1];
      BytesAreBigEndian(x, init);
      assert ([x] + rest)[..|rest|] == [x] + init;
      assert x * Pow256(|rest|) == 256 * (x * Pow256(|init|));
    }
  }

  lemma {:induction false} NoLeadingZeroByte(v: nat)
    requires v > 0
    ensures IntBytes(v) != [] && IntBytes(v)[0] != 0
  {
    if v / 256 > 0 {
      NoLeadingZeroByte(v / 256);
    }
  }

  lemma FieldBytes(v: nat)
    requires v < TWO_POW_224
    ensures var r := IntBytes(v);
            |r| <= 28 && CopyToField(r)[..|r|] == r && forall i :: |r| <= i < 28 ==> CopyToField(r)[i] == 0
  {
    FieldRoundTrip(v);
  }

  /** A field of the bytes holds v: its bytes without leading zeros, filled up with zeros. */
  predicate HoldsNumber(field: seq<Byte>, length: Byte, v: nat) {
    && |field| == 28 && length <= 28 && length == |IntBytes(v)| && field[..length] == IntBytes(v)
    && forall i :: length <= i < 28 ==> field[i] == 0
  }

  /** The 60 bytes: version, index, two lengths, and the two numbers. */
  lemma EncodedBytes(sig: Signature)
    requires sig.r < TWO_POW_224 && sig.s < TWO_POW_224
    ensures var b := Encode(sig);
            && |b| == 60 && b[0] == 1 && b[1] == sig.keyIndex
            && HoldsNumber(b[4..32], b[2], sig.r) && HoldsNumber(b[32..60], b[3], sig.s)
  {
    var b := Encode(sig);
    FieldBytes(sig.r);
    FieldBytes(sig.s);
    EncodeLayout(sig, IntBytes(sig.r), IntBytes(sig.s));
    assert forall i :: 0 <= i < 4 ==> b[i] == b[..4][i];
    assert b[32..60] == b[4 + FIELD_LEN..];
  }
}
