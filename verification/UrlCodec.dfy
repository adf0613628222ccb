/** The encodings short URLs are made of: base-128 varints, unpadded base64 over a custom alphabet, and UUID text. */
module UrlCodec {
  import opened Common

  // ---- Varints (encoding/binary) ----

  function PutUvarint(x: nat): (b: seq<Byte>)
    ensures b != []
  {
    if x < 128 then [x] else [x % 128 + 128] + PutUvarint(x / 128)
  }

  /** The number that starts at b[i..]; None when it is cut off or does not fit 64 bits. */
  function UvarintAt(b: seq<Byte>, i: nat): Option<nat>
    decreases |b| - i
  {
    if i >= |b| || i == 10 then None
    else if b[i] < 128 then if i == 9 && b[i] > 1 then None else Some(b[i])
    else
      match UvarintAt(b, i + 1)
      case None => None
      case Some(rest) => Some(b[i] - 128 + 128 * rest)
  }

  /** The value binary.Uvarint returns, which is 0 on failure. */
  function Uvarint(b: seq<Byte>): nat {
    match UvarintAt(b, 0)
    case None => 0
    case Some(x) => x
  }

  function Pow128(n: nat): (p: nat)
    ensures p >= 1
  {
    if n == 0 then 1 else 128 * Pow128(n - 1)
  }

  /** A positive number of bytes n suffices exactly for numbers below 128^n. */
  lemma {:induction false} PutUvarintLength(x: nat, n: nat)
    requires n >= 1
    ensures |PutUvarint(x)| <= n <==> x < Pow128(n)
  {
    if x >= 128 {
      if n > 1 {
        PutUvarintLength(x / 128, n - 1);
      }
    } else {
      assert Pow128(n) == 128 * Pow128(n - 1);
    }
  }

  lemma {:induction false} UvarintRoundTripAt(prefix: seq<Byte>, x: nat)
    requires |prefix| + |PutUvarint(x)| <= 9
    ensures UvarintAt(prefix + PutUvarint(x), |prefix|) == Some(x)
    decreases x
  {
    if x >= 128 {
      UvarintRoundTripAt(prefix + [x % 128 + 128], x / 128);
      assert prefix + PutUvarint(x) == (prefix + [x % 128 + 128]) + PutUvarint(x / 128);
    }
  }

  lemma {:induction false} UvarintRoundTrip(x: nat)
    requires |PutUvarint(x)| <= 9
    ensures Uvarint(PutUvarint(x)) == x
  {
    UvarintRoundTripAt([], x);
    assert [] + PutUvarint(x) == PutUvarint(x);
  }

  /** The number whose base-128 digits, least significant first, are the low seven bits of the bytes. */
  function SevenBitValue(b: seq<Byte>): nat {
    if b == [] then 0 else b[0] % 128 + 128 * SevenBitValue(b[1..])
  }

  /** The first byte without the continuation bit is the n-th one, and the number fits 64 bits. */
  predicate EndsAt(b: seq<Byte>, n: nat) {
    n < |b| && n <= 9 && (forall i :: 0 <= i < n ==> b[i] >= 128) && b[n] < 128 && (n == 9 ==> b[n] <= 1)
  }

  /** A varint is its number in base 128, least significant digits first, with the high bit set in all bytes but the last. */
  lemma {:induction false} PutUvarintLayout(x: nat)
    ensures var b := PutUvarint(x);
            && SevenBitValue(b) == x
            && (forall i :: 0 <= i < |b| - 1 ==> b[i] >= 128) && b[|b| - 1] < 128
            && (|b| > 1 ==> b[|b| - 1] > 0)
  {
    if x >= 128 {
      PutUvarintLayout(x / 128);
      assert PutUvarint(x)[1..] == PutUvarint(x / 128);
    } else {
      assert SevenBitValue([x]) == x % 128 + 128 * SevenBitValue([]);
    }
  }

  lemma {:induction false} UvarintAtExactly(b: seq<Byte>, i: nat, n: nat)
    requires i <= n && EndsAt(b, n)
    ensures UvarintAt(b, i) == Some(SevenBitValue(b[i..n + 1]))
    decreases n - i
  {
    assert b[i..n + 1][1..] == b[i + 1..n + 1];
    if i < n {
      UvarintAtExactly(b, i + 1, n);
    }
  }

  lemma {:induction false} UvarintAtEnds(b: seq<Byte>, i: nat) returns (n: nat)
    requires UvarintAt(b, i).Some? && forall j :: 0 <= j < i && j < |b| ==> b[j] >= 128
    requires i <= 10
    ensures EndsAt(b, n)
    decreases |b| - i
  {
    if b[i] < 128 {
      n := i;
    } else {
      n := UvarintAtEnds(b, i + 1);
    }
  }

  /** What is read from any bytes: the varint they start with, and 0 when there is none or it exceeds 64 bits. */
  lemma {:induction false} UvarintExactly(b: seq<Byte>)
    ensures forall n :: EndsAt(b, n) ==> Uvarint(b) == SevenBitValue(b[..n + 1])
    ensures (forall n :: !EndsAt(b, n)) ==> Uvarint(b) == 0
  {
    forall n | EndsAt(b, n)
      ensures Uvarint(b) == SevenBitValue(b[..n + 1])
    {
      UvarintAtExactly(b, 0, n);
      assert b[0..n + 1] == b[..n + 1];
    }
    if UvarintAt(b, 0).Some? {
      var n := UvarintAtEnds(b, 0);
    }
  }

  // ---- Base64 without padding (RFC 4648, sections 3.2 and 4, with another alphabet) ----

  const UPPER: string := "ABCDEFGHIJKLMNOPQRSTUVWXYZ"
  const LOWER: string := "abcdefghijklmnopqrstuvwxyz"
  const OTHER: string := "0123456789-."

  /** The alphabet: every character is safe in text messages. */
  const URL_CHARS: string := UPPER + LOWER + OTHER

  type Sextet = x: int | 0 <= x < 64

  function EncodeChar(x: Sextet): char {
    if x < 26 then 'A' + x as char
    else if x < 52 then 'a' + (x - 26) as char
    else if x < 62 then '0' + (x - 52) as char
    else if x == 62 then '-' else '.'
  }

  function DecodeChar(c: char): Option<Sextet> {
    if 'A' <= c <= 'Z' then Some((c - 'A') as int)
    else if 'a' <= c <= 'z' then Some((c - 'a') as int + 26)
    else if '0' <= c <= '9' then Some((c - '0') as int + 52)
    else if c == '-' then Some(62)
    else if c == '.' then Some(63)
    else None
  }

  lemma {:induction false} CharsMatch()
    ensures |URL_CHARS| == 64 && forall x: Sextet :: EncodeChar(x) == URL_CHARS[x]
  {
    assert forall i :: 0 <= i < 26 ==> UPPER[i] == 'A' + i as char;
    assert forall i :: 0 <= i < 26 ==> LOWER[i] == 'a' + i as char;
    assert forall i :: 0 <= i < 10 ==> OTHER[i] == '0' + i as char;
    forall x: Sextet
      ensures EncodeChar(x) == URL_CHARS[x]
    {
      if x < 26 {
        assert URL_CHARS[x] == UPPER[x];
      } else if x < 52 {
        assert URL_CHARS[x] == LOWER[x - 26];
      } else {
        assert URL_CHARS[x] == OTHER[x - 52];
      }
    }
  }

  lemma {:induction false} DecodeEncodeChar(x: Sextet)
    ensures DecodeChar(EncodeChar(x)) == Some(x)
    ensures EncodeChar(x) != '\r' && EncodeChar(x) != '\n'
  {
  }

  lemma {:induction false} EncodeDecodeChar(c: char)
    requires DecodeChar(c).Some?
    ensures EncodeChar(DecodeChar(c).value) == c
  {
  }

  /** The two tables are those of the alphabet, and inverse to each other. */
  lemma {:induction false} AlphabetMatches()
    ensures |URL_CHARS| == 64 && forall x: Sextet :: EncodeChar(x) == URL_CHARS[x] && DecodeChar(EncodeChar(x)) == Some(x)
    ensures forall c: char :: DecodeChar(c).Some? ==> EncodeChar(DecodeChar(c).value) == c
  {
    CharsMatch();
    forall x: Sextet
      ensures DecodeChar(EncodeChar(x)) == Some(x)
    {
      DecodeEncodeChar(x);
    }
    forall c: char | DecodeChar(c).Some?
      ensures EncodeChar(DecodeChar(c).value) == c
    {
      EncodeDecodeChar(c);
    }
  }

  function Encode64(b: seq<Byte>): string {
    if |b| == 0 then []
    else if |b| == 1 then [EncodeChar(b[0] / 4), EncodeChar(b[0] % 4 * 16)]
    else if |b| == 2 then
      [EncodeChar(b[0] / 4), EncodeChar(b[0] % 4 * 16 + b[1] / 16), EncodeChar(b[1] % 16 * 4)]
    else
      [EncodeChar(b[0] / 4), EncodeChar(b[0] % 4 * 16 + b[1] / 16),
       EncodeChar(b[1] % 16 * 4 + b[2] / 64), EncodeChar(b[2] % 64)] + Encode64(b[3..])
  }

  function WithoutNewlines(s: string): string {
    if s == [] then []
    else if s[0] == '\r' || s[0] == '\n' then WithoutNewlines(s[1..])
    else [s[0]] + WithoutNewlines(s[1..])
  }

  /** The three bytes that four characters' values make. */
  function First(w: Sextet, x: Sextet): Byte {
    w * 4 + x / 16
  }

  function Second(x: Sextet, y: Sextet): Byte {
    x % 16 * 16 + y / 4
  }

  function Third(y: Sextet, z: Sextet): Byte {
    y % 4 * 64 + z
  }

  /** Decode the characters; bits left over in a final partial group are ignored. */
  function DecodeSextets(s: string): Option<seq<Byte>> {
    if |s| == 0 then Some([])
    else if |s| == 1 then None
    else
      match (DecodeChar(s[0]), DecodeChar(s[1]))
      case (Some(w), Some(x)) =>
        if |s| == 2 then Some([First(w, x)])
        else
          (match DecodeChar(s[2])
           case None => None
           case Some(y) =>
             if |s| == 3 then Some([First(w, x), Second(x, y)])
             else
               match (DecodeChar(s[3]), DecodeSextets(s[4..]))
               case (Some(z), Some(rest)) => Some([First(w, x), Second(x, y), Third(y, z)] + rest)
               case _ => None)
      case _ => None
  }

  /** DecodeString: line breaks are skipped. */
  function Decode64(s: string): Option<seq<Byte>> {
    DecodeSextets(WithoutNewlines(s))
  }

  lemma {:induction false} PackGroup(b0: Byte, b1: Byte, b2: Byte)
    ensures First(b0 / 4, b0 % 4 * 16 + b1 / 16) == b0
    ensures Second(b0 % 4 * 16 + b1 / 16, b1 % 16 * 4 + b2 / 64) == b1
    ensures Third(b1 % 16 * 4 + b2 / 64, b2 % 64) == b2
    ensures First(b0 / 4, b0 % 4 * 16) == b0 && Second(b0 % 4 * 16 + b1 / 16, b1 % 16 * 4) == b1
  {
  }

  lemma {:induction false} DecodeFour(w: Sextet, x: Sextet, y: Sextet, z: Sextet, rest: string, bytes: seq<Byte>)
    requires DecodeSextets(rest) == Some(bytes)
    ensures DecodeSextets([EncodeChar(w), EncodeChar(x), EncodeChar(y), EncodeChar(z)] + rest)
         == Some([First(w, x), Second(x, y), Third(y, z)] + bytes)
  {
    DecodeEncodeChar(w);
    DecodeEncodeChar(x);
    DecodeEncodeChar(y);
    DecodeEncodeChar(z);
    assert ([EncodeChar(w), EncodeChar(x), EncodeChar(y), EncodeChar(z)] + rest)[4..] == rest;
  }

  /** Four characters carry exactly three bytes. */
  lemma {:induction false} DecodeGroup(b0: Byte, b1: Byte, b2: Byte, rest: string, bytes: seq<Byte>)
    requires DecodeSextets(rest) == Some(bytes)
    ensures DecodeSextets([EncodeChar(b0 / 4), EncodeChar(b0 % 4 * 16 + b1 / 16),
                           EncodeChar(b1 % 16 * 4 + b2 / 64), EncodeChar(b2 % 64)] + rest)
         == Some([b0, b1, b2] + bytes)
  {
    PackGroup(b0, b1, b2);
    DecodeFour(b0 / 4, b0 % 4 * 16 + b1 / 16, b1 % 16 * 4 + b2 / 64, b2 % 64, rest, bytes);
  }

  lemma {:induction false} DecodeTwo(w: Sextet, x: Sextet)
    ensures DecodeSextets([EncodeChar(w), EncodeChar(x)]) == Some([First(w, x)])
  {
    DecodeEncodeChar(w);
    DecodeEncodeChar(x);
  }

  lemma {:induction false} DecodeThree(w: Sextet, x: Sextet, y: Sextet)
    ensures DecodeSextets([EncodeChar(w), EncodeChar(x), EncodeChar(y)]) == Some([First(w, x), Second(x, y)])
  {
    DecodeEncodeChar(w);
    DecodeEncodeChar(x);
    DecodeEncodeChar(y);
  }

  lemma {:induction false} DecodeTail1(b0: Byte)
    ensures DecodeSextets([EncodeChar(b0 / 4), EncodeChar(b0 % 4 * 16)]) == Some([b0])
  {
    PackGroup(b0, 0, 0);
    DecodeTwo(b0 / 4, b0 % 4 * 16);
  }

  lemma {:induction false} DecodeTail2(b0: Byte, b1: Byte)
    ensures DecodeSextets([EncodeChar(b0 / 4), EncodeChar(b0 % 4 * 16 + b1 / 16), EncodeChar(b1 % 16 * 4)]) == Some([b0, b1])
  {
    PackGroup(b0, b1, 0);
    DecodeThree(b0 / 4, b0 % 4 * 16 + b1 / 16, b1 % 16 * 4);
  }

  lemma {:induction false} DecodeSextetsRoundTrip(b: seq<Byte>)
    ensures DecodeSextets(Encode64(b)) == Some(b)
  {
    if |b| >= 3 {
      DecodeSextetsRoundTrip(b[3..]);
      DecodeGroup(b[0], b[1], b[2], Encode64(b[3..]), b[3..]);
      assert b == [b[0], b[1], b[2]] + b[3..];
    } else if |b| == 2 {
      DecodeTail2(b[0], b[1]);
      assert b == [b[0], b[1]];
    } else if |b| == 1 {
      DecodeTail1(b[0]);
      assert b == [b[0]];
    }
  }

  lemma {:induction false} EncodedHasNoNewlines(b: seq<Byte>)
    ensures forall c :: c in Encode64(b) ==> c != '\r' && c != '\n'
  {
    if |b| >= 3 {
      EncodedHasNoNewlines(b[3..]);
    }
  }

  lemma {:induction false} NothingToSkip(s: string)
    requires forall c :: c in s ==> c != '\r' && c != '\n'
    ensures WithoutNewlines(s) == s
  {
    if s != [] {
      assert forall c :: c in s[1..] ==> c in s;
      assert s[0] in s;
      NothingToSkip(s[1..]);
    }
  }

  lemma {:induction false} Base64RoundTrip(b: seq<Byte>)
    ensures Decode64(Encode64(b)) == Some(b)
  {
    EncodedHasNoNewlines(b);
    NothingToSkip(Encode64(b));
    DecodeSextetsRoundTrip(b);
  }

  lemma {:induction false} AlphabetIsDecodable(c: char)
    ensures DecodeChar(c).Some? <==> c in URL_CHARS
  {
    AlphabetMatches();
    if c in URL_CHARS {
      var x :| 0 <= x < |URL_CHARS| && URL_CHARS[x] == c;
      var y: Sextet := x;
      assert EncodeChar(y) == c;
    }
    if DecodeChar(c).Some? {
      assert c == URL_CHARS[DecodeChar(c).value];
    }
  }

  /** Line breaks may stand anywhere in an encoded text. */
  lemma {:induction false} LineBreaksAreSkipped(a: string, c: char, b: string)
    requires c == '\r' || c == '\n'
    ensures Decode64(a + [c] + b) == Decode64(a + b)
  {
    DropsLineBreak(a, c, b);
  }

  lemma {:induction false} DropsLineBreak(a: string, c: char, b: string)
    requires c == '\r' || c == '\n'
    ensures WithoutNewlines(a + [c] + b) == WithoutNewlines(a + b)
  {
    if a == [] {
      assert a + [c] + b == [c] + b && a + b == b;
    } else {
      DropsLineBreak(a[1..], c, b);
      assert (a + [c] + b)[1..] == a[1..] + [c] + b && (a + b)[1..] == a[1..] + b;
    }
  }

  /** The characters are in the alphabet, and their number is possible. */
  predicate Decodable(t: string) {
    |t| % 4 != 1 && forall i :: 0 <= i < |t| ==> t[i] in URL_CHARS
  }

  predicate AllDecode(t: string) {
    |t| % 4 != 1 && forall i :: 0 <= i < |t| ==> DecodeChar(t[i]).Some?
  }

  lemma {:induction false} DecodeStep(t: string)
    requires |t| >= 4
    ensures DecodeSextets(t).Some? <==>
            DecodeChar(t[0]).Some? && DecodeChar(t[1]).Some? && DecodeChar(t[2]).Some? && DecodeChar(t[3]).Some?
            && DecodeSextets(t[4..]).Some?
  {
  }

  lemma {:induction false} AllDecodeStep(t: string)
    requires |t| >= 4
    ensures AllDecode(t) <==>
            DecodeChar(t[0]).Some? && DecodeChar(t[1]).Some? && DecodeChar(t[2]).Some? && DecodeChar(t[3]).Some?
            && AllDecode(t[4..])
  {
    assert forall i :: 4 <= i < |t| ==> t[i] == t[4..][i - 4];
  }

  lemma {:induction false} DecodesExactly(t: string)
    ensures DecodeSextets(t).Some? <==> AllDecode(t)
  {
    if |t| >= 4 {
      DecodesExactly(t[4..]);
      DecodeStep(t);
      AllDecodeStep(t);
    }
  }

  /** Exactly the texts over the alphabet, line breaks left out, of a possible length are decoded. */
  lemma {:induction false} Decode64Exactly(s: string)
    ensures Decode64(s).Some? <==> Decodable(WithoutNewlines(s))
  {
    var t := WithoutNewlines(s);
    DecodesExactly(t);
    forall i | 0 <= i < |t|
      ensures t[i] in URL_CHARS <==> DecodeChar(t[i]).Some?
    {
      AlphabetIsDecodable(t[i]);
    }
  }

  /** Two texts that differ at most in the bits of the last character that carry no data. */
  predicate SameData(s: string, t: string) {
    && |s| == |t|
    && (forall i :: 0 <= i < |s| && (|s| % 4 == 0 || i < |s| - 1) ==> s[i] == t[i])
    && (|s| % 4 == 2 ==> DecodeChar(s[|s| - 1]).Some? && DecodeChar(t[|t| - 1]).Some?
                         && DecodeChar(s[|s| - 1]).value / 16 == DecodeChar(t[|t| - 1]).value / 16)
    && (|s| % 4 == 3 ==> DecodeChar(s[|s| - 1]).Some? && DecodeChar(t[|t| - 1]).Some?
                         && DecodeChar(s[|s| - 1]).value / 4 == DecodeChar(t[|t| - 1]).value / 4)
  }

  lemma {:induction false} UnpackGroup(w: Sextet, x: Sextet, y: Sextet, z: Sextet)
    ensures First(w, x) / 4 == w && First(w, x) % 4 * 16 + Second(x, y) / 16 == x
    ensures Second(x, y) % 16 * 4 + Third(y, z) / 64 == y && Third(y, z) % 64 == z
    ensures First(w, x) % 4 * 16 == x / 16 * 16 && Second(x, y) % 16 * 4 == y / 4 * 4
  {
  }

  lemma {:induction false} EncodeOne(b0: Byte, w: Sextet, x: Sextet)
    requires b0 / 4 == w && b0 % 4 * 16 == x
    ensures Encode64([b0]) == [EncodeChar(w), EncodeChar(x)]
  {
  }

  lemma {:induction false} EncodeTwo(b0: Byte, b1: Byte, w: Sextet, x: Sextet, y: Sextet)
    requires b0 / 4 == w && b0 % 4 * 16 + b1 / 16 == x && b1 % 16 * 4 == y
    ensures Encode64([b0, b1]) == [EncodeChar(w), EncodeChar(x), EncodeChar(y)]
  {
  }

  lemma {:induction false} EncodeThree(b0: Byte, b1: Byte, b2: Byte, rest: seq<Byte>, w: Sextet, x: Sextet, y: Sextet, z: Sextet)
    requires b0 / 4 == w && b0 % 4 * 16 + b1 / 16 == x && b1 % 16 * 4 + b2 / 64 == y && b2 % 64 == z
    ensures Encode64([b0, b1, b2] + rest) == [EncodeChar(w), EncodeChar(x), EncodeChar(y), EncodeChar(z)] + Encode64(rest)
  {
    assert ([b0, b1, b2] + rest)[3..] == rest;
  }

  lemma {:induction false} CharOf(c: char) returns (x: Sextet)
    requires DecodeChar(c).Some?
    ensures DecodeChar(c) == Some(x) && EncodeChar(x) == c
  {
    x := DecodeChar(c).value;
    EncodeDecodeChar(c);
  }

  /** What is decoded encodes to the same text, but for unused bits. */
  lemma {:induction false} ReencodeDecoded(t: string)
    requires DecodeSextets(t).Some?
    ensures SameData(Encode64(DecodeSextets(t).value), t)
  {
    if |t| >= 4 {
      DecodeStep(t);
      ReencodeDecoded(t[4..]);
      var w, x, y, z := CharsOf(t);
      var rest := DecodeSextets(t[4..]).value;
      DecodeFour(w, x, y, z, t[4..], rest);
      UnpackGroup(w, x, y, z);
      EncodeThree(First(w, x), Second(x, y), Third(y, z), rest, w, x, y, z);
      SameDataAfter([EncodeChar(w), EncodeChar(x), EncodeChar(y), EncodeChar(z)], Encode64(rest), t[4..]);
    } else if |t| == 3 {
      ReencodeThree(t);
    } else if |t| == 2 {
      ReencodeTwo(t);
    }
  }

  lemma {:induction false} CharsOf(t: string) returns (w: Sextet, x: Sextet, y: Sextet, z: Sextet)
    requires |t| >= 4 && DecodeChar(t[0]).Some? && DecodeChar(t[1]).Some? && DecodeChar(t[2]).Some? && DecodeChar(t[3]).Some?
    ensures t == [EncodeChar(w), EncodeChar(x), EncodeChar(y), EncodeChar(z)] + t[4..]
  {
    w := CharOf(t[0]);
    x := CharOf(t[1]);
    y := CharOf(t[2]);
    z := CharOf(t[3]);
  }

  lemma {:induction false} SameDataAfter(group: string, s: string, t: string)
    requires |group| == 4 && SameData(s, t)
    ensures SameData(group + s, group + t)
  {
    assert forall i :: 4 <= i < |group + s| ==> (group + s)[i] == s[i - 4];
    assert forall i :: 4 <= i < |group + t| ==> (group + t)[i] == t[i - 4];
  }

  lemma {:induction false} ReencodeTwo(t: string)
    requires |t| == 2 && DecodeSextets(t).Some?
    ensures SameData(Encode64(DecodeSextets(t).value), t)
  {
    var w := CharOf(t[0]);
    var x := CharOf(t[1]);
    UnpackGroup(w, x, 0, 0);
    EncodeOne(First(w, x), w, x / 16 * 16);
    DecodeEncodeChar(x / 16 * 16);
  }

  lemma {:induction false} ReencodeThree(t: string)
    requires |t| == 3 && DecodeSextets(t).Some?
    ensures SameData(Encode64(DecodeSextets(t).value), t)
  {
    var w := CharOf(t[0]);
    var x := CharOf(t[1]);
    var y := CharOf(t[2]);
    UnpackGroup(w, x, y, 0);
    EncodeTwo(First(w, x), Second(x, y), w, x, y / 4 * 4);
    DecodeEncodeChar(y / 4 * 4);
  }

  /** Three bytes as one number, the first byte first. */
  function GroupNumber(b0: nat, b1: nat, b2: nat): nat {
    65536 * b0 + 256 * b1 + b2
  }

  lemma {:induction false} Base64Digits(w: nat, x: nat, y: nat, z: nat)
    requires w < 64 && x < 64 && y < 64 && z < 64
    ensures var n := 262144 * w + 4096 * x + 64 * y + z;
            n / 262144 == w && n / 4096 % 64 == x && n / 64 % 64 == y && n % 64 == z
  {
    var n := 262144 * w + 4096 * x + 64 * y + z;
    assert n / 64 == 4096 * w + 64 * x + y;
    assert n / 4096 == 64 * w + x;
  }

  lemma {:induction false} GroupDigits(b0: Byte, b1: Byte, b2: Byte)
    ensures var n := GroupNumber(b0, b1, b2);
            && n / 262144 == b0 / 4 && n / 4096 % 64 == b0 % 4 * 16 + b1 / 16
            && n / 64 % 64 == b1 % 16 * 4 + b2 / 64 && n % 64 == b2 % 64
  {
    var w: int, x: int, y: int, z: int := b0 / 4, b0 % 4 * 16 + b1 / 16, b1 % 16 * 4 + b2 / 64, b2 % 64;
    Base64Digits(w, x, y, z);
    assert GroupNumber(b0, b1, b2) == 262144 * w + 4096 * x + 64 * y + z;
  }

  /** The base-64 digits of a group's number as characters. */
  function GroupChars(b0: Byte, b1: Byte, b2: Byte): string {
    GroupDigits(b0, b1, b2);
    var n := GroupNumber(b0, b1, b2);
    [EncodeChar(n / 262144), EncodeChar(n / 4096 % 64), EncodeChar(n / 64 % 64), EncodeChar(n % 64)]
  }

  lemma {:induction false} FirstGroup(b: seq<Byte>)
    requires 3 <= |b|
    ensures Encode64(b) == GroupChars(b[0], b[1], b[2]) + Encode64(b[3..])
  {
    GroupDigits(b[0], b[1], b[2]);
  }

  lemma {:induction false} SliceAfterGroup(group: string, rest: string, i: nat)
    requires |group| == 4 && 0 < i && 4 * i <= |rest|
    ensures (group + rest)[4 * i..4 * i + 4] == rest[4 * i - 4..4 * i]
  {
  }

  /** The bits go in order: the four characters of a group are the base-64 digits of its three bytes' number. */
  lemma {:induction false} GroupsAreBigEndian(b: seq<Byte>, i: nat)
    requires 3 * i + 3 <= |b|
    ensures |Encode64(b)| >= 4 * i + 4
    ensures Encode64(b)[4 * i..4 * i + 4] == GroupChars(b[3 * i], b[3 * i + 1], b[3 * i + 2])
  {
    FirstGroup(b);
    if i > 0 {
      GroupsAreBigEndian(b[3..], i - 1);
      SliceAfterGroup(GroupChars(b[0], b[1], b[2]), Encode64(b[3..]), i);
      assert b[3..][3 * (i - 1)] == b[3 * i] && b[3..][3 * (i - 1) + 1] == b[3 * i + 1] && b[3..][3 * (i - 1) + 2] == b[3 * i + 2];
    }
  }

  // ---- UUID text (github.com/google/uuid) ----

  type UUID = b: seq<Byte> | |b| == 16 witness seq(16, _ => 0)

  function HexChar(d: nat): char
    requires d < 16
  {
    if d < 10 then '0' + d as char else 'a' + (d - 10) as char
  }

  function HexValue(c: char): Option<nat> {
    if '0' <= c <= '9' then Some((c - '0') as nat)
    else if 'a' <= c <= 'f' then Some((c - 'a') as nat + 10)
    else if 'A' <= c <= 'F' then Some((c - 'A') as nat + 10)
    else None
  }

  /** Positions of the dashes in the 36-character form. */
  predicate IsDash(i: int) {
    i == 8 || i == 13 || i == 18 || i == 23
  }

  /** The text position of hex digit k, and of the two digits of byte k/2. */
  function DigitPosition(k: nat): nat
    requires k < 32
  {
    k + (if k < 8 then 0 else if k < 12 then 1 else if k < 16 then 2 else if k < 20 then 3 else 4)
  }

  /** The hex digit at a text position, the inverse of DigitPosition. */
  function DigitIndex(i: nat): (k: nat)
    requires i < 36 && !IsDash(i)
    ensures k < 32 && DigitPosition(k) == i
  {
    i - (if i < 8 then 0 else if i < 13 then 1 else if i < 18 then 2 else if i < 23 then 3 else 4)
  }

  function Nibble(id: UUID, k: nat): (d: nat)
    requires k < 32
    ensures d < 16
  {
    if k % 2 == 0 then id[k / 2] / 16 else id[k / 2] % 16
  }

  /** UUID.String: lower-case hex in groups of 8-4-4-4-12. */
  function FormatUUID(id: UUID): (s: string)
    ensures |s| == 36
  {
    seq(36, i requires 0 <= i < 36 => if IsDash(i) then '-' else HexChar(Nibble(id, DigitIndex(i))))
  }

  /** Two hex digits of s as a byte. */
  function HexByte(s: string, x: nat): Option<Byte>
    requires x + 1 < |s|
  {
    match (HexValue(s[x]), HexValue(s[x + 1]))
    case (Some(h), Some(l)) => if h < 16 && l < 16 then Some(16 * h + l) else None
    case _ => None
  }

  /** The 16 bytes whose digits sit at the given positions. */
  function HexBytes(s: string, dashed: bool): Option<UUID>
    requires |s| >= if dashed then 36 else 32
  {
    if forall i :: 0 <= i < 16 ==> HexByte(s, BytePosition(i, dashed)).Some?
    then Some(seq(16, i requires 0 <= i < 16 && HexByte(s, BytePosition(i, dashed)).Some? && |s| >= (if dashed then 36 else 32)
                        => HexByte(s, BytePosition(i, dashed)).value))
    else None
  }

  function BytePosition(i: nat, dashed: bool): (x: nat)
    requires i < 16
    ensures x + 1 < if dashed then 36 else 32
  {
    if dashed then DigitPosition(2 * i) else 2 * i
  }

  /**
   uuid.Parse on text without letters beyond f, that is, without the `urn:uuid:` form: 36 characters with dashes,
   32 without, or 38 of which the first and the last are dropped unseen.
   */
  function ParseUUID(s: string): Option<UUID> {
    if |s| == 32 then HexBytes(s, false)
    else if |s| != 36 && |s| != 38 then None
    else
      var t := if |s| == 38 then s[1..] else s;
      if t[8] != '-' || t[13] != '-' || t[18] != '-' || t[23] != '-' then None else HexBytes(t, true)
  }

  lemma {:induction false} HexRoundTrip(d: nat)
    requires d < 16
    ensures HexValue(HexChar(d)) == Some(d)
  {
  }

  lemma {:induction false} FormattedByte(id: UUID, i: nat)
    requires i < 16
    ensures HexByte(FormatUUID(id), BytePosition(i, true)) == Some(id[i])
  {
    var s, x := FormatUUID(id), BytePosition(i, true);
    assert !IsDash(x) && DigitIndex(x) == 2 * i;
    assert !IsDash(x + 1) && DigitIndex(x + 1) == 2 * i + 1;
    HexRoundTrip(id[i] / 16);
    HexRoundTrip(id[i] % 16);
  }

  lemma {:induction false} UUIDRoundTrip(id: UUID)
    ensures ParseUUID(FormatUUID(id)) == Some(id)
  {
    forall i | 0 <= i < 16
      ensures HexByte(FormatUUID(id), BytePosition(i, true)) == Some(id[i])
    {
      FormattedByte(id, i);
    }
    assert HexBytes(FormatUUID(id), true).value == id;
  }

  // ---- Which texts are UUIDs ----

  /** The 32 hex digits alone. */
  function Compact(id: UUID): (s: string)
    ensures |s| == 32
  {
    seq(32, k requires 0 <= k < 32 => HexChar(Nibble(id, k)))
  }

  lemma {:induction false} HexCharsInOrder(d: nat)
    requires d < 16
    ensures HexChar(d) == "0123456789abcdef"[d]
  {
  }

  lemma {:induction false} CompactDigits(id: UUID, i: nat)
    requires i < 16
    ensures Compact(id)[2 * i] == "0123456789abcdef"[id[i] / 16] && Compact(id)[2 * i + 1] == "0123456789abcdef"[id[i] % 16]
  {
    HexCharsInOrder(id[i] / 16);
    HexCharsInOrder(id[i] % 16);
  }

  /** The printed form, group by group: the bytes in order, two lower-case hex digits each. */
  lemma {:induction false} UUIDLayout(id: UUID)
    ensures var h := Compact(id);
            && FormatUUID(id) == h[..8] + "-" + h[8..12] + "-" + h[12..16] + "-" + h[16..20] + "-" + h[20..]
            && forall i :: 0 <= i < 16 ==> h[2 * i] == "0123456789abcdef"[id[i] / 16] && h[2 * i + 1] == "0123456789abcdef"[id[i] % 16]
  {
    forall i | 0 <= i < 16
      ensures Compact(id)[2 * i] == "0123456789abcdef"[id[i] / 16] && Compact(id)[2 * i + 1] == "0123456789abcdef"[id[i] % 16]
    {
      CompactDigits(id, i);
    }
  }

  predicate IsLowerHex(c: char) {
    '0' <= c <= '9' || 'a' <= c <= 'f'
  }

  lemma {:induction false} LowerHexChar(c: char)
    requires IsLowerHex(c)
    ensures HexValue(c).Some? && HexValue(c).value < 16 && HexChar(HexValue(c).value) == c
  {
  }

  lemma {:induction false} HexByteNibbles(s: string, x: nat)
    requires x + 1 < |s| && HexByte(s, x).Some?
    ensures HexValue(s[x]) == Some(HexByte(s, x).value / 16) && HexValue(s[x + 1]) == Some(HexByte(s, x).value % 16)
  {
  }

  lemma {:induction false} CompactByte(id: UUID, i: nat)
    requires i < 16
    ensures HexByte(Compact(id), 2 * i) == Some(id[i])
  {
    HexRoundTrip(id[i] / 16);
    HexRoundTrip(id[i] % 16);
  }

  lemma {:induction false} CompactParses(id: UUID)
    ensures ParseUUID(Compact(id)) == Some(id)
  {
    forall i | 0 <= i < 16
      ensures HexByte(Compact(id), BytePosition(i, false)) == Some(id[i])
    {
      CompactByte(id, i);
    }
    assert HexBytes(Compact(id), false).value == id;
  }

  /** Lower-case hex text determines its digits. */
  lemma {:induction false} CompactOfParsed(s: string, id: UUID)
    requires |s| == 32 && HexBytes(s, false) == Some(id) && forall i :: 0 <= i < 32 ==> IsLowerHex(s[i]) || s[i] == '-'
    ensures s == Compact(id)
  {
    forall k | 0 <= k < 32
      ensures s[k] == Compact(id)[k]
    {
      var x := BytePosition(k / 2, false);
      assert HexByte(s, x) == Some(id[k / 2]);
      HexByteNibbles(s, x);
      assert HexValue(s[k]) == Some(Nibble(id, k));
      LowerHexChar(s[k]);
    }
  }

  predicate HasDashes(s: string) {
    |s| >= 36 && s[8] == '-' && s[13] == '-' && s[18] == '-' && s[23] == '-'
  }

  lemma {:induction false} FormattedOfParsed(s: string, id: UUID)
    requires HasDashes(s) && HexBytes(s, true) == Some(id) && forall i :: 0 <= i < 36 ==> IsLowerHex(s[i]) || s[i] == '-'
    ensures s[..36] == FormatUUID(id)
  {
    forall i | 0 <= i < 36
      ensures s[i] == FormatUUID(id)[i]
    {
      if !IsDash(i) {
        var k := DigitIndex(i);
        var x := BytePosition(k / 2, true);
        assert HexByte(s, x) == Some(id[k / 2]);
        HexByteNibbles(s, x);
        assert i == x + k % 2;
        assert HexValue(s[i]) == Some(Nibble(id, k));
        LowerHexChar(s[i]);
      }
    }
  }

  lemma {:induction false} HexBytesOfFormatted(s: string, id: UUID)
    requires |s| >= 36 && s[..36] == FormatUUID(id)
    ensures HasDashes(s) && HexBytes(s, true) == Some(id)
  {
    assert forall i :: 0 <= i < 36 ==> s[i] == FormatUUID(id)[i];
    forall i | 0 <= i < 16
      ensures HexByte(s, BytePosition(i, true)) == Some(id[i])
    {
      FormattedByte(id, i);
    }
    assert HexBytes(s, true).value == id;
  }

  /** The texts read as a UUID: with dashes, without, or with dashes between two further characters. */
  predicate SpellsUUID(s: string, id: UUID) {
    s == Compact(id) || s == FormatUUID(id) || (|s| == 38 && s[1..37] == FormatUUID(id))
  }

  /** Of lower-case texts, exactly these are read. */
  lemma {:induction false} ParseUUIDExactly(s: string, id: UUID)
    requires forall i :: 0 <= i < |s| ==> IsLowerHex(s[i]) || s[i] == '-'
    ensures ParseUUID(s) == Some(id) <==> SpellsUUID(s, id)
  {
    if ParseUUID(s) == Some(id) {
      if |s| == 32 {
        CompactOfParsed(s, id);
      } else {
        var t := if |s| == 38 then s[1..] else s;
        FormattedOfParsed(t, id);
        assert |s| == 36 ==> t[..36] == s;
        assert |s| == 38 ==> t[..36] == s[1..37];
      }
    }
    if SpellsUUID(s, id) {
      if |s| == 32 {
        CompactParses(id);
      } else {
        var t := if |s| == 38 then s[1..] else s;
        assert t[..36] == FormatUUID(id);
        HexBytesOfFormatted(t, id);
      }
    }
  }
}
