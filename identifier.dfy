/**
 * Paste identifiers: derived from the SHA-1 digest of the content with the
 * URL-safe base64 alphabet (section 5 of RFC 4648), and checked against
 * ^[a-zA-Z0-9-_]+$ before any lookup.
 */
module Identifier {
  type byte = x: int | 0 <= x < 256

  /** Characters the identifier pattern's class [a-zA-Z0-9-_] admits. */
  predicate IsIdChar(c: char) {
    ('a' <= c <= 'z') || ('A' <= c <= 'Z') || ('0' <= c <= '9') || c == '-' || c == '_'
  }

  /** uuidValidator.MatchString: one or more characters, all from the class. */
  predicate ValidId(s: string)
    ensures ValidId(s) ==> '/' !in s && '.' !in s
  {
    |s| >= 1 && forall i :: 0 <= i < |s| ==> IsIdChar(s[i])
  }

  /** The URL and filename safe alphabet, indexed 0..63. */
  function AlphabetChar(k: int): (c: char)
    requires 0 <= k < 64
    ensures IsIdChar(c)
  {
    if k < 26 then ('A' as int + k) as char
    else if k < 52 then ('a' as int + (k - 26)) as char
    else if k < 62 then ('0' as int + (k - 52)) as char
    else if k == 62 then '-'
    else '_'
  }

  /** The index of an alphabet character; 0 for any other character. */
  function AlphabetIndex(c: char): (k: int)
    ensures 0 <= k < 64
    ensures IsIdChar(c) ==> AlphabetChar(k) == c
  {
    if 'A' <= c <= 'Z' then c as int - 'A' as int
    else if 'a' <= c <= 'z' then c as int - 'a' as int + 26
    else if '0' <= c <= '9' then c as int - '0' as int + 52
    else if c == '-' then 62
    else 63
  }

  lemma AlphabetIndexOfChar(k: int)
    requires 0 <= k < 64
    ensures AlphabetIndex(AlphabetChar(k)) == k
  {
  }

  /** Three bytes as four 6-bit digits, most significant first. */
  function EncodeGroup(b0: byte, b1: byte, b2: byte): (s: string)
    ensures |s| == 4 && forall i :: 0 <= i < 4 ==> IsIdChar(s[i])
  {
    [AlphabetChar(b0 / 4),
     AlphabetChar(b0 % 4 * 16 + b1 / 16),
     AlphabetChar(b1 % 16 * 4 + b2 / 64),
     AlphabetChar(b2 % 64)]
  }

  /** Four alphabet characters as the three bytes they carry. */
  function DecodeGroup(s: string): (b: seq<byte>)
    requires |s| == 4
    ensures |b| == 3
  {
    var c0, c1, c2, c3 := AlphabetIndex(s[0]), AlphabetIndex(s[1]), AlphabetIndex(s[2]), AlphabetIndex(s[3]);
    [c0 * 4 + c1 / 16, c1 % 16 * 16 + c2 / 4, c2 % 4 * 64 + c3]
  }

  lemma GroupRoundTrip(b0: byte, b1: byte, b2: byte)
    ensures DecodeGroup(EncodeGroup(b0, b1, b2)) == [b0, b1, b2]
  {
    AlphabetIndexOfChar(b0 / 4);
    AlphabetIndexOfChar(b0 % 4 * 16 + b1 / 16);
    AlphabetIndexOfChar(b1 % 16 * 4 + b2 / 64);
    AlphabetIndexOfChar(b2 % 64);
    HighBits(b0, b1);
    MidBits(b1, b2);
  }

  /**
   * The characters of the encoding without its padding: a final group of
   * one or two bytes is encoded as if completed with zero bytes, keeping
   * the two or three characters that carry its bits.
   */
  function Base64UrlDigits(b: seq<byte>): (s: string)
    ensures |s| == (4 * |b| + 2) / 3
    ensures forall i :: 0 <= i < |s| ==> IsIdChar(s[i])
  {
    if |b| >= 3 then EncodeGroup(b[0], b[1], b[2]) + Base64UrlDigits(b[3..])
    else if |b| == 2 then EncodeGroup(b[0], b[1], 0)[..3]
    else if |b| == 1 then EncodeGroup(b[0], 0, 0)[..2]
    else []
  }

  /** The `=` characters that fill the last group of four. */
  function Padding(n: nat): string {
    if n % 3 == 1 then "==" else if n % 3 == 2 then "=" else ""
  }

  /** Regrouping three bytes into four 6-bit digits and back. */
  lemma HighBits(b0: byte, b1: byte)
    ensures (b0 / 4) * 4 + (b0 % 4 * 16 + b1 / 16) / 16 == b0
    ensures (b0 % 4 * 16 + b1 / 16) % 16 == b1 / 16
  {
    var h := b1 / 16;
    var c := b0 % 4 * 16 + h;
    assert c / 16 == b0 % 4;
    assert c % 16 == h;
  }

  lemma MidBits(b1: byte, b2: byte)
    ensures (b1 / 16) * 16 + (b1 % 16 * 4 + b2 / 64) / 4 == b1
    ensures (b1 % 16 * 4 + b2 / 64) % 4 == b2 / 64
  {
    var h := b2 / 64;
    var c := b1 % 16 * 4 + h;
    assert c / 4 == b1 % 16;
    assert c % 4 == h;
  }

  lemma PaddedLength(n: nat)
    ensures (4 * n + 2) / 3 + |Padding(n)| == 4 * ((n + 2) / 3)
  {
    var q, r := n / 3, n % 3;
    assert n == 3 * q + r;
    if r == 0 {
      assert 4 * n + 2 == 3 * (4 * q) + 2 && n + 2 == 3 * q + 2;
    } else if r == 1 {
      assert 4 * n + 2 == 3 * (4 * q + 2) && n + 2 == 3 * (q + 1);
    } else {
      assert 4 * n + 2 == 3 * (4 * q + 3) + 1 && n + 2 == 3 * (q + 1) + 1;
    }
  }

  /** base64.URLEncoding.EncodeToString: groups of four, padded with `=`. */
  function Base64Url(b: seq<byte>): (s: string)
    ensures |s| == 4 * ((|b| + 2) / 3)
  {
    PaddedLength(|b|);
    Base64UrlDigits(b) + Padding(|b|)
  }

  predicate HasSuffix(s: string, suffix: string) {
    |suffix| <= |s| && s[|s| - |suffix|..] == suffix
  }

  /** strings.TrimSuffix: one copy of a present suffix is removed, otherwise nothing changes. */
  function TrimSuffix(s: string, suffix: string): (r: string)
    ensures HasSuffix(s, suffix) ==> s == r + suffix
    ensures !HasSuffix(s, suffix) ==> r == s
  {
    if HasSuffix(s, suffix) then s[..|s| - |suffix|] else s
  }

  /** strings.Replace(s, [from], [to], -1) for one-character strings. */
  function ReplaceAll(s: string, from: char, to: char): (r: string)
    ensures |r| == |s|
    ensures forall i :: 0 <= i < |s| ==> r[i] == if s[i] == from then to else s[i]
  {
    if s == [] then [] else [if s[0] == from then to else s[0]] + ReplaceAll(s[1..], from, to)
  }

  /** The identifier createHandler derives from a content digest. */
  function DeriveId(digest: seq<byte>): (id: string)
    ensures '/' !in id
    ensures |digest| == 20 ==> |id| == 27 && ValidId(id)
  {
    ReplaceAll(TrimSuffix(Base64Url(digest), "="), '/', '-')
  }

  /** The bytes a run of unpadded alphabet characters stands for. */
  function DecodeDigits(s: string): seq<byte>
  {
    if |s| >= 4 then DecodeGroup(s[..4]) + DecodeDigits(s[4..])
    else if |s| == 3 then DecodeGroup(s + "A")[..2]
    else if |s| == 2 then DecodeGroup(s + "AA")[..1]
    else []
  }

  /** The digest an identifier stands for. */
  function DecodeId(id: string): seq<byte>
  {
    DecodeDigits(id)
  }

  lemma TwoByteTailRoundTrip(b0: byte, b1: byte)
    ensures DecodeDigits(Base64UrlDigits([b0, b1])) == [b0, b1]
  {
    var g := EncodeGroup(b0, b1, 0);
    var s := Base64UrlDigits([b0, b1]);
    assert s == g[..3];
    assert g[3] == 'A';
    assert s + "A" == g;
    GroupRoundTrip(b0, b1, 0);
    assert DecodeDigits(s) == DecodeGroup(s + "A")[..2];
  }

  lemma OneByteTailRoundTrip(b0: byte)
    ensures DecodeDigits(Base64UrlDigits([b0])) == [b0]
  {
    var g := EncodeGroup(b0, 0, 0);
    var s := Base64UrlDigits([b0]);
    assert s == g[..2];
    assert g[2] == 'A' && g[3] == 'A';
    assert s + "AA" == g;
    GroupRoundTrip(b0, 0, 0);
    assert DecodeDigits(s) == DecodeGroup(s + "AA")[..1];
  }

  /** Decoding the encoding of three or more bytes decodes the first group, then the rest. */
  lemma DecodeLeadingGroup(b: seq<byte>)
    requires |b| >= 3
    ensures DecodeDigits(Base64UrlDigits(b))
         == DecodeGroup(EncodeGroup(b[0], b[1], b[2])) + DecodeDigits(Base64UrlDigits(b[3..]))
  {
    var g := EncodeGroup(b[0], b[1], b[2]);
    var rest := Base64UrlDigits(b[3..]);
    assert Base64UrlDigits(b) == g + rest;
    assert (g + rest)[..4] == g;
    assert (g + rest)[4..] == rest;
  }

  lemma ThreeAndRest(b: seq<byte>)
    requires |b| >= 3
    ensures b == [b[0], b[1], b[2]] + b[3..]
  {
  }

  lemma {:induction false} DecodeDigitsOfBase64(b: seq<byte>)
    ensures DecodeDigits(Base64UrlDigits(b)) == b
  {
    if |b| >= 3 {
      var tail := b[3..];
      DecodeLeadingGroup(b);
      GroupRoundTrip(b[0], b[1], b[2]);
      DecodeDigitsOfBase64(tail);
      ThreeAndRest(b);
    } else if |b| == 2 {
      TwoByteTailRoundTrip(b[0], b[1]);
      assert b == [b[0], b[1]];
    } else if |b| == 1 {
      OneByteTailRoundTrip(b[0]);
      assert b == [b[0]];
    }
  }

  /**
   * A 20-byte SHA-1 digest encodes to 28 characters ending in one `=`; the
   * identifier is the 27 characters before it, which are all from the
   * alphabet, so the replacement of `/` changes nothing and the identifier
   * passes the validator.
   */
  lemma DerivedIdShape(digest: seq<byte>)
    requires |digest| == 20
    ensures DeriveId(digest) == Base64UrlDigits(digest)
    ensures |DeriveId(digest)| == 27 && ValidId(DeriveId(digest))
  {
  }

  /**
   * The identifier determines the digest: trimming the padding and the
   * replacement lose nothing, so distinct digests give distinct identifiers.
   */
  lemma DecodeDerivedId(digest: seq<byte>)
    requires |digest| == 20
    ensures ValidId(DeriveId(digest)) && DecodeId(DeriveId(digest)) == digest
  {
    DerivedIdShape(digest);
    DecodeDigitsOfBase64(digest);
  }
}
