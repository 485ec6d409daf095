/** The encoding step of Bank.HashPassword (Bank.cs): every byte of the
    digest is written with the "x2" format, two lower-case hexadecimal
    digits, high nibble first. */
module Hex {
  import opened Wrappers

  newtype byte = b: int | 0 <= b < 256

  /** Output of SHA-256: 32 bytes. */
  type Digest = s: seq<byte> | |s| == 32 witness seq(32, _ => 0 as byte)

  const HexDigits: string := "0123456789abcdef"

  /** b.ToString("x2"). */
  function ByteToHex(b: byte): string
  {
    [HexDigits[b / 16], HexDigits[b % 16]]
  }

  /** The bytes written one after another, in order. */
  function Encode(bytes: seq<byte>): string
  {
    if bytes == [] then "" else ByteToHex(bytes[0]) + Encode(bytes[1..])
  }

  predicate IsHexDigit(c: char)
  {
    '0' <= c <= '9' || 'a' <= c <= 'f'
  }

  /** Every character is a lower-case hexadecimal digit. */
  ghost predicate IsLowerHex(s: string)
  {
    forall i :: 0 <= i < |s| ==> IsHexDigit(s[i])
  }

  /** Value of a lower-case hexadecimal digit; None for any other character. */
  function DigitValue(c: char): (r: Option<nat>)
    ensures r.Some? <==> IsHexDigit(c)
    ensures r.Some? ==> r.value < 16
  {
    if '0' <= c <= '9' then Some(c as nat - '0' as nat)
    else if 'a' <= c <= 'f' then Some(c as nat - 'a' as nat + 10)
    else None
  }

  /** Reads back pairs of lower-case hexadecimal digits. */
  function Decode(s: string): Option<seq<byte>>
  {
    if s == [] then Some([])
    else if |s| == 1 then None
    else
      match (DigitValue(s[0]), DigitValue(s[1]), Decode(s[2..]))
      case (Some(hi), Some(lo), Some(rest)) => Some([(hi * 16 + lo) as byte] + rest)
      case _ => None
  }

  /** Each digit character reads back as the value it was chosen for. */
  lemma DigitValueOfDigit(d: nat)
    requires d < 16
    ensures DigitValue(HexDigits[d]) == Some(d)
  {
  }

  /** Encoding a concatenation is concatenating the encodings; this is what
      lets the digest be encoded one byte at a time. */
  lemma {:induction false} EncodeAppend(a: seq<byte>, b: seq<byte>)
    ensures Encode(a + b) == Encode(a) + Encode(b)
  {
    if a == [] {
      assert a + b == b;
    } else {
      var ab := a + b;
      assert ab[0] == a[0] && ab[1..] == a[1..] + b;
      EncodeAppend(a[1..], b);
      calc {
        Encode(ab);
        ByteToHex(a[0]) + Encode(a[1..] + b);
        ByteToHex(a[0]) + (Encode(a[1..]) + Encode(b));
        (ByteToHex(a[0]) + Encode(a[1..])) + Encode(b);
      }
    }
  }

  /** The two characters written for one byte are hex digits that read
      back as its high and its low nibble. */
  lemma ByteToHexDigits(b: byte)
    ensures |ByteToHex(b)| == 2 && IsLowerHex(ByteToHex(b))
    ensures DigitValue(ByteToHex(b)[0]) == Some((b / 16) as nat)
    ensures DigitValue(ByteToHex(b)[1]) == Some((b % 16) as nat)
  {
    DigitValueOfDigit((b / 16) as nat);
    DigitValueOfDigit((b % 16) as nat);
  }

  /** Two characters per byte, all of them lower-case hex digits. */
  lemma {:induction false} EncodeShape(bytes: seq<byte>)
    ensures |Encode(bytes)| == 2 * |bytes|
    ensures IsLowerHex(Encode(bytes))
  {
    if bytes != [] {
      EncodeShape(bytes[1..]);
      ByteToHexDigits(bytes[0]);
      var h := ByteToHex(bytes[0]);
      var t := Encode(bytes[1..]);
      assert Encode(bytes) == h + t;
      forall j | 0 <= j < |h + t|
        ensures IsHexDigit((h + t)[j])
      {
        if j < 2 {
          assert (h + t)[j] == h[j];
        } else {
          assert (h + t)[j] == t[j - 2];
        }
      }
    }
  }

  /** Byte `i` is written at positions 2i and 2i+1, so the output follows
      the order of the bytes. */
  lemma {:induction false} EncodeAt(bytes: seq<byte>, i: nat)
    requires i < |bytes|
    ensures |Encode(bytes)| == 2 * |bytes|
    ensures Encode(bytes)[2 * i..2 * i + 2] == ByteToHex(bytes[i])
  {
    EncodeShape(bytes);
    EncodeAppend(bytes[..i], bytes[i..]);
    EncodeShape(bytes[..i]);
    assert bytes[..i] + bytes[i..] == bytes;
    var t := bytes[i..];
    assert Encode(t) == ByteToHex(bytes[i]) + Encode(t[1..]);
    ByteToHexDigits(bytes[i]);
  }

  /** Decoding reads one pair of digits and then the rest. */
  lemma DecodePair(s: string, hi: nat, lo: nat, rest: seq<byte>)
    requires |s| >= 2
    requires DigitValue(s[0]) == Some(hi) && DigitValue(s[1]) == Some(lo)
    requires Decode(s[2..]) == Some(rest)
    ensures Decode(s) == Some([(hi * 16 + lo) as byte] + rest)
  {
  }

  /** Decoding undoes encoding. */
  lemma {:induction false} DecodeEncode(bytes: seq<byte>)
    ensures Decode(Encode(bytes)) == Some(bytes)
  {
    if bytes != [] {
      var b := bytes[0];
      var h := ByteToHex(b);
      var t := Encode(bytes[1..]);
      ByteToHexDigits(b);
      DecodeEncode(bytes[1..]);
      var s := h + t;
      assert s[0] == h[0] && s[1] == h[1] && s[2..] == t;
      DecodePair(s, (b / 16) as nat, (b % 16) as nat, bytes[1..]);
      assert ((b / 16) as nat * 16 + (b % 16) as nat) as byte == b;
      assert [b] + bytes[1..] == bytes;
    }
  }

  /** Equal strings come exactly from equal digests, so comparing encoded
      digests is comparing digests. */
  lemma EncodeInjective(a: seq<byte>, b: seq<byte>)
    ensures Encode(a) == Encode(b) <==> a == b
  {
    DecodeEncode(a);
    DecodeEncode(b);
  }

  /** A SHA-256 digest encodes to 64 lower-case hex digits. */
  lemma DigestEncoding(d: Digest)
    ensures |Encode(d)| == 64 && IsLowerHex(Encode(d))
  {
    EncodeShape(d);
  }
}
