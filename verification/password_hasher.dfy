/** Password hashing: a password is digested with SHA-256 (section 6.2 of FIPS 180-4) and the
    32 digest bytes are written as lower-case hexadecimal, two digits per byte, no separator.
    The digest itself is a parameter: every lemma here holds for any digest function. */
module PasswordHasher {
  import opened Lookup

  /** A JVM `Byte`: signed, two's complement. */
  newtype Int8 = x: int | -128 <= x < 128

  const DigestLength: nat := 32

  /** The output of SHA-256: 32 bytes. */
  type Digest = d: seq<Int8> | |d| == DigestLength witness seq(32, _ => 0)

  /** SHA-256 applied to the UTF-8 bytes of a password. */
  type Digester = string -> Digest

  predicate IsLowerHexDigit(c: char) {
    '0' <= c <= '9' || 'a' <= c <= 'f'
  }

  /** The lower-case hexadecimal digit for a value below 16: `0`-`9`, then `a`-`f`. */
  function HexDigit(v: nat): (c: char)
    requires v < 16
    ensures IsLowerHexDigit(c)
  {
    if v < 10 then ('0' as int + v) as char else ('a' as int + v - 10) as char
  }

  /** The value of a lower-case hexadecimal digit. */
  function DigitValue(c: char): (v: nat)
    requires IsLowerHexDigit(c)
    ensures v < 16 && HexDigit(v) == c
  {
    if '0' <= c <= '9' then (c - '0') as nat else (c - 'a') as nat + 10
  }

  /** Reading a digit back gives its value. */
  lemma DigitRoundTrip(v: nat)
    requires v < 16
    ensures DigitValue(HexDigit(v)) == v
  {
  }

  /** The byte's value read as unsigned, which is what `%02x` prints for a negative `Byte`. */
  function Unsigned(b: Int8): (u: nat)
    ensures u < 256
    ensures u == b as int || u == b as int + 256
  {
    if b < 0 then (b as int + 256) as nat else b as nat
  }

  /** `"%02x".format(b)`: two lower-case hex digits, most significant first. */
  function ByteHex(b: Int8): (s: string)
    ensures |s| == 2
  {
    var u := Unsigned(b);
    [HexDigit(u / 16), HexDigit(u % 16)]
  }

  /** `joinToString("")` of `ByteHex` over the bytes. */
  function HexEncode(bs: seq<Int8>): (s: string)
    ensures |s| == 2 * |bs|
    ensures forall k :: 0 <= k < |bs| ==> s[2 * k .. 2 * k + 2] == ByteHex(bs[k])
  {
    if |bs| == 0 then []
    else
      var rest := HexEncode(bs[1..]);
      assert forall k :: 1 <= k < |bs| ==> (ByteHex(bs[0]) + rest)[2 * k .. 2 * k + 2] == rest[2 * (k - 1) .. 2 * (k - 1) + 2];
      ByteHex(bs[0]) + rest
  }

  /** Reads two lower-case hex digits back as a signed byte. */
  function HexByte(hi: char, lo: char): (r: Option<Int8>)
    ensures r.Some? <==> IsLowerHexDigit(hi) && IsLowerHexDigit(lo)
  {
    if IsLowerHexDigit(hi) && IsLowerHexDigit(lo) then
      var u := DigitValue(hi) * 16 + DigitValue(lo);
      Some(if u >= 128 then (u - 256) as Int8 else u as Int8)
    else None
  }

  /** The inverse of `HexEncode`: None unless the string is an even number of lower-case hex digits. */
  function HexDecode(s: string): (r: Option<seq<Int8>>)
    ensures r.Some? ==> 2 * |r.value| == |s|
    decreases |s|
  {
    if |s| == 0 then Some([])
    else if |s| == 1 then None
    else
      match HexByte(s[0], s[1])
      case None => None
      case Some(b) =>
        match HexDecode(s[2..])
        case None => None
        case Some(rest) => Some([b] + rest)
  }

  /** `PasswordHasher.hash`. */
  function Hash(digest: Digester, password: string): (h: string)
    ensures |h| == 2 * DigestLength
    ensures HexDecode(h) == Some(digest(password))
  {
    DecodeEncode(digest(password));
    HexEncode(digest(password))
  }

  /** `PasswordHasher.verify`: exact string comparison with a freshly computed hash. */
  predicate Verify(digest: Digester, password: string, hash: string)
    ensures Verify(digest, password, hash) ==> |hash| == 64 && HexDecode(hash) == Some(digest(password))
  {
    Hash(digest, password) == hash
  }

  /** Each byte is written as exactly two lower-case hex digits, which read back as that byte. */
  lemma ByteRoundTrip(b: Int8)
    ensures IsLowerHexDigit(ByteHex(b)[0]) && IsLowerHexDigit(ByteHex(b)[1])
    ensures HexByte(ByteHex(b)[0], ByteHex(b)[1]) == Some(b)
  {
    var u := Unsigned(b);
    var s := ByteHex(b);
    DigitRoundTrip(u / 16);
    DigitRoundTrip(u % 16);
  }

  /** Every character of an encoding is a lower-case hex digit. */
  lemma {:induction false} EncodeIsLowerHex(bs: seq<Int8>)
    ensures forall i :: 0 <= i < |HexEncode(bs)| ==> IsLowerHexDigit(HexEncode(bs)[i])
  {
    var s := HexEncode(bs);
    forall i | 0 <= i < |s|
      ensures IsLowerHexDigit(s[i])
    {
      var k := i / 2;
      ByteRoundTrip(bs[k]);
      assert s[2 * k .. 2 * k + 2] == ByteHex(bs[k]);
      assert s[i] == ByteHex(bs[k])[i - 2 * k];
    }
  }

  /** Decoding an encoding gives back the bytes. */
  lemma {:induction false} DecodeEncode(bs: seq<Int8>)
    ensures HexDecode(HexEncode(bs)) == Some(bs)
    decreases |bs|
  {
    if |bs| > 0 {
      var s := HexEncode(bs);
      ByteRoundTrip(bs[0]);
      assert s[0] == ByteHex(bs[0])[0] && s[1] == ByteHex(bs[0])[1] by {
        assert s[0 .. 2] == ByteHex(bs[0]);
      }
      assert s[2..] == HexEncode(bs[1..]);
      DecodeEncode(bs[1..]);
      assert [bs[0]] + bs[1..] == bs;
    }
  }

  /** Two digits read as a byte are written back as the same two digits. */
  lemma HexByteRoundTrip(hi: char, lo: char)
    requires IsLowerHexDigit(hi) && IsLowerHexDigit(lo)
    ensures ByteHex(HexByte(hi, lo).value) == [hi, lo]
  {
    var b := HexByte(hi, lo).value;
    var u := DigitValue(hi) * 16 + DigitValue(lo);
    assert Unsigned(b) == u;
    assert u / 16 == DigitValue(hi) && u % 16 == DigitValue(lo);
  }

  /** Encoding a decoding gives back the string: a decodable string is the one canonical encoding
      of its bytes, so no other spelling (upper case, say) of the same bytes decodes. */
  lemma {:induction false} EncodeDecode(s: string)
    requires HexDecode(s).Some?
    ensures HexEncode(HexDecode(s).value) == s
    decreases |s|
  {
    if |s| > 0 {
      var b := HexByte(s[0], s[1]).value;
      var rest := HexDecode(s[2..]).value;
      var bs := [b] + rest;
      EncodeDecode(s[2..]);
      HexByteRoundTrip(s[0], s[1]);
      assert HexDecode(s).value == bs;
      assert bs[0] == b && bs[1..] == rest;
      assert HexEncode(bs) == ByteHex(b) + HexEncode(rest);
      assert s == [s[0], s[1]] + s[2..];
    }
  }

  /** The hash of a password is 64 lower-case hex digits that decode to the password's digest. */
  lemma HashShape(digest: Digester, password: string)
    ensures |Hash(digest, password)| == 2 * DigestLength == 64
    ensures forall i :: 0 <= i < 64 ==> IsLowerHexDigit(Hash(digest, password)[i])
    ensures HexDecode(Hash(digest, password)) == Some(digest(password))
  {
    EncodeIsLowerHex(digest(password));
    DecodeEncode(digest(password));
  }

  /** A password always verifies against its own hash. */
  lemma VerifyOwnHash(digest: Digester, password: string)
    ensures Verify(digest, password, Hash(digest, password))
  {
  }

  /** A stored hash verifies exactly when it decodes to the password's digest and is written
      in the canonical lower-case form. */
  lemma {:induction false} VerifyIffDecodes(digest: Digester, password: string, hash: string)
    ensures Verify(digest, password, hash) <==> HexDecode(hash) == Some(digest(password))
  {
    DecodeEncode(digest(password));
    if HexDecode(hash) == Some(digest(password)) {
      EncodeDecode(hash);
    }
  }

  /** A hash containing an upper-case hex digit never verifies, even when it spells the right digest. */
  lemma {:induction false} UpperCaseRejected(digest: Digester, password: string, hash: string, i: nat)
    requires i < |hash| && 'A' <= hash[i] <= 'F'
    ensures !Verify(digest, password, hash)
  {
    EncodeIsLowerHex(digest(password));
  }
}
