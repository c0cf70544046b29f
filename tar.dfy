/**
 * The tar header decoder of the OVA walker. An OVA archive is a tar file
 * whose 512-byte header blocks follow the ustar layout: the entry name
 * lives in bytes 0-99, cut at the first NUL, and the entry size in the
 * 12-byte field at 124-135, either as ASCII octal or, when its first byte
 * is 0x80, as the GNU tar big-endian base-256 extension.
 */
module Tar {
  import opened Wrappers
  import opened Bytes
  import opened Strings

  const HEADER_SIZE: nat := 512
  const NAME_LENGTH: nat := 100
  const SIZE_OFFSET: nat := 124
  const SIZE_LENGTH: nat := 12
  /** Octal sizes are read from the first 11 bytes of the size field. */
  const OCTAL_DIGITS: nat := 11
  /** A leading byte 0x80 marks a base-256 size in the remaining 11 bytes. */
  const BASE256_MARK: byte := 128

  /** A decoded header: the end-of-archive sentinel, an entry, or a size that does not parse. */
  datatype HeaderResult =
    | EndOfArchive
    | Entry(fileName: string, fileSize: nat)
    | BadSize

  /** `s.split('\0')[0]`: the text before the first NUL, or all of it. */
  function BeforeNul(s: string): (r: string)
    ensures '\0' !in r
    ensures |r| <= |s| && r == s[..|r|]
    ensures |r| == |s| || s[|r|] == '\0'
  {
    if s == [] || s[0] == '\0' then [] else [s[0]] + BeforeNul(s[1..])
  }

  predicate IsOctalDigit(c: char) {
    '0' <= c <= '7'
  }

  predicate AllOctal(s: string) {
    forall i :: 0 <= i < |s| ==> IsOctalDigit(s[i])
  }

  /** The longest prefix of `s` made of octal digits. */
  function OctalPrefix(s: string): (r: string)
    ensures |r| <= |s| && r == s[..|r|]
    ensures AllOctal(r)
    ensures |r| == |s| || !IsOctalDigit(s[|r|])
  {
    if s != [] && IsOctalDigit(s[0]) then [s[0]] + OctalPrefix(s[1..]) else []
  }

  /** The value of a string of octal digits, most significant first. */
  function OctalValue(d: string): nat
    requires AllOctal(d)
  {
    if d == [] then 0 else OctalValue(d[..|d| - 1]) * 8 + (d[|d| - 1] as int - '0' as int)
  }

  /**
   * `parseInt(s, 8)` where it yields a natural number: leading white space
   * and a '+' sign are skipped and the longest run of octal digits is read.
   * No digits (NaN in JavaScript) and a '-' sign give None.
   */
  function ParseOctal(s: string): Option<nat> {
    var t := TrimStart(s);
    var unsigned := if t != [] && t[0] == '+' then t[1..] else t;
    var digits := OctalPrefix(unsigned);
    if digits == [] then None else Some(OctalValue(digits))
  }

  /** The unsigned big-endian value of `s`: the fold `size = size * 256 + byte`. */
  function BigEndian(s: seq<byte>): nat {
    if s == [] then 0 else BigEndian(s[..|s| - 1]) * 256 + s[|s| - 1] as nat
  }

  /** The size field, in either encoding. */
  function DecodeSize(field: seq<byte>): Option<nat> {
    if |field| > 0 && field[0] == BASE256_MARK then Some(BigEndian(field[1..]))
    else ParseOctal(Latin1(Slice(field, 0, OCTAL_DIGITS)))
  }

  /** The header as the walker reads it; `h` is what a 512-byte range read returned. */
  function DecodeHeader(h: seq<byte>): HeaderResult {
    var fileName := BeforeNul(Latin1(Slice(h, 0, NAME_LENGTH)));
    if |fileName| == 0 then EndOfArchive
    else match DecodeSize(Slice(h, SIZE_OFFSET, SIZE_OFFSET + SIZE_LENGTH))
      case Some(size) => Entry(fileName, size)
      case None => BadSize
  }

  /** Decodes one header block; the base-256 size is accumulated byte by byte. */
  method ParseTarHeader(header: seq<byte>) returns (r: HeaderResult)
    ensures r == DecodeHeader(header)
  {
    var fileName := BeforeNul(Latin1(Slice(header, 0, NAME_LENGTH)));
    if |fileName| == 0 {
      return EndOfArchive;
    }
    var sizeBuffer := Slice(header, SIZE_OFFSET, SIZE_OFFSET + SIZE_LENGTH);
    var fileSize: nat := 0;
    if |sizeBuffer| > 0 && sizeBuffer[0] == BASE256_MARK {
      var rest := sizeBuffer[1..];
      for i := 0 to |rest|
        invariant fileSize == BigEndian(rest[..i])
      {
        assert rest[..i + 1][..i] == rest[..i];
        fileSize := fileSize * 256 + rest[i] as nat;
      }
      assert rest[..|rest|] == rest;
      return Entry(fileName, fileSize);
    }
    match ParseOctal(Latin1(Slice(sizeBuffer, 0, OCTAL_DIGITS)))
    case Some(n) =>
      return Entry(fileName, n);
    case None =>
      return BadSize;
  }

  // ----- Encoders: what a tar writer puts into the fields the decoder reads -----

  function OctalChar(k: nat): (c: char)
    requires k < 8
    ensures IsOctalDigit(c) && c as int - '0' as int == k
  {
    ('0' as int + k) as char
  }

  /** `n` written as exactly `w` octal digits, with leading zeros. */
  function OctalDigits(n: nat, w: nat): (r: string)
    ensures |r| == w && AllOctal(r)
  {
    if w == 0 then [] else OctalDigits(n / 8, w - 1) + [OctalChar(n % 8)]
  }

  /** `n` written as exactly `w` big-endian bytes. */
  function BigEndianBytes(n: nat, w: nat): (r: seq<byte>)
    ensures |r| == w
  {
    if w == 0 then [] else BigEndianBytes(n / 256, w - 1) + [(n % 256) as byte]
  }

  /** Text whose characters all fit in one byte, as the bytes of that text. */
  function AsciiBytes(s: string): (r: seq<byte>)
    requires forall i :: 0 <= i < |s| ==> s[i] as int < 256
    ensures |r| == |s| && Latin1(r) == s
  {
    seq(|s|, i requires 0 <= i < |s| => s[i] as int as byte)
  }

  function Zeros(n: nat): (r: seq<byte>)
    ensures |r| == n && forall i :: 0 <= i < n ==> r[i] == 0
  {
    seq(n, _ => 0)
  }

  /**
   * The header deserializer is a bijection between bytes and one-byte characters:
   * reading bytes and writing the text back gives the bytes, and text of
   * one-byte characters is read as exactly the bytes that spell it.
   */
  lemma Latin1Bijective(bs: seq<byte>, s: string)
    requires forall i :: 0 <= i < |s| ==> s[i] as int < 256
    ensures AsciiBytes(Latin1(bs)) == bs
    ensures Latin1(bs) == s <==> bs == AsciiBytes(s)
  {
    var t := Latin1(bs);
    var back := AsciiBytes(t);
    forall i | 0 <= i < |bs| ensures back[i] == bs[i] {
      assert t[i] as int == bs[i] as int;
    }
    if Latin1(bs) == s {
      assert bs == back;
    }
  }

  /** The size field GNU tar writes: 11 octal digits and a NUL while they suffice, else base-256. */
  function EncodeSize(size: nat): (field: seq<byte>)
    ensures |field| == SIZE_LENGTH
  {
    if size < Pow(8, OCTAL_DIGITS) then AsciiBytes(OctalDigits(size, OCTAL_DIGITS)) + [0]
    else [BASE256_MARK] + BigEndianBytes(size, OCTAL_DIGITS)
  }

  predicate ValidName(name: string) {
    0 < |name| <= NAME_LENGTH && forall i :: 0 <= i < |name| ==> 0 < name[i] as int < 256
  }

  /** A header block naming one entry; every field the decoder ignores is zero. */
  function EncodeHeader(name: string, size: nat): (h: seq<byte>)
    requires ValidName(name)
    ensures |h| == HEADER_SIZE
  {
    AsciiBytes(name) + Zeros(NAME_LENGTH - |name|) + Zeros(SIZE_OFFSET - NAME_LENGTH)
      + EncodeSize(size) + Zeros(HEADER_SIZE - SIZE_OFFSET - SIZE_LENGTH)
  }

  // ----- Properties -----

  /** A header decodes to the sentinel exactly when its name field starts with NUL (or is missing). */
  lemma EndOfArchiveIff(h: seq<byte>)
    ensures DecodeHeader(h) == EndOfArchive <==> |h| == 0 || h[0] == 0
  {
    var s := Latin1(Slice(h, 0, NAME_LENGTH));
    if |h| > 0 {
      assert s[0] as int == h[0] as int;
    }
  }

  /** In particular an all-zero block, the tar end-of-archive marker, ends the walk. */
  lemma ZeroBlockEndsArchive()
    ensures DecodeHeader(Zeros(HEADER_SIZE)) == EndOfArchive
  {
    EndOfArchiveIff(Zeros(HEADER_SIZE));
  }

  /** The entry name is the bytes of the name field up to the first NUL, and has no NUL. */
  lemma EntryName(h: seq<byte>)
    requires DecodeHeader(h).Entry?
    ensures var name := DecodeHeader(h).fileName;
      && 0 < |name| <= NAME_LENGTH && |name| <= |h|
      && name == Latin1(h[..|name|])
      && (forall i :: 0 <= i < |name| ==> h[i] != 0)
      && (|name| == Min(|h|, NAME_LENGTH) || h[|name|] == 0)
  {
    var field := Slice(h, 0, NAME_LENGTH);
    var name := DecodeHeader(h).fileName;
    assert field == h[..Min(|h|, NAME_LENGTH)];
    forall i | 0 <= i < |name| ensures h[i] != 0 {
      assert name[i] == Latin1(field)[i];
      assert name[i] != '\0';
    }
  }

  lemma {:induction false} BigEndianBound(s: seq<byte>)
    ensures BigEndian(s) < Pow(256, |s|)
  {
    if s != [] {
      BigEndianBound(s[..|s| - 1]);
    }
  }

  /** With the 0x80 mark the size is the big-endian value of bytes 125-135, below 256^11. */
  lemma Base256Size(h: seq<byte>)
    requires |h| >= SIZE_OFFSET + SIZE_LENGTH && h[SIZE_OFFSET] == BASE256_MARK
    requires DecodeHeader(h).Entry?
    ensures DecodeHeader(h).fileSize == BigEndian(h[SIZE_OFFSET + 1..SIZE_OFFSET + SIZE_LENGTH])
    ensures DecodeHeader(h).fileSize < Pow(256, OCTAL_DIGITS)
  {
    var field := Slice(h, SIZE_OFFSET, SIZE_OFFSET + SIZE_LENGTH);
    var digits := h[SIZE_OFFSET + 1..SIZE_OFFSET + SIZE_LENGTH];
    assert field[1..] == digits;
    assert DecodeSize(field) == Some(BigEndian(digits));
    BigEndianBound(digits);
  }

  lemma {:induction false} OctalValueBound(d: string)
    requires AllOctal(d)
    ensures OctalValue(d) < Pow(8, |d|)
  {
    if d != [] {
      OctalValueBound(d[..|d| - 1]);
    }
  }

  /** Writing a value as `w` octal digits and reading them back gives the value. */
  lemma {:induction false} OctalDigitsValue(n: nat, w: nat)
    requires n < Pow(8, w)
    ensures OctalValue(OctalDigits(n, w)) == n
  {
    if w > 0 {
      var d := OctalDigits(n, w);
      OctalDigitsValue(n / 8, w - 1);
      assert d[..w - 1] == OctalDigits(n / 8, w - 1);
    }
  }

  /** Reading `w` octal digits and writing the value back as `w` digits gives the same digits. */
  lemma {:induction false} OctalValueDigits(d: string)
    requires AllOctal(d)
    ensures OctalDigits(OctalValue(d), |d|) == d
  {
    if d != [] {
      var init := d[..|d| - 1];
      var last := d[|d| - 1];
      var c := last as int - '0' as int;
      OctalValueDigits(init);
      LastOctalDigit(OctalValue(init), c);
      assert OctalValue(d) == OctalValue(init) * 8 + c;
      assert OctalChar(c) == last;
      assert d == init + [last];
    }
  }

  /** Appending a digit `c` to `q` in base 8: dividing by 8 gives back `q`, the remainder `c`. */
  lemma LastOctalDigit(q: nat, c: int)
    requires 0 <= c < 8
    ensures (q * 8 + c) / 8 == q && (q * 8 + c) % 8 == c
  {
  }

  lemma {:induction false} BigEndianBytesValue(n: nat, w: nat)
    requires n < Pow(256, w)
    ensures BigEndian(BigEndianBytes(n, w)) == n
  {
    if w > 0 {
      var b := BigEndianBytes(n, w);
      BigEndianBytesValue(n / 256, w - 1);
      assert b[..w - 1] == BigEndianBytes(n / 256, w - 1);
    }
  }

  lemma {:induction false} BigEndianValueBytes(s: seq<byte>)
    ensures BigEndianBytes(BigEndian(s), |s|) == s
  {
    if s != [] {
      var init := s[..|s| - 1];
      BigEndianValueBytes(init);
      assert s == init + [s[|s| - 1]];
    }
  }

  /** `parseInt(d, 8)` of a string made only of octal digits reads all of it. */
  lemma ParseOctalDigits(d: string)
    requires d != [] && AllOctal(d)
    ensures ParseOctal(d) == Some(OctalValue(d))
  {
    var t := TrimStart(d);
    assert !IsJsSpace(d[0]);
    assert t == d;
    assert OctalPrefix(d) == d;
  }

  /**
   * The octal size field round trip: eleven octal digits read as a size and
   * written back as eleven digits are the same digits.
   */
  lemma OctalFieldRoundTrip(d: string)
    requires |d| == OCTAL_DIGITS && AllOctal(d)
    ensures ParseOctal(d).Some?
    ensures OctalDigits(ParseOctal(d).value, OCTAL_DIGITS) == d
  {
    ParseOctalDigits(d);
    OctalValueDigits(d);
  }

  /** Every size below 256^11 survives encoding and decoding of the size field. */
  lemma SizeRoundTrip(size: nat)
    requires size < Pow(256, OCTAL_DIGITS)
    ensures DecodeSize(EncodeSize(size)) == Some(size)
  {
    var field := EncodeSize(size);
    if size < Pow(8, OCTAL_DIGITS) {
      var d := OctalDigits(size, OCTAL_DIGITS);
      assert field[0] as int == d[0] as int;
      assert Slice(field, 0, OCTAL_DIGITS) == AsciiBytes(d);
      ParseOctalDigits(d);
      OctalDigitsValue(size, OCTAL_DIGITS);
    } else {
      assert field[1..] == BigEndianBytes(size, OCTAL_DIGITS);
      BigEndianBytesValue(size, OCTAL_DIGITS);
    }
  }

  /** A name followed by NUL padding: the split at the first NUL gives the name back. */
  lemma {:induction false} BeforeNulOfPadded(name: string, k: nat)
    requires '\0' !in name
    ensures BeforeNul(name + seq(k, _ => '\0')) == name
  {
    var s := name + seq(k, _ => '\0');
    if name != [] {
      assert s[1..] == name[1..] + seq(k, _ => '\0');
      BeforeNulOfPadded(name[1..], k);
    }
  }

  /** The name field of an encoded header reads back as the name. */
  lemma NameRoundTrip(name: string, h: seq<byte>)
    requires ValidName(name) && |h| == HEADER_SIZE
    requires h[..NAME_LENGTH] == AsciiBytes(name) + Zeros(NAME_LENGTH - |name|)
    ensures BeforeNul(Latin1(Slice(h, 0, NAME_LENGTH))) == name
  {
    var pad := NAME_LENGTH - |name|;
    assert Latin1(Slice(h, 0, NAME_LENGTH)) == name + seq(pad, _ => '\0') by {
      assert Slice(h, 0, NAME_LENGTH) == h[..NAME_LENGTH];
    }
    assert '\0' !in name by {
      forall i | 0 <= i < |name| ensures name[i] != '\0' { }
    }
    BeforeNulOfPadded(name, pad);
  }

  /** A header written for a named entry of any size below 256^11 decodes to that entry. */
  lemma HeaderRoundTrip(name: string, size: nat)
    requires ValidName(name) && size < Pow(256, OCTAL_DIGITS)
    ensures DecodeHeader(EncodeHeader(name, size)) == Entry(name, size)
  {
    var h := EncodeHeader(name, size);
    var prefix := AsciiBytes(name) + Zeros(NAME_LENGTH - |name|);
    var gap := Zeros(SIZE_OFFSET - NAME_LENGTH);
    var field := EncodeSize(size);
    var tail := Zeros(HEADER_SIZE - SIZE_OFFSET - SIZE_LENGTH);
    assert h == prefix + gap + field + tail;
    assert h[..NAME_LENGTH] == prefix;
    NameRoundTrip(name, h);
    assert Slice(h, SIZE_OFFSET, SIZE_OFFSET + SIZE_LENGTH) == field;
    SizeRoundTrip(size);
  }
}
