/**
 * The value-level part of src/wave_read.cpp: bytes, little-endian fields,
 * the C integer conversions the reader relies on, the four-character tags,
 * the canonical 44-byte RIFF/WAVE header, its nine compliance checks and
 * the reader's sample sign conversion.
 */
module WaveFormat {

  type Byte = b: int | 0 <= b < 256

  // ---------------------------------------------------------------------
  // Powers of two and little-endian byte strings
  // ---------------------------------------------------------------------

  function Pow2(n: nat): (p: nat)
    ensures p >= 1
  {
    if n == 0 then 1 else 2 * Pow2(n - 1)
  }

  lemma {:induction false} Pow2Add(a: nat, b: nat)
    ensures Pow2(a + b) == Pow2(a) * Pow2(b)
    decreases a
  {
    if a > 0 {
      Pow2Add(a - 1, b);
      assert Pow2(a + b) == 2 * Pow2(a - 1 + b);
    }
  }

  lemma Pow2Byte()
    ensures Pow2(8) == 256
  {
  }

  /** The unsigned value of `bs`, least significant byte first. */
  function LittleEndian(bs: seq<Byte>): (v: nat)
    ensures v < Pow2(8 * |bs|)
  {
    if |bs| == 0 then 0
    else
      Pow2Byte();
      Pow2Add(8, 8 * (|bs| - 1));
      bs[0] + 256 * LittleEndian(bs[1..])
  }

  /** Appending a byte adds it at the next higher weight: the shift-and-add decode loop. */
  lemma {:induction false} LittleEndianAppend(s: seq<Byte>, b: Byte)
    ensures LittleEndian(s + [b]) == LittleEndian(s) + b * Pow2(8 * |s|)
    decreases |s|
  {
    if |s| == 0 {
      assert LittleEndian([b]) == b + 256 * LittleEndian([]);
    } else {
      var t := s + [b];
      assert t[0] == s[0] && t[1..] == s[1..] + [b];
      LittleEndianAppend(s[1..], b);
      var p := Pow2(8 * (|s| - 1));
      Pow2Byte();
      Pow2Add(8, 8 * (|s| - 1));
      assert Pow2(8 * |s|) == 256 * p;
      var rest := LittleEndian(s[1..]);
      assert LittleEndian(t) == s[0] + 256 * (rest + b * p);
      MulDistrib(256, rest, b, p);
    }
  }

  lemma MulDistrib(a: int, x: int, y: int, p: int)
    ensures a * (x + y * p) == a * x + y * (a * p)
  {
  }

  /** The `n`-byte little-endian encoding of `v`. */
  function EncodeLE(v: nat, n: nat): (bs: seq<Byte>)
    requires v < Pow2(8 * n)
    ensures |bs| == n
  {
    if n == 0 then []
    else
      Pow2Byte();
      Pow2Add(8, 8 * (n - 1));
      [v % 256] + EncodeLE(v / 256, n - 1)
  }

  lemma {:induction false} DecodeEncodeLE(v: nat, n: nat)
    requires v < Pow2(8 * n)
    ensures LittleEndian(EncodeLE(v, n)) == v
    decreases n
  {
    if n > 0 {
      Pow2Byte();
      Pow2Add(8, 8 * (n - 1));
      var bs := EncodeLE(v, n);
      assert bs[1..] == EncodeLE(v / 256, n - 1);
      DecodeEncodeLE(v / 256, n - 1);
    }
  }

  lemma {:induction false} EncodeDecodeLE(bs: seq<Byte>)
    ensures EncodeLE(LittleEndian(bs), |bs|) == bs
    decreases |bs|
  {
    if |bs| > 0 {
      var v := LittleEndian(bs);
      assert v % 256 == bs[0] && v / 256 == LittleEndian(bs[1..]);
      EncodeDecodeLE(bs[1..]);
    }
  }

  // ---------------------------------------------------------------------
  // C integer conversions
  // ---------------------------------------------------------------------

  /** Two's-complement reading of a `bits`-wide unsigned value. */
  function ToSigned(v: int, bits: nat): (s: int)
    requires 1 <= bits && 0 <= v < Pow2(bits)
    ensures -(Pow2(bits - 1) as int) <= s < Pow2(bits - 1)
    ensures s == v || s == v - Pow2(bits)
    ensures 0 <= s <==> v < Pow2(bits - 1)
  {
    if v < Pow2(bits - 1) then v else v - Pow2(bits)
  }

  /** The `bits`-wide unsigned pattern of a signed value. */
  function ToUnsigned(s: int, bits: nat): (v: int)
    requires 1 <= bits && -(Pow2(bits - 1) as int) <= s < Pow2(bits - 1)
    ensures 0 <= v < Pow2(bits)
  {
    if s < 0 then s + Pow2(bits) else s
  }

  lemma SignedUnsignedRoundTrip(v: int, s: int, bits: nat)
    requires 1 <= bits && 0 <= v < Pow2(bits) && -(Pow2(bits - 1) as int) <= s < Pow2(bits - 1)
    ensures ToUnsigned(ToSigned(v, bits), bits) == v
    ensures ToSigned(ToUnsigned(s, bits), bits) == s
  {
  }

  const Int32Modulus := 0x1_0000_0000

  /** A mathematical integer wrapped to a 32-bit `int`, as the source's overflowing products are. */
  function Int32Wrap(x: int): (r: int)
    ensures -0x8000_0000 <= r < 0x8000_0000
    ensures (x - r) % Int32Modulus == 0
    ensures -0x8000_0000 <= x < 0x8000_0000 ==> r == x
  {
    var m := x % Int32Modulus;
    if m >= 0x8000_0000 then m - Int32Modulus else m
  }

  /** C's `/` on `int`: the quotient truncated toward zero. */
  function CDiv(a: int, b: int): (q: int)
    requires b != 0
    ensures var r := a - b * q; (if b > 0 then -b < r < b else b < r < -b) && (r == 0 || (r > 0 <==> a > 0))
  {
    var aa := if a < 0 then -a else a;
    var bb := if b < 0 then -b else b;
    var qq := aa / bb;
    assert aa == bb * qq + aa % bb;
    if (a < 0) == (b < 0) then qq else -qq
  }

  // ---------------------------------------------------------------------
  // Four-character tags
  // ---------------------------------------------------------------------

  /** Once a NUL appears, the rest is NUL: what `strncpy` leaves behind. */
  predicate NulPadded(t: seq<Byte>)
  {
    forall i, j :: 0 <= i < j < |t| && t[i] == 0 ==> t[j] == 0
  }

  predicate NulFree(t: seq<Byte>)
  {
    forall i :: 0 <= i < |t| ==> t[i] != 0
  }

  /** C `strncpy(dst, src, n)`: copy up to the first NUL, then fill with NULs. */
  function StrNCpy(src: seq<Byte>, n: nat): (dst: seq<Byte>)
    requires |src| >= n
    ensures |dst| == n && NulPadded(dst)
    ensures forall i :: 0 <= i < n && (forall j :: 0 <= j <= i ==> src[j] != 0) ==> dst[i] == src[i]
    ensures forall i, j :: 0 <= j <= i < n && src[j] == 0 ==> dst[i] == 0
  {
    if n == 0 then []
    else if src[0] == 0 then seq(n, _ => 0)
    else [src[0]] + StrNCpy(src[1..], n - 1)
  }

  /** Copying an already padded string changes nothing. */
  lemma {:induction false} StrNCpyPadded(src: seq<Byte>)
    requires NulPadded(src)
    ensures StrNCpy(src, |src|) == src
    decreases |src|
  {
    if |src| > 0 {
      if src[0] == 0 {
        assert forall j :: 0 <= j < |src| ==> src[j] == 0 by {
          forall j | 0 <= j < |src| ensures src[j] == 0 {
            if j > 0 {
              assert src[0] == 0;
            }
          }
        }
      } else {
        StrNCpyPadded(src[1..]);
      }
    }
  }

  /** C `strncmp(a, b, n) == 0`: equal up to `n` characters or up to a common NUL. */
  function StrNCmpEqual(a: seq<Byte>, b: seq<Byte>, n: nat): bool
    requires |a| >= n && |b| >= n
  {
    n == 0 || (a[0] == b[0] && (a[0] == 0 || StrNCmpEqual(a[1..], b[1..], n - 1)))
  }

  /** Against a literal with no NUL, `strncmp` over its length is plain equality. */
  lemma {:induction false} StrNCmpLiteral(a: seq<Byte>, lit: seq<Byte>)
    requires |a| == |lit| && NulFree(lit)
    ensures StrNCmpEqual(a, lit, |lit|) <==> a == lit
    decreases |lit|
  {
    if |lit| > 0 {
      StrNCmpLiteral(a[1..], lit[1..]);
      if a[1..] == lit[1..] && a[0] == lit[0] {
        assert a == [a[0]] + a[1..] && lit == [lit[0]] + lit[1..];
      }
    }
  }

  const RiffTag: seq<Byte> := [0x52, 0x49, 0x46, 0x46]   // "RIFF"
  const WaveTag: seq<Byte> := [0x57, 0x41, 0x56, 0x45]   // "WAVE"
  const FmtTag: seq<Byte> := [0x66, 0x6d, 0x74, 0x20]    // "fmt "
  const DataTag: seq<Byte> := [0x64, 0x61, 0x74, 0x61]   // "data"

  // ---------------------------------------------------------------------
  // The canonical header (inc/wave_read.h, `wave_header`)
  // ---------------------------------------------------------------------

  const HeaderSize := 44

  /** One field per member of the C struct; tags are `char[4]`, sizes `int` or `short int`. */
  datatype WaveHeader = WaveHeader(
    groupId: seq<Byte>,
    fileSize: int,
    wave: seq<Byte>,
    subchunk1Id: seq<Byte>,
    subchunk1Size: int,
    audioFormat: int,
    numChannels: int,
    sampleRate: int,
    byteRate: int,
    blockAlign: int,
    bitsPerSample: int,
    chunk2Id: seq<Byte>,
    chunk2Size: int)

  predicate IsTag(t: seq<Byte>)
  {
    |t| == 4 && NulPadded(t)
  }

  predicate IsInt32(x: int)
  {
    -0x8000_0000 <= x < 0x8000_0000
  }

  predicate IsInt16(x: int)
  {
    -0x8000 <= x < 0x8000
  }

  /** The values a decoded header can hold. */
  predicate WellFormed(h: WaveHeader)
  {
    && IsTag(h.groupId) && IsTag(h.wave) && IsTag(h.subchunk1Id) && IsTag(h.chunk2Id)
    && IsInt32(h.fileSize) && IsInt32(h.subchunk1Size) && IsInt32(h.sampleRate)
    && IsInt32(h.byteRate) && IsInt32(h.chunk2Size)
    && IsInt16(h.audioFormat) && IsInt16(h.numChannels)
    && IsInt16(h.blockAlign) && IsInt16(h.bitsPerSample)
  }

  lemma Pow2Widths()
    ensures Pow2(15) == 0x8000 && Pow2(16) == 0x1_0000
    ensures Pow2(31) == 0x8000_0000 && Pow2(32) == 0x1_0000_0000
  {
    Pow2Byte();
    Pow2Add(8, 7);
    Pow2Add(8, 8);
    Pow2Add(16, 15);
    Pow2Add(16, 16);
  }

  /**
   * A 32-bit field: the four bytes summed with shifts 0, 8, 16, 24 into an
   * `int`, so a top byte of 0x80 or more reads as negative.
   */
  function Int32Of(bs: seq<Byte>): (x: int)
    requires |bs| == 4
    ensures IsInt32(x)
  {
    var v: int := bs[0] as int + 0x100 * bs[1] as int + 0x1_0000 * bs[2] as int + 0x100_0000 * bs[3] as int;
    if v < 0x8000_0000 then v else v - 0x1_0000_0000
  }

  /** The 32-bit field is the little-endian value read as two's complement. */
  lemma Int32OfSigned(bs: seq<Byte>)
    requires |bs| == 4
    ensures Pow2(32) == 0x1_0000_0000 && Int32Of(bs) == ToSigned(LittleEndian(bs), 32)
  {
    Pow2Widths();
    assert LittleEndian(bs[3..]) == bs[3] by {
      assert bs[3..][1..] == [];
    }
    assert bs[1..][1..] == bs[2..] && bs[2..][1..] == bs[3..];
    assert LittleEndian(bs[2..]) == bs[2] as int + 0x100 * bs[3] as int;
    assert LittleEndian(bs[1..]) == bs[1] as int + 0x100 * bs[2] as int + 0x1_0000 * bs[3] as int;
  }

  /** A 16-bit field: two bytes summed into an `int` and stored in a `short int`. */
  function Int16Of(bs: seq<Byte>): (x: int)
    requires |bs| == 2
    ensures IsInt16(x)
  {
    var v: int := bs[0] as int + 0x100 * bs[1] as int;
    if v < 0x8000 then v else v - 0x1_0000
  }

  /** The 16-bit field is the little-endian value read as two's complement. */
  lemma Int16OfSigned(bs: seq<Byte>)
    requires |bs| == 2
    ensures Pow2(16) == 0x1_0000 && Int16Of(bs) == ToSigned(LittleEndian(bs), 16)
  {
    Pow2Widths();
    assert LittleEndian(bs[1..]) == bs[1] by {
      assert bs[1..][1..] == [];
    }
  }

  /** A tag field: `strncpy` of the four bytes. */
  function TagOf(bs: seq<Byte>): (t: seq<Byte>)
    requires |bs| == 4
    ensures IsTag(t)
  {
    StrNCpy(bs, 4)
  }

  /** The header as read from the first 44 bytes of the file, field by field at fixed offsets. */
  function DecodeHeader(b: seq<Byte>): (h: WaveHeader)
    requires |b| >= HeaderSize
    ensures WellFormed(h)
  {
    WaveHeader(
      TagOf(b[0..4]), Int32Of(b[4..8]), TagOf(b[8..12]),
      TagOf(b[12..16]), Int32Of(b[16..20]), Int16Of(b[20..22]), Int16Of(b[22..24]),
      Int32Of(b[24..28]), Int32Of(b[28..32]), Int16Of(b[32..34]), Int16Of(b[34..36]),
      TagOf(b[36..40]), Int32Of(b[40..44]))
  }

  function EncodeInt32(x: int): (bs: seq<Byte>)
    requires IsInt32(x)
    ensures |bs| == 4
  {
    Pow2Widths();
    EncodeLE(ToUnsigned(x, 32), 4)
  }

  function EncodeInt16(x: int): (bs: seq<Byte>)
    requires IsInt16(x)
    ensures |bs| == 2
  {
    Pow2Widths();
    EncodeLE(ToUnsigned(x, 16), 2)
  }

  /** The "RIFF" chunk descriptor: bytes 0 to 11. */
  function EncodeRiff(h: WaveHeader): (b: seq<Byte>)
    requires WellFormed(h)
    ensures |b| == 12
  {
    h.groupId + EncodeInt32(h.fileSize) + h.wave
  }

  /** The "fmt " sub-chunk: bytes 12 to 35. */
  function EncodeFmt(h: WaveHeader): (b: seq<Byte>)
    requires WellFormed(h)
    ensures |b| == 24
  {
    h.subchunk1Id + EncodeInt32(h.subchunk1Size) + EncodeInt16(h.audioFormat) + EncodeInt16(h.numChannels)
      + EncodeInt32(h.sampleRate) + EncodeInt32(h.byteRate) + EncodeInt16(h.blockAlign) + EncodeInt16(h.bitsPerSample)
  }

  /** The "data" sub-chunk header: bytes 36 to 43. */
  function EncodeData(h: WaveHeader): (b: seq<Byte>)
    requires WellFormed(h)
    ensures |b| == 8
  {
    h.chunk2Id + EncodeInt32(h.chunk2Size)
  }

  /** The 44 bytes a writer of the canonical header lays down. */
  function EncodeHeader(h: WaveHeader): (b: seq<Byte>)
    requires WellFormed(h)
    ensures |b| == HeaderSize
  {
    EncodeRiff(h) + EncodeFmt(h) + EncodeData(h)
  }

  lemma Int32RoundTrip(x: int)
    requires IsInt32(x)
    ensures Int32Of(EncodeInt32(x)) == x
  {
    Pow2Widths();
    DecodeEncodeLE(ToUnsigned(x, 32), 4);
    Int32OfSigned(EncodeInt32(x));
  }

  lemma Int16RoundTrip(x: int)
    requires IsInt16(x)
    ensures Int16Of(EncodeInt16(x)) == x
  {
    Pow2Widths();
    DecodeEncodeLE(ToUnsigned(x, 16), 2);
    Int16OfSigned(EncodeInt16(x));
  }

  lemma Int32FromBytes(bs: seq<Byte>)
    requires |bs| == 4
    ensures EncodeInt32(Int32Of(bs)) == bs
  {
    Pow2Widths();
    Int32OfSigned(bs);
    EncodeDecodeLE(bs);
  }

  lemma Int16FromBytes(bs: seq<Byte>)
    requires |bs| == 2
    ensures EncodeInt16(Int16Of(bs)) == bs
  {
    Pow2Widths();
    Int16OfSigned(bs);
    EncodeDecodeLE(bs);
  }

  lemma SliceOfConcat(x: seq<Byte>, y: seq<Byte>, i: nat, j: nat)
    requires i <= j <= |x| + |y|
    ensures j <= |x| ==> (x + y)[i..j] == x[i..j]
    ensures |x| <= i ==> (x + y)[i..j] == y[i - |x|..j - |x|]
  {
  }

  /** Decoding an encoded header gives it back. */
  lemma DecodeEncodeHeader(h: WaveHeader)
    requires WellFormed(h)
    ensures DecodeHeader(EncodeHeader(h)) == h
  {
    var r, f, d := EncodeRiff(h), EncodeFmt(h), EncodeData(h);
    var b := EncodeHeader(h);
    RiffFields(h);
    FmtFields(h);
    DataFields(h);
    assert b == (r + f) + d;
    SliceOfConcat(r + f, d, 36, 40);
    SliceOfConcat(r + f, d, 40, 44);
    SliceOfConcat(r, f, 0, 4);
    SliceOfConcat(r, f, 4, 8);
    SliceOfConcat(r, f, 8, 12);
    SliceOfConcat(r, f, 12, 16);
    SliceOfConcat(r, f, 16, 20);
    SliceOfConcat(r, f, 20, 22);
    SliceOfConcat(r, f, 22, 24);
    SliceOfConcat(r, f, 24, 28);
    SliceOfConcat(r, f, 28, 32);
    SliceOfConcat(r, f, 32, 34);
    SliceOfConcat(r, f, 34, 36);
    forall lo, hi | 0 <= lo <= hi <= 36
      ensures b[lo..hi] == (r + f)[lo..hi]
    {
      SliceOfConcat(r + f, d, lo, hi);
    }
  }

  lemma RiffFields(h: WaveHeader)
    requires WellFormed(h)
    ensures var r := EncodeRiff(h);
      TagOf(r[0..4]) == h.groupId && Int32Of(r[4..8]) == h.fileSize && TagOf(r[8..12]) == h.wave
  {
    var r := EncodeRiff(h);
    assert r[0..4] == h.groupId && r[4..8] == EncodeInt32(h.fileSize) && r[8..12] == h.wave;
    StrNCpyPadded(h.groupId);
    StrNCpyPadded(h.wave);
    Int32RoundTrip(h.fileSize);
  }

  lemma FmtFields(h: WaveHeader)
    requires WellFormed(h)
    ensures var f := EncodeFmt(h);
      && TagOf(f[0..4]) == h.subchunk1Id && Int32Of(f[4..8]) == h.subchunk1Size
      && Int16Of(f[8..10]) == h.audioFormat && Int16Of(f[10..12]) == h.numChannels
      && Int32Of(f[12..16]) == h.sampleRate && Int32Of(f[16..20]) == h.byteRate
      && Int16Of(f[20..22]) == h.blockAlign && Int16Of(f[22..24]) == h.bitsPerSample
  {
    var lo := h.subchunk1Id + EncodeInt32(h.subchunk1Size) + EncodeInt16(h.audioFormat) + EncodeInt16(h.numChannels);
    var hi := EncodeInt32(h.sampleRate) + EncodeInt32(h.byteRate) + EncodeInt16(h.blockAlign) + EncodeInt16(h.bitsPerSample);
    assert EncodeFmt(h) == lo + hi;
    FmtLowFields(h, lo);
    FmtHighFields(h, hi);
    forall a, b | 0 <= a <= b <= 12
      ensures (lo + hi)[a..b] == lo[a..b] && (lo + hi)[12 + a..12 + b] == hi[a..b]
    {
      SliceOfConcat(lo, hi, a, b);
      SliceOfConcat(lo, hi, 12 + a, 12 + b);
    }
  }

  /** The first twelve bytes of the "fmt " sub-chunk decode to its id, size, format and channel count. */
  lemma FmtLowFields(h: WaveHeader, lo: seq<Byte>)
    requires WellFormed(h)
    requires lo == h.subchunk1Id + EncodeInt32(h.subchunk1Size) + EncodeInt16(h.audioFormat) + EncodeInt16(h.numChannels)
    ensures |lo| == 12
    ensures TagOf(lo[0..4]) == h.subchunk1Id && Int32Of(lo[4..8]) == h.subchunk1Size
    ensures Int16Of(lo[8..10]) == h.audioFormat && Int16Of(lo[10..12]) == h.numChannels
  {
    assert lo[0..4] == h.subchunk1Id && lo[4..8] == EncodeInt32(h.subchunk1Size);
    assert lo[8..10] == EncodeInt16(h.audioFormat) && lo[10..12] == EncodeInt16(h.numChannels);
    StrNCpyPadded(h.subchunk1Id);
    Int32RoundTrip(h.subchunk1Size);
    Int16RoundTrip(h.audioFormat);
    Int16RoundTrip(h.numChannels);
  }

  /** The last twelve bytes of the "fmt " sub-chunk decode to its rates, alignment and sample width. */
  lemma FmtHighFields(h: WaveHeader, hi: seq<Byte>)
    requires WellFormed(h)
    requires hi == EncodeInt32(h.sampleRate) + EncodeInt32(h.byteRate) + EncodeInt16(h.blockAlign) + EncodeInt16(h.bitsPerSample)
    ensures |hi| == 12
    ensures Int32Of(hi[0..4]) == h.sampleRate && Int32Of(hi[4..8]) == h.byteRate
    ensures Int16Of(hi[8..10]) == h.blockAlign && Int16Of(hi[10..12]) == h.bitsPerSample
  {
    assert hi[0..4] == EncodeInt32(h.sampleRate) && hi[4..8] == EncodeInt32(h.byteRate);
    assert hi[8..10] == EncodeInt16(h.blockAlign) && hi[10..12] == EncodeInt16(h.bitsPerSample);
    Int32RoundTrip(h.sampleRate);
    Int32RoundTrip(h.byteRate);
    Int16RoundTrip(h.blockAlign);
    Int16RoundTrip(h.bitsPerSample);
  }

  lemma DataFields(h: WaveHeader)
    requires WellFormed(h)
    ensures var d := EncodeData(h);
      TagOf(d[0..4]) == h.chunk2Id && Int32Of(d[4..8]) == h.chunk2Size
  {
    var d := EncodeData(h);
    assert d[0..4] == h.chunk2Id && d[4..8] == EncodeInt32(h.chunk2Size);
    StrNCpyPadded(h.chunk2Id);
    Int32RoundTrip(h.chunk2Size);
  }

  /** The tag positions of a 44-byte header hold NUL-padded text. */
  predicate TagsPadded(b: seq<Byte>)
    requires |b| >= HeaderSize
  {
    NulPadded(b[0..4]) && NulPadded(b[8..12]) && NulPadded(b[12..16]) && NulPadded(b[36..40])
  }

  /**
   * Encoding a decoded header gives the bytes back, provided each tag was
   * already NUL-padded (`strncpy` drops whatever follows a NUL).
   */
  lemma EncodeDecodeHeader(b: seq<Byte>)
    requires |b| == HeaderSize && TagsPadded(b)
    ensures EncodeHeader(DecodeHeader(b)) == b
  {
    var h := DecodeHeader(b);
    calc {
      EncodeHeader(h);
      EncodeRiff(h) + EncodeFmt(h) + EncodeData(h);
      { RiffFromBytes(b); FmtFromBytes(b); DataFromBytes(b); }
      b[0..12] + b[12..36] + b[36..44];
      b;
    }
  }

  lemma RiffFromBytes(b: seq<Byte>)
    requires |b| == HeaderSize && TagsPadded(b)
    ensures EncodeRiff(DecodeHeader(b)) == b[0..12]
  {
    StrNCpyPadded(b[0..4]);
    StrNCpyPadded(b[8..12]);
    Int32FromBytes(b[4..8]);
    assert b[0..12] == b[0..4] + b[4..8] + b[8..12];
  }

  lemma FmtFromBytes(b: seq<Byte>)
    requires |b| == HeaderSize && TagsPadded(b)
    ensures EncodeFmt(DecodeHeader(b)) == b[12..36]
  {
    StrNCpyPadded(b[12..16]);
    Int32FromBytes(b[16..20]);
    Int16FromBytes(b[20..22]);
    Int16FromBytes(b[22..24]);
    Int32FromBytes(b[24..28]);
    Int32FromBytes(b[28..32]);
    Int16FromBytes(b[32..34]);
    Int16FromBytes(b[34..36]);
    assert b[12..36] == b[12..16] + b[16..20] + b[20..22] + b[22..24] + b[24..28] + b[28..32] + b[32..34] + b[34..36];
  }

  lemma DataFromBytes(b: seq<Byte>)
    requires |b| == HeaderSize && TagsPadded(b)
    ensures EncodeData(DecodeHeader(b)) == b[36..44]
  {
    StrNCpyPadded(b[36..40]);
    Int32FromBytes(b[40..44]);
    assert b[36..44] == b[36..40] + b[40..44];
  }

  // ---------------------------------------------------------------------
  // The nine compliance checks
  // ---------------------------------------------------------------------

  /**
   * Whether check k (1 to 9) fails for header `h`. Checks 5 and 6 read the
   * reader's own header `own` rather than `h`. The byte-rate product is
   * computed in 32-bit `int` arithmetic, and `>> 3` on it is a floor division.
   */
  predicate CheckFails(k: int, h: WaveHeader, own: WaveHeader)
    requires WellFormed(h) && WellFormed(own)
  {
    match k
    case 1 => !StrNCmpEqual(h.groupId, RiffTag, 4)
    case 2 => !StrNCmpEqual(h.wave, WaveTag, 4)
    case 3 => !StrNCmpEqual(h.subchunk1Id, FmtTag, 4)
    case 4 => h.subchunk1Size != 16
    case 5 => own.audioFormat != 1
    case 6 => !StrNCmpEqual(own.chunk2Id, DataTag, 4)
    case 7 => h.byteRate != Int32Wrap(h.numChannels * h.sampleRate * h.bitsPerSample) / 8
    case 8 => h.blockAlign != (h.numChannels * h.bitsPerSample) / 8
    case 9 => h.numChannels > 2
    case _ => false
  }

  /**
   * The code the checks 1..k leave behind: each failing check overwrites the
   * code with its own number, so the result is the last failing one, or 0.
   */
  function LastFailing(h: WaveHeader, own: WaveHeader, k: nat): (code: nat)
    requires WellFormed(h) && WellFormed(own) && k <= 9
    ensures code <= k
  {
    if k == 0 then 0
    else if CheckFails(k, h, own) then k
    else LastFailing(h, own, k - 1)
  }

  /** The code is 0 exactly when no check passes judgement; otherwise it names the last check that fails. */
  lemma {:induction false} LastFailingMeaning(h: WaveHeader, own: WaveHeader, k: nat)
    requires WellFormed(h) && WellFormed(own) && k <= 9
    ensures LastFailing(h, own, k) == 0 <==> forall j :: 1 <= j <= k ==> !CheckFails(j, h, own)
    ensures LastFailing(h, own, k) != 0 ==> CheckFails(LastFailing(h, own, k), h, own)
    ensures forall j :: LastFailing(h, own, k) < j <= k ==> !CheckFails(j, h, own)
  {
    if k > 0 {
      LastFailingMeaning(h, own, k - 1);
    }
  }

  /** The result of all nine checks. */
  function SanityCode(h: WaveHeader, own: WaveHeader): (code: nat)
    requires WellFormed(h) && WellFormed(own)
    ensures code <= 9
  {
    LastFailing(h, own, 9)
  }

  /** The tag checks are plain equality with the expected four characters. */
  lemma TagChecksAreEquality(h: WaveHeader, own: WaveHeader)
    requires WellFormed(h) && WellFormed(own)
    ensures CheckFails(1, h, own) <==> h.groupId != RiffTag
    ensures CheckFails(2, h, own) <==> h.wave != WaveTag
    ensures CheckFails(3, h, own) <==> h.subchunk1Id != FmtTag
    ensures CheckFails(6, h, own) <==> own.chunk2Id != DataTag
  {
    StrNCmpLiteral(h.groupId, RiffTag);
    StrNCmpLiteral(h.wave, WaveTag);
    StrNCmpLiteral(h.subchunk1Id, FmtTag);
    StrNCmpLiteral(own.chunk2Id, DataTag);
  }

  /** The header a writer of a PCM file with these parameters produces. */
  function CanonicalHeader(channels: int, sampleRate: int, bits: int, dataSize: int): (h: WaveHeader)
    requires 0 <= channels <= 2 && (bits == 8 || bits == 16 || bits == 24) && 0 <= sampleRate < 0x100_0000
    requires 0 <= dataSize && dataSize + 36 < 0x8000_0000
    ensures WellFormed(h)
  {
    ProductFitsInt32(channels, sampleRate, bits);
    WaveHeader(RiffTag, 36 + dataSize, WaveTag, FmtTag, 16, 1, channels, sampleRate,
      channels * sampleRate * bits / 8, (channels * bits) / 8, bits, DataTag, dataSize)
  }

  /** A canonical mono or stereo header passes all nine checks. */
  lemma CanonicalHeaderPasses(channels: int, sampleRate: int, bits: int, dataSize: int)
    requires 1 <= channels <= 2 && (bits == 8 || bits == 16 || bits == 24) && 0 <= sampleRate < 0x100_0000
    requires 0 <= dataSize && dataSize + 36 < 0x8000_0000
    ensures var h := CanonicalHeader(channels, sampleRate, bits, dataSize); SanityCode(h, h) == 0
  {
    var h := CanonicalHeader(channels, sampleRate, bits, dataSize);
    ProductFitsInt32(channels, sampleRate, bits);
    assert Int32Wrap(h.numChannels * h.sampleRate * h.bitsPerSample) == channels * sampleRate * bits;
    TagChecksAreEquality(h, h);
    assert forall j :: 1 <= j <= 9 ==> !CheckFails(j, h, h);
    LastFailingMeaning(h, h, 9);
  }

  lemma ProductFitsInt32(channels: int, sampleRate: int, bits: int)
    requires 0 <= channels <= 2 && 0 <= bits <= 24 && 0 <= sampleRate < 0x100_0000
    ensures 0 <= channels * sampleRate * bits < 0x8000_0000
  {
    assert 0 <= channels * sampleRate <= 2 * sampleRate;
    assert channels * sampleRate * bits <= 2 * sampleRate * bits;
    assert 2 * sampleRate * bits <= 2 * sampleRate * 24;
  }

  /**
   * The checks do not reject a header with no channels: it passes all nine,
   * yet its frame size `channels * bits / 8` is 0, the divisor of the
   * reader's sample count.
   */
  lemma NoChannelHeaderPasses(sampleRate: int, bits: int, dataSize: int)
    requires (bits == 8 || bits == 16 || bits == 24) && 0 <= sampleRate < 0x100_0000
    requires 0 <= dataSize && dataSize + 36 < 0x8000_0000
    ensures var h := CanonicalHeader(0, sampleRate, bits, dataSize);
      SanityCode(h, h) == 0 && (h.numChannels * h.bitsPerSample) / 8 == 0
  {
    var h := CanonicalHeader(0, sampleRate, bits, dataSize);
    TagChecksAreEquality(h, h);
    assert forall j :: 1 <= j <= 9 ==> !CheckFails(j, h, h);
    LastFailingMeaning(h, h, 9);
  }

  /** Checks 5 and 6 look at the reader's own header: a non-PCM argument passes them. */
  lemma FormatCheckReadsOwnHeader(h: WaveHeader, own: WaveHeader)
    requires WellFormed(h) && WellFormed(own)
    requires own.audioFormat == 1 && own.chunk2Id == DataTag && h.audioFormat != 1
    ensures !CheckFails(5, h, own) && !CheckFails(6, h, own)
  {
    TagChecksAreEquality(h, own);
  }

  // ---------------------------------------------------------------------
  // Samples
  // ---------------------------------------------------------------------

  /**
   * The reader's sign conversion of a raw `bits`-wide sample: with
   * `max = 2^(bits-1) - 1`, a value above `max` loses `2 * max`.
   */
  function SignConvert(v: int, bits: nat): (s: int)
    requires 1 <= bits && 0 <= v < Pow2(bits)
  {
    var max := Pow2(bits - 1) - 1;
    if v > max then v - 2 * max else v
  }

  /** The conversion is two's complement plus 2 on the negative half. */
  lemma SignConvertVsTwosComplement(v: int, bits: nat)
    requires 1 <= bits && 0 <= v < Pow2(bits)
    ensures SignConvert(v, bits) == ToSigned(v, bits) + (if v < Pow2(bits - 1) then 0 else 2)
  {
    assert Pow2(bits) == 2 * Pow2(bits - 1);
  }

  /**
   * Raw 1 and raw all-ones (`2^bits - 1`, two's complement -1) both come
   * out as 1.
   */
  lemma SignConvertCollides(bits: nat)
    requires 2 <= bits
    ensures Pow2(bits) - 1 == 2 * Pow2(bits - 1) - 1
    ensures SignConvert(1, bits) == 1 && SignConvert(2 * Pow2(bits - 1) - 1, bits) == 1
  {
    SignConvertAllOnes(bits, Pow2(bits - 1));
  }

  lemma SignConvertAllOnes(bits: nat, half: nat)
    requires 2 <= bits && half == Pow2(bits - 1)
    ensures SignConvert(2 * half - 1, bits) == 1
  {
    assert half == 2 * Pow2(bits - 2);
  }

  /**
   * The raw sample of channel `j` in frame `i` of interleaved data: the
   * `bps` bytes at offset `(i * channels + j) * bps` (0 past the end of the data).
   */
  function RawSample(data: seq<Byte>, i: nat, j: nat, channels: nat, bps: nat): (v: nat)
    ensures v < Pow2(8 * bps)
  {
    var off := (i * channels + j) * bps;
    if off + bps <= |data| then LittleEndian(data[off..off + bps]) else 0
  }
}
