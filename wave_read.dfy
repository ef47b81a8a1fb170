/**
 * The reader object of src/wave_read.cpp. The open FILE is modelled by the
 * bytes it has not yet delivered (`unread`): opening a file supplies its
 * contents, and `fread` takes bytes from the front. The source's fatal
 * `exit(1)` paths, and the arithmetic traps of its integer divisions, are
 * outcomes of the operation.
 */
module WaveRead {
  import opened Common
  import opened WaveFormat

  datatype InitOutcome =
    | CannotOpen              // fopen failed: the source exits
    | ShortHeader             // fewer than 44 bytes: the source exits
    | DivideTrap              // the sample-count division traps (zero frame size, or INT_MIN / -1)
    | Initialised(sanityCode: int)

  datatype FillOutcome =
    | NoBuffer                // init was never called: the source exits
    | ExceedsBuffer(bytesToRead: int)  // the request does not fit the buffer: the source exits
    | FrameTrap               // zero frame size: the frame count divides by zero
    | Filled(bytesConsumed: int)

  function Min(a: int, b: int): int
  {
    if a < b then a else b
  }

  /** The number of whole frames of `frame` bytes in `n` bytes, capped at `samples`. */
  function FramesRead(n: nat, frame: nat, samples: nat): (f: nat)
    requires frame > 0
    ensures f <= samples && f * frame <= n
    ensures f == samples || n < (f + 1) * frame
  {
    var f := Min(n / frame, samples);
    assert (n / frame) * frame <= n;
    f
  }

  lemma FrameOffsets(i: nat, j: nat, ch: nat, bps: nat)
    ensures (i * ch + j) * bps + bps == (i * ch + j + 1) * bps
    ensures (i * ch + ch) * bps == (i + 1) * (ch * bps)
    ensures (i * ch + 0) * bps == i * (ch * bps)
  {
  }

  lemma MulMonotone(a: nat, b: nat, c: nat)
    requires a <= b
    ensures a * c <= b * c
  {
  }

  class WaveReader {
    var header: WaveHeader        // m_ps_wave_header
    var headerBuffer: seq<Byte>   // m_pc_header_buffer
    var sanityPass: int           // m_i_sanity_pass
    var bytesPerSample: int       // m_i_bytes_per_sample
    var totalSamples: int         // m_i_total_samples
    var buffSizeInBytes: int      // m_i_buff_size_in_bytes
    var buffer: array?<Byte>      // m_pc_buffer
    var unread: seq<Byte>         // what m_f_wave_file has not yet delivered

    ghost predicate Valid()
      reads this
    {
      && WellFormed(header)
      && |headerBuffer| == HeaderSize
      && (buffer != null ==> buffer.Length == buffSizeInBytes)
    }

    /** No file and no sample buffer yet (the header's contents are indeterminate in the source). */
    constructor ()
      ensures Valid() && buffer == null && unread == []
    {
      header := WaveHeader([0, 0, 0, 0], 0, [0, 0, 0, 0], [0, 0, 0, 0], 0, 0, 0, 0, 0, 0, 0, [0, 0, 0, 0], 0);
      headerBuffer := seq(HeaderSize, _ => 0);
      sanityPass := 0;
      bytesPerSample, totalSamples, buffSizeInBytes := 0, 0, 0;
      buffer := null;
      unread := [];
    }

    /** Parse the 44 header bytes, stepping a cursor through the fields. */
    method FillWaveHeader()
      requires |headerBuffer| == HeaderSize
      modifies this`header
      ensures header == DecodeHeader(headerBuffer)
    {
      var b := headerBuffer;
      var p := 0;
      assert b[p..p + 4] == b[0..4];
      var groupId := TagOf(b[p..p + 4]);
      p := p + 4;
      assert b[p..p + 4] == b[4..8];
      var fileSize := Int32Of(b[p..p + 4]);
      p := p + 4;
      assert b[p..p + 4] == b[8..12];
      var wave := TagOf(b[p..p + 4]);
      p := p + 4;
      assert b[p..p + 4] == b[12..16];
      var subchunk1Id := TagOf(b[p..p + 4]);
      p := p + 4;
      assert b[p..p + 4] == b[16..20];
      var subchunk1Size := Int32Of(b[p..p + 4]);
      p := p + 4;
      assert b[p..p + 2] == b[20..22];
      var audioFormat := Int16Of(b[p..p + 2]);
      p := p + 2;
      assert b[p..p + 2] == b[22..24];
      var numChannels := Int16Of(b[p..p + 2]);
      p := p + 2;
      assert b[p..p + 4] == b[24..28];
      var sampleRate := Int32Of(b[p..p + 4]);
      p := p + 4;
      assert b[p..p + 4] == b[28..32];
      var byteRate := Int32Of(b[p..p + 4]);
      p := p + 4;
      assert b[p..p + 2] == b[32..34];
      var blockAlign := Int16Of(b[p..p + 2]);
      p := p + 2;
      assert b[p..p + 2] == b[34..36];
      var bitsPerSample := Int16Of(b[p..p + 2]);
      p := p + 2;
      assert b[p..p + 4] == b[36..40];
      var chunk2Id := TagOf(b[p..p + 4]);
      p := p + 4;
      assert b[p..p + 4] == b[40..44];
      var chunk2Size := Int32Of(b[p..p + 4]);
      header := WaveHeader(groupId, fileSize, wave, subchunk1Id, subchunk1Size, audioFormat, numChannels,
        sampleRate, byteRate, blockAlign, bitsPerSample, chunk2Id, chunk2Size);
    }

    /**
     * Run the nine checks on `h` in order, each failure overwriting the
     * code; the pass flag is 1 exactly when no check fails.
     */
    method SanityCheck(h: WaveHeader) returns (code: int)
      requires WellFormed(h) && WellFormed(header)
      modifies this`sanityPass
      ensures code == SanityCode(h, header)
      ensures sanityPass == if code == 0 then 1 else 0
    {
      code := 0;
      sanityPass := 1;
      if !StrNCmpEqual(h.groupId, RiffTag, 4) {
        code := 1;
      }
      assert code == LastFailing(h, header, 1);
      if !StrNCmpEqual(h.wave, WaveTag, 4) {
        code := 2;
      }
      assert code == LastFailing(h, header, 2);
      if !StrNCmpEqual(h.subchunk1Id, FmtTag, 4) {
        code := 3;
      }
      assert code == LastFailing(h, header, 3);
      if h.subchunk1Size != 16 {
        code := 4;
      }
      assert code == LastFailing(h, header, 4);
      if header.audioFormat != 1 {
        code := 5;
      }
      assert code == LastFailing(h, header, 5);
      if !StrNCmpEqual(header.chunk2Id, DataTag, 4) {
        code := 6;
      }
      assert code == LastFailing(h, header, 6);
      if h.byteRate != Int32Wrap(h.numChannels * h.sampleRate * h.bitsPerSample) / 8 {
        code := 7;
      }
      assert code == LastFailing(h, header, 7);
      if h.blockAlign != (h.numChannels * h.bitsPerSample) / 8 {
        code := 8;
      }
      assert code == LastFailing(h, header, 8);
      if h.numChannels > 2 {
        code := 9;
      }
      if code != 0 {
        sanityPass := 0;
      }
    }

    /**
     * Open `file` (None when it cannot be opened), read and parse its
     * header, run the checks (a failure is only a warning), derive the
     * bytes per sample and the total sample count, and allocate a sample
     * buffer of `buffSize` bytes.
     */
    method Init(file: Option<seq<Byte>>, buffSize: nat) returns (outcome: InitOutcome)
      requires Valid()
      modifies this
      ensures Valid()
      ensures file.None? ==> outcome == CannotOpen
      ensures file.Some? && |file.value| < HeaderSize ==> outcome == ShortHeader
      ensures file.Some? && |file.value| >= HeaderSize ==>
        && headerBuffer == file.value[..HeaderSize]
        && header == DecodeHeader(headerBuffer)
        && unread == file.value[HeaderSize..]
        && sanityPass == (if SanityCode(header, header) == 0 then 1 else 0)
        && bytesPerSample == CDiv(header.bitsPerSample, 8)
      ensures file.Some? && |file.value| >= HeaderSize ==>
        var frame := CDiv(header.numChannels * header.bitsPerSample, 8);
        if frame == 0 || (header.chunk2Size == -0x8000_0000 && frame == -1) then outcome == DivideTrap
        else
          && outcome == Initialised(SanityCode(header, header))
          && totalSamples == CDiv(header.chunk2Size, frame)
          && buffSizeInBytes == buffSize && buffer != null && fresh(buffer)
    {
      if file.None? {
        return CannotOpen;
      }
      var bytes := file.value;
      if |bytes| < HeaderSize {
        return ShortHeader;
      }
      var code := LoadHeader(bytes);
      var frame := CDiv(header.numChannels * header.bitsPerSample, 8);
      if frame == 0 || (header.chunk2Size == -0x8000_0000 && frame == -1) {
        return DivideTrap;
      }
      totalSamples := CDiv(header.chunk2Size, frame);
      buffSizeInBytes := buffSize;
      buffer := new Byte[buffSize];
      outcome := Initialised(code);
    }

    /** Take the first 44 bytes as the header, parse and check it, and derive the bytes per sample. */
    method LoadHeader(bytes: seq<Byte>) returns (code: int)
      requires Valid() && |bytes| >= HeaderSize
      modifies this`headerBuffer, this`unread, this`header, this`sanityPass, this`bytesPerSample
      ensures Valid()
      ensures headerBuffer == bytes[..HeaderSize] && unread == bytes[HeaderSize..]
      ensures header == DecodeHeader(headerBuffer)
      ensures code == SanityCode(header, header)
      ensures sanityPass == (if code == 0 then 1 else 0)
      ensures bytesPerSample == CDiv(header.bitsPerSample, 8)
    {
      headerBuffer := bytes[..HeaderSize];
      unread := bytes[HeaderSize..];
      FillWaveHeader();
      code := SanityCheck(header);
      bytesPerSample := CDiv(header.bitsPerSample, 8);
    }

    /** `fread` of up to `count` bytes into the front of the sample buffer. */
    method Fread(count: nat) returns (n: nat)
      requires buffer != null && count <= buffer.Length
      modifies this`unread, buffer
      ensures n == Min(count, |old(unread)|)
      ensures buffer[..n] == old(unread)[..n] && buffer[n..] == old(buffer[n..])
      ensures unread == old(unread)[n..]
    {
      n := Min(count, |unread|);
      ghost var data := unread;
      for k := 0 to n
        invariant unread == data
        invariant buffer[..k] == data[..k] && buffer[k..] == old(buffer[k..])
      {
        buffer[k] := unread[k];
        assert buffer[..k + 1] == buffer[..k] + [data[k]];
      }
      unread := unread[n..];
    }

    /** Assemble one sample from the `bps` bytes at `start`, shifting each by 8 more bits. */
    method GatherSample(start: nat, bits: nat, bps: nat) returns (v: nat, next: nat)
      requires buffer != null && bits == 8 * bps && start + bps <= buffer.Length
      ensures next == start + bps
      ensures v == LittleEndian(buffer[start..next])
    {
      v, next := 0, start;
      var k := 0;
      while k < bits
        invariant start <= next <= start + bps && k == 8 * (next - start)
        invariant v == LittleEndian(buffer[start..next])
      {
        LittleEndianAppend(buffer[start..next], buffer[next]);
        assert buffer[start..next + 1] == buffer[start..next] + [buffer[next]];
        v := v + buffer[next] * Pow2(k);
        next := next + 1;
        k := k + 8;
      }
    }

    /** Decode `frames` whole frames from the first `n` buffer bytes into `pcm`. */
    method DecodeFrames(pcm: array2<int>, n: nat, frames: nat, ch: nat, bits: nat, bps: nat) returns (consumed: nat)
      requires buffer != null && n <= buffer.Length
      requires 1 <= bps <= 3 && bits == 8 * bps && 1 <= ch <= pcm.Length0 && frames <= pcm.Length1
      requires frames * (ch * bps) <= n
      modifies pcm
      ensures consumed == frames * (ch * bps)
      ensures forall j, i :: 0 <= j < ch && 0 <= i < frames ==>
        pcm[j, i] == SignConvert(RawSample(buffer[..n], i, j, ch, bps), bits)
      ensures forall j, i :: 0 <= j < pcm.Length0 && 0 <= i < pcm.Length1 && !(j < ch && i < frames) ==>
        pcm[j, i] == old(pcm[j, i])
    {
      consumed := 0;
      for i := 0 to frames
        invariant consumed == i * (ch * bps)
        invariant forall j', i' :: 0 <= j' < ch && 0 <= i' < i ==>
          pcm[j', i'] == SignConvert(RawSample(buffer[..n], i', j', ch, bps), bits)
        invariant forall j', i' :: 0 <= j' < pcm.Length0 && 0 <= i' < pcm.Length1 && !(j' < ch && i' < i) ==>
          pcm[j', i'] == old(pcm[j', i'])
      {
        MulMonotone(i + 1, frames, ch * bps);
        consumed := DecodeFrame(pcm, n, i, consumed, ch, bits, bps);
      }
    }

    /** Decode frame `i`, whose samples start at buffer offset `start`, into column `i` of `pcm`. */
    method DecodeFrame(pcm: array2<int>, n: nat, i: nat, start: nat, ch: nat, bits: nat, bps: nat) returns (next: nat)
      requires buffer != null && n <= buffer.Length
      requires 1 <= bps <= 3 && bits == 8 * bps && 1 <= ch <= pcm.Length0 && i < pcm.Length1
      requires start == i * (ch * bps) && (i + 1) * (ch * bps) <= n
      modifies pcm
      ensures next == start + ch * bps
      ensures forall j :: 0 <= j < ch ==> pcm[j, i] == SignConvert(RawSample(buffer[..n], i, j, ch, bps), bits)
      ensures forall j', i' :: 0 <= j' < pcm.Length0 && 0 <= i' < pcm.Length1 && !(j' < ch && i' == i) ==>
        pcm[j', i'] == old(pcm[j', i'])
    {
      FrameOffsets(i, 0, ch, bps);
      FrameOffsets(i, ch, ch, bps);
      next := start;
      for j := 0 to ch
        invariant next == (i * ch + j) * bps
        invariant forall j' :: 0 <= j' < j ==> pcm[j', i] == SignConvert(RawSample(buffer[..n], i, j', ch, bps), bits)
        invariant forall j', i' :: 0 <= j' < pcm.Length0 && 0 <= i' < pcm.Length1 && !(j' < j && i' == i) ==>
          pcm[j', i'] == old(pcm[j', i'])
      {
        FrameOffsets(i, j, ch, bps);
        MulMonotone(i * ch + j + 1, i * ch + ch, bps);
        next := DecodeSample(pcm, n, i, j, next, ch, bits, bps);
      }
    }

    /** Gather channel `j` of frame `i` from buffer offset `start` and store it sign-converted. */
    method DecodeSample(pcm: array2<int>, n: nat, i: nat, j: nat, start: nat, ch: nat, bits: nat, bps: nat) returns (next: nat)
      requires buffer != null && n <= buffer.Length
      requires 1 <= bps <= 3 && bits == 8 * bps && j < ch <= pcm.Length0 && i < pcm.Length1
      requires start == (i * ch + j) * bps && start + bps <= n
      modifies pcm
      ensures next == start + bps
      ensures pcm[j, i] == SignConvert(RawSample(buffer[..n], i, j, ch, bps), bits)
      ensures forall j', i' :: 0 <= j' < pcm.Length0 && 0 <= i' < pcm.Length1 && !(j' == j && i' == i) ==>
        pcm[j', i'] == old(pcm[j', i'])
    {
      var maxInt := Pow2(bits - 1) - 1;
      var v;
      v, next := GatherSample(start, bits, bps);
      assert buffer[start..next] == buffer[..n][start..next];
      pcm[j, i] := if v > maxInt then v - 2 * maxInt else v;
    }

    /**
     * Decode up to `samples` interleaved frames from the file into
     * `pcm[channel, frame]`. The request of `channels * bits / 8 * samples`
     * bytes must fit the buffer; as many whole frames as were read (at most
     * `samples`) are decoded, each sample little-endian and sign-converted,
     * and the number of bytes consumed is returned.
     */
    method FillWaveBuffer(pcm: array2<int>, samples: nat) returns (outcome: FillOutcome)
      requires Valid()
      requires buffer != null ==>
        && 8 <= header.bitsPerSample <= 24 && header.bitsPerSample % 8 == 0
        && 0 <= header.numChannels <= pcm.Length0 && samples <= pcm.Length1
        && IsInt32(header.numChannels * header.bitsPerSample / 8 * samples)
      modifies this`unread, buffer, pcm
      ensures Valid()
      ensures old(buffer) == null ==> outcome == NoBuffer && unread == old(unread)
      ensures buffer == old(buffer)
      ensures outcome.ExceedsBuffer? ==> unread == old(unread) && buffer[..] == old(buffer[..])
      ensures !outcome.Filled? ==>
        forall j, i :: 0 <= j < pcm.Length0 && 0 <= i < pcm.Length1 ==> pcm[j, i] == old(pcm[j, i])
      ensures buffer != null ==>
        var bits, ch := header.bitsPerSample, header.numChannels;
        var bps := bits / 8;
        var toRead := ch * bps * samples;
        && (toRead > buffSizeInBytes ==> outcome == ExceedsBuffer(toRead))
        && (toRead <= buffSizeInBytes ==>
              var n := Min(toRead, |old(unread)|);
              && unread == old(unread)[n..]
              && buffer[..n] == old(unread)[..n]
              && (ch == 0 ==> outcome == FrameTrap)
              && (ch > 0 ==>
                    var frames := FramesRead(n, ch * bps, samples);
                    && outcome == Filled(frames * (ch * bps))
                    && (forall j, i :: 0 <= j < ch && 0 <= i < frames ==>
                          pcm[j, i] == SignConvert(RawSample(old(unread)[..n], i, j, ch, bps), bits))
                    && (forall j, i :: 0 <= j < pcm.Length0 && 0 <= i < pcm.Length1 && !(j < ch && i < frames) ==>
                          pcm[j, i] == old(pcm[j, i]))))
    {
      if buffer == null {
        return NoBuffer;
      }
      var bits, ch := header.bitsPerSample, header.numChannels;
      var bps := bits / 8;
      assert ch * bits / 8 == ch * bps;
      var toRead := ch * bps * samples;
      if toRead > buffSizeInBytes {
        return ExceedsBuffer(toRead);
      }
      var n := Fread(toRead);
      var frame := ch * bps;
      if frame == 0 {
        return FrameTrap;
      }
      var frames := FramesRead(n, frame, samples);
      var p := DecodeFrames(pcm, n, frames, ch, bits, bps);
      outcome := Filled(p);
    }
  }
}
