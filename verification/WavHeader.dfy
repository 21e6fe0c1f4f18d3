/** WAV headers: writing them, and finding them again among other chunks. */
module WavHeader {
  import opened Bytes

  // ---------------------------------------------------------------------------------------------
  // Numbers in little-endian order
  // ---------------------------------------------------------------------------------------------

  function Range(width: nat): (r: nat)
    ensures r > 0
  {
    if width == 0 then 1 else 0x100 * Range(width - 1)
  }

  /** The low `width` octets of a number: writing it to a field of that size. */
  function Le(n: nat, width: nat): (b: seq<byte>)
    ensures |b| == width
  {
    if width == 0 then [] else [n % 0x100] + Le(n / 0x100, width - 1)
  }

  function FromLe(b: seq<byte>): nat {
    if b == [] then 0 else b[0] as int + 0x100 * FromLe(b[1..])
  }

  lemma {:induction false} LeBack(n: nat, width: nat)
    requires n < Range(width)
    ensures FromLe(Le(n, width)) == n
  {
    if width > 0 {
      LeBack(n / 0x100, width - 1);
      assert Le(n, width)[1..] == Le(n / 0x100, width - 1);
    }
  }

  lemma {:induction false} FromLeBound(b: seq<byte>)
    ensures FromLe(b) < Range(|b|)
    decreases |b|
  {
    if b != [] {
      FromLeBound(b[1..]);
    }
  }

  lemma Ranges()
    ensures Range(2) == 0x1_0000 && Range(4) == 0x1_0000_0000
  {
    assert Range(3) == 0x100_0000;
  }

  // ---------------------------------------------------------------------------------------------
  // Parameters
  // ---------------------------------------------------------------------------------------------

  datatype Format = Pcm | ALaw | MuLaw | IeeeFloat

  datatype Parameters = Parameters(numChannels: nat, sampleRate: int, format: Format, numSamples: nat)

  function BytesPerSample(format: Format): nat {
    match format
    case Pcm => 2
    case ALaw | MuLaw => 1
    case IeeeFloat => 4
  }

  function FormatField(format: Format): nat {
    match format
    case Pcm => 1
    case IeeeFloat => 3
    case ALaw => 6
    case MuLaw => 7
  }

  predicate CheckParameters(p: Parameters, bytesPerSample: nat) {
    && p.numChannels != 0 && p.sampleRate > 0 && bytesPerSample != 0
    && p.sampleRate < 0x1_0000_0000
    && p.numChannels < 0x1_0000
    && bytesPerSample * 8 < 0x1_0000
    && p.sampleRate * p.numChannels * bytesPerSample < 0x1_0000_0000
    && (match p.format
        case Pcm => bytesPerSample == 1 || bytesPerSample == 2
        case ALaw | MuLaw => bytesPerSample == 1
        case IeeeFloat => bytesPerSample == 4)
    && p.numSamples <= (0xFFFF_FFFF - (44 - 8)) / bytesPerSample
    && p.numSamples % p.numChannels == 0
  }

  function HeaderSize(format: Format): nat { if format.Pcm? then 44 else 58 }

  /** The fields in 32 and 16 bits; for floats with a payload close to 2^32 the first one wraps round. */
  function RiffSize(payload: nat, headerSize: nat): nat
    requires headerSize >= 8
  {
    (payload + headerSize - 8) % 0x1_0000_0000
  }

  function ByteRate(numChannels: nat, sampleRate: int, bytesPerSample: nat): nat {
    (numChannels * sampleRate * bytesPerSample) % 0x1_0000_0000
  }

  function BlockAlign(numChannels: nat, bytesPerSample: nat): nat {
    (numChannels * bytesPerSample) % 0x1_0000
  }

  // ---------------------------------------------------------------------------------------------
  // Writing
  // ---------------------------------------------------------------------------------------------

  type FourCC = b: seq<byte> | |b| == 4 witness [0, 0, 0, 0]

  const RIFF: FourCC := ['R' as int, 'I' as int, 'F' as int, 'F' as int]
  const WAVE: FourCC := ['W' as int, 'A' as int, 'V' as int, 'E' as int]
  const FMT: FourCC := ['f' as int, 'm' as int, 't' as int, ' ' as int]
  const FACT: FourCC := ['f' as int, 'a' as int, 'c' as int, 't' as int]
  const DATA: FourCC := ['d' as int, 'a' as int, 't' as int, 'a' as int]

  function ChunkHeader(id: FourCC, size: nat): (b: seq<byte>)
    ensures |b| == 8
  {
    id + Le(size, 4)
  }

  /** The payload of the "fmt " chunk. */
  datatype Fmt = Fmt(audioFormat: nat, numChannels: nat, sampleRate: nat, byteRate: nat, blockAlign: nat, bitsPerSample: nat)

  function FmtBytes(f: Fmt): (b: seq<byte>)
    ensures |b| == 16
  {
    Le(f.audioFormat, 2) + Le(f.numChannels, 2) + Le(f.sampleRate, 4) + Le(f.byteRate, 4) +
    Le(f.blockAlign, 2) + Le(f.bitsPerSample, 2)
  }

  function FmtOf(p: Parameters): Fmt
    requires p.sampleRate >= 0
  {
    var bytesPerSample := BytesPerSample(p.format);
    Fmt(FormatField(p.format), p.numChannels, p.sampleRate,
        ByteRate(p.numChannels, p.sampleRate, bytesPerSample),
        BlockAlign(p.numChannels, bytesPerSample), 8 * bytesPerSample)
  }

  function Payload(p: Parameters): nat { BytesPerSample(p.format) * p.numSamples }

  function RiffChunk(size: nat): seq<byte> { ChunkHeader(RIFF, size) + WAVE }

  /** The chunk with the parameters; for floats with an empty extension. */
  function FmtChunk(p: Parameters): seq<byte>
    requires p.sampleRate >= 0
  {
    FieldsChunk(FmtOf(p), p.format.Pcm?)
  }

  function FieldsChunk(f: Fmt, pcm: bool): seq<byte> {
    if pcm then ChunkHeader(FMT, 16) + FmtBytes(f)
    else ChunkHeader(FMT, 18) + FmtBytes(f) + Le(0, 2)
  }

  /** What `WriteWavHeader` writes, once it has checked the parameters. */
  function Header(p: Parameters): seq<byte>
    requires p.format.Pcm? || p.format.IeeeFloat?
    requires CheckParameters(p, BytesPerSample(p.format))
  {
    RiffChunk(RiffSize(Payload(p), HeaderSize(p.format))) + FmtChunk(p) +
    (if p.format.Pcm? then [] else ChunkHeader(FACT, 4) + Le(p.numChannels * p.numSamples, 4)) +
    ChunkHeader(DATA, Payload(p))
  }

  // ---------------------------------------------------------------------------------------------
  // Reading
  // ---------------------------------------------------------------------------------------------

  /** The size and the position behind the header of the first chunk with an identifier. */
  function Find(s: seq<byte>, id: FourCC): (r: Option<(nat, seq<byte>)>)
    ensures r.Some? ==> |r.value.1| + 8 <= |s|
    decreases |s|
  {
    if |s| < 8 then None
    else if s[..4] == id then Some((FromLe(s[4..8]), s[8..]))
    else
      var size := FromLe(s[4..8]);
      if size > |s| - 8 then None else Find(s[8 + size..], id)
  }

  function ParseFmt(b: seq<byte>): Fmt
    requires |b| == 16
  {
    Fmt(FromLe(b[0..2]), FromLe(b[2..4]), FromLe(b[4..8]), FromLe(b[8..12]), FromLe(b[12..14]), FromLe(b[14..16]))
  }

  function ReadFmt(size: nat, s: seq<byte>): (r: Option<(Fmt, seq<byte>)>)
    ensures r.Some? ==> |r.value.1| <= |s|
  {
    if |s| < 16 then None
    else if size == 16 then Some((ParseFmt(s[..16]), s[16..]))
    else if size != 18 || |s| < 18 || FromLe(s[16..18]) != 0 then None
    else Some((ParseFmt(s[..16]), s[18..]))
  }

  /** An unsupported format stops the program. */
  datatype Outcome =
    | Accepted(parameters: Parameters, bytesPerSample: nat, dataStart: nat)
    | Rejected
    | Aborted

  function ToInt32(n: nat): int { if n < 0x8000_0000 then n else n - 0x1_0000_0000 }

  /** The checks on what was read. */
  function Judge(riffSize: nat, f: Fmt, payload: nat, dataStart: nat): Outcome {
    if f.audioFormat != 1 && f.audioFormat != 3 then Aborted
    else
      var format := if f.audioFormat == 1 then Pcm else IeeeFloat;
      var bytesPerSample := f.bitsPerSample / 8;
      if bytesPerSample == 0 then Rejected
      else
        var p := Parameters(f.numChannels, ToInt32(f.sampleRate), format, payload / bytesPerSample);
        if riffSize < RiffSize(payload, HeaderSize(format)) then Rejected
        else if f.byteRate != ByteRate(p.numChannels, p.sampleRate, bytesPerSample) then Rejected
        else if f.blockAlign != BlockAlign(p.numChannels, bytesPerSample) then Rejected
        else if !CheckParameters(p, bytesPerSample) then Rejected
        else Accepted(p, bytesPerSample, dataStart)
  }

  function Read(s: seq<byte>): Outcome {
    if |s| < 12 || s[..4] != RIFF || s[8..12] != WAVE then Rejected
    else ReadChunks(FromLe(s[4..8]), s[12..])
  }

  /** Reading on behind the RIFF header, which takes 12 octets. */
  function ReadChunks(riffSize: nat, s: seq<byte>): Outcome {
    match Locate(s)
    case None => Rejected
    case Some((fmt, payload, atData)) => Judge(riffSize, fmt, payload, 12 + |s| - |atData|)
  }

  /** The parameters, the size of the payload, and the samples. */
  function Locate(s: seq<byte>): (r: Option<(Fmt, nat, seq<byte>)>)
    ensures r.Some? ==> |r.value.2| <= |s|
  {
    match FindFmt(s)
    case None => None
    case Some((fmt, behind)) =>
      match Find(behind, DATA)
      case None => None
      case Some((payload, atData)) => Some((fmt, payload, atData))
  }

  function FindFmt(s: seq<byte>): (r: Option<(Fmt, seq<byte>)>)
    ensures r.Some? ==> |r.value.1| + 8 <= |s|
  {
    match Find(s, FMT)
    case None => None
    case Some((size, atFmt)) => ReadFmt(size, atFmt)
  }

  // ---------------------------------------------------------------------------------------------
  // What was written is read back, whatever other chunks there are
  // ---------------------------------------------------------------------------------------------

  datatype Chunk = Chunk(id: FourCC, payload: seq<byte>)

  predicate ChunksWithout(chunks: seq<Chunk>, id: FourCC) {
    forall i | 0 <= i < |chunks| :: chunks[i].id != id && |chunks[i].payload| < 0x1_0000_0000
  }

  function ChunkBytes(chunks: seq<Chunk>): seq<byte> {
    if chunks == [] then []
    else ChunkHeader(chunks[0].id, |chunks[0].payload|) + chunks[0].payload + ChunkBytes(chunks[1..])
  }

  /** A file with `before` in front of the "fmt " chunk and `between` in front of the "data" chunk. */
  function Layout(p: Parameters, riffSize: nat, before: seq<Chunk>, between: seq<Chunk>): seq<byte>
    requires p.sampleRate >= 0
  {
    RiffChunk(riffSize) + ChunkBytes(before) + FmtChunk(p) + ChunkBytes(between) + ChunkHeader(DATA, Payload(p))
  }

  lemma FindHere(id: FourCC, size: nat, rest: seq<byte>)
    requires size < 0x1_0000_0000
    ensures Find(ChunkHeader(id, size) + rest, id) == Some((size, rest))
  {
    var s := ChunkHeader(id, size) + rest;
    assert s[..4] == id && s[4..8] == Le(size, 4) && s[8..] == rest;
    Ranges();
    LeBack(size, 4);
  }

  lemma FindNext(c: Chunk, id: FourCC, rest: seq<byte>)
    requires c.id != id && |c.payload| < 0x1_0000_0000
    ensures Find(ChunkHeader(c.id, |c.payload|) + c.payload + rest, id) == Find(rest, id)
  {
    var n := |c.payload|;
    var s := ChunkHeader(c.id, n) + c.payload + rest;
    assert s[..4] == c.id && s[4..8] == Le(n, 4) && s[8 + n..] == rest;
    Ranges();
    LeBack(n, 4);
  }

  lemma {:induction false} FindBehind(chunks: seq<Chunk>, id: FourCC, rest: seq<byte>)
    requires ChunksWithout(chunks, id)
    ensures Find(ChunkBytes(chunks) + rest, id) == Find(rest, id)
    decreases |chunks|
  {
    if chunks == [] {
      assert ChunkBytes(chunks) + rest == rest;
    } else {
      var tail := ChunkBytes(chunks[1..]) + rest;
      assert ChunkBytes(chunks) + rest == ChunkHeader(chunks[0].id, |chunks[0].payload|) + chunks[0].payload + tail;
      FindNext(chunks[0], id, tail);
      FindBehind(chunks[1..], id, rest);
    }
  }

  predicate FmtFits(f: Fmt) {
    && f.audioFormat < 0x1_0000 && f.numChannels < 0x1_0000 && f.sampleRate < 0x1_0000_0000
    && f.byteRate < 0x1_0000_0000 && f.blockAlign < 0x1_0000 && f.bitsPerSample < 0x1_0000
  }

  /** A part of a concatenation, cut out again. */
  lemma CutOut<T>(before: seq<T>, part: seq<T>, behind: seq<T>)
    ensures (before + part + behind)[|before|..|before| + |part|] == part
  {
  }

  lemma FmtBack(f: Fmt)
    requires FmtFits(f)
    ensures ParseFmt(FmtBytes(f)) == f
  {
    var a, b, c := Le(f.audioFormat, 2), Le(f.numChannels, 2), Le(f.sampleRate, 4);
    var d, e, g := Le(f.byteRate, 4), Le(f.blockAlign, 2), Le(f.bitsPerSample, 2);
    Rejoin(a, b, c, d, e, g);
    CutSix(a, b, c, d, e, g);
    Ranges();
    LeBack(f.audioFormat, 2);
    LeBack(f.numChannels, 2);
    LeBack(f.sampleRate, 4);
    LeBack(f.byteRate, 4);
    LeBack(f.blockAlign, 2);
    LeBack(f.bitsPerSample, 2);
  }

  lemma CutSix<T>(a: seq<T>, b: seq<T>, c: seq<T>, d: seq<T>, e: seq<T>, f: seq<T>)
    requires |a| == |b| == |e| == |f| == 2 && |c| == |d| == 4
    ensures var s := a + b + c + d + e + f;
      && s[0..2] == a && s[2..4] == b && s[4..8] == c
      && s[8..12] == d && s[12..14] == e && s[14..16] == f
  {
    CutOut([], a, b + (c + (d + (e + f))));
    CutOut(a, b, c + (d + (e + f)));
    CutOut(a + b, c, d + (e + f));
    CutOut(a + b + c, d, e + f);
    CutOut(a + b + c + d, e, f);
    CutOut(a + b + c + d + e, f, []);
    Rejoin(a, b, c, d, e, f);
    Associative(a + b, c, d + (e + f));
    Associative(a + b + c, d, e + f);
    Associative(a + b + c + d, e, f);
    Associative(a, b, c + (d + (e + f)));
    assert [] + a == a && a + b + c + d + e + f + [] == a + b + c + d + e + f;
  }

  /** Parameters that the writer takes; the sample rate is an `int`. */
  predicate Writable(p: Parameters) {
    (p.format.Pcm? || p.format.IeeeFloat?) && p.sampleRate < 0x8000_0000 && CheckParameters(p, BytesPerSample(p.format))
  }

  lemma FmtOfFits(p: Parameters)
    requires Writable(p)
    ensures FmtFits(FmtOf(p))
  {
  }

  lemma ReadFieldsBack(f: Fmt, pcm: bool, rest: seq<byte>)
    requires ParseFmt(FmtBytes(f)) == f
    ensures FindFmt(FieldsChunk(f, pcm) + rest) == Some((f, rest))
  {
    var fields := FmtBytes(f);
    if pcm {
      assert FieldsChunk(f, pcm) + rest == ChunkHeader(FMT, 16) + (fields + rest);
      FindHere(FMT, 16, fields + rest);
      assert (fields + rest)[..16] == fields && (fields + rest)[16..] == rest;
    } else {
      var tail := fields + Le(0, 2) + rest;
      assert FieldsChunk(f, pcm) + rest == ChunkHeader(FMT, 18) + tail;
      FindHere(FMT, 18, tail);
      assert tail[..16] == fields && tail[16..18] == Le(0, 2) && tail[18..] == rest;
      LeBack(0, 2);
    }
  }

  lemma PayloadFits(p: Parameters)
    requires Writable(p)
    ensures Payload(p) < 0x1_0000_0000 && Payload(p) / BytesPerSample(p.format) == p.numSamples
  {
  }

  lemma JudgeBack(p: Parameters, riffSize: nat, dataStart: nat)
    requires Writable(p) && riffSize >= RiffSize(Payload(p), HeaderSize(p.format))
    ensures Judge(riffSize, FmtOf(p), Payload(p), dataStart) == Accepted(p, BytesPerSample(p.format), dataStart)
  {
    PayloadFits(p);
  }

  /** Chunks that are not looked for change where the samples start, and nothing else. */
  lemma LayoutIsRead(p: Parameters, riffSize: nat, before: seq<Chunk>, between: seq<Chunk>, samples: seq<byte>)
    requires Writable(p) && ChunksWithout(before, FMT) && ChunksWithout(between, DATA)
    requires RiffSize(Payload(p), HeaderSize(p.format)) <= riffSize < 0x1_0000_0000
    ensures var layout := Layout(p, riffSize, before, between);
      Read(layout + samples) == Accepted(p, BytesPerSample(p.format), |layout|)
  {
    LayoutParts(p, riffSize, before, between, samples);
    FmtOfFits(p);
    PayloadFits(p);
    LocateLayout(FmtOf(p), p.format.Pcm?, before, between, Payload(p), samples);
    RiffBack(riffSize, BehindRiff(FmtOf(p), p.format.Pcm?, before, between, Payload(p), samples));
    JudgeBack(p, riffSize, |Layout(p, riffSize, before, between)|);
  }

  function BehindRiff(f: Fmt, pcm: bool, before: seq<Chunk>, between: seq<Chunk>, payload: nat, samples: seq<byte>): seq<byte> {
    ChunkBytes(before) + (FieldsChunk(f, pcm) + (ChunkBytes(between) + (ChunkHeader(DATA, payload) + samples)))
  }

  lemma LocateLayout(f: Fmt, pcm: bool, before: seq<Chunk>, between: seq<Chunk>, payload: nat, samples: seq<byte>)
    requires FmtFits(f) && ChunksWithout(before, FMT) && ChunksWithout(between, DATA) && payload < 0x1_0000_0000
    ensures Locate(BehindRiff(f, pcm, before, between, payload, samples)) == Some((f, payload, samples))
  {
    var fromData := ChunkHeader(DATA, payload) + samples;
    var behindFmt := ChunkBytes(between) + fromData;
    FindBehind(before, FMT, FieldsChunk(f, pcm) + behindFmt);
    FmtBack(f);
    ReadFieldsBack(f, pcm, behindFmt);
    FindBehind(between, DATA, fromData);
    FindHere(DATA, payload, samples);
  }

  lemma LayoutParts(p: Parameters, riffSize: nat, before: seq<Chunk>, between: seq<Chunk>, samples: seq<byte>)
    requires p.sampleRate >= 0
    ensures var layout := Layout(p, riffSize, before, between);
      var behindRiff := BehindRiff(FmtOf(p), p.format.Pcm?, before, between, Payload(p), samples);
      layout + samples == RiffChunk(riffSize) + behindRiff && |layout| == 12 + |behindRiff| - |samples|
  {
    Rejoin(RiffChunk(riffSize), ChunkBytes(before), FmtChunk(p), ChunkBytes(between), ChunkHeader(DATA, Payload(p)), samples);
  }

  lemma Rejoin<T>(a: seq<T>, b: seq<T>, c: seq<T>, d: seq<T>, e: seq<T>, f: seq<T>)
    ensures a + b + c + d + e + f == a + (b + (c + (d + (e + f))))
  {
  }

  lemma RiffBack(size: nat, rest: seq<byte>)
    requires size < 0x1_0000_0000
    ensures var s := RiffChunk(size) + rest;
      |s| >= 12 && s[..4] == RIFF && s[8..12] == WAVE && FromLe(s[4..8]) == size && s[12..] == rest
  {
    var s := RiffChunk(size) + rest;
    assert s[4..8] == Le(size, 4);
    Ranges();
    LeBack(size, 4);
  }

  /** The chunks between "fmt " and "data" that the writer adds. */
  function Facts(p: Parameters): seq<Chunk> {
    if p.format.Pcm? then [] else [Chunk(FACT, Le(p.numChannels * p.numSamples, 4))]
  }

  lemma HeaderIsLayout(p: Parameters)
    requires Writable(p)
    ensures Header(p) == Layout(p, RiffSize(Payload(p), HeaderSize(p.format)), [], Facts(p))
    ensures |Header(p)| == HeaderSize(p.format)
    ensures ChunksWithout(Facts(p), DATA)
  {
    assert FACT[0] != DATA[0];
    var riff := RiffChunk(RiffSize(Payload(p), HeaderSize(p.format)));
    assert riff + [] == riff;
    if !p.format.Pcm? {
      var fact := Facts(p)[0];
      assert Facts(p)[1..] == [];
      assert ChunkHeader(FACT, 4) + fact.payload + [] == ChunkHeader(FACT, 4) + fact.payload;
    }
  }

  /** Reading the written header gives the parameters back, with the samples at 44 or 58. */
  lemma HeaderIsRead(p: Parameters, samples: seq<byte>)
    requires Writable(p)
    ensures Read(Header(p) + samples) == Accepted(p, BytesPerSample(p.format), HeaderSize(p.format))
  {
    HeaderIsLayout(p);
    LayoutIsRead(p, RiffSize(Payload(p), HeaderSize(p.format)), [], Facts(p), samples);
  }

  /** The RIFF size is that of the file behind the first chunk header, except that for floats the check
      leaves room for sizes that wrap round. */
  lemma RiffSizeIsExactIff(p: Parameters)
    requires Writable(p)
    ensures RiffSize(Payload(p), HeaderSize(p.format)) == HeaderSize(p.format) + Payload(p) - 8 <==>
      p.format.Pcm? || p.numSamples <= (0xFFFF_FFFF - 50) / 4
  {
    PayloadFits(p);
  }

  /** The largest number of samples that the check lets pass. */
  lemma RiffSizeWraps()
    ensures var p := Parameters(1, 8000, IeeeFloat, 1073741814);
      Writable(p) && RiffSize(Payload(p), HeaderSize(p.format)) == 10 && HeaderSize(p.format) + Payload(p) - 8 == 0x1_0000_000A
  {
  }

  // The header octet by octet.

  function U16(b: seq<byte>, i: nat): nat
    requires i + 2 <= |b|
  {
    b[i] as int + 0x100 * (b[i + 1] as int)
  }

  function U32(b: seq<byte>, i: nat): nat
    requires i + 4 <= |b|
  {
    U16(b, i) + 0x1_0000 * U16(b, i + 2)
  }

  lemma FromLeOctets(b: seq<byte>)
    ensures |b| == 2 ==> FromLe(b) == U16(b, 0)
    ensures |b| == 4 ==> FromLe(b) == U32(b, 0)
  {
    if |b| == 2 {
      assert FromLe(b[1..]) == b[1] as int + 0x100 * FromLe(b[1..][1..]);
      assert b[1..][1..] == [];
    } else if |b| == 4 {
      var c, d, e := b[1..], b[2..], b[3..];
      assert c[1..] == d && d[1..] == e && e[1..] == [];
      assert FromLe(e) == b[3];
      assert FromLe(d) == b[2] as int + 0x100 * FromLe(e);
      assert FromLe(c) == b[1] as int + 0x100 * FromLe(d);
    }
  }

  lemma {:induction false} LeLow(m: nat, q: nat, width: nat)
    ensures Le(m + q * Range(width), width) == Le(m, width)
  {
    if width > 0 {
      var k := q * Range(width - 1);
      assert q * Range(width) == 0x100 * k;
      LowOctet(m, k);
      LeLow(m / 0x100, q, width - 1);
    }
  }

  lemma LowOctet(m: nat, k: nat)
    ensures (m + 0x100 * k) % 0x100 == m % 0x100 && (m + 0x100 * k) / 0x100 == m / 0x100 + k
  {
  }

  lemma LeOctets(n: nat)
    ensures n < 0x1_0000 ==> U16(Le(n, 2), 0) == n
    ensures U32(Le(n, 4), 0) == n % 0x1_0000_0000
  {
    hide Le, FromLe, Range;
    Ranges();
    if n < 0x1_0000 {
      LeBack(n, 2);
      FromLeOctets(Le(n, 2));
    }
    var m := n % 0x1_0000_0000;
    LeLow(m, n / 0x1_0000_0000, 4);
    LeBack(m, 4);
    FromLeOctets(Le(m, 4));
  }

  lemma OctetsAt(b: seq<byte>, i: nat)
    ensures i + 2 <= |b| ==> FromLe(b[i..i + 2]) == U16(b, i)
    ensures i + 4 <= |b| ==> FromLe(b[i..i + 4]) == U32(b, i)
  {
    if i + 2 <= |b| { FromLeOctets(b[i..i + 2]); }
    if i + 4 <= |b| { FromLeOctets(b[i..i + 4]); }
  }

  /** Numbers and identifiers stay what they are when something is put in front of or behind them. */
  lemma InContext(a: seq<byte>, b: seq<byte>, c: seq<byte>, i: nat)
    ensures i + 2 <= |b| ==> U16(a + b + c, |a| + i) == U16(b, i)
    ensures i + 4 <= |b| ==> U32(a + b + c, |a| + i) == U32(b, i)
    ensures i + 4 <= |b| ==> (a + b + c)[|a| + i..|a| + i + 4] == b[i..i + 4]
  {
  }

  lemma ChunkOctets(a: seq<byte>, id: FourCC, size: nat, c: seq<byte>)
    requires size < 0x1_0000_0000
    ensures var h := a + ChunkHeader(id, size) + c;
      |h| >= |a| + 8 && h[|a|..|a| + 4] == id && U32(h, |a| + 4) == size
  {
    hide Le, U32;
    var b := ChunkHeader(id, size);
    LeOctets(size);
    InContext(id, Le(size, 4), [], 0);
    assert id + Le(size, 4) + [] == b;
    InContext(a, b, c, 0);
    InContext(a, b, c, 4);
    assert b[0..4] == id;
  }

  /** The fields, somewhere in a header. */
  lemma FmtOctets(a: seq<byte>, f: Fmt, c: seq<byte>)
    requires FmtFits(f)
    ensures var h, n := a + FmtBytes(f) + c, |a|;
      && U16(h, n) == f.audioFormat && U16(h, n + 2) == f.numChannels && U32(h, n + 4) == f.sampleRate
      && U32(h, n + 8) == f.byteRate && U16(h, n + 12) == f.blockAlign && U16(h, n + 14) == f.bitsPerSample
  {
    hide Le, FromLe, U16, U32, FmtBytes;
    var b := FmtBytes(f);
    FmtBack(f);
    OctetsAt(b, 0);
    OctetsAt(b, 2);
    OctetsAt(b, 4);
    OctetsAt(b, 8);
    OctetsAt(b, 12);
    OctetsAt(b, 14);
    InContext(a, b, c, 0);
    InContext(a, b, c, 2);
    InContext(a, b, c, 4);
    InContext(a, b, c, 8);
    InContext(a, b, c, 12);
    InContext(a, b, c, 14);
  }

  /** The identifiers and fields of a header, where the format puts them. */
  ghost predicate StartsLike(h: seq<byte>, p: Parameters) {
    var bytes := if p.format.Pcm? then 2 else 4;
    var size := if p.format.Pcm? then 44 else 58;
    && |h| >= 36
    && h[0..4] == [0x52, 0x49, 0x46, 0x46]                                          // "RIFF"
    && U32(h, 4) == (bytes * p.numSamples + size - 8) % 0x1_0000_0000
    && h[8..12] == [0x57, 0x41, 0x56, 0x45]                                         // "WAVE"
    && h[12..16] == [0x66, 0x6D, 0x74, 0x20]                                        // "fmt "
    && U32(h, 16) == (if p.format.Pcm? then 16 else 18)
    && U16(h, 20) == (if p.format.Pcm? then 1 else 3)
    && U16(h, 22) == p.numChannels
    && U32(h, 24) == p.sampleRate
    && U32(h, 28) == p.sampleRate * p.numChannels * bytes
    && U16(h, 32) == p.numChannels * bytes % 0x1_0000
    && U16(h, 34) == 8 * bytes
  }

  /** How it goes on: the data chunk, for floats behind an empty extension and the number of samples. */
  ghost predicate EndsLike(h: seq<byte>, p: Parameters) {
    if p.format.Pcm? then
      && |h| == 44
      && h[36..40] == [0x64, 0x61, 0x74, 0x61]                                      // "data"
      && U32(h, 40) == 2 * p.numSamples
    else
      && |h| == 58
      && U16(h, 36) == 0
      && h[38..42] == [0x66, 0x61, 0x63, 0x74]                                      // "fact"
      && U32(h, 42) == 4
      && U32(h, 46) == p.numChannels * p.numSamples % 0x1_0000_0000
      && h[50..54] == [0x64, 0x61, 0x74, 0x61]                                      // "data"
      && U32(h, 54) == 4 * p.numSamples
  }

  lemma Regroup(a: seq<byte>, b: seq<byte>, c: seq<byte>, d: seq<byte>, e: seq<byte>)
    ensures (a + b) + (c + d) + e == [] + a + (b + c + d + e)
    ensures (a + b) + (c + d) + e == a + b + (c + d + e)
    ensures (a + b) + (c + d) + e == (a + b) + c + (d + e)
    ensures (a + b) + (c + d) + e == (a + b + c) + d + e
  {
  }

  lemma StartOctets(p: Parameters, rest: seq<byte>, size: nat)
    requires Writable(p) && size == (if p.format.Pcm? then 16 else 18)
    ensures StartsLike(
      RiffChunk(RiffSize(Payload(p), HeaderSize(p.format))) + (ChunkHeader(FMT, size) + FmtBytes(FmtOf(p))) + rest, p)
  {
    hide Le, U16, U32, FmtBytes, ChunkHeader;
    var riff := RiffSize(Payload(p), HeaderSize(p.format));
    var a, c, d := ChunkHeader(RIFF, riff), ChunkHeader(FMT, size), FmtBytes(FmtOf(p));
    Regroup(a, WAVE, c, d, rest);
    FmtOfFits(p);
    ChunkOctets([], RIFF, riff, WAVE + c + d + rest);
    InContext(a, WAVE, c + d + rest, 0);
    ChunkOctets(a + WAVE, FMT, size, d + rest);
    FmtOctets(a + WAVE + c, FmtOf(p), rest);
    RatesFit(p);
  }

  lemma RatesFit(p: Parameters)
    requires Writable(p)
    ensures FmtOf(p).byteRate == p.sampleRate * p.numChannels * (if p.format.Pcm? then 2 else 4)
    ensures FmtOf(p).blockAlign == p.numChannels * (if p.format.Pcm? then 2 else 4) % 0x1_0000
  {
    assert p.numChannels * p.sampleRate == p.sampleRate * p.numChannels;
  }

  lemma PcmOctets(p: Parameters)
    requires Writable(p) && p.format.Pcm?
    ensures StartsLike(Header(p), p) && EndsLike(Header(p), p)
  {
    hide Le, U16, U32, FmtBytes, ChunkHeader, StartsLike;
    var riff := RiffChunk(RiffSize(Payload(p), 44));
    var fields, data := ChunkHeader(FMT, 16) + FmtBytes(FmtOf(p)), ChunkHeader(DATA, Payload(p));
    assert Header(p) == riff + fields + data == (riff + fields) + data + [];
    StartOctets(p, data, 16);
    ChunkOctets(riff + fields, DATA, Payload(p), []);
    HeaderLengths(p, 16);
  }

  lemma HeaderLengths(p: Parameters, size: nat)
    requires p.sampleRate >= 0
    ensures |RiffChunk(RiffSize(Payload(p), HeaderSize(p.format))) + (ChunkHeader(FMT, size) + FmtBytes(FmtOf(p)))| == 36
    ensures |ChunkHeader(DATA, Payload(p))| == 8 && |ChunkHeader(FACT, 4)| == 8
  {
  }

  lemma FloatOctets(p: Parameters)
    requires Writable(p) && p.format.IeeeFloat?
    ensures StartsLike(Header(p), p) && EndsLike(Header(p), p)
  {
    hide Le, U16, U32, FmtBytes, ChunkHeader, StartsLike;
    var start := RiffChunk(RiffSize(Payload(p), 58)) + (ChunkHeader(FMT, 18) + FmtBytes(FmtOf(p)));
    var none, fact, length, data :=
      Le(0, 2), ChunkHeader(FACT, 4), Le(p.numChannels * p.numSamples, 4), ChunkHeader(DATA, Payload(p));
    HeaderLengths(p, 18);
    RegroupFloat(RiffChunk(RiffSize(Payload(p), 58)), ChunkHeader(FMT, 18), FmtBytes(FmtOf(p)), none, fact, length, data);
    StartOctets(p, none + fact + length + data, 18);
    LeOctets(0);
    LeOctets(p.numChannels * p.numSamples);
    InContext(start, none, fact + length + data, 0);
    ChunkOctets(start + none, FACT, 4, length + data);
    InContext(start + none + fact, length, data, 0);
    ChunkOctets(start + none + fact + length, DATA, Payload(p), []);
  }

  lemma RegroupFloat(r: seq<byte>, f: seq<byte>, b: seq<byte>, z: seq<byte>, k: seq<byte>, l: seq<byte>, d: seq<byte>)
    ensures var s, h := r + (f + b), r + (f + b + z) + (k + l) + d;
      h == s + (z + k + l + d) == s + z + (k + l + d) == (s + z) + k + (l + d) == (s + z + k) + l + d == (s + z + k + l) + d + []
  {
  }

  /** The whole header, field by field, as the format lays it out. */
  lemma HeaderOctets(p: Parameters)
    requires Writable(p)
    ensures StartsLike(Header(p), p) && EndsLike(Header(p), p)
  {
    if p.format.Pcm? { PcmOctets(p); } else { FloatOctets(p); }
  }

  /** What the check lets pass: whole frames of samples whose size the format decides, except that PCM may
      also have one octet, and no more than the size fields can hold. */
  lemma CheckMeans(p: Parameters, bytesPerSample: nat)
    requires CheckParameters(p, bytesPerSample)
    ensures bytesPerSample == BytesPerSample(p.format) || (p.format.Pcm? && bytesPerSample == 1)
    ensures p.numChannels > 0 && p.sampleRate > 0 && p.numSamples % p.numChannels == 0
    ensures p.numSamples * bytesPerSample + 36 < 0x1_0000_0000
  {
    var most := (0xFFFF_FFFF - 36) / bytesPerSample;
    assert p.numSamples * bytesPerSample <= most * bytesPerSample;
  }

  /** Whatever is accepted passes the check and has its samples inside the file. */
  lemma AcceptedIsSound(s: seq<byte>)
    requires Read(s).Accepted?
    ensures var r := Read(s); CheckParameters(r.parameters, r.bytesPerSample) && 12 + 8 + 16 + 8 <= r.dataStart <= |s|
    ensures var r := Read(s); s[r.dataStart - 8..][..4] == DATA
  {
    var (fmtSize, atFmt) := Find(s[12..], FMT).value;
    var (fmt, behind) := ReadFmt(fmtSize, atFmt).value;
    FindSuffix(s[12..], FMT);
    FindSuffix(behind, DATA);
    var atData := Find(behind, DATA).value.1;
    assert behind == s[|s| - |behind|..];
    assert atData == s[|s| - |atData|..];
    assert s[|s| - |atData| - 8..] == behind[|behind| - |atData| - 8..];
  }

  lemma {:induction false} FindSuffix(s: seq<byte>, id: FourCC)
    requires Find(s, id).Some?
    ensures var rest := Find(s, id).value.1; rest == s[|s| - |rest|..] && s[|s| - |rest| - 8..][..4] == id
    decreases |s|
  {
    if s[..4] != id {
      var size := FromLe(s[4..8]);
      FindSuffix(s[8 + size..], id);
    }
  }

  // ---------------------------------------------------------------------------------------------
  // The code that moves along a stream
  // ---------------------------------------------------------------------------------------------

  /** A stream, of which it is not fixed whether seeking beyond the end fails. */
  class WavHeaderReader {
    const data: seq<byte>
    var pos: nat

    constructor (data: seq<byte>)
      ensures this.data == data && pos == 0
    {
      this.data := data;
      pos := 0;
    }

    function Rest(): seq<byte>
      reads this
    {
      if pos <= |data| then data[pos..] else []
    }

    method Read(n: nat) returns (b: seq<byte>)
      modifies this
      ensures b == old(Rest())[..Min(n, |old(Rest())|)]
      ensures pos == old(pos) + |b| && Rest() == old(Rest())[|b|..]
    {
      var rest := Rest();
      b := rest[..Min(n, |rest|)];
      pos := pos + |b|;
    }

    method SeekForward(n: nat) returns (ok: bool)
      modifies this
      ensures n <= |old(Rest())| ==> ok
      ensures ok ==> pos == old(pos) + n
      ensures ok ==> Rest() == if n <= |old(Rest())| then old(Rest())[n..] else []
    {
      if n <= |Rest()| {
        ok := true;
      } else {
        ok := *;
      }
      if ok {
        pos := pos + n;
      }
    }
  }

  /** Ends on every stream. */
  method FindWaveChunk(readable: WavHeaderReader, id: FourCC) returns (size: Option<nat>)
    modifies readable
    ensures var found := Find(old(readable.Rest()), id);
      && (size.Some? <==> found.Some?)
      && (size.Some? ==> found.value == (size.value, readable.Rest()) && readable.pos <= |readable.data|)
  {
    ghost var found := Find(readable.Rest(), id);
    while true
      invariant Find(readable.Rest(), id) == found
      decreases |readable.Rest()|
    {
      ghost var s := readable.Rest();
      var header := readable.Read(8);
      if |header| != 8 {
        return None;
      }
      assert header[..4] == s[..4] && header[4..] == s[4..8];
      if header[..4] == id {
        return Some(FromLe(header[4..]));
      }
      var n := FromLe(header[4..]);
      assert n <= |s| - 8 ==> s[8..][n..] == s[8 + n..];
      var ok := readable.SeekForward(n);
      if !ok {
        return None;
      }
    }
  }

  method ReadFmtChunkData(size: nat, readable: WavHeaderReader) returns (fmt: Option<Fmt>)
    modifies readable
    ensures var r := ReadFmt(size, old(readable.Rest()));
      && (fmt.Some? <==> r.Some?)
      && (fmt.Some? ==> r.value == (fmt.value, readable.Rest()))
  {
    ghost var s := readable.Rest();
    var b := readable.Read(16);
    if |b| != 16 {
      return None;
    }
    if size != 16 {
      if 16 + 2 != size {
        return None;
      }
      var extension := readable.Read(2);
      if |extension| != 2 {
        return None;
      }
      assert extension == s[16..18] && readable.Rest() == s[18..];
      if FromLe(extension) != 0 {
        return None;
      }
    }
    fmt := Some(ParseFmt(b));
  }

  method ReadWavHeader(readable: WavHeaderReader) returns (r: Outcome)
    requires readable.pos == 0
    modifies readable
    ensures r == Read(readable.data)
    ensures r.Accepted? ==> readable.pos == r.dataStart
  {
    ghost var s := readable.data;
    assert s[0..] == s;
    var riff := readable.Read(12);
    if |riff| != 12 {
      return Rejected;
    }
    assert riff[..4] == s[..4] && riff[4..8] == s[4..8] && riff[8..] == s[8..12];
    if riff[..4] != RIFF {
      return Rejected;
    }
    if riff[8..] != WAVE {
      return Rejected;
    }
    r := ReadChunksOf(readable, FromLe(riff[4..8]));
  }

  method ReadChunksOf(readable: WavHeaderReader, riffSize: nat) returns (r: Outcome)
    requires readable.pos == 12 <= |readable.data|
    modifies readable
    ensures r == ReadChunks(riffSize, old(readable.Rest()))
    ensures r.Accepted? ==> readable.pos == r.dataStart
  {
    var located := LocateChunks(readable);
    if located.None? {
      return Rejected;
    }
    r := Judge(riffSize, located.value.0, located.value.1, readable.pos);
  }

  method LocateChunks(readable: WavHeaderReader) returns (r: Option<(Fmt, nat)>)
    requires readable.pos <= |readable.data|
    modifies readable
    ensures var located := Locate(old(readable.Rest()));
      && (r.Some? <==> located.Some?)
      && (r.Some? ==> located.value == (r.value.0, r.value.1, readable.Rest()) && readable.pos <= |readable.data|)
  {
    var fmtSize := FindWaveChunk(readable, FMT);
    if fmtSize.None? {
      return None;
    }
    var fmt := ReadFmtChunkData(fmtSize.value, readable);
    if fmt.None? {
      return None;
    }
    var payload := FindWaveChunk(readable, DATA);
    if payload.None? {
      return None;
    }
    r := Some((fmt.value, payload.value));
  }
}
