/** IPC frame headers, the length guards around compressed bodies, and whole-frame preparation. */
module IpcFrame {
  import opened Bytes
  import opened LzTokens
  import LzDecoder
  import LzEncoder

  const U64_MAX := 0xFFFF_FFFF_FFFF_FFFF
  const HEADER_LENGTH := 8
  const MIN_SERIALIZED_VALUE_LENGTH := 2
  const MAX_LENGTH_FIELD := 0xFF_FFFF_FFFF
  const MAX_DECOMPRESSION_RATIO := 121

  datatype FrameError =
    | BigEndian | BadByteOrder | BadMessageType | BadCompressionMode | TooShort | TooLong
    | HeaderLength | LengthMismatch | MissingPrefix | StructuralBound | UnreachableLength
    | Decode(error: LzDecoder.DecodeError)

  datatype Header = Header(kind: Byte, mode: Byte, total: nat)

  /** The body length a declared frame length leaves, which must hold at least a q value. */
  function CheckedBodyLength(total: nat): (r: Result<nat, FrameError>)
    ensures r.Ok? <==> total >= HEADER_LENGTH + MIN_SERIALIZED_VALUE_LENGTH
    ensures r.Ok? ==> r.value == total - HEADER_LENGTH
  {
    if total < HEADER_LENGTH then Err(TooShort)
    else if total - HEADER_LENGTH < MIN_SERIALIZED_VALUE_LENGTH then Err(TooShort)
    else Ok(total - HEADER_LENGTH)
  }

  function ParseHeader(header: seq<Byte>): (r: Result<Header, FrameError>)
    ensures r.Ok? ==> |header| == 8 && r.value.mode <= 2 && r.value.total >= 10
  {
    if |header| != HEADER_LENGTH then Err(HeaderLength)
    else if header[0] == 0 then Err(BigEndian)
    else if header[0] != 1 then Err(BadByteOrder)
    else if header[1] > 2 then Err(BadMessageType)
    else if header[2] > 2 then Err(BadCompressionMode)
    else
      var total := header[3] * 0x1_0000_0000 + FromLittleEndian(header[4..8]);
      var length := CheckedBodyLength(total);
      if length.Err? then Err(length.error) else Ok(Header(header[1], header[2], total))
  }

  /** Splits a length into the high byte and low word of the header, refusing what 40 bits cannot hold. */
  function LengthHeader(total: nat): (r: Result<seq<Byte>, FrameError>)
    ensures r.Ok? ==> |r.value| == 5
  {
    if total > MAX_LENGTH_FIELD then Err(TooLong)
    else Ok([total / 0x1_0000_0000] + LittleEndian(total, 4))
  }

  function EnforceMessageBound(total: nat, maximum: Option<nat>): Option<FrameError> {
    if maximum.Some? && total > maximum.value then Some(TooLong) else None
  }

  function CompressedMessageLength(body: seq<Byte>, mode: Byte): (r: Result<(nat, nat), FrameError>)
    ensures r.Ok? ==> (r.value.1 == 4 || r.value.1 == 8) && r.value.1 <= |body| && mode > 0
    ensures r.Ok? ==> r.value.0 == FromLittleEndian(body[..r.value.1])
  {
    if mode == 1 then (if |body| < 4 then Err(MissingPrefix) else Ok((FromLittleEndian(body[..4]), 4)))
    else if mode == 2 then (if |body| < 8 then Err(MissingPrefix) else Ok((FromLittleEndian(body[..8]), 8)))
    else Err(BadCompressionMode)
  }

  /** A compressed frame is at most its header, prefix, body, and one flag byte per eight body bytes. */
  function EnforcePhysicalBound(physicalTotal: nat, logicalTotal: nat, prefix: nat): Option<FrameError> {
    var decoded := CheckedBodyLength(logicalTotal);
    if decoded.Err? then Some(decoded.error)
    else
      var maximum := HEADER_LENGTH + prefix + decoded.value + (decoded.value + 7) / 8;
      if maximum > U64_MAX then Some(StructuralBound)
      else if physicalTotal > maximum then Some(StructuralBound)
      else None
  }

  /** A body is at most 121 times the compressed bytes it comes from. */
  function CheckedDecompressedLength(declaredTotal: nat, payload: nat): Result<nat, FrameError> {
    var length := CheckedBodyLength(declaredTotal);
    if length.Err? then length
    else
      var product := payload * MAX_DECOMPRESSION_RATIO;
      var maximum := if product > U64_MAX then U64_MAX else product;
      if length.value > maximum then Err(UnreachableLength) else length
  }

  /** The value body inside a received frame body, decompressed when the header says so. */
  function PrepareBody(header: Header, body: seq<Byte>, maximum: Option<nat>): (r: Result<seq<Byte>, FrameError>)
    requires header.total >= 10
  {
    if |body| != header.total - HEADER_LENGTH then Err(LengthMismatch)
    else if header.mode == 0 then
      var bound := EnforceMessageBound(header.total, maximum);
      if bound.Some? then Err(bound.value) else Ok(body)
    else
      var declared := CompressedMessageLength(body, header.mode);
      if declared.Err? then Err(declared.error)
      else
        var (logical, prefix) := declared.value;
        var bound := EnforceMessageBound(logical, maximum);
        var physical := EnforcePhysicalBound(header.total, logical, prefix);
        var length := CheckedDecompressedLength(logical, |body| - prefix);
        if bound.Some? then Err(bound.value)
        else if physical.Some? then Err(physical.value)
        else if length.Err? then Err(length.error)
        else
          var decoded := LzDecoder.Decompressed(body, prefix, length.value);
          if decoded.Err? then Err(Decode(decoded.error)) else Ok(decoded.value)
  }

  /** What decompression alone would make of a compressed body, with neither pre-check applied. */
  function Unguarded(body: seq<Byte>, mode: Byte): (r: Result<seq<Byte>, FrameError>)
  {
    var declared := CompressedMessageLength(body, mode);
    if declared.Err? then Err(declared.error)
    else
      var (logical, prefix) := declared.value;
      if logical < 8 then Err(TooShort)
      else
        var decoded := LzDecoder.Decompressed(body, prefix, logical - 8);
        if decoded.Err? then Err(Decode(decoded.error)) else Ok(decoded.value)
  }

  /**
   The two pre-checks refuse nothing the decompressor would accept: a compressed body is prepared
   exactly when it decompresses to a value-sized body within the configured limit.
   */
  lemma GuardsRefuseNoLegalFrame(header: Header, body: seq<Byte>, maximum: Option<nat>, value: seq<Byte>)
    requires 1 <= header.mode <= 2 && header.total == HEADER_LENGTH + |body| && header.total >= 10
    requires |body| <= ISIZE_MAX && |value| <= ISIZE_MAX
    ensures PrepareBody(header, body, maximum) == Ok(value)
       <==> Unguarded(body, header.mode) == Ok(value)
            && |value| >= MIN_SERIALIZED_VALUE_LENGTH
            && (maximum.Some? ==> |value| + HEADER_LENGTH <= maximum.value)
  {
    hide LzDecoder.DecodeFrom;
    var declared := CompressedMessageLength(body, header.mode);
    if declared.Ok? {
      var (logical, prefix) := declared.value;
      if logical >= 8 && LzDecoder.Decompressed(body, prefix, logical - 8).Ok? {
        LzDecoder.AcceptedPayloadBounds(body[prefix..], logical - 8);
        LzDecoder.DecodesExactlyCompressedForms(body[prefix..], logical - 8,
          LzDecoder.DecodeFrom(body[prefix..], 0, 8, EMPTY, logical - 8).value);
      }
    }
  }

  /** A whole frame held in memory: its message kind and value body. */
  function DecodeFrame(frame: seq<Byte>, maximum: Option<nat>): (r: Result<(Byte, seq<Byte>), FrameError>)
  {
    if |frame| < HEADER_LENGTH then Err(HeaderLength)
    else
      var header := ParseHeader(frame[..8]);
      if header.Err? then Err(header.error)
      else if |frame| != header.value.total then Err(LengthMismatch)
      else
        var body := PrepareBody(header.value, frame[8..], maximum);
        if body.Err? then Err(body.error) else Ok((header.value.kind, body.value))
  }

  /** An uncompressed frame as the client assembles it before compression. */
  ghost predicate PlainFrame(frame: seq<Byte>) {
    && 10 <= |frame| <= MAX_LENGTH_FIELD
    && frame[0] == 1 && frame[1] <= 2 && frame[2] == 0
    && frame[3..8] == LengthHeader(|frame|).value
  }

  lemma LengthFieldReadsBack(header: seq<Byte>, total: nat)
    requires |header| == 8 && total <= MAX_LENGTH_FIELD
    requires header[3] == (total / 0x1_0000_0000) % 256 && header[4..8] == LittleEndian(total, 4)
    ensures header[3] * 0x1_0000_0000 + FromLittleEndian(header[4..8]) == total
  {
    Pow256Values();
    LowBytes(total, 4);
    LittleEndianRoundTrip(total % 0x1_0000_0000, 4);
  }

  /** Only the low bytes of a number enter its truncated little-endian form. */
  lemma {:induction false} LowBytes(n: nat, width: nat)
    ensures LittleEndian(n, width) == LittleEndian(n % Pow256(width), width)
    decreases width
  {
    if width > 0 {
      var p := Pow256(width - 1);
      LowBytes(n / 256, width - 1);
      LowBytes((n % (256 * p)) / 256, width - 1);
      DivideRemainder(n, p);
    }
  }

  lemma DivideRemainder(n: nat, p: nat)
    requires p > 0
    ensures (n % (256 * p)) % 256 == n % 256
    ensures ((n % (256 * p)) / 256) % p == (n / 256) % p
  {
    var q, r := n / (256 * p), n % (256 * p);
    assert n == 256 * (p * q) + r;
    assert n % 256 == r % 256;
    assert n / 256 == p * q + r / 256;
    assert r / 256 < p;
    assert (p * q + r / 256) % p == r / 256 by { RemainderUnique(p * q + r / 256, p, q, r / 256); }
    assert (r / 256) % p == r / 256 by { RemainderUnique(r / 256, p, 0, r / 256); }
  }

  lemma RemainderUnique(x: nat, p: nat, q: nat, r: nat)
    requires p > 0 && r < p && x == p * q + r
    ensures x % p == r
  {
    var d := x / p - q;
    assert x == p * (x / p) + x % p;
    assert p * d == r - x % p;
  }

  lemma PlainFrameDecodes(frame: seq<Byte>)
    requires PlainFrame(frame)
    ensures DecodeFrame(frame, None) == Ok((frame[1], frame[8..]))
  {
    var header := frame[..8];
    assert header[3] == frame[3..8][0] && header[4..8] == frame[3..8][1..];
    LengthFieldReadsBack(header, |frame|);
  }

  lemma CompressedHeaderParses(frame: seq<Byte>, payload: seq<Byte>)
    requires PlainFrame(frame)
    requires 8 + LzEncoder.PrefixLength(|frame|) + |payload| <= MAX_LENGTH_FIELD
    ensures var c := LzEncoder.Framed(frame[0], frame[1], |frame|, payload);
      ParseHeader(c[..8]) == Ok(Header(frame[1], c[2], |c|))
  {
    var c := LzEncoder.Framed(frame[0], frame[1], |frame|, payload);
    assert c[..8] == [frame[0], frame[1], c[2], (|c| / 0x1_0000_0000) % 256] + LittleEndian(|c|, 4);
    assert c[..8][4..8] == LittleEndian(|c|, 4);
    LengthFieldReadsBack(c[..8], |c|);
  }

  lemma CompressedFrameShrinks(frame: seq<Byte>)
    requires |frame| >= 2000 && LzEncoder.Fits(LzEncoder.Greedy(frame[8..], EMPTY), |frame|)
    ensures 8 + LzEncoder.PrefixLength(|frame|) + |LzEncoder.Layout(LzEncoder.Greedy(frame[8..], EMPTY))| <= |frame| / 2
  {
    var ts := LzEncoder.Greedy(frame[8..], EMPTY);
    var m := (|ts| - 1) / 8 * 8;
    assert |ts| > 0;
    assert ts == ts[..m] + ts[m..];
    LzEncoder.LayoutLength(ts);
    LzEncoder.LayoutLength(ts[..m]);
    LzEncoder.BackrefsConcat(ts[..m], ts[m..]);
  }

  /**
   End to end: whatever the compressor makes of a plain frame, the receiving side reads back the
   same message kind and the same value body.
   */
  lemma CompressedFrameReadsBack(frame: seq<Byte>)
    requires PlainFrame(frame)
    ensures DecodeFrame(LzEncoder.Compressed(frame), None) == Ok((frame[1], frame[8..]))
    ensures |LzEncoder.Compressed(frame)| <= |frame|
  {
    hide LzDecoder.Decompressed, LzEncoder.Greedy, LzEncoder.Layout, LzEncoder.Fits;
    var c := LzEncoder.Compressed(frame);
    if c == frame {
      PlainFrameDecodes(frame);
    } else {
      LzEncoder.CompressThenDecompress(frame);
      CompressedFrameShrinks(frame);
      var payload := LzEncoder.Layout(LzEncoder.Greedy(frame[8..], EMPTY));
      CompressedHeaderParses(frame, payload);
      PreparedIsOriginal(frame, payload);
    }
  }

  lemma PreparedIsOriginal(frame: seq<Byte>, payload: seq<Byte>)
    requires PlainFrame(frame)
    requires |LzEncoder.Framed(frame[0], frame[1], |frame|, payload)| <= |frame|
    requires var c := LzEncoder.Framed(frame[0], frame[1], |frame|, payload);
      LzDecoder.Decompressed(c[8..], LzEncoder.PrefixLength(|frame|), |frame| - 8) == Ok(frame[8..])
    ensures var c := LzEncoder.Framed(frame[0], frame[1], |frame|, payload);
      PrepareBody(Header(frame[1], c[2], |c|), c[8..], None) == Ok(frame[8..])
  {
    hide LzDecoder.Decompressed, LzEncoder.Framed;
    var c := LzEncoder.Framed(frame[0], frame[1], |frame|, payload);
    var prefix := LzEncoder.PrefixLength(|frame|);
    assert c[8..][..prefix] == LittleEndian(|frame|, prefix);
    Pow256Values();
    LittleEndianRoundTrip(|frame|, prefix);
    GuardsRefuseNoLegalFrame(Header(frame[1], c[2], |c|), c[8..], None, frame[8..]);
  }
}
