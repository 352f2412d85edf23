/** The `.debug_frame` record parser: a state machine over a byte cursor that
    turns a section into Frame Description Entries, each carrying the Common
    Information Entry decoded most recently before it. */
module Frame {
  import opened Options
  import opened Endian
  import opened DwarfUtil

  type uint32 = x: int | 0 <= x < 0x1_0000_0000

  /** The id field of a CIE in a 32-bit `.debug_frame` section (DWARF 4,
      section 7.23): all ones. Any other id marks an FDE. */
  const CieId: seq<byte> := [0xff, 0xff, 0xff, 0xff]

  datatype CommonInformationEntry = CommonInformationEntry(
    length: uint32,
    version: byte,
    augmentation: seq<byte>,
    codeAlignmentFactor: nat,
    dataAlignmentFactor: int,
    returnAddressRegister: nat,
    initialInstructions: seq<byte>)

  /** `cie` is `None` when no CIE preceded the FDE in the section. */
  datatype FrameDescriptionEntry = FrameDescriptionEntry(
    length: uint32,
    cie: Option<CommonInformationEntry>,
    begin: nat,
    end: nat,
    instructions: seq<byte>)

  /** Which step function runs next. */
  datatype Phase = LengthPhase | CiePhase | FdePhase

  /** The parse context threaded through the steps. `frame` is the FDE being
      filled in and `length` the body length announced by the last header. */
  datatype ParseContext = ParseContext(
    buf: seq<byte>,
    entries: seq<FrameDescriptionEntry>,
    common: Option<CommonInformationEntry>,
    frame: FrameDescriptionEntry,
    length: uint32,
    order: ByteOrder,
    ptrSize: nat)

  /** A CIE whose header has been read but whose body has not. */
  function EmptyCie(length: uint32): CommonInformationEntry
  {
    CommonInformationEntry(length, 0, [], 0, 0, 0, [])
  }

  /** An FDE whose header has been read but whose body has not. */
  function EmptyFde(length: uint32, cie: Option<CommonInformationEntry>): FrameDescriptionEntry
  {
    FrameDescriptionEntry(length, cie, 0, 0, [])
  }

  function Min(a: nat, b: nat): nat
  {
    if a <= b then a else b
  }

  /** `bytes.Buffer.Next`: up to `n` bytes off the front, fewer when fewer remain. */
  function Next(buf: seq<byte>, n: nat): (r: (seq<byte>, seq<byte>))
    ensures r.0 + r.1 == buf
    ensures |r.0| == Min(n, |buf|)
  {
    if n <= |buf| then (buf[..n], buf[n..]) else (buf, [])
  }

  /** Whether a header's id field is the CIE sentinel: exactly four bytes, all
      ones, as `bytes.Equal` compares lengths as well as contents. */
  function CieEntry(data: seq<byte>): (b: bool)
    ensures b <==> |data| == 4 && forall k :: 0 <= k < |data| ==> data[k] == 0xff
  {
    data == CieId
  }

  /** Reads the 8-byte header: a length, always little-endian whatever the
      section's byte order, and the id that tells a CIE from an FDE. Fails when
      fewer than 4 bytes remain, where Go's `data[4:]` is out of range. */
  function ParseLength(ctx: ParseContext): (r: Option<(Phase, ParseContext)>)
    ensures r.None? <==> |ctx.buf| < 4
    ensures r.Some? ==>
              var (next, c) := r.value;
              && c.buf == ctx.buf[Min(8, |ctx.buf|)..]
              && (c.length + 4 == LeUint(ctx.buf[..4]) || c.length + 4 == LeUint(ctx.buf[..4]) + Two32)
              && next == (if |ctx.buf| >= 8 && ctx.buf[4..8] == CieId then CiePhase else FdePhase)
              && (next == CiePhase ==> c == ctx.(buf := c.buf, common := Some(EmptyCie(c.length)), length := c.length))
              && (next == FdePhase ==> c == ctx.(buf := c.buf, frame := EmptyFde(c.length, ctx.common), length := c.length))
  {
    var (data, rest) := Next(ctx.buf, 8);
    if |data| < 4 then None
    else
      assert data[..4] == ctx.buf[..4] && Pow256(4) == Two32;
      var declared := LeUint(data[..4]);
      // Go's uint32 subtraction wraps when the declared length is below 4.
      var length := if declared >= 4 then declared - 4 else declared + Two32 - 4;
      if CieEntry(data[4..]) then
        Some((CiePhase, ctx.(buf := rest, common := Some(EmptyCie(length)), length := length)))
      else
        Some((FdePhase, ctx.(buf := rest, frame := EmptyFde(length, ctx.common), length := length)))
  }

  /** Fills in an FDE's address range and instructions from its body `r`: two
      words of `ptrSize` bytes in the section's byte order, then everything
      else. Fails for a body too short to hold both words; leaves the FDE as it
      is for a pointer size other than 4 or 8. */
  function DecodeFdeBody(frame: FrameDescriptionEntry, order: ByteOrder, ptrSize: nat, r: seq<byte>)
    : (res: Option<FrameDescriptionEntry>)
    ensures ptrSize != 4 && ptrSize != 8 ==> res == Some(frame)
    ensures ptrSize == 4 || ptrSize == 8 ==>
              && (res.Some? <==> |r| >= 2 * ptrSize)
              && (res.Some? ==>
                    && res.value.length == frame.length && res.value.cie == frame.cie
                    && res.value.begin == Uint(order, r[..ptrSize])
                    && res.value.end == Uint(order, r[ptrSize..2 * ptrSize])
                    && res.value.begin < Pow256(ptrSize) && res.value.end < Pow256(ptrSize)
                    && r == r[..2 * ptrSize] + res.value.instructions)
  {
    if ptrSize == 4 then
      if |r| < 8 then None
      else Some(frame.(begin := Uint(order, r[..4]), end := Uint(order, r[4..8]), instructions := r[8..]))
    else if ptrSize == 8 then
      if |r| < 16 then None
      else Some(frame.(begin := Uint(order, r[..8]), end := Uint(order, r[8..16]), instructions := r[16..]))
    else
      Some(frame)
  }

  /** Consumes the FDE body announced by the header and appends the FDE. */
  function ParseFDE(ctx: ParseContext): (r: Option<(Phase, ParseContext)>)
    ensures var body := ctx.buf[..Min(ctx.length, |ctx.buf|)];
            && (r.None? <==> DecodeFdeBody(ctx.frame, ctx.order, ctx.ptrSize, body).None?)
            && (r.Some? ==>
                  var (next, c) := r.value;
                  && next == LengthPhase
                  && c.buf == ctx.buf[|body|..]
                  && c.entries == ctx.entries + [c.frame]
                  && c.frame == DecodeFdeBody(ctx.frame, ctx.order, ctx.ptrSize, body).value
                  && c.common == ctx.common && c.length == 0
                  && c.order == ctx.order && c.ptrSize == ctx.ptrSize)
  {
    var (r, rest) := Next(ctx.buf, ctx.length);
    match DecodeFdeBody(ctx.frame, ctx.order, ctx.ptrSize, r)
    case None => None
    case Some(f) => Some((LengthPhase, ctx.(buf := rest, entries := ctx.entries + [f], frame := f, length := 0)))
  }

  /** The last two numeric fields of a CIE, read from position `i`: the SLEB128
      data alignment factor and the ULEB128 return address register, with the
      position after them. */
  function DecodeCieTail(s: seq<byte>, i: nat): (r: Option<(int, nat, nat)>)
    requires i <= |s|
    ensures r.Some? ==> i + 2 <= r.value.2 <= |s|
  {
    match DecodeSLEB128(s, i)
    case None => None
    case Some((dataAlign, j)) =>
      match DecodeULEB128(s, j)
      case None => None
      case Some((returnReg, k)) => Some((dataAlign, returnReg, k))
  }

  /** The three LEB128 fields of a CIE, in DWARF order, read from position `i`:
      unsigned code alignment factor, signed data alignment factor, unsigned
      return address register, with the position after them. Fails when one is
      cut short. */
  function DecodeCieNumbers(s: seq<byte>, i: nat): (r: Option<(nat, int, nat, nat)>)
    requires i <= |s|
    ensures r.Some? ==> i + 3 <= r.value.3 <= |s|
  {
    match DecodeULEB128(s, i)
    case None => None
    case Some((codeAlign, j)) =>
      match DecodeCieTail(s, j)
      case None => None
      case Some((dataAlign, returnReg, k)) => Some((codeAlign, dataAlign, returnReg, k))
  }

  /** Decodes the CIE fields that follow the version byte, from position `i`:
      the NUL-terminated augmentation, the three numeric fields, and everything
      after them as initial instructions. Fails when a field is cut short. */
  function DecodeCieFields(cie: CommonInformationEntry, s: seq<byte>, i: nat): (r: Option<CommonInformationEntry>)
    requires i <= |s|
    ensures r.Some? ==>
              && r.value.length == cie.length && r.value.version == cie.version
              && i + |r.value.augmentation| + 4 + |r.value.initialInstructions| <= |s|
              && r.value.initialInstructions == s[|s| - |r.value.initialInstructions|..]
  {
    match ParseString(s, i)
    case None => None
    case Some((augmentation, j)) =>
      match DecodeCieNumbers(s, j)
      case None => None
      case Some((codeAlign, dataAlign, returnReg, k)) =>
        Some(cie.(augmentation := augmentation, codeAlignmentFactor := codeAlign,
                  dataAlignmentFactor := dataAlign, returnAddressRegister := returnReg,
                  initialInstructions := s[k..]))
  }

  /** Where the decoded CIE fields come from: the augmentation is the NUL-free
      run of bytes at `i`, ended by a NUL; without a NUL after `i` decoding
      fails. */
  lemma CieFieldsShape(cie: CommonInformationEntry, s: seq<byte>, i: nat)
    requires i <= |s|
    ensures 0 !in s[i..] ==> DecodeCieFields(cie, s, i).None?
    ensures DecodeCieFields(cie, s, i).Some? ==>
              var aug := DecodeCieFields(cie, s, i).value.augmentation;
              && 0 !in aug
              && s[i..i + |aug|] == aug
              && s[i + |aug|] == 0
  {
    ParseStringExtent(s, i);
  }

  /** Decodes a CIE body as DWARF lays it out: the version byte, then the
      remaining fields from the position after it. This is the intended reading;
      `ParseCIE` runs `DecodeCieBodyAsWritten` instead. Fails on an empty body. */
  function DecodeCieBody(cie: CommonInformationEntry, data: seq<byte>): (r: Option<CommonInformationEntry>)
    ensures r.Some? ==> |data| >= 5 + |r.value.augmentation| + |r.value.initialInstructions|
    ensures r.Some? ==> r.value.version == data[0] && r.value.length == cie.length
  {
    if |data| == 0 then None else DecodeCieFields(cie.(version := data[0]), data, 1)
  }

  /** Decodes a CIE body as `parseCIE` does: the version is the first byte, but
      the fields after it are read from a cursor that still stands on that byte,
      so the version byte is read a second time, as the first augmentation byte.
      Everything is read from `data` alone, so nothing beyond the record's own
      span is touched. Fails on an empty body, where `data[0]` panics. */
  function DecodeCieBodyAsWritten(cie: CommonInformationEntry, data: seq<byte>): (r: Option<CommonInformationEntry>)
    ensures r.Some? ==> |data| > 0 && r.value.version == data[0] && r.value.length == cie.length
    ensures r.Some? ==> |data| >= 4 + |r.value.augmentation| + |r.value.initialInstructions|
  {
    if |data| == 0 then None else DecodeCieFields(cie.(version := data[0]), data, 0)
  }

  /** Consumes the CIE body announced by the header and makes the decoded CIE the
      current one. */
  function ParseCIE(ctx: ParseContext): (r: Option<(Phase, ParseContext)>)
    ensures var body := ctx.buf[..Min(ctx.length, |ctx.buf|)];
            && (r.None? <==> ctx.common.None? || DecodeCieBodyAsWritten(ctx.common.value, body).None?)
            && (r.Some? ==>
                  var (next, c) := r.value;
                  && next == LengthPhase
                  && c.buf == ctx.buf[|body|..]
                  && c.common == DecodeCieBodyAsWritten(ctx.common.value, body)
                  && c == ctx.(buf := c.buf, common := c.common, length := 0))
  {
    var (data, rest) := Next(ctx.buf, ctx.length);
    match ctx.common
    case None => None
    case Some(cie) =>
      match DecodeCieBodyAsWritten(cie, data)
      case None => None
      case Some(cie') => Some((LengthPhase, ctx.(buf := rest, common := Some(cie'), length := 0)))
  }

  function Step(phase: Phase, ctx: ParseContext): Option<(Phase, ParseContext)>
  {
    match phase
    case LengthPhase => ParseLength(ctx)
    case CiePhase => ParseCIE(ctx)
    case FdePhase => ParseFDE(ctx)
  }

  /** Runs steps while bytes remain. Each header step consumes at least one byte
      and each body step is followed by a header step, so the run ends. Every
      appended FDE paid for a full 8-byte header. */
  function Run(phase: Phase, ctx: ParseContext): (r: Option<ParseContext>)
    ensures r.Some? ==> |r.value.buf| == 0
    ensures r.Some? ==> ctx.entries <= r.value.entries
    ensures r.Some? ==> 8 * |r.value.entries| <= 8 * |ctx.entries| + |ctx.buf| + (if phase == FdePhase then 8 else 0)
    decreases |ctx.buf|, if phase == LengthPhase then 0 else 1
  {
    if |ctx.buf| == 0 then Some(ctx)
    else
      match Step(phase, ctx)
      case None => None
      case Some((next, c)) => Run(next, c)
  }

  function InitialContext(data: seq<byte>, order: ByteOrder, ptrSize: nat): ParseContext
  {
    ParseContext(data, [], None, EmptyFde(0, None), 0, order, ptrSize)
  }

  /** The FDEs of a section, in stream order. `None` when the Go code panics. */
  function Parse(data: seq<byte>, order: ByteOrder, ptrSize: nat): (r: Option<seq<FrameDescriptionEntry>>)
    ensures |data| == 0 ==> r == Some([])
    ensures r.Some? ==> |r.value| <= |data| / 8
  {
    match Run(LengthPhase, InitialContext(data, order, ptrSize))
    case None => None
    case Some(c) => Some(c.entries)
  }
}
