/** A reference view of a `.debug_frame` section as a list of records, the
    encoders that lay records out in bytes, and the theorems connecting the
    byte-level parser to that view: which FDEs come out, in which order, and
    which CIE each one carries. */
module FrameEncoding {
  import opened Options
  import opened Endian
  import opened DwarfUtil
  import opened Frame

  /** An FDE body: the address range in `ptrSize`-byte words, then the
      instructions. */
  function EncodeFdeBody(order: ByteOrder, ptrSize: nat, begin: nat, end: nat, instructions: seq<byte>): seq<byte>
  {
    Bytes(order, begin, ptrSize) + Bytes(order, end, ptrSize) + instructions
  }

  /** The data alignment factor and return address register, as LEB128. */
  function EncodeCieTail(dataAlign: int, returnReg: nat): seq<byte>
  {
    EncodeSLEB128(dataAlign) + EncodeULEB128(returnReg)
  }

  /** The three numeric fields of a CIE, as LEB128, in DWARF order. */
  function EncodeCieNumbers(codeAlign: nat, dataAlign: int, returnReg: nat): seq<byte>
  {
    EncodeULEB128(codeAlign) + EncodeCieTail(dataAlign, returnReg)
  }

  /** A CIE body: version, augmentation and its NUL, the three LEB128 fields,
      then the initial instructions. */
  function EncodeCieBody(version: byte, augmentation: seq<byte>, codeAlign: nat, dataAlign: int,
                         returnReg: nat, initial: seq<byte>): seq<byte>
  {
    [version] + augmentation + [0] + EncodeCieNumbers(codeAlign, dataAlign, returnReg) + initial
  }

  /** For both supported pointer widths, an encoded FDE body decodes to the
      address range and instructions it was built from. */
  lemma FdeBodyRoundTrip(frame: FrameDescriptionEntry, order: ByteOrder, ptrSize: nat,
                         begin: nat, end: nat, instructions: seq<byte>)
    requires ptrSize == 4 || ptrSize == 8
    requires begin < Pow256(ptrSize) && end < Pow256(ptrSize)
    ensures DecodeFdeBody(frame, order, ptrSize, EncodeFdeBody(order, ptrSize, begin, end, instructions))
            == Some(frame.(begin := begin, end := end, instructions := instructions))
  {
    var r := EncodeFdeBody(order, ptrSize, begin, end, instructions);
    assert r[..ptrSize] == Bytes(order, begin, ptrSize);
    assert r[ptrSize..2 * ptrSize] == Bytes(order, end, ptrSize);
    assert r[2 * ptrSize..] == instructions;
    UintRoundTrip(order, begin, ptrSize);
    UintRoundTrip(order, end, ptrSize);
  }

  /** The encoded data alignment factor and return address register decode to
      their values and end right after their encodings, whatever follows. */
  lemma CieTailRoundTrip(dataAlign: int, returnReg: nat, s: seq<byte>, i: nat)
    requires HoldsAt(s, i, EncodeCieTail(dataAlign, returnReg))
    ensures DecodeCieTail(s, i) == Some((dataAlign, returnReg, i + |EncodeCieTail(dataAlign, returnReg)|))
  {
    HoldsAtSplit(s, i, EncodeSLEB128(dataAlign), EncodeULEB128(returnReg));
    SLEB128RoundTrip(dataAlign, s, i);
    ULEB128RoundTrip(returnReg, s, i + |EncodeSLEB128(dataAlign)|);
  }

  /** The three encoded numeric fields of a CIE decode to their values and end
      right after their encodings, whatever follows. */
  lemma CieNumbersRoundTrip(codeAlign: nat, dataAlign: int, returnReg: nat, s: seq<byte>, i: nat)
    requires HoldsAt(s, i, EncodeCieNumbers(codeAlign, dataAlign, returnReg))
    ensures DecodeCieNumbers(s, i)
            == Some((codeAlign, dataAlign, returnReg, i + |EncodeCieNumbers(codeAlign, dataAlign, returnReg)|))
  {
    HoldsAtSplit(s, i, EncodeULEB128(codeAlign), EncodeCieTail(dataAlign, returnReg));
    ULEB128RoundTrip(codeAlign, s, i);
    CieTailRoundTrip(dataAlign, returnReg, s, i + |EncodeULEB128(codeAlign)|);
  }

  /** An encoded CIE body decodes to the fields it was built from, for any values
      of its LEB128 fields written in their shortest encodings. */
  lemma CieBodyRoundTrip(cie: CommonInformationEntry, version: byte, augmentation: seq<byte>,
                         codeAlign: nat, dataAlign: int, returnReg: nat, initial: seq<byte>)
    requires 0 !in augmentation
    ensures DecodeCieBody(cie, EncodeCieBody(version, augmentation, codeAlign, dataAlign, returnReg, initial))
            == Some(cie.(version := version, augmentation := augmentation, codeAlignmentFactor := codeAlign,
                         dataAlignmentFactor := dataAlign, returnAddressRegister := returnReg,
                         initialInstructions := initial))
  {
    var numbers := EncodeCieNumbers(codeAlign, dataAlign, returnReg);
    var data := EncodeCieBody(version, augmentation, codeAlign, dataAlign, returnReg, initial);
    var k := 1 + |augmentation| + 1 + |numbers|;
    assert data[1..1 + |augmentation| + 1] == augmentation + [0];
    assert data[1 + |augmentation| + 1..k] == numbers;
    assert data[k..] == initial;
    ParseStringRoundTrip(augmentation, data, 1);
    CieNumbersRoundTrip(codeAlign, dataAlign, returnReg, data, 1 + |augmentation| + 1);
  }

  /** For any non-zero version byte, the as-written decoder succeeds exactly when
      the corrected one does, and then differs only by the version byte put in
      front of the augmentation. */
  lemma AsWrittenPrependsVersion(cie: CommonInformationEntry, data: seq<byte>)
    requires |data| > 0 && data[0] != 0
    ensures DecodeCieBodyAsWritten(cie, data).Some? <==> DecodeCieBody(cie, data).Some?
    ensures DecodeCieBody(cie, data).Some? ==>
              var fixed := DecodeCieBody(cie, data).value;
              DecodeCieBodyAsWritten(cie, data) == Some(fixed.(augmentation := [data[0]] + fixed.augmentation))
  {
    match ParseString(data, 1)
    case None =>
      assert ParseString(data, 0).None?;
    case Some((str, j)) =>
      assert ParseString(data, 0) == Some(([data[0]] + str, j));
  }

  /** The round trip the corrected decoder completes fails as written: an
      encoded CIE with a non-zero version comes back with that version byte at
      the head of its augmentation. */
  lemma AsWrittenRoundTrip(cie: CommonInformationEntry, version: byte, augmentation: seq<byte>,
                           codeAlign: nat, dataAlign: int, returnReg: nat, initial: seq<byte>)
    requires 0 !in augmentation && version != 0
    ensures DecodeCieBodyAsWritten(cie, EncodeCieBody(version, augmentation, codeAlign, dataAlign, returnReg, initial))
            == Some(cie.(version := version, augmentation := [version] + augmentation,
                         codeAlignmentFactor := codeAlign, dataAlignmentFactor := dataAlign,
                         returnAddressRegister := returnReg, initialInstructions := initial))
  {
    var data := EncodeCieBody(version, augmentation, codeAlign, dataAlign, returnReg, initial);
    CieBodyRoundTrip(cie, version, augmentation, codeAlign, dataAlign, returnReg, initial);
    AsWrittenPrependsVersion(cie, data);
  }

  /** A version-1 CIE body with an empty augmentation, code alignment 1, data
      alignment -4 and return address register 16: the corrected decoder reads
      augmentation "", the as-written one reads the one-byte augmentation [1]. */
  lemma AugmentationCounterexample()
    ensures DecodeCieBody(EmptyCie(5), [1, 0, 1, 0x7c, 16]) == Some(CommonInformationEntry(5, 1, [], 1, -4, 16, []))
    ensures DecodeCieBodyAsWritten(EmptyCie(5), [1, 0, 1, 0x7c, 16])
            == Some(CommonInformationEntry(5, 1, [1], 1, -4, 16, []))
  {
    assert EncodeSLEB128(-4) == [0x7c];
    assert EncodeCieBody(1, [], 1, -4, 16, []) == [1, 0, 1, 0x7c, 16];
    CieBodyRoundTrip(EmptyCie(5), 1, [], 1, -4, 16, []);
    AsWrittenRoundTrip(EmptyCie(5), 1, [], 1, -4, 16, []);
    assert [1] + [] == [1];
  }

  /** With version byte 0 the as-written decoder takes that byte for the
      augmentation's terminator: the augmentation is empty and the numeric fields
      are read from byte 1 on, where the true augmentation stands. */
  lemma AsWrittenVersionZero(cie: CommonInformationEntry, data: seq<byte>)
    requires |data| > 0 && data[0] == 0
    ensures DecodeCieBodyAsWritten(cie, data).Some? <==> DecodeCieNumbers(data, 1).Some?
    ensures DecodeCieBodyAsWritten(cie, data).Some? ==>
              var c := DecodeCieBodyAsWritten(cie, data).value;
              var (codeAlign, dataAlign, returnReg, k) := DecodeCieNumbers(data, 1).value;
              c == cie.(version := 0, augmentation := [], codeAlignmentFactor := codeAlign,
                        dataAlignmentFactor := dataAlign, returnAddressRegister := returnReg,
                        initialInstructions := data[k..])
  {
    assert ParseString(data, 0) == Some(([], 1));
  }

  /** One record of a section, by its fields. A CIE record carries what its body
      encodes; an FDE record carries its 4-byte CIE pointer, its address range
      and its instructions. */
  datatype Record =
    | CieRecord(version: byte, augmentation: seq<byte>, codeAlign: nat, dataAlign: int,
                returnReg: nat, initial: seq<byte>)
    | FdeRecord(pointer: seq<byte>, begin: nat, end: nat, instructions: seq<byte>)

  /** The record's body bytes, with FDE words `ptrSize` bytes wide in `order`. */
  function Body(r: Record, order: ByteOrder, ptrSize: nat): seq<byte>
  {
    match r
    case CieRecord(version, augmentation, codeAlign, dataAlign, returnReg, initial) =>
      EncodeCieBody(version, augmentation, codeAlign, dataAlign, returnReg, initial)
    case FdeRecord(_, begin, end, instructions) =>
      EncodeFdeBody(order, ptrSize, begin, end, instructions)
  }

  /** The 4-byte id field: the CIE sentinel, or the FDE's CIE pointer. */
  function Id(r: Record): seq<byte>
  {
    if r.CieRecord? then CieId else r.pointer
  }

  /** A record the parser reads back in full: its length fits the 32-bit field,
      its body is not empty, a CIE's version is not 0 and its augmentation has
      no NUL, an FDE's pointer is 4 bytes other than the sentinel and its range
      fits the pointer width. */
  predicate WellFormedRecord(r: Record, order: ByteOrder, ptrSize: nat)
  {
    && 0 < |Body(r, order, ptrSize)|
    && |Body(r, order, ptrSize)| + 4 < Two32
    && match r
       case CieRecord(version, augmentation, _, _, _, _) => version != 0 && 0 !in augmentation
       case FdeRecord(pointer, begin, end, _) =>
         && |pointer| == 4 && pointer != CieId
         && (ptrSize == 4 || ptrSize == 8 ==> begin < Pow256(ptrSize) && end < Pow256(ptrSize))
  }

  predicate WellFormed(rs: seq<Record>, order: ByteOrder, ptrSize: nat)
  {
    |rs| == 0 || (WellFormedRecord(rs[0], order, ptrSize) && WellFormed(rs[1..], order, ptrSize))
  }

  /** The record in bytes: its length field (little-endian, counting the id),
      its id, its body. */
  function EncodeRecord(r: Record, order: ByteOrder, ptrSize: nat): seq<byte>
  {
    LeBytes(|Body(r, order, ptrSize)| + 4, 4) + Id(r) + Body(r, order, ptrSize)
  }

  function EncodeSection(rs: seq<Record>, order: ByteOrder, ptrSize: nat): seq<byte>
  {
    if |rs| == 0 then [] else EncodeRecord(rs[0], order, ptrSize) + EncodeSection(rs[1..], order, ptrSize)
  }

  /** The length the header of a record declares for its body. A body too long
      for the 32-bit field makes the record ill-formed; 0 stands in for it. */
  function RecordLength(r: Record, order: ByteOrder, ptrSize: nat): uint32
  {
    var n := |Body(r, order, ptrSize)|;
    if n < Two32 then n else 0
  }

  /** The CIE the parser installs for a CIE record: its fields, with the
      version byte in front of the augmentation, as `parseCIE` reads it. */
  function CieValue(r: Record, order: ByteOrder, ptrSize: nat): CommonInformationEntry
    requires r.CieRecord?
  {
    CommonInformationEntry(RecordLength(r, order, ptrSize), r.version, [r.version] + r.augmentation, r.codeAlign,
                           r.dataAlign, r.returnReg, r.initial)
  }

  /** The FDE an FDE record stands for under CIE `cie`. For a pointer size the
      parser does not decode, the range is zero and there are no instructions. */
  function FdeValue(r: Record, cie: Option<CommonInformationEntry>, order: ByteOrder, ptrSize: nat)
    : FrameDescriptionEntry
    requires r.FdeRecord?
  {
    var length := RecordLength(r, order, ptrSize);
    if ptrSize == 4 || ptrSize == 8 then FrameDescriptionEntry(length, cie, r.begin, r.end, r.instructions)
    else FrameDescriptionEntry(length, cie, 0, 0, [])
  }

  /** The CIE of the last CIE record of `rs`, or `common` when `rs` holds none. */
  function LatestCie(rs: seq<Record>, common: Option<CommonInformationEntry>, order: ByteOrder, ptrSize: nat)
    : Option<CommonInformationEntry>
  {
    if |rs| == 0 then common
    else if rs[|rs| - 1].CieRecord? then Some(CieValue(rs[|rs| - 1], order, ptrSize))
    else LatestCie(rs[..|rs| - 1], common, order, ptrSize)
  }

  /** What a section means: one FDE per FDE record, in order, each carrying the
      CIE current at that point; CIE records only change the current CIE. */
  function Expected(rs: seq<Record>, common: Option<CommonInformationEntry>, order: ByteOrder, ptrSize: nat)
    : seq<FrameDescriptionEntry>
  {
    if |rs| == 0 then []
    else if rs[0].CieRecord? then Expected(rs[1..], Some(CieValue(rs[0], order, ptrSize)), order, ptrSize)
    else [FdeValue(rs[0], common, order, ptrSize)] + Expected(rs[1..], common, order, ptrSize)
  }

  /** The CIE current after a section that starts with record `r`. */
  lemma {:induction false} LatestCiePrepend(r: Record, rs: seq<Record>, common: Option<CommonInformationEntry>,
                                           order: ByteOrder, ptrSize: nat)
    ensures LatestCie([r] + rs, common, order, ptrSize)
            == LatestCie(rs, if r.CieRecord? then Some(CieValue(r, order, ptrSize)) else common, order, ptrSize)
    decreases |rs|
  {
    var s := [r] + rs;
    if |rs| > 0 {
      assert s[|s| - 1] == rs[|rs| - 1];
      assert s[..|s| - 1] == [r] + rs[..|rs| - 1];
      LatestCiePrepend(r, rs[..|rs| - 1], common, order, ptrSize);
    } else {
      assert s[..|s| - 1] == [];
    }
  }

  /** The reference FDEs of a section that starts with record `x`. */
  lemma ExpectedCons(x: Record, rest: seq<Record>, common: Option<CommonInformationEntry>,
                     order: ByteOrder, ptrSize: nat)
    ensures Expected([x] + rest, common, order, ptrSize)
            == if x.CieRecord? then Expected(rest, Some(CieValue(x, order, ptrSize)), order, ptrSize)
               else [FdeValue(x, common, order, ptrSize)] + Expected(rest, common, order, ptrSize)
  {
    assert ([x] + rest)[0] == x && ([x] + rest)[1..] == rest;
  }

  /** Appending an FDE record to a section appends exactly one FDE, and it
      carries the CIE of the most recent CIE record before it. */
  lemma {:induction false} ExpectedAppendFde(rs: seq<Record>, r: Record, common: Option<CommonInformationEntry>,
                                            order: ByteOrder, ptrSize: nat)
    requires r.FdeRecord?
    ensures Expected(rs + [r], common, order, ptrSize)
            == Expected(rs, common, order, ptrSize) + [FdeValue(r, LatestCie(rs, common, order, ptrSize), order, ptrSize)]
    decreases |rs|
  {
    if |rs| > 0 {
      var x, rest := rs[0], rs[1..];
      assert rs == [x] + rest && rs + [r] == [x] + (rest + [r]);
      var next := if x.CieRecord? then Some(CieValue(x, order, ptrSize)) else common;
      ExpectedAppendFde(rest, r, next, order, ptrSize);
      LatestCiePrepend(x, rest, common, order, ptrSize);
      ExpectedCons(x, rest, common, order, ptrSize);
      ExpectedCons(x, rest + [r], common, order, ptrSize);
      var f := FdeValue(r, LatestCie(rest, next, order, ptrSize), order, ptrSize);
      if x.FdeRecord? {
        var head := [FdeValue(x, common, order, ptrSize)];
        assert head + (Expected(rest, common, order, ptrSize) + [f])
               == (head + Expected(rest, common, order, ptrSize)) + [f];
      }
    } else {
      assert [] + [r] == [r] && [r][1..] == [];
    }
  }

  /** Appending a CIE record to a section adds no FDE. */
  lemma {:induction false} ExpectedAppendCie(rs: seq<Record>, r: Record, common: Option<CommonInformationEntry>,
                                            order: ByteOrder, ptrSize: nat)
    requires r.CieRecord?
    ensures Expected(rs + [r], common, order, ptrSize) == Expected(rs, common, order, ptrSize)
    decreases |rs|
  {
    var s := rs + [r];
    if |rs| > 0 {
      var x := rs[0];
      assert s[0] == x && s[1..] == rs[1..] + [r];
      var next := if x.CieRecord? then Some(CieValue(x, order, ptrSize)) else common;
      ExpectedAppendCie(rs[1..], r, next, order, ptrSize);
    } else {
      assert s[1..] == [];
    }
  }

  /** The context after the parser has read one whole record. */
  function AfterRecord(ctx: ParseContext, r: Record, more: seq<byte>): ParseContext
    requires WellFormedRecord(r, ctx.order, ctx.ptrSize)
  {
    if r.CieRecord? then
      ctx.(buf := more, common := Some(CieValue(r, ctx.order, ctx.ptrSize)), length := 0)
    else
      var f := FdeValue(r, ctx.common, ctx.order, ctx.ptrSize);
      ctx.(buf := more, entries := ctx.entries + [f], frame := f, length := 0)
  }

  lemma RunStep(phase: Phase, ctx: ParseContext)
    requires |ctx.buf| > 0 && Step(phase, ctx).Some?
    ensures Run(phase, ctx) == Run(Step(phase, ctx).value.0, Step(phase, ctx).value.1)
  {
  }

  /** The fields of a header laid out as length, id, body: the declared length
      counts the id and the body, the id follows, then the body. */
  lemma HeaderFields(id: seq<byte>, body: seq<byte>, more: seq<byte>)
    requires |id| == 4 && |body| + 4 < Two32
    ensures var buf := LeBytes(|body| + 4, 4) + id + body + more;
            && |buf| >= 8
            && LeUint(buf[..4]) == |body| + 4
            && buf[4..8] == id
            && buf[8..] == body + more
  {
    var buf := LeBytes(|body| + 4, 4) + id + body + more;
    Pow256Values();
    LeRoundTrip(|body| + 4, 4);
    assert buf[..4] == LeBytes(|body| + 4, 4);
    assert buf[4..8] == id;
    assert buf[8..] == body + more;
  }

  /** The same for an encoded record. */
  lemma RecordFields(r: Record, more: seq<byte>, order: ByteOrder, ptrSize: nat)
    requires WellFormedRecord(r, order, ptrSize)
    ensures var buf := EncodeRecord(r, order, ptrSize) + more;
            var body := Body(r, order, ptrSize);
            && |buf| >= 8
            && LeUint(buf[..4]) == |body| + 4
            && buf[4..8] == Id(r)
            && buf[8..] == body + more
  {
    HeaderFields(Id(r), Body(r, order, ptrSize), more);
  }

  /** The header step on an encoded record: the declared length comes back and
      the id selects the record's kind. */
  lemma HeaderStep(r: Record, more: seq<byte>, ctx: ParseContext)
    requires WellFormedRecord(r, ctx.order, ctx.ptrSize)
    requires ctx.buf == EncodeRecord(r, ctx.order, ctx.ptrSize) + more
    ensures var body := Body(r, ctx.order, ctx.ptrSize);
            ParseLength(ctx) == Some(
              if r.CieRecord? then
                (CiePhase, ctx.(buf := body + more, common := Some(EmptyCie(|body|)), length := |body|))
              else
                (FdePhase, ctx.(buf := body + more, frame := EmptyFde(|body|, ctx.common), length := |body|)))
  {
    RecordFields(r, more, ctx.order, ctx.ptrSize);
    var body := Body(r, ctx.order, ctx.ptrSize);
    var c := ParseLength(ctx).value.1;
    assert c.length == |body|;
  }

  /** The body of a CIE record decodes to the CIE the record stands for. */
  lemma CieRecordDecodes(r: Record, order: ByteOrder, ptrSize: nat)
    requires r.CieRecord? && WellFormedRecord(r, order, ptrSize)
    ensures DecodeCieBodyAsWritten(EmptyCie(|Body(r, order, ptrSize)|), Body(r, order, ptrSize))
            == Some(CieValue(r, order, ptrSize))
  {
    var body := Body(r, order, ptrSize);
    assert body == EncodeCieBody(r.version, r.augmentation, r.codeAlign, r.dataAlign, r.returnReg, r.initial);
    var empty := EmptyCie(|body|);
    AsWrittenRoundTrip(empty, r.version, r.augmentation, r.codeAlign, r.dataAlign, r.returnReg, r.initial);
    assert CieValue(r, order, ptrSize)
           == empty.(version := r.version, augmentation := [r.version] + r.augmentation,
                     codeAlignmentFactor := r.codeAlign, dataAlignmentFactor := r.dataAlign,
                     returnAddressRegister := r.returnReg, initialInstructions := r.initial);
  }

  /** The CIE body step on a span that decodes. */
  lemma CieBodyStep(ctx: ParseContext, body: seq<byte>, more: seq<byte>, cie: CommonInformationEntry)
    requires ctx.buf == body + more && ctx.length == |body| && ctx.common.Some?
    requires DecodeCieBodyAsWritten(ctx.common.value, body) == Some(cie)
    ensures ParseCIE(ctx) == Some((LengthPhase, ctx.(buf := more, common := Some(cie), length := 0)))
  {
    assert Next(ctx.buf, ctx.length) == (body, more);
  }

  lemma FdeBodyStep(r: Record, more: seq<byte>, ctx: ParseContext, common: Option<CommonInformationEntry>)
    requires r.FdeRecord? && WellFormedRecord(r, ctx.order, ctx.ptrSize)
    requires var body := Body(r, ctx.order, ctx.ptrSize);
             ctx.buf == body + more && ctx.length == |body| && ctx.frame == EmptyFde(|body|, common)
    ensures var f := FdeValue(r, common, ctx.order, ctx.ptrSize);
            ParseFDE(ctx) == Some((LengthPhase, ctx.(buf := more, entries := ctx.entries + [f], frame := f, length := 0)))
  {
    var body := Body(r, ctx.order, ctx.ptrSize);
    assert ctx.buf[..Min(ctx.length, |ctx.buf|)] == body;
    assert ctx.buf[|body|..] == more;
    if ctx.ptrSize == 4 || ctx.ptrSize == 8 {
      FdeBodyRoundTrip(EmptyFde(|body|, common), ctx.order, ctx.ptrSize, r.begin, r.end, r.instructions);
    }
  }

  /** A record's header step and body step together consume exactly the record. */
  lemma OneRecord(r: Record, more: seq<byte>, ctx: ParseContext)
    requires WellFormedRecord(r, ctx.order, ctx.ptrSize)
    requires ctx.buf == EncodeRecord(r, ctx.order, ctx.ptrSize) + more
    ensures Run(LengthPhase, ctx) == Run(LengthPhase, AfterRecord(ctx, r, more))
  {
    HeaderStep(r, more, ctx);
    var (phase, c1) := ParseLength(ctx).value;
    RunStep(LengthPhase, ctx);
    if r.CieRecord? {
      CieRecordDecodes(r, ctx.order, ctx.ptrSize);
      CieBodyStep(c1, Body(r, ctx.order, ctx.ptrSize), more, CieValue(r, ctx.order, ctx.ptrSize));
    } else {
      FdeBodyStep(r, more, c1, ctx.common);
    }
    RunStep(phase, c1);
  }

  lemma SectionSplit(rs: seq<Record>, tail: seq<byte>, order: ByteOrder, ptrSize: nat)
    requires |rs| > 0 && WellFormed(rs, order, ptrSize)
    ensures WellFormed(rs[1..], order, ptrSize) && WellFormedRecord(rs[0], order, ptrSize)
    ensures EncodeSection(rs, order, ptrSize) + tail
            == EncodeRecord(rs[0], order, ptrSize) + (EncodeSection(rs[1..], order, ptrSize) + tail)
  {
  }

  /** Reading the first record of a section moves the parser to the rest of the
      section. */
  lemma AdvanceRun(rs: seq<Record>, tail: seq<byte>, ctx: ParseContext)
    requires |rs| > 0 && WellFormed(rs, ctx.order, ctx.ptrSize)
    requires ctx.buf == EncodeSection(rs, ctx.order, ctx.ptrSize) + tail
    ensures Run(LengthPhase, ctx)
            == Run(LengthPhase, AfterRecord(ctx, rs[0], EncodeSection(rs[1..], ctx.order, ctx.ptrSize) + tail))
  {
    SectionSplit(rs, tail, ctx.order, ctx.ptrSize);
    OneRecord(rs[0], EncodeSection(rs[1..], ctx.order, ctx.ptrSize) + tail, ctx);
  }

  /** After the first record, the FDEs still to come from the rest of the section
      complete the reference FDEs of the whole section. */
  lemma AdvanceExpected(rs: seq<Record>, more: seq<byte>, ctx: ParseContext)
    requires |rs| > 0 && WellFormed(rs, ctx.order, ctx.ptrSize)
    ensures WellFormedRecord(rs[0], ctx.order, ctx.ptrSize)
    ensures var next := AfterRecord(ctx, rs[0], more);
            next.entries + Expected(rs[1..], next.common, ctx.order, ctx.ptrSize)
            == ctx.entries + Expected(rs, ctx.common, ctx.order, ctx.ptrSize)
  {
  }

  /** Reading a well-formed run of records, followed by nothing or by a lone
      header of 4 to 8 bytes, yields exactly the reference FDEs. */
  lemma {:induction false} RunRecords(rs: seq<Record>, tail: seq<byte>, ctx: ParseContext)
    requires WellFormed(rs, ctx.order, ctx.ptrSize)
    requires ctx.buf == EncodeSection(rs, ctx.order, ctx.ptrSize) + tail
    requires |tail| == 0 || 4 <= |tail| <= 8
    ensures Run(LengthPhase, ctx).Some?
    ensures Run(LengthPhase, ctx).value.entries == ctx.entries + Expected(rs, ctx.common, ctx.order, ctx.ptrSize)
    decreases |rs|
  {
    if |rs| == 0 {
      if |tail| > 0 {
        RunStep(LengthPhase, ctx);
      }
    } else {
      var more := EncodeSection(rs[1..], ctx.order, ctx.ptrSize) + tail;
      AdvanceRun(rs, tail, ctx);
      AdvanceExpected(rs, more, ctx);
      RunRecords(rs[1..], tail, AfterRecord(ctx, rs[0], more));
    }
  }

  /** A well-formed run of records followed by 1 to 3 stray bytes makes the
      header step fail. */
  lemma {:induction false} RunRecordsShortTail(rs: seq<Record>, tail: seq<byte>, ctx: ParseContext)
    requires WellFormed(rs, ctx.order, ctx.ptrSize)
    requires ctx.buf == EncodeSection(rs, ctx.order, ctx.ptrSize) + tail
    requires 1 <= |tail| < 4
    ensures Run(LengthPhase, ctx).None?
    decreases |rs|
  {
    if |rs| > 0 {
      AdvanceRun(rs, tail, ctx);
      RunRecordsShortTail(rs[1..], tail, AfterRecord(ctx, rs[0], EncodeSection(rs[1..], ctx.order, ctx.ptrSize) + tail));
    }
  }

  /** A run from the initial context that succeeds with `expected` appended to
      the (empty) initial entries is a successful parse giving `expected`. */
  lemma ParseFromRun(data: seq<byte>, order: ByteOrder, ptrSize: nat, expected: seq<FrameDescriptionEntry>)
    requires var ctx := InitialContext(data, order, ptrSize);
             Run(LengthPhase, ctx).Some? && Run(LengthPhase, ctx).value.entries == ctx.entries + expected
    ensures Parse(data, order, ptrSize) == Some(expected)
  {
    assert [] + expected == expected;
  }

  /** Parsing an encoded section gives back one FDE per FDE record, in stream
      order, with its range and instructions, carrying the CIE of the latest
      CIE record before it (or none), as `parseCIE` reads it: with the version
      byte in front of the augmentation. */
  lemma ParseSection(rs: seq<Record>, order: ByteOrder, ptrSize: nat)
    requires WellFormed(rs, order, ptrSize)
    ensures Parse(EncodeSection(rs, order, ptrSize), order, ptrSize) == Some(Expected(rs, None, order, ptrSize))
  {
    var data := EncodeSection(rs, order, ptrSize);
    assert data == data + [];
    RunRecords(rs, [], InitialContext(data, order, ptrSize));
    ParseFromRun(data, order, ptrSize, Expected(rs, None, order, ptrSize));
  }

  /** A final header that exhausts the section ends the loop before its body step
      runs: that record is dropped and the FDEs before it are returned. */
  lemma TrailingHeaderIgnored(rs: seq<Record>, tail: seq<byte>, order: ByteOrder, ptrSize: nat)
    requires WellFormed(rs, order, ptrSize) && 4 <= |tail| <= 8
    ensures Parse(EncodeSection(rs, order, ptrSize) + tail, order, ptrSize) == Some(Expected(rs, None, order, ptrSize))
  {
    var data := EncodeSection(rs, order, ptrSize) + tail;
    RunRecords(rs, tail, InitialContext(data, order, ptrSize));
    ParseFromRun(data, order, ptrSize, Expected(rs, None, order, ptrSize));
  }

  /** Fewer than four bytes where a header should start make the parse fail. */
  lemma TrailingFragmentFails(rs: seq<Record>, tail: seq<byte>, order: ByteOrder, ptrSize: nat)
    requires WellFormed(rs, order, ptrSize) && 1 <= |tail| < 4
    ensures Parse(EncodeSection(rs, order, ptrSize) + tail, order, ptrSize).None?
  {
    RunRecordsShortTail(rs, tail, InitialContext(EncodeSection(rs, order, ptrSize) + tail, order, ptrSize));
  }

  /** Records that differ only in their FDEs' CIE pointers mean the same FDEs. */
  lemma {:induction false} ExpectedIgnoresPointers(rs1: seq<Record>, rs2: seq<Record>,
                                                  common: Option<CommonInformationEntry>, order: ByteOrder, ptrSize: nat)
    requires |rs1| == |rs2|
    requires forall i :: 0 <= i < |rs1| ==> rs1[i] == rs2[i] || (rs1[i].FdeRecord? && rs2[i].FdeRecord? && rs2[i] == rs1[i].(pointer := rs2[i].pointer))
    ensures Expected(rs1, common, order, ptrSize) == Expected(rs2, common, order, ptrSize)
    decreases |rs1|
  {
    if |rs1| > 0 {
      var next := if rs1[0].CieRecord? then Some(CieValue(rs1[0], order, ptrSize)) else common;
      ExpectedIgnoresPointers(rs1[1..], rs2[1..], next, order, ptrSize);
    }
  }

  /** The parser never follows an FDE's CIE pointer: any pointers other than the
      sentinel give the same result. */
  lemma ParseIgnoresCiePointer(rs1: seq<Record>, rs2: seq<Record>, order: ByteOrder, ptrSize: nat)
    requires WellFormed(rs1, order, ptrSize) && WellFormed(rs2, order, ptrSize) && |rs1| == |rs2|
    requires forall i :: 0 <= i < |rs1| ==> rs1[i] == rs2[i] || (rs1[i].FdeRecord? && rs2[i].FdeRecord? && rs2[i] == rs1[i].(pointer := rs2[i].pointer))
    ensures Parse(EncodeSection(rs1, order, ptrSize), order, ptrSize) == Parse(EncodeSection(rs2, order, ptrSize), order, ptrSize)
  {
    ParseSection(rs1, order, ptrSize);
    ParseSection(rs2, order, ptrSize);
    ExpectedIgnoresPointers(rs1, rs2, None, order, ptrSize);
  }

  /** A two-record section: a version-1 CIE with an empty augmentation, code
      alignment 1, data alignment -4 and return address register 16, then one
      FDE covering [0x1000, 0x1050) with three instruction bytes. */
  function SampleRecords(): seq<Record>
  {
    [CieRecord(1, [], 1, -4, 16, []), FdeRecord([0, 0, 0, 0], 0x1000, 0x1050, [0x41, 0x0e, 0x10])]
  }

  const SampleCieBytes: seq<byte> := [9, 0, 0, 0, 0xff, 0xff, 0xff, 0xff, 1, 0, 1, 0x7c, 16]
  const SampleFdeBody: seq<byte> := [0x00, 0x10, 0, 0, 0, 0, 0, 0,
                                      0x50, 0x10, 0, 0, 0, 0, 0, 0,
                                      0x41, 0x0e, 0x10]
  const SampleFdeBytes: seq<byte> := [23, 0, 0, 0] + [0, 0, 0, 0] + SampleFdeBody

  lemma SampleWords()
    ensures Bytes(LittleEndian, 0x1000, 8) == [0x00, 0x10, 0, 0, 0, 0, 0, 0]
    ensures Bytes(LittleEndian, 0x1050, 8) == [0x50, 0x10, 0, 0, 0, 0, 0, 0]
  {
    assert LeBytes(0x10, 7) == [0x10, 0, 0, 0, 0, 0, 0];
  }

  lemma SampleCieRecord()
    ensures EncodeRecord(SampleRecords()[0], LittleEndian, 8) == SampleCieBytes
  {
    assert EncodeSLEB128(-4) == [0x7c];
    assert Body(SampleRecords()[0], LittleEndian, 8) == [1, 0, 1, 0x7c, 16];
  }

  lemma SampleFdeRecord()
    ensures EncodeRecord(SampleRecords()[1], LittleEndian, 8) == SampleFdeBytes
  {
    var body := Body(SampleRecords()[1], LittleEndian, 8);
    SampleWords();
    assert body == SampleFdeBody;
    assert LeBytes(23, 4) == [23, 0, 0, 0];
  }

  /** The sample section's bytes, little-endian with 8-byte pointers: a 13-byte
      CIE record, then a 27-byte FDE record. */
  lemma SampleBytes()
    ensures EncodeSection(SampleRecords(), LittleEndian, 8) == SampleCieBytes + SampleFdeBytes
  {
    var rs := SampleRecords();
    SampleCieRecord();
    SampleFdeRecord();
    assert rs[1..] == [rs[1]] && rs[1..][1..] == [];
  }

  /** The sample section is well formed and stands for one FDE. */
  lemma SampleExpected()
    ensures WellFormed(SampleRecords(), LittleEndian, 8)
    ensures Expected(SampleRecords(), None, LittleEndian, 8)
            == [FrameDescriptionEntry(19, Some(CommonInformationEntry(5, 1, [1], 1, -4, 16, [])),
                                      0x1000, 0x1050, [0x41, 0x0e, 0x10])]
  {
    var rs := SampleRecords();
    Pow256Values();
    assert Body(rs[0], LittleEndian, 8) == [1, 0, 1, 0x7c, 16];
    assert |Body(rs[1], LittleEndian, 8)| == 19;
    assert rs[1..] == [rs[1]] && rs[1..][1..] == [];
    assert WellFormed(rs[1..], LittleEndian, 8);
    var cie := Some(CieValue(rs[0], LittleEndian, 8));
    assert [1] + [] == [1];
    assert cie == Some(CommonInformationEntry(5, 1, [1], 1, -4, 16, []));
    assert Expected(rs, None, LittleEndian, 8) == Expected(rs[1..], cie, LittleEndian, 8);
    assert Expected(rs[1..], cie, LittleEndian, 8) == [FdeValue(rs[1], cie, LittleEndian, 8)];
  }

  /** The sample section's bytes parse to its one FDE, carrying the CIE before it
      with the version byte read into its augmentation. */
  lemma SampleParse()
    ensures Parse(SampleCieBytes + SampleFdeBytes, LittleEndian, 8)
            == Some([FrameDescriptionEntry(19, Some(CommonInformationEntry(5, 1, [1], 1, -4, 16, [])),
                                           0x1000, 0x1050, [0x41, 0x0e, 0x10])])
  {
    SampleBytes();
    SampleExpected();
    ParseSection(SampleRecords(), LittleEndian, 8);
  }
}
