/** The architecture descriptors of the debugger's process layer: pointer width,
    breakpoint instruction, the offset of the goroutine structure from the
    thread-local base, hardware breakpoint slots, and the pointer codec. AMD64
    and ARM share one datatype; `kind` says which one a value describes. */
module Proc {
  import opened Options
  import opened Endian

  type uint64 = x: int | 0 <= x < 0x1_0000_0000_0000_0000

  datatype Kind = AMD64 | ARM

  datatype Arch = Arch(
    kind: Kind,
    ptrSize: nat,
    breakInstruction: seq<byte>,
    breakInstructionLen: nat,
    gStructOffset: uint64,
    hardwareBreakpointUsage: seq<bool>,
    byteOrder: ByteOrder)

  /** The bytes a pointer occupies in target memory: the decoder width, which
      for both architectures equals the pointer size the constructor records. */
  function PtrBytes(kind: Kind): nat
  {
    match kind
    case AMD64 => 8
    case ARM => 4
  }

  /** What both constructors establish and every operation keeps: the recorded
      pointer size is the codec width, the recorded breakpoint length is the
      instruction's length, four hardware slots, little-endian. */
  predicate Valid(a: Arch)
  {
    && a.ptrSize == PtrBytes(a.kind)
    && a.breakInstructionLen == |a.breakInstruction|
    && |a.hardwareBreakpointUsage| == 4
    && a.byteOrder == LittleEndian
  }

  /** No hardware breakpoint slot is in use. */
  predicate AllSlotsFree(a: Arch)
  {
    forall i :: 0 <= i < |a.hardwareBreakpointUsage| ==> !a.hardwareBreakpointUsage[i]
  }

  function AMD64Arch(): (a: Arch)
    ensures a.kind == AMD64 && Valid(a) && AllSlotsFree(a)
    ensures a.ptrSize == 8 && a.breakInstruction == [0xCC] && a.gStructOffset == 0
  {
    var breakInstr := [0xCC];
    Arch(AMD64, 8, breakInstr, |breakInstr|, 0, [false, false, false, false], LittleEndian)
  }

  function ARMArch(): (a: Arch)
    ensures a.kind == ARM && Valid(a) && AllSlotsFree(a)
    ensures a.ptrSize == 4 && a.breakInstruction == [0xFE, 0xDE, 0xFF, 0xE7] && a.gStructOffset == 0
  {
    var breakInstr := [0xFE, 0xDE, 0xFF, 0xE7];
    Arch(ARM, 4, breakInstr, |breakInstr|, 0, [false, false, false, false], LittleEndian)
  }

  /** The length recorded at construction, which is the length of the
      breakpoint instruction itself. */
  function BreakpointSize(a: Arch): (n: nat)
    ensures Valid(a) ==> n == |a.breakInstruction|
  {
    a.breakInstructionLen
  }

  /** Reads a pointer from the front of `b`, little-endian, 8 bytes on AMD64 and
      4 on ARM. `None` when `b` is shorter, where Go's decoder panics. */
  function DecodePtr(a: Arch, b: seq<byte>): (r: Option<nat>)
    ensures r.None? <==> |b| < PtrBytes(a.kind)
    ensures r.Some? ==> r.value < Pow256(PtrBytes(a.kind))
    ensures r.Some? ==> LeBytes(r.value, PtrBytes(a.kind)) == b[..PtrBytes(a.kind)]
  {
    var w := PtrBytes(a.kind);
    if |b| < w then None else LeBytesOfUint(b[..w]); Some(LeUint(b[..w]))
  }

  /** The pointer as the target stores it: the full 64 bits on AMD64, the low
      32 bits on ARM. */
  function Truncate(kind: Kind, p: uint64): nat
  {
    match kind
    case AMD64 => p
    case ARM => p % Two32
  }

  /** Writes a pointer over the front of `b`, little-endian; on ARM only its low
      32 bits. `None` when `b` is too short, where Go's encoder panics. */
  function EncodePtr(a: Arch, p: uint64, b: seq<byte>): (r: Option<seq<byte>>)
    ensures r.None? <==> |b| < PtrBytes(a.kind)
    ensures r.Some? ==> |r.value| == |b| && r.value[PtrBytes(a.kind)..] == b[PtrBytes(a.kind)..]
    ensures r.Some? ==> r.value[..PtrBytes(a.kind)] == LeBytes(Truncate(a.kind, p), PtrBytes(a.kind))
  {
    var w := PtrBytes(a.kind);
    if |b| < w then None else Some(LeBytes(Truncate(a.kind, p), w) + b[w..])
  }

  /** Decoding what was encoded gives the pointer back, truncated to the
      architecture's width: `p` itself on AMD64, `p mod 2^32` on ARM. */
  lemma PtrRoundTrip(a: Arch, p: uint64, b: seq<byte>)
    requires |b| >= PtrBytes(a.kind)
    ensures EncodePtr(a, p, b).Some?
    ensures DecodePtr(a, EncodePtr(a, p, b).value) == Some(Truncate(a.kind, p))
  {
    var w := PtrBytes(a.kind);
    Pow256Values();
    var e := EncodePtr(a, p, b).value;
    assert e[..w] == LeBytes(Truncate(a.kind, p), w);
    LeRoundTrip(Truncate(a.kind, p), w);
  }

  /** On AMD64 every 64-bit pointer survives the round trip. */
  lemma PtrRoundTripAMD64(p: uint64, b: seq<byte>)
    requires |b| >= 8
    ensures EncodePtr(AMD64Arch(), p, b).Some?
    ensures DecodePtr(AMD64Arch(), EncodePtr(AMD64Arch(), p, b).value) == Some(p)
  {
    PtrRoundTrip(AMD64Arch(), p, b);
  }

  /** On ARM the round trip keeps exactly the low 32 bits. */
  lemma PtrRoundTripARM(p: uint64, b: seq<byte>)
    requires |b| >= 4
    ensures EncodePtr(ARMArch(), p, b).Some?
    ensures DecodePtr(ARMArch(), EncodePtr(ARMArch(), p, b).value) == Some(p % Two32)
    ensures p < Two32 ==> DecodePtr(ARMArch(), EncodePtr(ARMArch(), p, b).value) == Some(p)
  {
    PtrRoundTrip(ARMArch(), p, b);
  }

  /** Writing back the pointer just read leaves the buffer as it was. */
  lemma EncodeDecodedPtr(a: Arch, b: seq<byte>)
    requires |b| >= PtrBytes(a.kind)
    ensures DecodePtr(a, b).Some? && DecodePtr(a, b).value < Two64
    ensures EncodePtr(a, DecodePtr(a, b).value, b) == Some(b)
  {
    var w := PtrBytes(a.kind);
    Pow256Values();
    var v := DecodePtr(a, b).value;
    assert v < Two32 || a.kind == AMD64;
    assert Truncate(a.kind, v) == v;
    LeBytesOfUint(b[..w]);
    assert b[..w] + b[w..] == b;
  }

  /** Marks hardware breakpoint slot `reg` used or free. `None` for a slot
      outside the table, where Go's indexing panics. */
  function SetHardwareBreakpointUsage(a: Arch, reg: int, used: bool): (r: Option<Arch>)
    ensures r.None? <==> !(0 <= reg < |a.hardwareBreakpointUsage|)
    ensures r.Some? ==>
              && |r.value.hardwareBreakpointUsage| == |a.hardwareBreakpointUsage|
              && r.value.hardwareBreakpointUsage[reg] == used
              && (forall i :: 0 <= i < |a.hardwareBreakpointUsage| && i != reg ==>
                    r.value.hardwareBreakpointUsage[i] == a.hardwareBreakpointUsage[i])
              && r.value == a.(hardwareBreakpointUsage := r.value.hardwareBreakpointUsage)
              && (Valid(a) ==> Valid(r.value))
  {
    if 0 <= reg < |a.hardwareBreakpointUsage| then
      Some(a.(hardwareBreakpointUsage := a.hardwareBreakpointUsage[reg := used]))
    else None
  }

  /** Setting a slot and then setting it again: the second setting wins, and
      setting a slot back to what it was restores the descriptor. */
  lemma HardwareBreakpointLastWins(a: Arch, reg: int, used1: bool, used2: bool)
    requires 0 <= reg < |a.hardwareBreakpointUsage|
    ensures SetHardwareBreakpointUsage(SetHardwareBreakpointUsage(a, reg, used1).value, reg, used2)
            == SetHardwareBreakpointUsage(a, reg, used2)
    ensures SetHardwareBreakpointUsage(SetHardwareBreakpointUsage(a, reg, used1).value, reg, a.hardwareBreakpointUsage[reg])
            == Some(a)
  {
    var u := a.hardwareBreakpointUsage;
    assert u[reg := used1][reg := used2] == u[reg := used2];
    assert u[reg := used1][reg := u[reg]] == u;
  }

  /** A 64-bit word read as a two's-complement signed value. */
  function AsInt64(x: uint64): int
  {
    if x < Two64 / 2 then x else x - Two64
  }

  /** Records where the goroutine structure sits relative to the thread's TLS
      base, given the host OS and whether the target links externally or was
      built by a Go release at or after 1.5 or by a development build. */
  function SetGStructOffset(a: Arch, goos: string, isextld: bool, newRuntime: bool): (r: Arch)
    ensures r == a.(gStructOffset := r.gStructOffset) && (Valid(a) ==> Valid(r))
    ensures goos == "darwin" ==> r.gStructOffset == 0x8a0
    ensures goos == "linux" ==> AsInt64(r.gStructOffset) == (if isextld || newRuntime then -8 else -16)
    ensures goos != "darwin" && goos != "linux" ==> r == a
  {
    if goos == "darwin" then a.(gStructOffset := 0x8a0)
    else if goos == "linux" then
      var offset := 0xfffffffffffffff0;
      // Go's uint64 addition; 0xfffffffffffffff0 + 8 does not reach 2^64.
      a.(gStructOffset := if isextld || newRuntime then (offset + 8) % Two64 else offset)
    else a
  }

  /** On darwin and linux the new offset depends only on the inputs, not on the
      descriptor or its previous offset; so setting twice is setting once. */
  lemma SetGStructOffsetOverwrites(a1: Arch, a2: Arch, goos: string, isextld: bool, newRuntime: bool)
    requires goos == "darwin" || goos == "linux"
    ensures SetGStructOffset(a1, goos, isextld, newRuntime).gStructOffset
            == SetGStructOffset(a2, goos, isextld, newRuntime).gStructOffset
  {
  }

  lemma SetGStructOffsetIdempotent(a: Arch, goos: string, isextld: bool, newRuntime: bool)
    ensures var once := SetGStructOffset(a, goos, isextld, newRuntime);
            SetGStructOffset(once, goos, isextld, newRuntime) == once
  {
    if goos == "darwin" || goos == "linux" {
      SetGStructOffsetOverwrites(a, SetGStructOffset(a, goos, isextld, newRuntime), goos, isextld, newRuntime);
    }
  }
}
