/** The DWARF primitive decoders the frame parser calls: ULEB128, SLEB128 and
    NUL-terminated strings (DWARF 4, section 7.6 and section 7.5.4). Each reads
    from `s` at position `i`, as the parser's byte buffer does, and returns the
    value together with the position after it, or `None` when the input ends
    before the encoding does. */
module DwarfUtil {
  import opened Options
  import opened Arith
  import opened Endian

  /** A byte whose high bit is set announces that another group follows. */
  predicate Continues(b: byte)
  {
    b >= 128
  }

  /** Unsigned LEB128: seven-bit groups, least significant first, ending at the
      first byte whose high bit is clear. */
  function DecodeULEB128(s: seq<byte>, i: nat): (r: Option<(nat, nat)>)
    requires i <= |s|
    ensures r.Some? ==> i < r.value.1 <= |s|
    decreases |s| - i
  {
    if i == |s| then None
    else if !Continues(s[i]) then Some((s[i], i + 1))
    else
      match DecodeULEB128(s, i + 1)
      case None => None
      case Some((v, j)) => Some((s[i] - 128 + 128 * v, j))
  }

  /** Signed LEB128: the same groups, sign-extended from bit 6 of the last byte. */
  function DecodeSLEB128(s: seq<byte>, i: nat): (r: Option<(int, nat)>)
    requires i <= |s|
    ensures r.Some? ==> i < r.value.1 <= |s|
    decreases |s| - i
  {
    if i == |s| then None
    else if !Continues(s[i]) then Some((if s[i] >= 64 then s[i] as int - 128 else s[i], i + 1))
    else
      match DecodeSLEB128(s, i + 1)
      case None => None
      case Some((v, j)) => Some((s[i] - 128 + 128 * v, j))
  }

  /** The bytes of a string from `i` up to, and not including, the first NUL;
      the position returned is the one after the NUL. */
  function ParseString(s: seq<byte>, i: nat): (r: Option<(seq<byte>, nat)>)
    requires i <= |s|
    ensures r.Some? ==> r.value.1 == i + |r.value.0| + 1 <= |s|
    decreases |s| - i
  {
    if i == |s| then None
    else if s[i] == 0 then Some(([], i + 1))
    else
      match ParseString(s, i + 1)
      case None => None
      case Some((str, j)) => Some(([s[i]] + str, j))
  }

  /** Where an unsigned LEB128 value ends: decoding fails exactly when every byte
      from `i` on announces a continuation, and otherwise stops right after the
      first byte that does not. */
  lemma {:induction false} ULEB128Extent(s: seq<byte>, i: nat)
    requires i <= |s|
    ensures DecodeULEB128(s, i).None? <==> forall k :: i <= k < |s| ==> Continues(s[k])
    ensures DecodeULEB128(s, i).Some? ==>
              var j := DecodeULEB128(s, i).value.1;
              && !Continues(s[j - 1])
              && forall k :: i <= k < j - 1 ==> Continues(s[k])
    decreases |s| - i
  {
    if i < |s| && Continues(s[i]) {
      ULEB128Extent(s, i + 1);
    }
  }

  /** An unsigned value decoded from n bytes carries 7n bits: it is below 128^n. */
  lemma {:induction false} ULEB128Bound(s: seq<byte>, i: nat)
    requires i <= |s|
    ensures DecodeULEB128(s, i).Some? ==>
              var (v, j) := DecodeULEB128(s, i).value;
              v < Pow(128, j - i)
    decreases |s| - i
  {
    if i < |s| && Continues(s[i]) {
      ULEB128Bound(s, i + 1);
      match DecodeULEB128(s, i + 1)
      case None =>
      case Some((_, j)) =>
        PowStep(128, j - i);
    }
  }

  /** A signed value decoded from n bytes lies in the 7n-bit two's-complement
      range: -128^n / 2 <= v < 128^n / 2. */
  lemma {:induction false} SLEB128Bound(s: seq<byte>, i: nat)
    requires i <= |s|
    ensures DecodeSLEB128(s, i).Some? ==>
              var (v, j) := DecodeSLEB128(s, i).value;
              0 - Pow(128, j - i) <= 2 * v < Pow(128, j - i)
    decreases |s| - i
  {
    if i < |s| && Continues(s[i]) {
      SLEB128Bound(s, i + 1);
      match DecodeSLEB128(s, i + 1)
      case None =>
      case Some((_, j)) =>
        PowStep(128, j - i);
    }
  }

  /** The signed decoder reads the same groups as the unsigned one and subtracts
      2^(7n) exactly when bit 6 of the last group is set (sign extension). */
  lemma {:induction false} SLEB128SignExtendsULEB128(s: seq<byte>, i: nat)
    requires i <= |s|
    ensures DecodeSLEB128(s, i).Some? <==> DecodeULEB128(s, i).Some?
    ensures DecodeULEB128(s, i).Some? ==>
              var (u, j) := DecodeULEB128(s, i).value;
              DecodeSLEB128(s, i).value == (if s[j - 1] >= 64 then u - Pow(128, j - i) else u, j)
    decreases |s| - i
  {
    if i < |s| && Continues(s[i]) {
      SLEB128SignExtendsULEB128(s, i + 1);
      match DecodeULEB128(s, i + 1)
      case None =>
      case Some((u, j)) =>
        var v := if s[j - 1] >= 64 then u - Pow(128, j - (i + 1)) else u;
        assert DecodeSLEB128(s, i) == Some((s[i] - 128 + 128 * v, j));
        PowStep(128, j - i);
    }
  }

  /** What the string parser returns: it fails exactly when no NUL follows `i`,
      and otherwise returns the NUL-free bytes before the first NUL. */
  lemma {:induction false} ParseStringExtent(s: seq<byte>, i: nat)
    requires i <= |s|
    ensures ParseString(s, i).None? <==> 0 !in s[i..]
    ensures ParseString(s, i).Some? ==>
              var (str, j) := ParseString(s, i).value;
              && s[i..j - 1] == str
              && s[j - 1] == 0
              && 0 !in str
    decreases |s| - i
  {
    if i < |s| {
      assert s[i..] == [s[i]] + s[i + 1..];
      if s[i] != 0 {
        ParseStringExtent(s, i + 1);
        if ParseString(s, i + 1).Some? {
          var j := ParseString(s, i + 1).value.1;
          assert s[i..j - 1] == [s[i]] + s[i + 1..j - 1];
        }
      }
    }
  }

  /** The shortest unsigned LEB128 encoding of `v`. */
  function EncodeULEB128(v: nat): (bs: seq<byte>)
    ensures |bs| >= 1
  {
    if v < 128 then [v] else [v % 128 + 128] + EncodeULEB128(v / 128)
  }

  /** The shortest signed LEB128 encoding of `v`. */
  function EncodeSLEB128(v: int): (bs: seq<byte>)
    ensures |bs| >= 1
    decreases if v < 0 then -v else v
  {
    if -64 <= v < 64 then [v % 128] else [v % 128 + 128] + EncodeSLEB128(v / 128)
  }

  /** `s` holds `e` at position `i`. */
  predicate HoldsAt(s: seq<byte>, i: nat, e: seq<byte>)
  {
    i + |e| <= |s| && s[i..i + |e|] == e
  }

  lemma HoldsAtRest(s: seq<byte>, i: nat, e: seq<byte>)
    requires HoldsAt(s, i, e) && |e| > 0
    ensures s[i] == e[0] && HoldsAt(s, i + 1, e[1..])
  {
    assert s[i] == s[i..i + |e|][0];
    assert s[i + 1..i + |e|] == s[i..i + |e|][1..];
  }

  /** Two pieces held one after the other. */
  lemma HoldsAtSplit(s: seq<byte>, i: nat, a: seq<byte>, b: seq<byte>)
    requires HoldsAt(s, i, a + b)
    ensures HoldsAt(s, i, a) && HoldsAt(s, i + |a|, b)
  {
    assert s[i..i + |a|] == s[i..i + |a + b|][..|a|];
    assert s[i + |a|..i + |a| + |b|] == s[i..i + |a + b|][|a|..];
  }

  /** Decoding an encoded unsigned value gives the value back and stops right
      after its encoding, whatever follows it. */
  lemma {:induction false} ULEB128RoundTrip(v: nat, s: seq<byte>, i: nat)
    requires HoldsAt(s, i, EncodeULEB128(v))
    ensures DecodeULEB128(s, i) == Some((v, i + |EncodeULEB128(v)|))
  {
    var e := EncodeULEB128(v);
    HoldsAtRest(s, i, e);
    if v >= 128 {
      assert e[1..] == EncodeULEB128(v / 128);
      ULEB128RoundTrip(v / 128, s, i + 1);
    }
  }

  /** Decoding an encoded signed value gives the value back, including negative
      values, and stops right after its encoding. */
  lemma {:induction false} SLEB128RoundTrip(v: int, s: seq<byte>, i: nat)
    requires HoldsAt(s, i, EncodeSLEB128(v))
    ensures DecodeSLEB128(s, i) == Some((v, i + |EncodeSLEB128(v)|))
    decreases if v < 0 then -v else v
  {
    var e := EncodeSLEB128(v);
    HoldsAtRest(s, i, e);
    if !(-64 <= v < 64) {
      assert e[1..] == EncodeSLEB128(v / 128);
      SLEB128RoundTrip(v / 128, s, i + 1);
    }
  }

  /** A string without NUL bytes, followed by its terminator, parses back to
      itself whatever follows the terminator. */
  lemma {:induction false} ParseStringRoundTrip(str: seq<byte>, s: seq<byte>, i: nat)
    requires 0 !in str && HoldsAt(s, i, str + [0])
    ensures ParseString(s, i) == Some((str, i + |str| + 1))
    decreases |str|
  {
    var e := str + [0];
    HoldsAtRest(s, i, e);
    if |str| > 0 {
      assert e[1..] == str[1..] + [0];
      ParseStringRoundTrip(str[1..], s, i + 1);
      assert [str[0]] + str[1..] == str;
    }
  }
}
