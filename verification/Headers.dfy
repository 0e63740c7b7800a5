/** The fixed 64-byte header: ten fields at fixed offsets, then a checksum. */
module Headers {
  import opened Codec

  /** CRC32C is a parameter: a function to 32-bit values. */
  type Crc = n: nat | n < Pow256(4) witness 0

  const BRAIN_MAGIC: Bytes := [0x42, 0x48, 0x4E, 0x30]
  const FORMAT_VERSION: nat := 3
  const HEADER_LEN: nat := 64
  const WIDTHS: seq<nat> := [4, 4, 16, 8, 8, 4, 4, 4, 4, 4]

  datatype Header = Header(version: nat, shardUuid: Bytes, takenAtLsn: nat, nodeCount: nat, m: nat,
                           efConstruction: nat, efSearch: nat, efSearchMax: nat, vectorDim: nat)
  {
    predicate Fits()
    {
      && version == FORMAT_VERSION && |shardUuid| == 16 && takenAtLsn < Pow256(8) && nodeCount < Pow256(8)
      && m < Pow256(4) && efConstruction < Pow256(4) && efSearch < Pow256(4) && efSearchMax < Pow256(4)
      && vectorDim < Pow256(4)
    }
  }

  datatype HeaderResult = HeaderOk(header: Header) | HeaderTruncated | BadMagic | UnsupportedVersion(version: nat)
                        | BadCrc

  function Concat(parts: seq<Bytes>): Bytes
  {
    if parts == [] then [] else parts[0] + Concat(parts[1..])
  }

  function Sum(widths: seq<nat>): nat
  {
    if widths == [] then 0 else widths[0] + Sum(widths[1..])
  }

  /** Cut the input at the running offsets of `widths`. */
  function Split(bytes: Bytes, widths: seq<nat>): (parts: seq<Bytes>)
    requires |bytes| == Sum(widths)
    ensures |parts| == |widths| && forall i | 0 <= i < |parts| :: |parts[i]| == widths[i]
  {
    if widths == [] then [] else [bytes[..widths[0]]] + Split(bytes[widths[0]..], widths[1..])
  }

  lemma {:induction false} SplitConcat(parts: seq<Bytes>, widths: seq<nat>)
    requires |parts| == |widths| && forall i | 0 <= i < |parts| :: |parts[i]| == widths[i]
    ensures |Concat(parts)| == Sum(widths) && Split(Concat(parts), widths) == parts
  {
    if parts != [] {
      SplitConcat(parts[1..], widths[1..]);
      var tail := Concat(parts[1..]);
      assert Concat(parts)[..widths[0]] == parts[0] && Concat(parts)[widths[0]..] == tail;
    }
  }

  lemma {:induction false} ConcatSplit(bytes: Bytes, widths: seq<nat>)
    requires |bytes| == Sum(widths)
    ensures Concat(Split(bytes, widths)) == bytes
  {
    if widths != [] {
      ConcatSplit(bytes[widths[0]..], widths[1..]);
      assert Split(bytes, widths)[1..] == Split(bytes[widths[0]..], widths[1..]);
      assert bytes == bytes[..widths[0]] + bytes[widths[0]..];
    }
  }

  lemma WidthsSum()
    ensures Sum(WIDTHS) == 60
  {
    assert Sum([4, 4]) == 8;
    assert Sum([8, 4, 4, 4, 4, 4]) == 28 by {
      assert [8, 4, 4, 4, 4, 4][1..] == [4, 4, 4, 4, 4] && [4, 4, 4, 4, 4][1..] == [4, 4, 4, 4];
      assert [4, 4, 4, 4][1..] == [4, 4, 4] && [4, 4, 4][1..] == [4, 4] && [4, 4][1..] == [4] && [4][1..] == [];
    }
    assert WIDTHS[1..] == [4, 16, 8, 8, 4, 4, 4, 4, 4]
      && [4, 16, 8, 8, 4, 4, 4, 4, 4][1..] == [16, 8, 8, 4, 4, 4, 4, 4];
    assert [16, 8, 8, 4, 4, 4, 4, 4][1..] == [8, 8, 4, 4, 4, 4, 4] && [8, 8, 4, 4, 4, 4, 4][1..] == [8, 4, 4, 4, 4, 4];
  }

  function Fields(h: Header): (parts: seq<Bytes>)
    ensures |parts| == |WIDTHS|
    ensures |h.shardUuid| == 16 ==> forall i | 0 <= i < |parts| :: |parts[i]| == WIDTHS[i]
  {
    [BRAIN_MAGIC, ToLe(h.version, 4), h.shardUuid, ToLe(h.takenAtLsn, 8), ToLe(h.nodeCount, 8), ToLe(h.m, 4),
     ToLe(h.efConstruction, 4), ToLe(h.efSearch, 4), ToLe(h.efSearchMax, 4), ToLe(h.vectorDim, 4)]
  }

  function FromFields(parts: seq<Bytes>): Header
    requires |parts| == |WIDTHS|
  {
    Header(FromLe(parts[1]), parts[2], FromLe(parts[3]), FromLe(parts[4]), FromLe(parts[5]), FromLe(parts[6]),
           FromLe(parts[7]), FromLe(parts[8]), FromLe(parts[9]))
  }

  /** `Header::encode`; `crc` stands for CRC32C. */
  function EncodeHeader(h: Header, crc: Bytes -> Crc): Bytes
  {
    Concat(Fields(h)) + ToLe(crc(Concat(Fields(h))), 4)
  }

  /** `Header::parse`: length, magic, version, checksum, then the fields. */
  function ParseHeader(bytes: Bytes, crc: Bytes -> Crc): HeaderResult
  {
    if |bytes| < HEADER_LEN then HeaderTruncated
    else
      WidthsSum();
      var parts := Split(bytes[..60], WIDTHS);
      if parts[0] != BRAIN_MAGIC then BadMagic
      else if FromLe(parts[1]) != FORMAT_VERSION then UnsupportedVersion(FromLe(parts[1]))
      else if FromLe(bytes[60..64]) != crc(bytes[..60]) then BadCrc
      else HeaderOk(FromFields(parts))
  }

  lemma FieldsRoundTrip(h: Header)
    requires h.Fits()
    ensures FromFields(Fields(h)) == h
  {
    LeRoundTrip(h.takenAtLsn, 8);
    LeRoundTrip(h.nodeCount, 8);
    LeRoundTrip(h.m, 4);
    LeRoundTrip(h.efConstruction, 4);
    LeRoundTrip(h.efSearch, 4);
    LeRoundTrip(h.efSearchMax, 4);
    LeRoundTrip(h.vectorDim, 4);
    VersionRoundTrip();
  }

  lemma VersionRoundTrip()
    ensures FromLe(ToLe(FORMAT_VERSION, 4)) == FORMAT_VERSION
  {
    assert Pow256(1) == 256 && Pow256(4) > Pow256(1);
    LeRoundTrip(FORMAT_VERSION, 4);
  }

  /** Round trip, for any checksum. */
  lemma ParseEncodeHeader(h: Header, crc: Bytes -> Crc)
    requires h.Fits()
    ensures |EncodeHeader(h, crc)| == HEADER_LEN && ParseHeader(EncodeHeader(h, crc), crc) == HeaderOk(h)
  {
    var pre, bytes := Concat(Fields(h)), EncodeHeader(h, crc);
    WidthsSum();
    SplitConcat(Fields(h), WIDTHS);
    FieldsRoundTrip(h);
    LeRoundTrip(crc(pre), 4);
    VersionRoundTrip();
    assert bytes[..60] == pre && bytes[60..64] == ToLe(crc(pre), 4);
  }

  lemma FieldsCanonical(parts: seq<Bytes>)
    requires |parts| == |WIDTHS| && forall i | 0 <= i < |parts| :: |parts[i]| == WIDTHS[i]
    requires parts[0] == BRAIN_MAGIC && FromLe(parts[1]) == FORMAT_VERSION
    ensures FromFields(parts).Fits() && Fields(FromFields(parts)) == parts
  {
    LeCanonical(parts[1]);
    LeCanonical(parts[3]);
    LeCanonical(parts[4]);
    LeCanonical(parts[5]);
    LeCanonical(parts[6]);
    LeCanonical(parts[7]);
    LeCanonical(parts[8]);
    LeCanonical(parts[9]);
  }

  lemma CutAt(bytes: Bytes, n: nat)
    requires n <= |bytes|
    ensures bytes == bytes[..n] + bytes[n..]
  {
  }

  lemma EncodeFields(parts: seq<Bytes>, pre: Bytes, tail: Bytes, crc: Bytes -> Crc)
    requires |parts| == |WIDTHS| && Fields(FromFields(parts)) == parts
    requires Concat(parts) == pre && |tail| == 4 && FromLe(tail) == crc(pre)
    ensures EncodeHeader(FromFields(parts), crc) == pre + tail
  {
    LeCanonical(tail);
  }

  /** Any 64 bytes that parse are the encoding of what they parse to. */
  lemma EncodeParseHeader(bytes: Bytes, crc: Bytes -> Crc, h: Header)
    requires |bytes| == HEADER_LEN && ParseHeader(bytes, crc) == HeaderOk(h)
    ensures h.Fits() && EncodeHeader(h, crc) == bytes
  {
    WidthsSum();
    var pre, tail := bytes[..60], bytes[60..];
    var parts := Split(pre, WIDTHS);
    CutAt(bytes, 60);
    assert tail == bytes[60..64];
    ConcatSplit(pre, WIDTHS);
    FieldsCanonical(parts);
    EncodeFields(parts, pre, tail, crc);
  }

  // ----- Where each field is -------------------------------------------------

  /** `ends` are the running offsets of `widths`. */
  predicate AreEnds(ends: seq<nat>, widths: seq<nat>, from: nat)
  {
    |ends| == |widths| + 1 && ends[0] == from && forall k | 0 <= k < |widths| :: ends[k + 1] == ends[k] + widths[k]
  }

  /** Part `i` of a cut is what lies between its own offset and the next. */
  lemma {:induction false} PartAt(bytes: Bytes, from: nat, widths: seq<nat>, ends: seq<nat>, i: nat)
    requires from <= |bytes| && |bytes| - from == Sum(widths) && AreEnds(ends, widths, from) && i < |widths|
    ensures ends[i] <= ends[i + 1] <= |bytes| && Split(bytes[from..], widths)[i] == bytes[ends[i]..ends[i + 1]]
    decreases i
  {
    var next := from + widths[0];
    assert bytes[from..][widths[0]..] == bytes[next..];
    if i > 0 {
      PartAt(bytes, next, widths[1..], ends[1..], i - 1);
    }
  }

  const ENDS: seq<nat> := [0, 4, 8, 24, 32, 40, 44, 48, 52, 56, 60]

  lemma EndsAreEnds()
    ensures AreEnds(ENDS, WIDTHS, 0)
  {
  }

  lemma FieldAt(pre: Bytes, i: nat, from: nat, to: nat)
    requires |pre| == 60 == Sum(WIDTHS) && i < |WIDTHS| && ENDS[i] == from && ENDS[i + 1] == to
    ensures from <= to <= 60 && Split(pre, WIDTHS)[i] == pre[from..to]
  {
    EndsAreEnds();
    assert pre[0..] == pre;
    PartAt(pre, 0, WIDTHS, ENDS, i);
  }

  /** What a header is parsed to, by fixed offsets, and in which order it is rejected. */
  lemma HeaderLayout(bytes: Bytes, crc: Bytes -> Crc)
    requires |bytes| >= 64
    ensures ParseHeader(bytes, crc) ==
            var pre := bytes[..60];
            if pre[..4] != [0x42, 0x48, 0x4E, 0x30] then BadMagic
            else if FromLe(pre[4..8]) != 3 then UnsupportedVersion(FromLe(pre[4..8]))
            else if FromLe(bytes[60..64]) != crc(pre) then BadCrc
            else HeaderOk(Header(3, pre[8..24], FromLe(pre[24..32]), FromLe(pre[32..40]), FromLe(pre[40..44]),
                                 FromLe(pre[44..48]), FromLe(pre[48..52]), FromLe(pre[52..56]), FromLe(pre[56..60])))
  {
    WidthsSum();
    var pre := bytes[..60];
    FieldAt(pre, 0, 0, 4);
    FieldAt(pre, 1, 4, 8);
    FieldAt(pre, 2, 8, 24);
    FieldAt(pre, 3, 24, 32);
    FieldAt(pre, 4, 32, 40);
    FieldAt(pre, 5, 40, 44);
    FieldAt(pre, 6, 44, 48);
    FieldAt(pre, 7, 48, 52);
    FieldAt(pre, 8, 52, 56);
    FieldAt(pre, 9, 56, 60);
  }
}
