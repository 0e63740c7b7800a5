/** The byte layout of the snapshot wrapper: fixed header, variable body. */
module Codec {
  import opened Ranking
  import opened TwoTier

  type Byte = b: nat | b < 256

  type Bytes = seq<Byte>

  function Pow256(n: nat): (p: nat)
    ensures p > 0
  {
    if n == 0 then 1 else 256 * Pow256(n - 1)
  }

  /** `to_le_bytes` at a given width. */
  function ToLe(n: nat, width: nat): (bytes: Bytes)
    ensures |bytes| == width
  {
    if width == 0 then [] else [n % 256] + ToLe(n / 256, width - 1)
  }

  function FromLe(bytes: Bytes): (n: nat)
    ensures n < Pow256(|bytes|)
  {
    if bytes == [] then 0 else bytes[0] + 256 * FromLe(bytes[1..])
  }

  lemma {:induction false} LeRoundTrip(n: nat, width: nat)
    requires n < Pow256(width)
    ensures FromLe(ToLe(n, width)) == n
  {
    if width > 0 {
      LeRoundTrip(n / 256, width - 1);
    }
  }

  lemma {:induction false} LeCanonical(bytes: Bytes)
    ensures ToLe(FromLe(bytes), |bytes|) == bytes
  {
    if bytes != [] {
      LeCanonical(bytes[1..]);
      assert FromLe(bytes) % 256 == bytes[0] && FromLe(bytes) / 256 == FromLe(bytes[1..]);
    }
  }

  /** Byte `i` is the digit of weight 256^i. */
  lemma {:induction false} LeByte(n: nat, width: nat, i: nat)
    requires i < width
    ensures ToLe(n, width)[i] == n / Pow256(i) % 256
  {
    if i > 0 {
      LeByte(n / 256, width - 1, i - 1);
      DivideTwice(n, Pow256(i - 1));
    }
  }

  lemma DivideTwice(n: nat, d: nat)
    requires d > 0
    ensures n / 256 / d == n / (256 * d)
  {
    var q := n / 256;
    var r := q / d;
    assert n == 256 * q + n % 256 && q == d * r + q % d;
    assert 256 * (q % d) + n % 256 < 256 * d;
    Quotient(n, 256 * d, r, 256 * (q % d) + n % 256);
  }

  lemma Quotient(n: nat, d: nat, q: nat, r: nat)
    requires n == d * q + r && r < d
    ensures n / d == q
  {
    var k := n / d - q;
    assert d * k == d * (n / d) - d * q == r - n % d;
    assert k >= 1 ==> d * k >= d;
    assert k <= -1 ==> d * k + d <= 0;
  }

  /** `MemoryId::to_be_bytes`. */
  function ToBe(n: nat, width: nat): (bytes: Bytes)
    ensures |bytes| == width
  {
    if width == 0 then [] else ToBe(n / 256, width - 1) + [n % 256]
  }

  function FromBe(bytes: Bytes): (n: nat)
    ensures n < Pow256(|bytes|)
  {
    if bytes == [] then 0 else 256 * FromBe(bytes[..|bytes| - 1]) + bytes[|bytes| - 1]
  }

  /** Byte `i` is the digit of weight 256^(width - 1 - i). */
  lemma {:induction false} BeByte(n: nat, width: nat, i: nat)
    requires i < width
    ensures ToBe(n, width)[i] == n / Pow256(width - 1 - i) % 256
    decreases width
  {
    if i < width - 1 {
      BeByte(n / 256, width - 1, i);
      DivideTwice(n, Pow256(width - 2 - i));
    }
  }

  lemma {:induction false} BeRoundTrip(n: nat, width: nat)
    requires n < Pow256(width)
    ensures FromBe(ToBe(n, width)) == n
  {
    if width > 0 {
      BeRoundTrip(n / 256, width - 1);
    }
  }

  lemma {:induction false} BeCanonical(bytes: Bytes)
    ensures ToBe(FromBe(bytes), |bytes|) == bytes
  {
    if bytes != [] {
      var init, last := bytes[..|bytes| - 1], bytes[|bytes| - 1];
      BeCanonical(init);
      assert FromBe(bytes) % 256 == last && FromBe(bytes) / 256 == FromBe(init);
      assert bytes == init + [last];
    }
  }

  // ----- Cursor reads ------------------------------------------------------

  /** A value taken off the front of the input, and what is left. */
  datatype Read<T> = Truncated | Got(value: T, rest: Bytes)

  function ReadArray(bytes: Bytes, n: nat): Read<Bytes>
  {
    if |bytes| < n then Truncated else Got(bytes[..n], bytes[n..])
  }

  function ReadLe(bytes: Bytes, width: nat): Read<nat>
  {
    match ReadArray(bytes, width)
    case Truncated => Truncated
    case Got(taken, rest) => Got(FromLe(taken), rest)
  }

  lemma ReadArrayExact(value: Bytes, rest: Bytes)
    ensures ReadArray(value + rest, |value|) == Got(value, rest)
  {
    assert (value + rest)[..|value|] == value && (value + rest)[|value|..] == rest;
  }

  lemma ReadLeExact(n: nat, width: nat, rest: Bytes)
    requires n < Pow256(width)
    ensures ReadLe(ToLe(n, width) + rest, width) == Got(n, rest)
  {
    LeRoundTrip(n, width);
    ReadArrayExact(ToLe(n, width), rest);
  }

  lemma ReadArrayCanonical(bytes: Bytes, n: nat)
    requires ReadArray(bytes, n).Got?
    ensures |ReadArray(bytes, n).value| == n && bytes == ReadArray(bytes, n).value + ReadArray(bytes, n).rest
  {
    assert bytes == bytes[..n] + bytes[n..];
  }

  lemma ReadLeCanonical(bytes: Bytes, width: nat)
    requires ReadLe(bytes, width).Got?
    ensures ReadLe(bytes, width).value < Pow256(width)
    ensures bytes == ToLe(ReadLe(bytes, width).value, width) + ReadLe(bytes, width).rest
  {
    ReadArrayCanonical(bytes, width);
    LeCanonical(ReadArray(bytes, width).value);
  }

  lemma Associates(a: Bytes, b: Bytes, c: Bytes)
    ensures a + b + c == a + (b + c)
  {
  }

  /** Right-nested concatenation, as a cursor sees it, is the flat one an encoder writes. */
  lemma Flat(a: Bytes, b: Bytes, c: Bytes, d: Bytes, e: Bytes, rest: Bytes)
    ensures a + (b + (c + (d + (e + rest)))) == a + b + c + d + e + rest
  {
  }

  // ----- Repeated fields ---------------------------------------------------

  predicate EntryFits(e: (MemoryId, nat)) { e.0 < Pow256(16) && e.1 < Pow256(4) }

  predicate AllFit(entries: seq<(MemoryId, nat)>) { forall i | 0 <= i < |entries| :: EntryFits(entries[i]) }

  function EncodeEntry(e: (MemoryId, nat)): Bytes { ToBe(e.0, 16) + ToLe(e.1, 4) }

  function EncodeEntries(entries: seq<(MemoryId, nat)>): Bytes
  {
    if entries == [] then [] else EncodeEntry(entries[0]) + EncodeEntries(entries[1..])
  }

  function ReadEntry(bytes: Bytes): Read<(MemoryId, nat)>
  {
    match ReadArray(bytes, 16)
    case Truncated => Truncated
    case Got(key, rest) =>
      match ReadLe(rest, 4)
      case Truncated => Truncated
      case Got(value, rest') => Got((FromBe(key), value), rest')
  }

  function ReadEntries(bytes: Bytes, count: nat): Read<seq<(MemoryId, nat)>>
  {
    if count == 0 then Got([], bytes)
    else
      match ReadEntry(bytes)
      case Truncated => Truncated
      case Got(e, rest) =>
        match ReadEntries(rest, count - 1)
        case Truncated => Truncated
        case Got(es, rest') => Got([e] + es, rest')
  }

  lemma ReadEntryExact(e: (MemoryId, nat), rest: Bytes)
    requires EntryFits(e)
    ensures ReadEntry(EncodeEntry(e) + rest) == Got(e, rest)
  {
    var key, value := ToBe(e.0, 16), ToLe(e.1, 4);
    assert EncodeEntry(e) + rest == key + (value + rest);
    ReadArrayExact(key, value + rest);
    ReadLeExact(e.1, 4, rest);
    BeRoundTrip(e.0, 16);
  }

  lemma ReadEntryCanonical(bytes: Bytes)
    requires ReadEntry(bytes).Got?
    ensures
      var r := ReadEntry(bytes);
      EntryFits(r.value) && bytes == EncodeEntry(r.value) + r.rest
  {
    ReadArrayCanonical(bytes, 16);
    var key := ReadArray(bytes, 16);
    BeCanonical(key.value);
    ReadLeCanonical(key.rest, 4);
    var id := ReadLe(key.rest, 4);
    assert key.value + (ToLe(id.value, 4) + id.rest) == key.value + ToLe(id.value, 4) + id.rest;
  }

  lemma {:induction false} ReadEntriesExact(entries: seq<(MemoryId, nat)>, rest: Bytes)
    requires AllFit(entries)
    ensures ReadEntries(EncodeEntries(entries) + rest, |entries|) == Got(entries, rest)
  {
    if entries == [] {
      assert EncodeEntries(entries) + rest == rest;
    } else {
      var tail := EncodeEntries(entries[1..]) + rest;
      Associates(EncodeEntry(entries[0]), EncodeEntries(entries[1..]), rest);
      ReadEntryExact(entries[0], tail);
      ReadEntriesExact(entries[1..], rest);
      assert ReadEntries(tail, |entries| - 1) == Got(entries[1..], rest);
      assert entries == [entries[0]] + entries[1..];
    }
  }

  lemma {:induction false} ReadEntriesCanonical(bytes: Bytes, count: nat)
    requires ReadEntries(bytes, count).Got?
    ensures
      var r := ReadEntries(bytes, count);
      |r.value| == count && AllFit(r.value) && bytes == EncodeEntries(r.value) + r.rest
    decreases count
  {
    if count == 0 {
      assert bytes == EncodeEntries([]) + bytes;
    } else {
      ReadEntryCanonical(bytes);
      var first := ReadEntry(bytes);
      ReadEntriesCanonical(first.rest, count - 1);
      var r := ReadEntries(bytes, count);
      assert r.value[1..] == ReadEntries(first.rest, count - 1).value;
      Associates(EncodeEntry(first.value), EncodeEntries(r.value[1..]), r.rest);
    }
  }

  predicate AreU64(words: seq<nat>) { forall i | 0 <= i < |words| :: words[i] < Pow256(8) }

  function EncodeWords(words: seq<nat>): Bytes
  {
    if words == [] then [] else ToLe(words[0], 8) + EncodeWords(words[1..])
  }

  function ReadWords(bytes: Bytes, count: nat): Read<seq<nat>>
  {
    if count == 0 then Got([], bytes)
    else
      match ReadLe(bytes, 8)
      case Truncated => Truncated
      case Got(w, rest) =>
        match ReadWords(rest, count - 1)
        case Truncated => Truncated
        case Got(ws, rest') => Got([w] + ws, rest')
  }

  lemma {:induction false} ReadWordsExact(words: seq<nat>, rest: Bytes)
    requires AreU64(words)
    ensures ReadWords(EncodeWords(words) + rest, |words|) == Got(words, rest)
  {
    if words == [] {
      assert EncodeWords(words) + rest == rest;
    } else {
      var tail := EncodeWords(words[1..]) + rest;
      Associates(ToLe(words[0], 8), EncodeWords(words[1..]), rest);
      ReadLeExact(words[0], 8, tail);
      ReadWordsExact(words[1..], rest);
      assert ReadWords(tail, |words| - 1) == Got(words[1..], rest);
      assert words == [words[0]] + words[1..];
    }
  }

  lemma {:induction false} ReadWordsCanonical(bytes: Bytes, count: nat)
    requires ReadWords(bytes, count).Got?
    ensures
      var r := ReadWords(bytes, count);
      |r.value| == count && AreU64(r.value) && bytes == EncodeWords(r.value) + r.rest
    decreases count
  {
    if count == 0 {
      assert bytes == EncodeWords([]) + bytes;
    } else {
      ReadLeCanonical(bytes, 8);
      var first := ReadLe(bytes, 8);
      ReadWordsCanonical(first.rest, count - 1);
      var r := ReadWords(bytes, count);
      assert r.value[1..] == ReadWords(first.rest, count - 1).value;
      Associates(ToLe(first.value, 8), EncodeWords(r.value[1..]), r.rest);
    }
  }

  const ISIZE_MAX: nat := 0x7FFF_FFFF_FFFF_FFFF

  // ----- Body --------------------------------------------------------------

  datatype Body = Body(entries: seq<(MemoryId, nat)>, nextId: nat, words: seq<nat>, setCount: nat,
                       graphHash: Bytes, dataHash: Bytes)
  {
    /** The integer widths and hash lengths of the source's types. */
    predicate Fits()
    {
      && |entries| < Pow256(4) && AllFit(entries)
      && nextId < Pow256(4)
      && |words| < Pow256(8) && 8 * |words| <= ISIZE_MAX && AreU64(words)
      && setCount < Pow256(4)
      && |graphHash| == 32 && |dataHash| == 32
    }
  }

  /** The counts and hashes after the id map. */
  function EncodeTail(b: Body): Bytes
  {
    ToLe(b.nextId, 4) + ToLe(|b.words|, 8) + EncodeWords(b.words) + ToLe(b.setCount, 4) + b.graphHash + b.dataHash
  }

  function EncodeBody(b: Body): Bytes
  {
    ToLe(|b.entries|, 4) + EncodeEntries(b.entries) + EncodeTail(b)
  }

  /** A body taken off the front, an input cut short, or the panic of a buffer that cannot be sized. */
  datatype BodyRead = Short | Unsizable(words: nat) | Took(value: Body, rest: Bytes)

  function ReadHashes(bytes: Bytes, b: Body): BodyRead
  {
    match ReadArray(bytes, 32)
    case Truncated => Short
    case Got(graphHash, rest) =>
      match ReadArray(rest, 32)
      case Truncated => Short
      case Got(dataHash, rest') => Took(b.(graphHash := graphHash, dataHash := dataHash), rest')
  }

  /** The word buffer is sized before any word is read, and sizing it past `isize::MAX` bytes panics. */
  function ReadBitmap(bytes: Bytes, b: Body): BodyRead
  {
    match ReadLe(bytes, 8)
    case Truncated => Short
    case Got(count, rest) =>
      if 8 * count > ISIZE_MAX then Unsizable(count)
      else
        match ReadWords(rest, count)
        case Truncated => Short
        case Got(words, rest') =>
          match ReadLe(rest', 4)
          case Truncated => Short
          case Got(setCount, rest'') => ReadHashes(rest'', b.(words := words, setCount := setCount))
  }

  function ReadBody(bytes: Bytes): BodyRead
  {
    match ReadLe(bytes, 4)
    case Truncated => Short
    case Got(count, rest) =>
      match ReadEntries(rest, count)
      case Truncated => Short
      case Got(entries, rest') =>
        match ReadLe(rest', 4)
        case Truncated => Short
        case Got(nextId, rest'') => ReadBitmap(rest'', Body(entries, nextId, [], 0, [], []))
  }

  datatype BodyResult = Ok(body: Body) | BodyTruncated | TrailingBytes(count: nat) | CapacityPanic(words: nat)

  /** `ParsedBody::parse`. */
  function ParseBody(bytes: Bytes): BodyResult
  {
    match ReadBody(bytes)
    case Short => BodyTruncated
    case Unsizable(words) => CapacityPanic(words)
    case Took(body, rest) => if rest == [] then Ok(body) else TrailingBytes(|rest|)
  }

  lemma ReadHashesExact(b: Body, b0: Body, rest: Bytes)
    requires |b.graphHash| == 32 && |b.dataHash| == 32
    requires b == b0.(graphHash := b.graphHash, dataHash := b.dataHash)
    ensures ReadHashes(b.graphHash + b.dataHash + rest, b0) == Took(b, rest)
  {
    assert b.graphHash + b.dataHash + rest == b.graphHash + (b.dataHash + rest);
    ReadArrayExact(b.graphHash, b.dataHash + rest);
    ReadArrayExact(b.dataHash, rest);
  }

  lemma ReadBitmapExact(b: Body, rest: Bytes)
    requires b.Fits()
    ensures ReadBitmap(ToLe(|b.words|, 8) + EncodeWords(b.words) + ToLe(b.setCount, 4) + b.graphHash
                       + b.dataHash + rest, Body(b.entries, b.nextId, [], 0, [], [])) == Took(b, rest)
  {
    var r1 := b.graphHash + b.dataHash + rest;
    var r2 := ToLe(b.setCount, 4) + r1;
    var r3 := EncodeWords(b.words) + r2;
    Flat(ToLe(|b.words|, 8), EncodeWords(b.words), ToLe(b.setCount, 4), b.graphHash, b.dataHash, rest);
    assert b.graphHash + (b.dataHash + rest) == r1;
    ReadLeExact(|b.words|, 8, r3);
    ReadWordsExact(b.words, r2);
    ReadLeExact(b.setCount, 4, r1);
    ReadHashesExact(b, Body(b.entries, b.nextId, b.words, b.setCount, [], []), rest);
  }

  /** Reading an encoded body returns it and leaves exactly what followed. */
  lemma ReadBodyExact(b: Body, rest: Bytes)
    requires b.Fits()
    ensures ReadBody(EncodeBody(b) + rest) == Took(b, rest)
  {
    var r1 := ToLe(|b.words|, 8) + EncodeWords(b.words) + ToLe(b.setCount, 4) + b.graphHash + b.dataHash + rest;
    var r2 := ToLe(b.nextId, 4) + r1;
    var r3 := EncodeEntries(b.entries) + r2;
    TailFollows(b, r1, rest);
    BodyIs(b, rest);
    ReadLeExact(|b.entries|, 4, r3);
    ReadEntriesExact(b.entries, r2);
    ReadLeExact(b.nextId, 4, r1);
    ReadBitmapExact(b, rest);
  }

  lemma ReadBitmapCanonical(bytes: Bytes, b0: Body)
    requires ReadBitmap(bytes, b0).Took?
    ensures
      var r := ReadBitmap(bytes, b0);
      var b := r.value;
      && b.entries == b0.entries && b.nextId == b0.nextId
      && |b.words| < Pow256(8) && 8 * |b.words| <= ISIZE_MAX && AreU64(b.words) && b.setCount < Pow256(4)
      && |b.graphHash| == 32 && |b.dataHash| == 32
      && bytes == ToLe(|b.words|, 8) + EncodeWords(b.words) + ToLe(b.setCount, 4) + b.graphHash + b.dataHash + r.rest
  {
    ReadLeCanonical(bytes, 8);
    var count := ReadLe(bytes, 8);
    ReadWordsCanonical(count.rest, count.value);
    var words := ReadWords(count.rest, count.value);
    ReadLeCanonical(words.rest, 4);
    var setCount := ReadLe(words.rest, 4);
    ReadArrayCanonical(setCount.rest, 32);
    var graphHash := ReadArray(setCount.rest, 32);
    ReadArrayCanonical(graphHash.rest, 32);
    var dataHash := ReadArray(graphHash.rest, 32);
    Flat(ToLe(count.value, 8), EncodeWords(words.value), ToLe(setCount.value, 4),
         graphHash.value, dataHash.value, dataHash.rest);
  }

  /** Whatever the parser reads is the encoding of what it returns. */
  lemma ReadBodyCanonical(bytes: Bytes)
    requires ReadBody(bytes).Took?
    ensures
      var r := ReadBody(bytes);
      r.value.Fits() && bytes == EncodeBody(r.value) + r.rest
  {
    ReadLeCanonical(bytes, 4);
    var count := ReadLe(bytes, 4);
    ReadEntriesCanonical(count.rest, count.value);
    var entries := ReadEntries(count.rest, count.value);
    ReadLeCanonical(entries.rest, 4);
    var nextId := ReadLe(entries.rest, 4);
    ReadBitmapCanonical(nextId.rest, Body(entries.value, nextId.value, [], 0, [], []));
    var r := ReadBody(bytes);
    TailFollows(r.value, nextId.rest, r.rest);
    BodyIs(r.value, r.rest);
  }

  lemma BodyIs(b: Body, rest: Bytes)
    ensures ToLe(|b.entries|, 4) + (EncodeEntries(b.entries) + (EncodeTail(b) + rest)) == EncodeBody(b) + rest
  {
  }

  lemma TailFollows(b: Body, bitmap: Bytes, rest: Bytes)
    requires bitmap == ToLe(|b.words|, 8) + EncodeWords(b.words) + ToLe(b.setCount, 4) + b.graphHash + b.dataHash + rest
    ensures ToLe(b.nextId, 4) + bitmap == EncodeTail(b) + rest
  {
  }

  // ----- Where each field is -------------------------------------------------

  lemma InFirst(a: Bytes, b: Bytes, i: nat, j: nat)
    requires i <= j <= |a|
    ensures (a + b)[i..j] == a[i..j]
  {
  }

  lemma InSecond(a: Bytes, b: Bytes, i: nat, j: nat)
    requires i <= j <= |b|
    ensures (a + b)[|a| + i..|a| + j] == b[i..j]
  {
  }

  lemma Slices(bytes: Bytes, from: nat, to: nat, i: nat, j: nat)
    requires from <= to <= |bytes| && i <= j <= to - from
    ensures bytes[from + i..from + j] == bytes[from..to][i..j]
  {
    var direct, nested := bytes[from + i..from + j], bytes[from..to][i..j];
    assert |direct| == |nested| && forall k | 0 <= k < j - i :: direct[k] == nested[k];
  }

  lemma {:induction false} EntriesLength(entries: seq<(MemoryId, nat)>)
    ensures |EncodeEntries(entries)| == 20 * |entries|
  {
    if entries != [] {
      EntriesLength(entries[1..]);
    }
  }

  lemma {:induction false} WordsLength(words: seq<nat>)
    ensures |EncodeWords(words)| == 8 * |words|
  {
    if words != [] {
      WordsLength(words[1..]);
    }
  }

  /** Every entry takes 20 bytes. */
  lemma {:induction false} EntryAt(entries: seq<(MemoryId, nat)>, i: nat)
    requires i < |entries|
    ensures 20 * i + 20 <= |EncodeEntries(entries)|
    ensures EncodeEntries(entries)[20 * i..20 * i + 20] == EncodeEntry(entries[i])
  {
    EntriesLength(entries);
    var first, rest := EncodeEntry(entries[0]), EncodeEntries(entries[1..]);
    if i == 0 {
      InFirst(first, rest, 0, 20);
      assert first[0..20] == first;
    } else {
      EntryAt(entries[1..], i - 1);
      InSecond(first, rest, 20 * (i - 1), 20 * (i - 1) + 20);
    }
  }

  lemma {:induction false} WordAt(words: seq<nat>, i: nat)
    requires i < |words|
    ensures 8 * i + 8 <= |EncodeWords(words)|
    ensures EncodeWords(words)[8 * i..8 * i + 8] == ToLe(words[i], 8)
  {
    WordsLength(words);
    var first, rest := ToLe(words[0], 8), EncodeWords(words[1..]);
    assert EncodeWords(words) == first + rest;
    if i == 0 {
      InFirst(first, rest, 0, 8);
      assert first[0..8] == first;
    } else {
      WordAt(words[1..], i - 1);
      InSecond(first, rest, 8 * (i - 1), 8 * (i - 1) + 8);
    }
  }

  /** The six parts of a body, at their offsets. */
  lemma BodyParts(b: Body)
    requires |b.graphHash| == 32 && |b.dataHash| == 32
    ensures
      var bytes, at, end := EncodeBody(b), 4 + 20 * |b.entries|, 16 + 20 * |b.entries| + 8 * |b.words|;
      && |bytes| == end + 68 && bytes[..4] == ToLe(|b.entries|, 4) && bytes[4..at] == EncodeEntries(b.entries)
      && bytes[at..at + 4] == ToLe(b.nextId, 4) && bytes[at + 4..at + 12] == ToLe(|b.words|, 8)
      && bytes[at + 12..end] == EncodeWords(b.words)
      && bytes[end..end + 4] == ToLe(b.setCount, 4)
      && bytes[end + 4..end + 36] == b.graphHash && bytes[end + 36..end + 68] == b.dataHash
  {
    EntriesLength(b.entries);
    TailParts(b);
    HeadAndTail(ToLe(|b.entries|, 4), EncodeEntries(b.entries), EncodeTail(b), 4 + 20 * |b.entries|,
                12 + 8 * |b.words|, 16 + 20 * |b.entries| + 8 * |b.words|);
  }

  /** The parts of a tail, found behind the entries. */
  lemma HeadAndTail(count: Bytes, entries: Bytes, tail: Bytes, at: nat, n: nat, end: nat)
    requires |count| == 4 && |entries| == at - 4 && |tail| == n + 68 && n >= 12 && end == at + n
    ensures
      var bytes := count + entries + tail;
      && |bytes| == end + 68 && bytes[..4] == count && bytes[4..at] == entries
      && bytes[at..at + 4] == tail[..4] && bytes[at + 4..at + 12] == tail[4..12]
      && bytes[at + 12..end] == tail[12..n] && bytes[end..end + 4] == tail[n..n + 4]
      && bytes[end + 4..end + 36] == tail[n + 4..n + 36] && bytes[end + 36..end + 68] == tail[n + 36..n + 68]
  {
    TwoMore(count, entries, tail);
    InSecond(count + entries, tail, 0, 4);
    InSecond(count + entries, tail, 4, 12);
    InSecond(count + entries, tail, 12, n);
    InSecond(count + entries, tail, n, n + 4);
    InSecond(count + entries, tail, n + 4, n + 36);
    InSecond(count + entries, tail, n + 36, n + 68);
  }

  lemma TailParts(b: Body)
    requires |b.graphHash| == 32 && |b.dataHash| == 32
    ensures
      var tail, n := EncodeTail(b), 12 + 8 * |b.words|;
      && |tail| == n + 68 && tail[..4] == ToLe(b.nextId, 4) && tail[4..12] == ToLe(|b.words|, 8)
      && tail[12..n] == EncodeWords(b.words) && tail[n..n + 4] == ToLe(b.setCount, 4)
      && tail[n + 4..n + 36] == b.graphHash && tail[n + 36..n + 68] == b.dataHash
  {
    WordsLength(b.words);
    var four, six := ToLe(b.nextId, 4) + ToLe(|b.words|, 8) + EncodeWords(b.words) + ToLe(b.setCount, 4), EncodeTail(b);
    FourParts(ToLe(b.nextId, 4), ToLe(|b.words|, 8), EncodeWords(b.words), ToLe(b.setCount, 4));
    TwoMore(four, b.graphHash, b.dataHash);
    var n := 12 + 8 * |b.words|;
    Slices(six, 0, n + 4, 0, 4);
    Slices(six, 0, n + 4, 4, 12);
    Slices(six, 0, n + 4, 12, n);
    Slices(six, 0, n + 4, n, n + 4);
  }

  lemma FourParts(a: Bytes, b: Bytes, c: Bytes, d: Bytes)
    ensures
      var all, i, j := a + b + c + d, |a| + |b|, |a| + |b| + |c|;
      all[..|a|] == a && all[|a|..i] == b && all[i..j] == c && all[j..j + |d|] == d
  {
  }

  lemma TwoMore(a: Bytes, b: Bytes, c: Bytes)
    ensures
      var all, i := a + b + c, |a| + |b|;
      all[0..|a|] == a && all[|a|..i] == b && all[i..i + |c|] == c
  {
  }

  /** An entry is a big-endian memory id, then its little-endian number. */
  lemma EntryInBody(b: Body, i: nat)
    requires |b.graphHash| == 32 && |b.dataHash| == 32 && i < |b.entries|
    ensures 24 + 20 * i <= |EncodeBody(b)|
    ensures EncodeBody(b)[4 + 20 * i..20 + 20 * i] == ToBe(b.entries[i].0, 16)
    ensures EncodeBody(b)[20 + 20 * i..24 + 20 * i] == ToLe(b.entries[i].1, 4)
  {
    var bytes, at, e := EncodeBody(b), 4 + 20 * |b.entries|, EncodeEntry(b.entries[i]);
    BodyParts(b);
    EntryAt(b.entries, i);
    Slices(bytes, 4, at, 20 * i, 20 * i + 20);
    assert bytes[4 + 20 * i..24 + 20 * i] == e;
    Slices(bytes, 4 + 20 * i, 24 + 20 * i, 0, 16);
    Slices(bytes, 4 + 20 * i, 24 + 20 * i, 16, 20);
    assert e[0..16] == ToBe(b.entries[i].0, 16) && e[16..20] == ToLe(b.entries[i].1, 4);
  }

  lemma WordsInBody(b: Body)
    requires |b.graphHash| == 32 && |b.dataHash| == 32
    ensures
      var from, to := 16 + 20 * |b.entries|, 16 + 20 * |b.entries| + 8 * |b.words|;
      to <= |EncodeBody(b)| && EncodeBody(b)[from..to] == EncodeWords(b.words)
  {
    BodyParts(b);
  }

  lemma WordInBody(b: Body, j: nat)
    requires |b.graphHash| == 32 && |b.dataHash| == 32 && j < |b.words|
    ensures
      var at := 4 + 20 * |b.entries|;
      && at + 20 + 8 * j <= |EncodeBody(b)|
      && EncodeBody(b)[at + 12 + 8 * j..at + 20 + 8 * j] == ToLe(b.words[j], 8)
  {
    var from, to := 16 + 20 * |b.entries|, 16 + 20 * |b.entries| + 8 * |b.words|;
    WordsInBody(b);
    WordAt(b.words, j);
    SlicesFrom(EncodeBody(b), from, to, 8 * j, 4 + 20 * |b.entries| + 12 + 8 * j, 8);
  }

  lemma SlicesFrom(bytes: Bytes, from: nat, to: nat, i: nat, start: nat, width: nat)
    requires from <= to <= |bytes| && i + width <= to - from && start == from + i
    ensures bytes[start..start + width] == bytes[from..to][i..i + width]
  {
    Slices(bytes, from, to, i, i + width);
  }

  /** The layout of an encoded body, byte for byte. */
  lemma BodyLayout(b: Body)
    requires |b.graphHash| == 32 && |b.dataHash| == 32
    ensures
      var bytes, at, end := EncodeBody(b), 4 + 20 * |b.entries|, 16 + 20 * |b.entries| + 8 * |b.words|;
      && |bytes| == end + 68 && bytes[..4] == ToLe(|b.entries|, 4)
      && (forall i | 0 <= i < |b.entries| ::
            && bytes[4 + 20 * i..20 + 20 * i] == ToBe(b.entries[i].0, 16)
            && bytes[20 + 20 * i..24 + 20 * i] == ToLe(b.entries[i].1, 4))
      && bytes[at..at + 4] == ToLe(b.nextId, 4) && bytes[at + 4..at + 12] == ToLe(|b.words|, 8)
      && (forall j | 0 <= j < |b.words| :: bytes[at + 12 + 8 * j..at + 20 + 8 * j] == ToLe(b.words[j], 8))
      && bytes[end..end + 4] == ToLe(b.setCount, 4)
      && bytes[end + 4..end + 36] == b.graphHash && bytes[end + 36..end + 68] == b.dataHash
  {
    BodyParts(b);
    forall i | 0 <= i < |b.entries|
      ensures EncodeBody(b)[4 + 20 * i..20 + 20 * i] == ToBe(b.entries[i].0, 16)
      ensures EncodeBody(b)[20 + 20 * i..24 + 20 * i] == ToLe(b.entries[i].1, 4)
    {
      EntryInBody(b, i);
    }
    forall j | 0 <= j < |b.words|
      ensures
        var at := 4 + 20 * |b.entries|;
        EncodeBody(b)[at + 12 + 8 * j..at + 20 + 8 * j] == ToLe(b.words[j], 8)
    {
      WordInBody(b, j);
    }
  }

  /** Round trip. */
  lemma ParseEncode(b: Body)
    requires b.Fits()
    ensures ParseBody(EncodeBody(b)) == Ok(b)
  {
    ReadBodyExact(b, []);
    assert EncodeBody(b) + [] == EncodeBody(b);
  }

  /** Anything that parses re-encodes to the same bytes. */
  lemma EncodeParse(bytes: Bytes)
    requires ParseBody(bytes).Ok?
    ensures ParseBody(bytes).body.Fits() && EncodeBody(ParseBody(bytes).body) == bytes
  {
    ReadBodyCanonical(bytes);
    assert EncodeBody(ParseBody(bytes).body) + [] == EncodeBody(ParseBody(bytes).body);
  }

  /** Bytes after a valid body are counted, so no valid body is a proper prefix of another. */
  lemma ExtensionIsTrailing(bytes: Bytes, more: Bytes)
    requires ParseBody(bytes).Ok?
    ensures ParseBody(bytes + more) == if more == [] then ParseBody(bytes) else TrailingBytes(|more|)
  {
    EncodeParse(bytes);
    ReadBodyExact(ParseBody(bytes).body, more);
  }

  lemma ReadLeExtends(bytes: Bytes, width: nat, more: Bytes)
    requires ReadLe(bytes, width).Got?
    ensures ReadLe(bytes + more, width) == Got(ReadLe(bytes, width).value, ReadLe(bytes, width).rest + more)
  {
    var r := ReadLe(bytes, width);
    ReadLeCanonical(bytes, width);
    Associates(ToLe(r.value, width), r.rest, more);
    ReadLeExact(r.value, width, r.rest + more);
  }

  lemma ReadEntriesExtends(bytes: Bytes, count: nat, more: Bytes)
    requires ReadEntries(bytes, count).Got?
    ensures ReadEntries(bytes + more, count)
         == Got(ReadEntries(bytes, count).value, ReadEntries(bytes, count).rest + more)
  {
    var r := ReadEntries(bytes, count);
    ReadEntriesCanonical(bytes, count);
    Associates(EncodeEntries(r.value), r.rest, more);
    ReadEntriesExact(r.value, r.rest + more);
  }

  /** A word count too large to allocate stays one whatever follows. */
  lemma UnsizableExtends(bytes: Bytes, more: Bytes)
    requires ReadBody(bytes).Unsizable?
    ensures ReadBody(bytes + more) == ReadBody(bytes)
  {
    ReadLeExtends(bytes, 4, more);
    var count := ReadLe(bytes, 4);
    ReadEntriesExtends(count.rest, count.value, more);
    var entries := ReadEntries(count.rest, count.value);
    ReadLeExtends(entries.rest, 4, more);
    var nextId := ReadLe(entries.rest, 4);
    ReadLeExtends(nextId.rest, 8, more);
  }

  lemma TookExtends(bytes: Bytes, more: Bytes)
    requires ReadBody(bytes).Took?
    ensures ReadBody(bytes + more) == Took(ReadBody(bytes).value, ReadBody(bytes).rest + more)
  {
    var r := ReadBody(bytes);
    ReadBodyCanonical(bytes);
    Associates(EncodeBody(r.value), r.rest, more);
    ReadBodyExact(r.value, r.rest + more);
  }

  /** A truncated body is reported as truncated, without looking at any hash, and never panics. */
  lemma ProperPrefixFails(bytes: Bytes, n: nat)
    requires ParseBody(bytes).Ok? && n < |bytes|
    ensures ParseBody(bytes[..n]) == BodyTruncated
  {
    assert bytes == bytes[..n] + bytes[n..];
    match ReadBody(bytes[..n]) {
      case Short =>
      case Unsizable(_) => UnsizableExtends(bytes[..n], bytes[n..]);
      case Took(_, rest) => TookExtends(bytes[..n], bytes[n..]);
    }
  }
}
