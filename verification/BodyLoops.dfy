/** The loops of the body codec, which append to a buffer or advance a cursor. */
module BodyLoops {
  import opened Codec
  import opened TwoTier

  method AppendEntries(start: Bytes, entries: seq<(MemoryId, nat)>) returns (buffer: Bytes)
    ensures buffer == start + EncodeEntries(entries)
  {
    buffer := start;
    for i := 0 to |entries|
      invariant buffer + EncodeEntries(entries[i..]) == start + EncodeEntries(entries)
    {
      ghost var rest := entries[i + 1..];
      assert entries[i..][0] == entries[i] && entries[i..][1..] == rest;
      assert buffer + (EncodeEntry(entries[i]) + EncodeEntries(rest))
        == buffer + EncodeEntry(entries[i]) + EncodeEntries(rest);
      buffer := buffer + EncodeEntry(entries[i]);
    }
  }

  method AppendWords(start: Bytes, words: seq<nat>) returns (buffer: Bytes)
    ensures buffer == start + EncodeWords(words)
  {
    buffer := start;
    for i := 0 to |words|
      invariant buffer + EncodeWords(words[i..]) == start + EncodeWords(words)
    {
      ghost var rest := words[i + 1..];
      assert words[i..][0] == words[i] && words[i..][1..] == rest;
      assert buffer + (ToLe(words[i], 8) + EncodeWords(rest)) == buffer + ToLe(words[i], 8) + EncodeWords(rest);
      buffer := buffer + ToLe(words[i], 8);
    }
  }

  /** `Body::encode`. */
  method Encode(b: Body) returns (bytes: Bytes)
    requires b.Fits()
    ensures bytes == EncodeBody(b) && ParseBody(bytes) == Ok(b)
  {
    var count, nextId, words, hashes :=
      ToLe(|b.entries|, 4), ToLe(b.nextId, 4), ToLe(|b.words|, 8), b.graphHash + b.dataHash;
    var entries := AppendEntries(count, b.entries);
    var upToWords := AppendWords(entries + nextId + words, b.words);
    bytes := upToWords + ToLe(b.setCount, 4) + hashes;
    Assembles(entries, nextId, words, EncodeWords(b.words), ToLe(b.setCount, 4), b.graphHash, b.dataHash);
    ParseEncode(b);
  }

  lemma Assembles(a: Bytes, b: Bytes, c: Bytes, d: Bytes, e: Bytes, f: Bytes, g: Bytes)
    ensures a + b + c + d + e + (f + g) == a + (b + c + d + e + f + g)
  {
  }

  /** A read that continues after `done`. */
  function After<T>(done: seq<T>, r: Read<seq<T>>): Read<seq<T>>
  {
    match r
    case Truncated => Truncated
    case Got(value, rest) => Got(done + value, rest)
  }

  lemma AfterNothing<T>(r: Read<seq<T>>)
    ensures After([], r) == r
  {
    assert r.Got? ==> [] + r.value == r.value;
  }

  lemma AfterOne<T>(done: seq<T>, x: T, r: Read<seq<T>>)
    ensures After(done, After([x], r)) == After(done + [x], r)
  {
    assert r.Got? ==> done + ([x] + r.value) == done + [x] + r.value;
  }

  method TakeEntries(bytes: Bytes, count: nat) returns (r: Read<seq<(MemoryId, nat)>>)
    ensures r == ReadEntries(bytes, count)
  {
    var cursor, entries := bytes, [];
    AfterNothing(ReadEntries(bytes, count));
    for i := 0 to count
      invariant ReadEntries(bytes, count) == After(entries, ReadEntries(cursor, count - i))
    {
      var next := ReadEntry(cursor);
      if next.Truncated? {
        return Truncated;
      }
      AfterOne(entries, next.value, ReadEntries(next.rest, count - i - 1));
      entries, cursor := entries + [next.value], next.rest;
    }
    r := Got(entries, cursor);
    assert entries + [] == entries;
  }

  method TakeWords(bytes: Bytes, count: nat) returns (r: Read<seq<nat>>)
    ensures r == ReadWords(bytes, count)
  {
    var cursor, words := bytes, [];
    AfterNothing(ReadWords(bytes, count));
    for i := 0 to count
      invariant ReadWords(bytes, count) == After(words, ReadWords(cursor, count - i))
    {
      var next := ReadLe(cursor, 8);
      if next.Truncated? {
        return Truncated;
      }
      AfterOne(words, next.value, ReadWords(next.rest, count - i - 1));
      words, cursor := words + [next.value], next.rest;
    }
    r := Got(words, cursor);
    assert words + [] == words;
  }

  /** `ParsedBody::parse`. */
  method Parse(bytes: Bytes) returns (r: BodyResult)
    ensures r == ParseBody(bytes)
    ensures r.Ok? <==> exists b: Body :: b.Fits() && EncodeBody(b) == bytes
  {
    if ParseBody(bytes).Ok? {
      EncodeParse(bytes);
    }
    forall b: Body | b.Fits() && EncodeBody(b) == bytes
      ensures ParseBody(bytes).Ok?
    {
      ParseEncode(b);
    }
    var count := ReadLe(bytes, 4);
    if count.Truncated? { return BodyTruncated; }
    var entries := TakeEntries(count.rest, count.value);
    if entries.Truncated? { return BodyTruncated; }
    var nextId := ReadLe(entries.rest, 4);
    if nextId.Truncated? { return BodyTruncated; }
    var wordCount := ReadLe(nextId.rest, 8);
    if wordCount.Truncated? { return BodyTruncated; }
    if 8 * wordCount.value > ISIZE_MAX { return CapacityPanic(wordCount.value); }
    var words := TakeWords(wordCount.rest, wordCount.value);
    if words.Truncated? { return BodyTruncated; }
    var setCount := ReadLe(words.rest, 4);
    if setCount.Truncated? { return BodyTruncated; }
    var graphHash := ReadArray(setCount.rest, 32);
    if graphHash.Truncated? { return BodyTruncated; }
    var dataHash := ReadArray(graphHash.rest, 32);
    if dataHash.Truncated? { return BodyTruncated; }
    if dataHash.rest != [] {
      return TrailingBytes(|dataHash.rest|);
    }
    r := Ok(Body(entries.value, nextId.value, words.value, setCount.value, graphHash.value, dataHash.value));
  }
}
