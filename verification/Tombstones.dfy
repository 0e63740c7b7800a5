/** The bit-packed tombstone bitmap, proved to be a set of ids with an exact running counter. */
module Tombstones {

  function Pow2(n: nat): (p: nat)
    ensures p > 0
  {
    if n == 0 then 1 else 2 * Pow2(n - 1)
  }

  // A 64-bit word is the number it stores; its bits are read by halving.

  /** `w & (1 << bit) != 0` */
  predicate Has(word: nat, bit: nat)
    decreases bit
  {
    if bit == 0 then word % 2 == 1 else Has(word / 2, bit - 1)
  }

  /** `w | (1 << bit)` */
  function With(word: nat, bit: nat): nat
    decreases bit
  {
    if bit == 0 then 2 * (word / 2) + 1 else 2 * With(word / 2, bit - 1) + word % 2
  }

  /** `w & !(1 << bit)` */
  function Without(word: nat, bit: nat): nat
    decreases bit
  {
    if bit == 0 then 2 * (word / 2) else 2 * Without(word / 2, bit - 1) + word % 2
  }

  lemma Halves(x: nat, r: nat)
    requires r < 2
    ensures (2 * x + r) / 2 == x && (2 * x + r) % 2 == r
  {
  }

  /** Setting a bit leaves every other bit of the word alone. */
  lemma {:induction false} WithHas(word: nat, bit: nat, other: nat)
    ensures Has(With(word, bit), other) <==> other == bit || Has(word, other)
    decreases bit
  {
    if bit == 0 {
      Halves(word / 2, 1);
    } else {
      Halves(With(word / 2, bit - 1), word % 2);
      if other > 0 {
        WithHas(word / 2, bit - 1, other - 1);
      }
    }
  }

  /** And so does clearing one. */
  lemma {:induction false} WithoutHas(word: nat, bit: nat, other: nat)
    ensures Has(Without(word, bit), other) <==> other != bit && Has(word, other)
    decreases bit
  {
    if bit == 0 {
      Halves(word / 2, 0);
    } else {
      Halves(Without(word / 2, bit - 1), word % 2);
      if other > 0 {
        WithoutHas(word / 2, bit - 1, other - 1);
      }
    }
  }

  /** In place-value terms the two operations add or take away `2^bit`, or do nothing. */
  lemma {:induction false} OneBitWeighs(word: nat, bit: nat)
    ensures With(word, bit) == if Has(word, bit) then word else word + Pow2(bit)
    ensures Without(word, bit) == if Has(word, bit) then word - Pow2(bit) else word
    decreases bit
  {
    if bit > 0 {
      OneBitWeighs(word / 2, bit - 1);
    }
  }

  lemma DoubleFits(x: nat, r: nat, half: nat)
    requires x < half && r < 2
    ensures 2 * x + r < 2 * half
  {
  }

  lemma {:induction false} OneBitFits(word: nat, bit: nat, width: nat)
    requires bit < width && word < Pow2(width)
    ensures With(word, bit) < Pow2(width) && Without(word, bit) < Pow2(width)
    decreases bit
  {
    var half := Pow2(width - 1);
    assert word / 2 < half;
    if bit == 0 {
      DoubleFits(word / 2, 1, half);
    } else {
      OneBitFits(word / 2, bit - 1, width - 1);
      DoubleFits(With(word / 2, bit - 1), word % 2, half);
    }
    OneBitWeighs(word, bit);
  }

  lemma {:induction false} ZeroHasNone(bit: nat)
    ensures !Has(0, bit)
    decreases bit
  {
    if bit > 0 {
      ZeroHasNone(bit - 1);
    }
  }

  /** Is the bit of `id` set? Words past the end read as zero. */
  predicate Marked(bits: seq<nat>, id: nat)
  {
    id / 64 < |bits| && Has(bits[id / 64], id % 64)
  }

  function MarkedIds(bits: seq<nat>): set<nat>
  {
    set id | 0 <= id < 64 * |bits| && Marked(bits, id)
  }

  predicate AreWords(bits: seq<nat>)
  {
    forall i | 0 <= i < |bits| :: bits[i] < Pow2(64)
  }

  lemma ReplacedWord(bits: seq<nat>, id: nat, word: nat, other: nat)
    requires id / 64 < |bits|
    ensures Marked(bits[id / 64 := word], other)
       <==> if other / 64 == id / 64 then Has(word, other % 64) else Marked(bits, other)
  {
  }

  lemma SetBitMarks(bits: seq<nat>, id: nat, other: nat)
    requires id / 64 < |bits| && !Marked(bits, id)
    ensures Marked(bits[id / 64 := With(bits[id / 64], id % 64)], other) <==> other == id || Marked(bits, other)
  {
    ReplacedWord(bits, id, With(bits[id / 64], id % 64), other);
    WithHas(bits[id / 64], id % 64, other % 64);
  }

  lemma ClearBitMarks(bits: seq<nat>, id: nat, other: nat)
    requires Marked(bits, id)
    ensures Marked(bits[id / 64 := Without(bits[id / 64], id % 64)], other) <==> other != id && Marked(bits, other)
  {
    ReplacedWord(bits, id, Without(bits[id / 64], id % 64), other);
    WithoutHas(bits[id / 64], id % 64, other % 64);
  }

  /** Setting a clear bit adds exactly that id. */
  lemma SetBitAdds(bits: seq<nat>, id: nat)
    requires id / 64 < |bits| && !Marked(bits, id) && AreWords(bits)
    ensures
      var after := bits[id / 64 := With(bits[id / 64], id % 64)];
      && AreWords(after)
      && MarkedIds(after) == MarkedIds(bits) + {id}
      && |MarkedIds(after)| == |MarkedIds(bits)| + 1
  {
    var after := bits[id / 64 := With(bits[id / 64], id % 64)];
    OneBitFits(bits[id / 64], id % 64, 64);
    forall other: nat ensures Marked(after, other) <==> other == id || Marked(bits, other) {
      SetBitMarks(bits, id, other);
    }
    assert MarkedIds(after) == MarkedIds(bits) + {id};
  }

  lemma OneLessMark(bits: seq<nat>, after: seq<nat>, id: nat)
    requires Marked(bits, id) && |after| == |bits|
    requires forall other: nat :: Marked(after, other) <==> other != id && Marked(bits, other)
    ensures MarkedIds(after) == MarkedIds(bits) - {id} && |MarkedIds(after)| == |MarkedIds(bits)| - 1
  {
    assert id in MarkedIds(bits);
    assert MarkedIds(after) == MarkedIds(bits) - {id};
  }

  /** Clearing a set bit removes exactly that id. */
  lemma ClearBitRemoves(bits: seq<nat>, id: nat)
    requires Marked(bits, id) && AreWords(bits)
    ensures
      var after := bits[id / 64 := Without(bits[id / 64], id % 64)];
      && AreWords(after)
      && MarkedIds(after) == MarkedIds(bits) - {id}
      && |MarkedIds(after)| == |MarkedIds(bits)| - 1
  {
    var after := bits[id / 64 := Without(bits[id / 64], id % 64)];
    OneBitFits(bits[id / 64], id % 64, 64);
    forall other: nat ensures Marked(after, other) <==> other != id && Marked(bits, other) {
      ClearBitMarks(bits, id, other);
    }
    OneLessMark(bits, after, id);
  }

  function Zeroes(n: nat): (words: seq<nat>)
    ensures |words| == n && forall i | 0 <= i < n :: words[i] == 0
  {
    seq(n, i => 0)
  }

  /** Growing with zero words marks nothing new. */
  lemma GrowMarks(bits: seq<nat>, n: nat)
    ensures MarkedIds(bits + Zeroes(n)) == MarkedIds(bits)
  {
    forall id: nat
      ensures Marked(bits + Zeroes(n), id) <==> Marked(bits, id)
    {
      ZeroHasNone(id % 64);
    }
  }

  function IdsIn(ids: seq<nat>): set<nat> { set p | p in ids }

  lemma OneMoreId(ids: seq<nat>, i: nat)
    requires i < |ids|
    ensures IdsIn(ids[..i + 1]) == IdsIn(ids[..i]) + {ids[i]}
  {
    assert ids[..i + 1] == ids[..i] + [ids[i]];
  }

  class TombstoneBitmap {
    var bits: seq<nat>
    var count: nat

    ghost function Ids(): set<nat>
      reads this
    {
      MarkedIds(bits)
    }

    /** The counter is the number of set bits over all words. */
    ghost predicate Valid()
      reads this
    {
      AreWords(bits) && count == |Ids()|
    }

    constructor ()
      ensures Valid() && Ids() == {}
    {
      bits, count := [], 0;
    }

    /** `from_snapshot` trusts the stored counter, so it must be the one that was counted. */
    constructor FromSnapshot(words: seq<nat>, setCount: nat)
      requires AreWords(words)
      ensures Ids() == MarkedIds(words) && count == setCount
      ensures Valid() <==> setCount == |MarkedIds(words)|
    {
      bits, count := words, setCount;
    }

    /** The lazy `resize` of `set`. */
    method EnsureWord(word: nat)
      requires Valid()
      modifies this`bits
      ensures Valid() && word < |bits| && Ids() == old(Ids())
    {
      if word >= |bits| {
        GrowMarks(bits, word + 1 - |bits|);
        bits := bits + Zeroes(word + 1 - |bits|);
      }
    }

    method Set(id: nat)
      requires Valid()
      modifies this
      ensures Valid() && Ids() == old(Ids()) + {id}
    {
      var word, bit := id / 64, id % 64;
      EnsureWord(word);
      if !Has(bits[word], bit) {
        SetBitAdds(bits, id);
        bits := bits[word := With(bits[word], bit)];
        count := count + 1;
      }
    }

    method ClearOne(id: nat)
      requires Valid()
      modifies this
      ensures Valid() && Ids() == old(Ids()) - {id}
    {
      var word, bit := id / 64, id % 64;
      if word >= |bits| {
        return;
      }
      if Has(bits[word], bit) {
        ClearBitRemoves(bits, id);
        bits := bits[word := Without(bits[word], bit)];
        count := count - 1;
      }
    }

    /** A loop of `set` calls. */
    method SetAll(ids: seq<nat>)
      requires Valid()
      modifies this
      ensures Valid() && Ids() == old(Ids()) + IdsIn(ids)
    {
      for i := 0 to |ids|
        invariant Valid() && Ids() == old(Ids()) + IdsIn(ids[..i])
      {
        OneMoreId(ids, i);
        Set(ids[i]);
      }
      assert ids[..|ids|] == ids;
    }

    /** `clear` zeroes the words in place and keeps their number. */
    method Clear()
      modifies this
      ensures Valid() && Ids() == {} && |bits| == old(|bits|)
    {
      GrowMarks([], |bits|);
      assert [] + Zeroes(|bits|) == Zeroes(|bits|);
      bits, count := Zeroes(|bits|), 0;
    }

    method IsSet(id: nat) returns (marked: bool)
      ensures marked <==> id in Ids()
    {
      marked := id / 64 < |bits| && Has(bits[id / 64], id % 64);
    }
  }
}
