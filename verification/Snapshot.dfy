/** Saving a snapshot as three files, stopped anywhere, and loading whatever is there. */
module Snapshots {
  import opened Ranking
  import opened TwoTier
  import opened Codec
  import opened Headers
  import opened IdMaps

  /** BLAKE3 is a parameter: a function to digests. */
  type Digest = d: Bytes | |d| == 32 witness seq(32, i => 0)

  const FOOTER_LEN: nat := 8

  /** What a save takes from the index; `entries` is its id map in iteration order. */
  datatype Image = Image(header: Header, forward: map<MemoryId, nat>, reverse: map<nat, MemoryId>, nextId: nat,
                         entries: seq<(MemoryId, nat)>, words: seq<nat>, setCount: nat)
  {
    predicate Valid()
    {
      && header.Fits() && Inverse(forward, reverse, nextId) && Lists(entries, forward)
      && Body(entries, nextId, words, setCount, seq(32, i => 0), seq(32, i => 0)).Fits()
    }
  }

  /** One save: the image and the two files its graph dump produced. */
  datatype Save = Save(image: Image, graph: Bytes, data: Bytes)

  function BodyWith(image: Image, graphHash: Digest, dataHash: Digest): Body
  {
    Body(image.entries, image.nextId, image.words, image.setCount, graphHash, dataHash)
  }

  function BodyOf(s: Save, hash: Bytes -> Digest): Body { BodyWith(s.image, hash(s.graph), hash(s.data)) }

  function Footed(pre: Bytes, hash: Bytes -> Digest): Bytes
  {
    pre + hash(pre)[..FOOTER_LEN]
  }

  function WrapperBytes(header: Header, body: Body, hash: Bytes -> Digest, crc: Bytes -> Crc): Bytes
  {
    Footed(EncodeHeader(header, crc) + EncodeBody(body), hash)
  }

  function WrapperOf(s: Save, hash: Bytes -> Digest, crc: Bytes -> Crc): Bytes
  {
    WrapperBytes(s.image.header, BodyOf(s, hash), hash, crc)
  }

  datatype Dir = Dir(graph: Option<Bytes>, data: Option<Bytes>, wrapper: Option<Bytes>)

  datatype Loaded = Loaded(forward: map<MemoryId, nat>, reverse: map<nat, MemoryId>, nextId: nat, words: seq<nat>,
                           setCount: nat, takenAtLsn: nat, graph: Bytes, data: Bytes)

  datatype LoadResult = LoadOk(loaded: Loaded) | FileMissing | BadFooter | TooSmall | BadHeader(why: HeaderResult)
                      | WrongShard | BadBody(problem: BodyResult) | GraphMismatch | DataMismatch

  predicate FooterHolds(wrapper: Bytes, hash: Bytes -> Digest)
  {
    |wrapper| >= FOOTER_LEN && wrapper == Footed(wrapper[..|wrapper| - FOOTER_LEN], hash)
  }

  function CheckSiblings(dir: Dir, body: Body, lsn: nat, hash: Bytes -> Digest): LoadResult
  {
    if dir.graph.None? then FileMissing
    else if hash(dir.graph.value) != body.graphHash then GraphMismatch
    else if dir.data.None? then FileMissing
    else if hash(dir.data.value) != body.dataHash then DataMismatch
    else LoadOk(Loaded(ForwardOf(body.entries), ReverseOf(body.entries), body.nextId, body.words, body.setCount,
                       lsn, dir.graph.value, dir.data.value))
  }

  /** `load_snapshot` up to handing the graph and data files to the graph library. */
  function Load(dir: Dir, shard: Bytes, hash: Bytes -> Digest, crc: Bytes -> Crc): LoadResult
  {
    if dir.wrapper.None? then FileMissing
    else
      var wrapper := dir.wrapper.value;
      if !FooterHolds(wrapper, hash) then BadFooter
      else if |wrapper| < HEADER_LEN + FOOTER_LEN then TooSmall
      else
        var header := ParseHeader(wrapper[..HEADER_LEN], crc);
        if !header.HeaderOk? then BadHeader(header)
        else if header.header.shardUuid != shard then WrongShard
        else
          var body := ParseBody(wrapper[HEADER_LEN..|wrapper| - FOOTER_LEN]);
          if !body.Ok? then BadBody(body) else CheckSiblings(dir, body.body, header.header.takenAtLsn, hash)
  }

  /** What loading a save must give back. */
  function Restored(s: Save): Loaded
  {
    Loaded(s.image.forward, s.image.reverse, s.image.nextId, s.image.words, s.image.setCount,
           s.image.header.takenAtLsn, s.graph, s.data)
  }

  // ----- The save protocol -------------------------------------------------

  datatype Phase = Idle | Dumping(image: Image) | Dumped(save: Save)
                 | Writing(save: Save, graphHash: Digest, dataHash: Digest)

  /** `saves`, `seen` and `author` are history: the dumps completed, the contents that ever
      stood in a graph or data file, and the save whose wrapper was written last. */
  datatype Disk = Disk(dir: Dir, phase: Phase, saves: set<Save>, seen: set<Bytes>, author: Option<Save>)

  datatype Step =
    | Begin(image: Image)
    | Tear(tornGraph: Option<Bytes>, tornData: Option<Bytes>)
    | FinishDump(graph: Bytes, data: Bytes)
    | HashSiblings
    | WriteWrapper(n: nat)
    | Stop

  const Empty := Disk(Dir(None, None, None), Idle, {}, {}, None)

  function Contents(o: Option<Bytes>): set<Bytes> { if o.Some? then {o.value} else {} }

  /** One step of a save; a step that does not fit the phase changes nothing. `Tear` leaves any
      contents at all in the siblings, `WriteWrapper(n)` any prefix of the wrapper, and `Stop`
      abandons the save where it is. */
  function Next(sys: Disk, step: Step, hash: Bytes -> Digest, crc: Bytes -> Crc): Disk
  {
    match step
    case Begin(image) =>
      if sys.phase.Idle? && image.Valid() && image.forward != map[] then sys.(phase := Dumping(image)) else sys
    case Tear(graph, data) =>
      if sys.phase.Dumping? then
        sys.(dir := sys.dir.(graph := graph, data := data), seen := sys.seen + Contents(graph) + Contents(data))
      else sys
    case FinishDump(graph, data) =>
      if sys.phase.Dumping? then
        var s := Save(sys.phase.image, graph, data);
        sys.(dir := sys.dir.(graph := Some(graph), data := Some(data)), seen := sys.seen + {graph, data},
             saves := sys.saves + {s}, phase := Dumped(s))
      else sys
    case HashSiblings =>
      if sys.phase.Dumped? && sys.dir.graph.Some? && sys.dir.data.Some? then
        sys.(phase := Writing(sys.phase.save, hash(sys.dir.graph.value), hash(sys.dir.data.value)))
      else sys
    case WriteWrapper(n) =>
      if sys.phase.Writing? then
        var image := sys.phase.save.image;
        var bytes := WrapperBytes(image.header, BodyWith(image, sys.phase.graphHash, sys.phase.dataHash), hash, crc);
        if n < |bytes| then sys.(dir := sys.dir.(wrapper := Some(bytes[..n])), author := Some(sys.phase.save))
        else sys.(dir := sys.dir.(wrapper := Some(bytes)), author := Some(sys.phase.save), phase := Idle)
      else sys
    case Stop => sys.(phase := Idle)
  }

  function Run(steps: seq<Step>, hash: Bytes -> Digest, crc: Bytes -> Crc): Disk
  {
    if steps == [] then Empty else Next(Run(steps[..|steps| - 1], hash, crc), steps[|steps| - 1], hash, crc)
  }

  predicate PhaseHolds(sys: Disk, hash: Bytes -> Digest)
  {
    match sys.phase
    case Idle => true
    case Dumping(image) => image.Valid()
    case Dumped(s) => s in sys.saves && sys.dir.graph == Some(s.graph) && sys.dir.data == Some(s.data)
    case Writing(s, g, d) =>
      && s in sys.saves && sys.dir.graph == Some(s.graph) && sys.dir.data == Some(s.data)
      && g == hash(s.graph) && d == hash(s.data)
  }

  predicate HistoryHolds(sys: Disk)
  {
    && Contents(sys.dir.graph) <= sys.seen && Contents(sys.dir.data) <= sys.seen
    && (forall s | s in sys.saves :: s.image.Valid() && s.graph in sys.seen && s.data in sys.seen)
  }

  /** The wrapper file is a prefix of the wrapper some save was to write. */
  predicate WrapperHolds(sys: Disk, hash: Bytes -> Digest, crc: Bytes -> Crc)
  {
    sys.dir.wrapper.Some? ==>
      && sys.author.Some? && sys.author.value in sys.saves
      && sys.dir.wrapper.value <= WrapperOf(sys.author.value, hash, crc)
  }

  predicate Inv(sys: Disk, hash: Bytes -> Digest, crc: Bytes -> Crc)
  {
    PhaseHolds(sys, hash) && HistoryHolds(sys) && WrapperHolds(sys, hash, crc)
  }

  lemma NextKeepsPhase(sys: Disk, step: Step, hash: Bytes -> Digest, crc: Bytes -> Crc)
    requires PhaseHolds(sys, hash)
    ensures PhaseHolds(Next(sys, step, hash, crc), hash)
  {
  }

  lemma NextKeepsHistory(sys: Disk, step: Step, hash: Bytes -> Digest, crc: Bytes -> Crc)
    requires PhaseHolds(sys, hash) && HistoryHolds(sys)
    ensures HistoryHolds(Next(sys, step, hash, crc))
  {
  }

  /** What a wrapper write leaves: a prefix of the save's wrapper, or all of it and no save in hand. */
  lemma WriteLeavesPrefix(sys: Disk, n: nat, hash: Bytes -> Digest, crc: Bytes -> Crc)
    requires PhaseHolds(sys, hash) && sys.phase.Writing?
    ensures
      var s, after := sys.phase.save, Next(sys, WriteWrapper(n), hash, crc);
      var w := WrapperOf(s, hash, crc);
      && after.author == Some(s) && after.saves == sys.saves
      && after.dir == sys.dir.(wrapper := Some(if n < |w| then w[..n] else w))
      && (after.phase.Idle? <==> |w| <= n)
  {
  }

  lemma NextKeepsWrapper(sys: Disk, step: Step, hash: Bytes -> Digest, crc: Bytes -> Crc)
    requires PhaseHolds(sys, hash) && WrapperHolds(sys, hash, crc)
    ensures WrapperHolds(Next(sys, step, hash, crc), hash, crc)
  {
    if step.WriteWrapper? && sys.phase.Writing? {
      WriteLeavesPrefix(sys, step.n, hash, crc);
    }
  }

  lemma {:induction false} RunKeepsInv(steps: seq<Step>, hash: Bytes -> Digest, crc: Bytes -> Crc)
    ensures Inv(Run(steps, hash, crc), hash, crc)
  {
    if steps != [] {
      RunKeepsInv(steps[..|steps| - 1], hash, crc);
      var before, step := Run(steps[..|steps| - 1], hash, crc), steps[|steps| - 1];
      NextKeepsPhase(before, step, hash, crc);
      NextKeepsHistory(before, step, hash, crc);
      NextKeepsWrapper(before, step, hash, crc);
    }
  }

  // ----- Loading -----------------------------------------------------------

  /** Taking a wrapper apart at the load's offsets gives back the parts it was made of. */
  lemma WrapperParts(header: Bytes, body: Bytes, hash: Bytes -> Digest)
    requires |header| == HEADER_LEN
    ensures
      var w := Footed(header + body, hash);
      && FooterHolds(w, hash) && |w| == HEADER_LEN + |body| + FOOTER_LEN
      && w[..HEADER_LEN] == header && w[HEADER_LEN..|w| - FOOTER_LEN] == body
  {
    var w := Footed(header + body, hash);
    assert w[..|w| - FOOTER_LEN] == header + body;
  }

  /** A cut wrapper shows the load a cut body. */
  lemma PrefixParts(w: Bytes, n: nat)
    requires HEADER_LEN + FOOTER_LEN <= n <= |w|
    ensures w[..n][..HEADER_LEN] == w[..HEADER_LEN]
    ensures w[..n][HEADER_LEN..n - FOOTER_LEN] == w[HEADER_LEN..|w| - FOOTER_LEN][..n - FOOTER_LEN - HEADER_LEN]
  {
  }

  lemma SaveParses(s: Save, hash: Bytes -> Digest, crc: Bytes -> Crc)
    requires s.image.Valid()
    ensures |EncodeHeader(s.image.header, crc)| == HEADER_LEN
    ensures ParseHeader(EncodeHeader(s.image.header, crc), crc) == HeaderOk(s.image.header)
    ensures ParseBody(EncodeBody(BodyOf(s, hash))) == Ok(BodyOf(s, hash))
    ensures ForwardOf(s.image.entries) == s.image.forward && ReverseOf(s.image.entries) == s.image.reverse
  {
    ParseEncodeHeader(s.image.header, crc);
    ParseEncode(BodyOf(s, hash));
    SnapshotRestoresMaps(s.image.entries, s.image.forward, s.image.reverse, s.image.nextId);
  }

  /** A whole wrapper loads to its own save, or fails on the shard or a sibling. */
  lemma WholeWrapperLoads(dir: Dir, shard: Bytes, s: Save, hash: Bytes -> Digest, crc: Bytes -> Crc)
    requires s.image.Valid() && dir.wrapper == Some(WrapperOf(s, hash, crc))
    ensures Load(dir, shard, hash, crc) ==
            if s.image.header.shardUuid != shard then WrongShard
            else CheckSiblings(dir, BodyOf(s, hash), s.image.header.takenAtLsn, hash)
  {
    SaveParses(s, hash, crc);
    WrapperParts(EncodeHeader(s.image.header, crc), EncodeBody(BodyOf(s, hash)), hash);
  }

  lemma WholeSaveLoads(dir: Dir, s: Save, hash: Bytes -> Digest, crc: Bytes -> Crc)
    requires s.image.Valid() && dir == Dir(Some(s.graph), Some(s.data), Some(WrapperOf(s, hash, crc)))
    ensures Load(dir, s.image.header.shardUuid, hash, crc) == LoadOk(Restored(s))
  {
    WholeWrapperLoads(dir, s.image.header.shardUuid, s, hash, crc);
    SaveParses(s, hash, crc);
  }

  /** What a load says of a torn wrapper. */
  predicate Torn(r: LoadResult) { r.BadFooter? || r.TooSmall? || r.WrongShard? || r == BadBody(BodyTruncated) }

  lemma LoadNeedsBody(dir: Dir, shard: Bytes, hash: Bytes -> Digest, crc: Bytes -> Crc, wrapper: Bytes)
    requires dir.wrapper == Some(wrapper)
    requires |wrapper| >= HEADER_LEN + FOOTER_LEN ==>
               && ParseHeader(wrapper[..HEADER_LEN], crc).HeaderOk?
               && ParseBody(wrapper[HEADER_LEN..|wrapper| - FOOTER_LEN]) == BodyTruncated
    ensures Torn(Load(dir, shard, hash, crc))
  {
  }

  lemma CutFails(dir: Dir, shard: Bytes, hash: Bytes -> Digest, crc: Bytes -> Crc, w: Bytes, n: nat, body: Bytes)
    requires |w| == HEADER_LEN + |body| + FOOTER_LEN && w[HEADER_LEN..|w| - FOOTER_LEN] == body && ParseBody(body).Ok?
    requires ParseHeader(w[..HEADER_LEN], crc).HeaderOk?
    requires n < |w| && dir.wrapper == Some(w[..n])
    ensures Torn(Load(dir, shard, hash, crc))
  {
    if HEADER_LEN + FOOTER_LEN <= n {
      PrefixParts(w, n);
      ProperPrefixFails(body, n - FOOTER_LEN - HEADER_LEN);
    }
    LoadNeedsBody(dir, shard, hash, crc, w[..n]);
  }

  /** A wrapper cut short never loads and never panics, whatever its footer bytes say. */
  lemma CutWrapperFails(dir: Dir, shard: Bytes, s: Save, n: nat, hash: Bytes -> Digest, crc: Bytes -> Crc)
    requires s.image.Valid() && n < |WrapperOf(s, hash, crc)| && dir.wrapper == Some(WrapperOf(s, hash, crc)[..n])
    ensures Torn(Load(dir, shard, hash, crc))
  {
    SaveParses(s, hash, crc);
    WrapperParts(EncodeHeader(s.image.header, crc), EncodeBody(BodyOf(s, hash)), hash);
    CutFails(dir, shard, hash, crc, WrapperOf(s, hash, crc), n, EncodeBody(BodyOf(s, hash)));
  }

  /** Whatever loads is a whole wrapper: a header, a body and the digest of the two. */
  lemma LoadedIsWrapper(dir: Dir, shard: Bytes, hash: Bytes -> Digest, crc: Bytes -> Crc)
    returns (header: Header, body: Body)
    requires Load(dir, shard, hash, crc).LoadOk?
    ensures header.Fits() && body.Fits() && header.shardUuid == shard
    ensures dir.wrapper == Some(WrapperBytes(header, body, hash, crc))
    ensures Load(dir, shard, hash, crc) == CheckSiblings(dir, body, header.takenAtLsn, hash)
  {
    var wrapper := dir.wrapper.value;
    var pre, front, back := wrapper[..|wrapper| - FOOTER_LEN], wrapper[..HEADER_LEN],
                            wrapper[HEADER_LEN..|wrapper| - FOOTER_LEN];
    header, body := ParseHeader(front, crc).header, ParseBody(back).body;
    EncodeParseHeader(front, crc, header);
    EncodeParse(back);
    assert pre == front + back;
  }

  /** Bytes changed anywhere before the footer are found out, unless the footer's digest collides. */
  lemma AlteredWrapperFails(dir: Dir, shard: Bytes, hash: Bytes -> Digest, crc: Bytes -> Crc, s: Save, altered: Bytes)
    requires s.image.Valid() && dir.wrapper == Some(altered) && |altered| == |WrapperOf(s, hash, crc)|
    requires
      var w := WrapperOf(s, hash, crc);
      altered != w && altered[|w| - FOOTER_LEN..] == w[|w| - FOOTER_LEN..]
    requires Load(dir, shard, hash, crc).LoadOk?
    ensures
      var w := WrapperOf(s, hash, crc);
      var was, pre := w[..|w| - FOOTER_LEN], altered[..|w| - FOOTER_LEN];
      pre != was && hash(pre)[..FOOTER_LEN] == hash(was)[..FOOTER_LEN]
  {
    var w, n := WrapperOf(s, hash, crc), |altered| - FOOTER_LEN;
    var header, body := LoadedIsWrapper(dir, shard, hash, crc);
    FootedParts(EncodeHeader(header, crc) + EncodeBody(body), hash);
    FootedParts(EncodeHeader(s.image.header, crc) + EncodeBody(BodyOf(s, hash)), hash);
    assert altered == altered[..n] + altered[n..] && w == w[..n] + w[n..];
  }

  lemma FootedParts(pre: Bytes, hash: Bytes -> Digest)
    ensures
      var w := Footed(pre, hash);
      |w| == |pre| + FOOTER_LEN && w[..|pre|] == pre && w[|pre|..] == hash(pre)[..FOOTER_LEN]
  {
  }

  predicate CollisionFree(contents: set<Bytes>, hash: Bytes -> Digest)
  {
    forall a, b | a in contents && b in contents && hash(a) == hash(b) :: a == b
  }

  lemma LoadedWrapperIsWhole(sys: Disk, shard: Bytes, hash: Bytes -> Digest, crc: Bytes -> Crc)
    requires Inv(sys, hash, crc) && Load(sys.dir, shard, hash, crc).LoadOk?
    ensures sys.author.Some? && sys.dir.wrapper == Some(WrapperOf(sys.author.value, hash, crc))
  {
    var w, n := WrapperOf(sys.author.value, hash, crc), |sys.dir.wrapper.value|;
    assert sys.dir.wrapper.value == w[..n];
    if n < |w| {
      CutWrapperFails(sys.dir, shard, sys.author.value, n, hash, crc);
    } else {
      assert w[..n] == w;
    }
  }

  /** A load that succeeds returns the save whose wrapper was written last. */
  lemma LoadIsAuthors(sys: Disk, shard: Bytes, hash: Bytes -> Digest, crc: Bytes -> Crc)
    requires Inv(sys, hash, crc) && CollisionFree(sys.seen, hash) && Load(sys.dir, shard, hash, crc).LoadOk?
    ensures
      && sys.author.Some? && sys.author.value in sys.saves && sys.author.value.image.header.shardUuid == shard
      && Load(sys.dir, shard, hash, crc) == LoadOk(Restored(sys.author.value))
  {
    LoadedWrapperIsWhole(sys, shard, hash, crc);
    WholeWrapperLoads(sys.dir, shard, sys.author.value, hash, crc);
    SaveParses(sys.author.value, hash, crc);
  }

  /** Whatever sequence of saves led here, each stopped at any step, a load fails or returns
      exactly one save: its id map, tombstones and LSN with its own graph and data. */
  lemma LoadIsOneSave(steps: seq<Step>, shard: Bytes, hash: Bytes -> Digest, crc: Bytes -> Crc)
    requires CollisionFree(Run(steps, hash, crc).seen, hash)
    ensures
      var sys := Run(steps, hash, crc);
      var r := Load(sys.dir, shard, hash, crc);
      r.LoadOk? ==> exists s | s in sys.saves :: s.image.header.shardUuid == shard && r.loaded == Restored(s)
  {
    RunKeepsInv(steps, hash, crc);
    if Load(Run(steps, hash, crc).dir, shard, hash, crc).LoadOk? {
      LoadIsAuthors(Run(steps, hash, crc), shard, hash, crc);
    }
  }

  /** A save that ran to the end loads back as itself, with no assumption on the hashes. */
  lemma FinishedSaveLoads(steps: seq<Step>, n: nat, hash: Bytes -> Digest, crc: Bytes -> Crc)
    requires Run(steps, hash, crc).phase.Writing?
    requires Next(Run(steps, hash, crc), WriteWrapper(n), hash, crc).phase.Idle?
    ensures
      var s := Run(steps, hash, crc).phase.save;
      var dir := Next(Run(steps, hash, crc), WriteWrapper(n), hash, crc).dir;
      Load(dir, s.image.header.shardUuid, hash, crc) == LoadOk(Restored(s))
  {
    RunKeepsInv(steps, hash, crc);
    WriteLeavesPrefix(Run(steps, hash, crc), n, hash, crc);
    var sys := Run(steps, hash, crc);
    WholeSaveLoads(Next(sys, WriteWrapper(n), hash, crc).dir, sys.phase.save, hash, crc);
  }

  /** The first three steps of a save, from an idle disk. */
  lemma SaveGetsReady(sys: Disk, s: Save, hash: Bytes -> Digest, crc: Bytes -> Crc)
    requires sys.phase.Idle? && s.image.Valid() && s.image.forward != map[]
    ensures
      var dumping := Next(sys, Begin(s.image), hash, crc);
      var dumped := Next(dumping, FinishDump(s.graph, s.data), hash, crc);
      var after := Next(dumped, HashSiblings, hash, crc);
      && after.phase == Writing(s, hash(s.graph), hash(s.data)) && s in after.saves
      && after.dir == Dir(Some(s.graph), Some(s.data), sys.dir.wrapper)
  {
  }

  lemma WrittenLoads(sys: Disk, s: Save, n: nat, hash: Bytes -> Digest, crc: Bytes -> Crc)
    requires s.image.Valid() && n >= |WrapperOf(s, hash, crc)| && s in sys.saves
    requires sys.phase == Writing(s, hash(s.graph), hash(s.data))
    requires sys.dir.graph == Some(s.graph) && sys.dir.data == Some(s.data)
    ensures
      var after := Next(sys, WriteWrapper(n), hash, crc);
      && after.phase.Idle? && s in after.saves && after.author == Some(s)
      && Load(after.dir, s.image.header.shardUuid, hash, crc) == LoadOk(Restored(s))
  {
    WriteLeavesPrefix(sys, n, hash, crc);
    WholeSaveLoads(Next(sys, WriteWrapper(n), hash, crc).dir, s, hash, crc);
  }

  /** Whatever earlier saves left behind, a save left alone goes through, and then loads back. */
  lemma NextSaveLoads(steps: seq<Step>, s: Save, n: nat, hash: Bytes -> Digest, crc: Bytes -> Crc)
    requires s.image.Valid() && s.image.forward != map[] && n >= |WrapperOf(s, hash, crc)|
    ensures
      var stopped := Next(Run(steps, hash, crc), Stop, hash, crc);
      var dumping := Next(stopped, Begin(s.image), hash, crc);
      var dumped := Next(dumping, FinishDump(s.graph, s.data), hash, crc);
      var writing := Next(dumped, HashSiblings, hash, crc);
      var done := Next(writing, WriteWrapper(n), hash, crc);
      && done.phase.Idle? && s in done.saves && done.author == Some(s)
      && Load(done.dir, s.image.header.shardUuid, hash, crc) == LoadOk(Restored(s))
  {
    var stopped := Next(Run(steps, hash, crc), Stop, hash, crc);
    var dumping := Next(stopped, Begin(s.image), hash, crc);
    var dumped := Next(dumping, FinishDump(s.graph, s.data), hash, crc);
    SaveGetsReady(stopped, s, hash, crc);
    WrittenLoads(Next(dumped, HashSiblings, hash, crc), s, n, hash, crc);
  }
}
