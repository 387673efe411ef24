/**
 Boot config streaming: the journal cuts a compressed overlay into chunks, the agent
 puts it back together. The zstd and serde codecs are parameters.
 */
module BootStream {
  import opened ConfigTypes

  type Byte = x: int | 0 <= x < 256

  const CHUNK_SIZE: nat := 65536

  datatype BootOverlay = BootOverlay(vclusterId: string, version: nat, data: seq<Byte>, checksum: string)

  datatype Chunk =
    | BaseOverlay(version: nat, vclusterId: string, data: seq<Byte>, chunkIndex: nat, totalChunks: nat, checksum: string)
    | NodeDelta(nodeId: string, version: nat, data: seq<Byte>)
    | Complete(baseVersion: nat, nodeVersion: nat)
    | Unset

  datatype Request = Request(nodeId: string, vclusterId: string, lastKnownVersion: Option<nat>)

  datatype Response = Stream(chunks: seq<Chunk>) | NotFound

  /** The codecs of both ends; `encode` and `decode` may fail. */
  datatype Codecs = Codecs(
    encode: seq<Byte> -> Option<seq<Byte>>,
    decode: seq<Byte> -> Option<seq<Byte>>,
    serialize: seq<ConfigEntry> -> seq<Byte>,
    deserialize: seq<Byte> -> Option<seq<ConfigEntry>>)

  // ---- The journal's side ----

  /** `max(1, ceil(len / CHUNK_SIZE))`. */
  function ChunkCount(len: nat): nat {
    if len == 0 then 1 else (len + CHUNK_SIZE - 1) / CHUNK_SIZE
  }

  /** The end of the `i`-th piece of `len` bytes. */
  function Cut(i: nat, len: nat): nat {
    if i * CHUNK_SIZE <= len then i * CHUNK_SIZE else len
  }

  /** What goes over the wire: the compressed data, or the data itself if compression fails. */
  function Payload(overlay: BootOverlay, codecs: Codecs): seq<Byte> {
    match codecs.encode(overlay.data)
    case Some(encoded) => encoded
    case None => overlay.data
  }

  lemma CutMonotone(i: nat, len: nat)
    ensures Cut(i, len) <= Cut(i + 1, len) <= len
    ensures Cut(i + 1, len) - Cut(i, len) <= CHUNK_SIZE
  {
  }

  /** The `i`-th chunk of an overlay whose payload is `data`. */
  function Piece(overlay: BootOverlay, data: seq<Byte>, i: nat): (c: Chunk)
    ensures c.BaseOverlay? && |c.data| <= CHUNK_SIZE
  {
    CutMonotone(i, |data|);
    BaseOverlay(overlay.version, overlay.vclusterId, data[Cut(i, |data|)..Cut(i + 1, |data|)],
                i, ChunkCount(|data|), overlay.checksum)
  }

  /** `chunks` is `data` cut into `ChunkCount` pieces numbered from 0. */
  ghost predicate IsChunking(chunks: seq<Chunk>, overlay: BootOverlay, data: seq<Byte>) {
    && |chunks| == ChunkCount(|data|)
    && forall i :: 0 <= i < |chunks| ==> chunks[i] == Piece(overlay, data, i)
  }

  /** A chunk's counters are 32 bits wide in the source; they fit for any overlay below 256 TiB. */
  method ChunkOverlay(overlay: BootOverlay, data: seq<Byte>) returns (chunks: seq<Chunk>)
    ensures IsChunking(chunks, overlay, data)
    ensures if data == [] then |chunks| == 1 else (|chunks| - 1) * 65536 < |data| <= |chunks| * 65536
    ensures forall i :: 0 <= i < |chunks| ==>
              && chunks[i].BaseOverlay? && chunks[i].version == overlay.version
              && chunks[i].vclusterId == overlay.vclusterId && chunks[i].checksum == overlay.checksum
              && chunks[i].chunkIndex == i && chunks[i].totalChunks == |chunks| && |chunks[i].data| <= 65536
    ensures Bytes(chunks) == data
  {
    chunks := [];
    if data == [] {
      chunks := [BaseOverlay(overlay.version, overlay.vclusterId, [], 0, 1, overlay.checksum)];
      ChunkingIs(chunks, overlay, data);
      return;
    }
    var total := ChunkCount(|data|);
    var i := 0;
    while i < total
      invariant 0 <= i <= total && |chunks| == i
      invariant forall k :: 0 <= k < i ==> chunks[k] == Piece(overlay, data, k)
    {
      CutMonotone(i, |data|);
      chunks := chunks + [BaseOverlay(overlay.version, overlay.vclusterId,
                                      data[Cut(i, |data|)..Cut(i + 1, |data|)], i, total, overlay.checksum)];
      i := i + 1;
    }
    ChunkingIs(chunks, overlay, data);
  }

  lemma ChunkCountIs(len: nat)
    ensures if len == 0 then ChunkCount(len) == 1 else (ChunkCount(len) - 1) * 65536 < len <= ChunkCount(len) * 65536
  {
  }

  /** What a chunking is: numbered pieces of at most 64 KiB, as few as that allows, that join to the data. */
  lemma ChunkingIs(chunks: seq<Chunk>, overlay: BootOverlay, data: seq<Byte>)
    requires IsChunking(chunks, overlay, data)
    ensures if data == [] then |chunks| == 1 else (|chunks| - 1) * 65536 < |data| <= |chunks| * 65536
    ensures forall i :: 0 <= i < |chunks| ==>
              && chunks[i].BaseOverlay? && chunks[i].version == overlay.version
              && chunks[i].vclusterId == overlay.vclusterId && chunks[i].checksum == overlay.checksum
              && chunks[i].chunkIndex == i && chunks[i].totalChunks == |chunks| && |chunks[i].data| <= 65536
    ensures Bytes(chunks) == data
  {
    ChunkCountIs(|data|);
    CutBounds(|data|);
    PiecesJoin(chunks, overlay, data, |chunks|);
    assert chunks[..|chunks|] == chunks && data[..|data|] == data;
  }

  /** What the overlay pieces among the chunks carry, one after the other. */
  function Bytes(chunks: seq<Chunk>): seq<Byte> {
    if chunks == [] then []
    else
      var c := chunks[|chunks| - 1];
      Bytes(chunks[..|chunks| - 1]) + if c.BaseOverlay? then c.data else []
  }

  lemma {:induction false} PiecesJoin(chunks: seq<Chunk>, overlay: BootOverlay, data: seq<Byte>, k: nat)
    requires IsChunking(chunks, overlay, data) && k <= |chunks|
    ensures Cut(k, |data|) <= |data| && Bytes(chunks[..k]) == data[..Cut(k, |data|)]
  {
    CutMonotone(k, |data|);
    if k == 0 {
      assert data[..Cut(0, |data|)] == [];
    } else {
      PiecesJoin(chunks, overlay, data, k - 1);
      CutMonotone(k - 1, |data|);
      assert chunks[..k][..k - 1] == chunks[..k - 1] && chunks[..k][k - 1] == Piece(overlay, data, k - 1);
      assert data[..Cut(k - 1, |data|)] + Piece(overlay, data, k - 1).data == data[..Cut(k, |data|)];
    }
  }

  lemma CutBounds(len: nat)
    ensures Cut(0, len) == 0 && Cut(ChunkCount(len), len) == len
    ensures forall i: nat :: i < ChunkCount(len) && len > 0 ==> Cut(i, len) < len
  {
  }

  predicate BelongsTo(entry: ConfigEntry, nodeId: string) {
    entry.scope == Node(nodeId)
  }

  /** The entries scoped to the node, in sequence order. */
  function NodeEntries(log: seq<ConfigEntry>, nodeId: string): seq<ConfigEntry> {
    if log == [] then []
    else
      var rest := NodeEntries(log[..|log| - 1], nodeId);
      var entry := log[|log| - 1];
      if BelongsTo(entry, nodeId) then rest + [entry] else rest
  }

  function BuildNodeDelta(log: seq<ConfigEntry>, nodeId: string, codecs: Codecs): seq<Byte> {
    var entries := NodeEntries(log, nodeId);
    if entries == [] then [] else codecs.serialize(entries)
  }

  ghost predicate Ascending(ps: seq<nat>) {
    forall i, j :: 0 <= i < j < |ps| ==> ps[i] < ps[j]
  }

  ghost predicate Below(ps: seq<nat>, n: nat) {
    forall p :: p in ps ==> p < n
  }

  ghost predicate NodesAt(log: seq<ConfigEntry>, nodeId: string, ps: seq<nat>) {
    forall p: nat :: p < |log| ==> (p in ps <==> log[p].scope == Node(nodeId))
  }

  /** `ps` are the positions of the node's entries in the log, in order. */
  ghost predicate Selects(log: seq<ConfigEntry>, nodeId: string, ps: seq<nat>) {
    Ascending(ps) && Below(ps, |log|) && NodesAt(log, nodeId, ps)
  }

  ghost predicate Picks(log: seq<ConfigEntry>, ps: seq<nat>, entries: seq<ConfigEntry>) {
    |entries| == |ps| && forall i :: 0 <= i < |ps| ==> ps[i] < |log| && entries[i] == log[ps[i]]
  }

  /** `entries` are the log's entries scoped to the node, each at its own position and in log order. */
  ghost predicate ListsNode(log: seq<ConfigEntry>, nodeId: string, entries: seq<ConfigEntry>) {
    exists ps: seq<nat> :: Selects(log, nodeId, ps) && Picks(log, ps, entries)
  }

  /** The node delta: the node's entries serialized, or nothing if there are none. */
  ghost predicate IsNodeDelta(delta: seq<Byte>, log: seq<ConfigEntry>, nodeId: string, codecs: Codecs) {
    exists entries :: ListsNode(log, nodeId, entries) && delta == if entries == [] then [] else codecs.serialize(entries)
  }

  lemma {:induction false} NodeEntriesListed(log: seq<ConfigEntry>, nodeId: string) returns (ps: seq<nat>)
    ensures Selects(log, nodeId, ps) && Picks(log, ps, NodeEntries(log, nodeId))
  {
    ps := [];
    if log != [] {
      var front, entry := log[..|log| - 1], log[|log| - 1];
      ps := NodeEntriesListed(front, nodeId);
      assert log == front + [entry];
      NodesOneMore(front, entry, nodeId, ps);
      PicksOneMore(front, entry, ps, NodeEntries(front, nodeId));
      if entry.scope == Node(nodeId) {
        AscendingOneMore(ps, |front|);
        ps := ps + [|front|];
      }
    }
  }

  lemma AscendingOneMore(ps: seq<nat>, n: nat)
    requires Ascending(ps) && Below(ps, n)
    ensures Ascending(ps + [n]) && Below(ps + [n], n + 1)
  {
    assert forall i :: 0 <= i < |ps| ==> ps[i] in ps;
  }

  lemma NodesOneMore(front: seq<ConfigEntry>, entry: ConfigEntry, nodeId: string, ps: seq<nat>)
    requires Below(ps, |front|) && NodesAt(front, nodeId, ps)
    ensures NodesAt(front + [entry], nodeId, if entry.scope == Node(nodeId) then ps + [|front|] else ps)
    ensures Below(ps, |front| + 1)
  {
    forall p: nat | p < |front| + 1
      ensures p in ps + [|front|] <==> p in ps || p == |front|
      ensures p < |front| ==> (front + [entry])[p] == front[p]
    {
    }
  }

  lemma PicksOneMore(front: seq<ConfigEntry>, entry: ConfigEntry, ps: seq<nat>, entries: seq<ConfigEntry>)
    requires Picks(front, ps, entries)
    ensures Picks(front + [entry], ps, entries) && Picks(front + [entry], ps + [|front|], entries + [entry])
  {
  }

  lemma FirstSelected(log: seq<ConfigEntry>, nodeId: string, ps: seq<nat>)
    requires Selects(log, nodeId, ps)
    ensures ps == [] || (ps[0] < |log| && log[ps[0]].scope == Node(nodeId))
  {
    if ps != [] {
      assert ps[0] in ps;
    }
  }

  lemma NodeDeltaIs(log: seq<ConfigEntry>, nodeId: string, codecs: Codecs)
    ensures IsNodeDelta(BuildNodeDelta(log, nodeId, codecs), log, nodeId, codecs)
  {
    var ps := NodeEntriesListed(log, nodeId);
    assert ListsNode(log, nodeId, NodeEntries(log, nodeId));
  }

  /** The chunks that follow the overlay: the node delta if there is one, then the marker. */
  function Tail(version: nat, nodeId: string, delta: seq<Byte>): seq<Chunk> {
    (if delta == [] then [] else [NodeDelta(nodeId, version, delta)]) + [Complete(version, version)]
  }

  method StreamBootConfig(overlays: map<string, BootOverlay>, log: seq<ConfigEntry>, req: Request, codecs: Codecs)
    returns (r: Response)
    ensures r.NotFound? <==> req.vclusterId !in overlays
    ensures r.Stream? && req.lastKnownVersion.Some? && req.lastKnownVersion.value >= overlays[req.vclusterId].version
            ==> r.chunks == [Complete(overlays[req.vclusterId].version, 0)]
    ensures r.Stream? && !(req.lastKnownVersion.Some? && req.lastKnownVersion.value >= overlays[req.vclusterId].version)
            ==> var overlay := overlays[req.vclusterId];
                exists pieces, delta ::
                  && IsChunking(pieces, overlay, Payload(overlay, codecs)) && IsNodeDelta(delta, log, req.nodeId, codecs)
                  && r.chunks == pieces + (if delta == [] then [] else [NodeDelta(req.nodeId, overlay.version, delta)])
                                 + [Complete(overlay.version, overlay.version)]
  {
    if req.vclusterId !in overlays {
      return NotFound;
    }
    var overlay := overlays[req.vclusterId];
    if req.lastKnownVersion.Some? && req.lastKnownVersion.value >= overlay.version {
      return Stream([Complete(overlay.version, 0)]);
    }
    var pieces := ChunkOverlay(overlay, Payload(overlay, codecs));
    var delta := BuildNodeDelta(log, req.nodeId, codecs);
    NodeDeltaIs(log, req.nodeId, codecs);
    r := Stream(pieces + Tail(overlay.version, req.nodeId, delta));
    assert r.chunks == pieces + (if delta == [] then [] else [NodeDelta(req.nodeId, overlay.version, delta)])
                       + [Complete(overlay.version, overlay.version)];
  }

  // ---- The agent's side ----

  datatype Item = Received(chunk: Chunk) | TransportError

  datatype Assembly = Assembly(overlay: seq<Byte>, delta: seq<Byte>, version: nat)

  datatype BootResult = Booted(config: Assembly) | Failed

  function Absorb(a: Assembly, c: Chunk): Assembly {
    match c
    case BaseOverlay(version, _, data, _, _, _) => a.(overlay := a.overlay + data, version := version)
    case NodeDelta(_, _, data) => a.(delta := data)
    case Complete(_, _) => a
    case Unset => a
  }

  /** What the receive loop makes of a stream, starting from `a`: it stops at the marker or the end. */
  function Collect(a: Assembly, items: seq<Item>): BootResult
    decreases |items|
  {
    if items == [] then Booted(a)
    else if items[0].TransportError? then Failed
    else if items[0].chunk.Complete? then Booted(a)
    else Collect(Absorb(a, items[0].chunk), items[1..])
  }

  /** Decompression of anything of at least four bytes; what does not decompress is kept as it is. */
  function Decompress(data: seq<Byte>, codecs: Codecs): seq<Byte> {
    if |data| < 4 then data
    else
      match codecs.decode(data)
      case Some(decoded) => decoded
      case None => data
  }

  const EMPTY: Assembly := Assembly([], [], 0)

  method ReceiveBootConfig(items: seq<Item>, codecs: Codecs) returns (r: BootResult)
    ensures r == match Collect(EMPTY, items)
                 case Failed => Failed
                 case Booted(a) => Booted(a.(overlay := Decompress(a.overlay, codecs)))
  {
    var overlay: seq<Byte>, delta: seq<Byte>, version := [], [], 0;
    var i := 0;
    while i < |items|
      invariant 0 <= i <= |items|
      invariant Collect(EMPTY, items) == Collect(Assembly(overlay, delta, version), items[i..])
    {
      if items[i].TransportError? {
        return Failed;
      }
      match items[i].chunk {
        case BaseOverlay(v, _, data, _, _, _) =>
          overlay := overlay + data;
          version := v;
        case NodeDelta(_, _, data) =>
          delta := data;
        case Complete(_, _) =>
          break;
        case Unset =>
      }
      assert items[i..][1..] == items[i + 1..];
      i := i + 1;
    }
    r := Booted(Assembly(Decompress(overlay, codecs), delta, version));
  }

  // ---- The round trip ----

  function Sent(chunks: seq<Chunk>): seq<Item> {
    seq(|chunks|, i requires 0 <= i < |chunks| => Received(chunks[i]))
  }

  lemma {:induction false} CollectAppend(a: Assembly, pre: seq<Chunk>, rest: seq<Chunk>)
    requires forall c :: c in pre ==> !c.Complete?
    ensures Collect(a, Sent(pre)).Booted?
    ensures Collect(a, Sent(pre + rest)) == Collect(Collect(a, Sent(pre)).config, Sent(rest))
    decreases |pre|
  {
    if pre == [] {
      assert pre + rest == rest;
    } else {
      assert (pre + rest)[1..] == pre[1..] + rest;
      assert Sent(pre)[1..] == Sent(pre[1..]);
      assert Sent(pre + rest)[1..] == Sent(pre[1..] + rest);
      CollectAppend(Absorb(a, pre[0]), pre[1..], rest);
    }
  }

  /** After `k` overlay chunks the agent holds exactly the first `k` pieces. */
  lemma {:induction false} CollectChunks(chunks: seq<Chunk>, overlay: BootOverlay, data: seq<Byte>, k: nat)
    requires IsChunking(chunks, overlay, data) && k <= |chunks|
    ensures Cut(k, |data|) <= |data|
    ensures Collect(EMPTY, Sent(chunks[..k]))
         == Booted(Assembly(data[..Cut(k, |data|)], [], if k == 0 then 0 else overlay.version))
  {
    CutMonotone(k, |data|);
    if k == 0 {
      assert data[..Cut(0, |data|)] == [];
    } else {
      CollectChunks(chunks, overlay, data, k - 1);
      CutMonotone(k - 1, |data|);
      var front, c := chunks[..k - 1], Piece(overlay, data, k - 1);
      assert chunks[..k] == front + [c];
      CollectAppend(EMPTY, front, [c]);
      CollectOne(Collect(EMPTY, Sent(front)).config, c);
      assert data[..Cut(k - 1, |data|)] + c.data == data[..Cut(k, |data|)];
    }
  }

  lemma CollectOne(a: Assembly, c: Chunk)
    ensures Collect(a, Sent([c])) == Booted(Absorb(a, c))
  {
    assert Sent([c]) == [Received(c)];
    assert [Received(c)][1..] == [];
  }

  lemma CollectTail(a: Assembly, version: nat, nodeId: string, delta: seq<Byte>)
    requires a.delta == []
    ensures Collect(a, Sent(Tail(version, nodeId, delta))) == Booted(a.(delta := delta))
  {
    var marker := Complete(version, version);
    assert Sent([marker])[0] == Received(marker);
    if delta == [] {
      assert Tail(version, nodeId, delta) == [marker];
    } else {
      var nd := NodeDelta(nodeId, version, delta);
      assert Tail(version, nodeId, delta) == [nd] + [marker];
      CollectOne(a, nd);
      CollectAppend(a, [nd], [marker]);
    }
  }

  /** The whole stream hands the agent the payload, the version and the node delta. */
  lemma CollectStream(chunks: seq<Chunk>, overlay: BootOverlay, data: seq<Byte>, nodeId: string, delta: seq<Byte>)
    requires IsChunking(chunks, overlay, data)
    ensures Collect(EMPTY, Sent(chunks + Tail(overlay.version, nodeId, delta)))
         == Booted(Assembly(data, delta, overlay.version))
  {
    CutBounds(|data|);
    CollectChunks(chunks, overlay, data, |chunks|);
    assert chunks[..|chunks|] == chunks;
    assert data[..Cut(|chunks|, |data|)] == data;
    CollectAppend(EMPTY, chunks, Tail(overlay.version, nodeId, delta));
    CollectTail(Assembly(data, [], overlay.version), overlay.version, nodeId, delta);
  }

  /** The delta of the last chunk that carries one. */
  function LastDelta(chunks: seq<Chunk>): seq<Byte> {
    if chunks == [] then []
    else if chunks[|chunks| - 1].NodeDelta? then chunks[|chunks| - 1].data
    else LastDelta(chunks[..|chunks| - 1])
  }

  function LastVersion(chunks: seq<Chunk>): nat {
    if chunks == [] then 0
    else if chunks[|chunks| - 1].BaseOverlay? then chunks[|chunks| - 1].version
    else LastVersion(chunks[..|chunks| - 1])
  }

  /**
   What the receive loop makes of any stream: up to the first marker it joins the pieces and
   keeps the last delta and the last version, whatever else comes.
   */
  lemma {:induction false} CollectIs(chunks: seq<Chunk>)
    requires forall c :: c in chunks ==> !c.Complete?
    ensures Collect(EMPTY, Sent(chunks)) == Booted(Assembly(Bytes(chunks), LastDelta(chunks), LastVersion(chunks)))
  {
    if chunks != [] {
      var front, c := chunks[..|chunks| - 1], chunks[|chunks| - 1];
      assert chunks == front + [c];
      CollectIs(front);
      CollectAppend(EMPTY, front, [c]);
      CollectOne(Collect(EMPTY, Sent(front)).config, c);
    }
  }

  /** The marker ends the loop, and an error before it fails the boot, whatever follows. */
  lemma {:induction false} CollectEnds(a: Assembly, pre: seq<Chunk>, last: Item, rest: seq<Item>)
    requires forall c :: c in pre ==> !c.Complete?
    requires last.TransportError? || last.chunk.Complete?
    ensures Collect(a, Sent(pre) + [last] + rest) == if last.TransportError? then Failed else Collect(a, Sent(pre))
    decreases |pre|
  {
    var items := Sent(pre) + [last] + rest;
    if pre == [] {
      assert items[0] == last;
    } else {
      assert items[0] == Received(pre[0]) && items[1..] == Sent(pre[1..]) + [last] + rest;
      assert Sent(pre)[1..] == Sent(pre[1..]);
      CollectEnds(Absorb(a, pre[0]), pre[1..], last, rest);
    }
  }

  /** Uncompressed data survives the agent's decompression attempt. */
  predicate SurvivesRaw(data: seq<Byte>, codecs: Codecs) {
    |data| < 4 || codecs.decode(data).None? || codecs.decode(data) == Some(data)
  }

  /**
   Journal to agent: for every overlay and node delta, the agent ends up with the overlay's
   version and the delta, and with its bytes exactly when the overlay was compressed (by a
   codec that inverts itself and emits at least four bytes) or happens not to look like
   compressed data itself.
   */
  lemma BootRoundTrip(chunks: seq<Chunk>, overlay: BootOverlay, nodeId: string, delta: seq<Byte>, codecs: Codecs)
    requires IsChunking(chunks, overlay, Payload(overlay, codecs))
    requires var encoded := codecs.encode(overlay.data);
             encoded.Some? ==> |encoded.value| >= 4 && codecs.decode(encoded.value) == Some(overlay.data)
    ensures var r := Collect(EMPTY, Sent(chunks + Tail(overlay.version, nodeId, delta)));
            && r.Booted? && r.config.version == overlay.version && r.config.delta == delta
            && (Decompress(r.config.overlay, codecs) == overlay.data <==>
                  codecs.encode(overlay.data).Some? || SurvivesRaw(overlay.data, codecs))
  {
    CollectStream(chunks, overlay, Payload(overlay, codecs), nodeId, delta);
  }

  /** Deserializing undoes serializing. */
  ghost predicate SerializerInverts(codecs: Codecs) {
    forall entries :: codecs.deserialize(codecs.serialize(entries)) == Some(entries)
  }

  /** What the agent can read of its delta: exactly the node's entries, in log order; no bytes if there are none. */
  ghost predicate DeltaReads(delta: seq<Byte>, log: seq<ConfigEntry>, nodeId: string, codecs: Codecs) {
    if forall i :: 0 <= i < |log| ==> log[i].scope != Node(nodeId) then delta == []
    else
      && codecs.deserialize(delta).Some?
      && ListsNode(log, nodeId, codecs.deserialize(delta).value)
  }

  lemma NodeDeltaReads(delta: seq<Byte>, log: seq<ConfigEntry>, nodeId: string, codecs: Codecs)
    requires IsNodeDelta(delta, log, nodeId, codecs) && SerializerInverts(codecs)
    ensures DeltaReads(delta, log, nodeId, codecs)
  {
    var entries :| ListsNode(log, nodeId, entries) && delta == if entries == [] then [] else codecs.serialize(entries);
    var ps: seq<nat> :| Selects(log, nodeId, ps) && Picks(log, ps, entries);
    FirstSelected(log, nodeId, ps);
    if i :| 0 <= i < |log| && log[i].scope == Node(nodeId) {
      assert i in ps;
    }
  }

  /** A first boot, both ends together: the agent asks without a known version. */
  method BootFromJournal(overlays: map<string, BootOverlay>, log: seq<ConfigEntry>,
                         nodeId: string, vclusterId: string, codecs: Codecs) returns (r: BootResult)
    requires vclusterId in overlays ==>
               var data := overlays[vclusterId].data;
               codecs.encode(data).Some? ==>
                 |codecs.encode(data).value| >= 4 && codecs.decode(codecs.encode(data).value) == Some(data)
    ensures r.Booted? <==> vclusterId in overlays
    ensures r.Booted? ==>
              var overlay := overlays[vclusterId];
              && r.config.version == overlay.version
              && IsNodeDelta(r.config.delta, log, nodeId, codecs)
              && (SerializerInverts(codecs) ==> DeltaReads(r.config.delta, log, nodeId, codecs))
              && (r.config.overlay == overlay.data <==>
                    codecs.encode(overlay.data).Some? || SurvivesRaw(overlay.data, codecs))
  {
    var response := StreamBootConfig(overlays, log, Request(nodeId, vclusterId, None), codecs);
    if response.NotFound? {
      return Failed;
    }
    ghost var overlay := overlays[vclusterId];
    ghost var pieces, delta := StreamParts(response.chunks, overlay, log, nodeId, codecs);
    BootRoundTrip(pieces, overlay, nodeId, delta, codecs);
    if SerializerInverts(codecs) {
      NodeDeltaReads(delta, log, nodeId, codecs);
    }
    r := ReceiveBootConfig(Sent(response.chunks), codecs);
  }

  lemma StreamParts(chunks: seq<Chunk>, overlay: BootOverlay, log: seq<ConfigEntry>, nodeId: string, codecs: Codecs)
    returns (pieces: seq<Chunk>, delta: seq<Byte>)
    requires exists pieces, delta ::
               && IsChunking(pieces, overlay, Payload(overlay, codecs)) && IsNodeDelta(delta, log, nodeId, codecs)
               && chunks == pieces + (if delta == [] then [] else [NodeDelta(nodeId, overlay.version, delta)])
                            + [Complete(overlay.version, overlay.version)]
    ensures IsChunking(pieces, overlay, Payload(overlay, codecs)) && IsNodeDelta(delta, log, nodeId, codecs)
    ensures chunks == pieces + Tail(overlay.version, nodeId, delta)
  {
    pieces, delta :|
      && IsChunking(pieces, overlay, Payload(overlay, codecs)) && IsNodeDelta(delta, log, nodeId, codecs)
      && chunks == pieces + (if delta == [] then [] else [NodeDelta(nodeId, overlay.version, delta)])
                   + [Complete(overlay.version, overlay.version)];
    assert chunks == pieces + Tail(overlay.version, nodeId, delta);
  }

  // ---- A stream that ends early ----

  /** What is left of a payload of `n` pieces, a delta and a version when only `k` chunks arrive. */
  function CutShort(data: seq<Byte>, delta: seq<Byte>, version: nat, n: nat, k: nat): Assembly {
    CutMonotone(if k <= n then k else n, |data|);
    Assembly(data[..Cut(if k <= n then k else n, |data|)],
             if k <= n then [] else delta,
             if k == 0 then 0 else version)
  }

  /** How many chunks carry something: the pieces, and the delta if there is one. The marker does not. */
  function Needed(data: seq<Byte>, delta: seq<Byte>): nat {
    ChunkCount(|data|) + if delta == [] then 0 else 1
  }

  /** A stream cut anywhere boots, with what the chunks that arrived carried. */
  lemma CollectCut(chunks: seq<Chunk>, overlay: BootOverlay, data: seq<Byte>, nodeId: string, delta: seq<Byte>, k: nat)
    requires IsChunking(chunks, overlay, data) && k <= |chunks + Tail(overlay.version, nodeId, delta)|
    ensures Collect(EMPTY, Sent((chunks + Tail(overlay.version, nodeId, delta))[..k]))
         == Booted(CutShort(data, delta, overlay.version, |chunks|, k))
  {
    var tail := Tail(overlay.version, nodeId, delta);
    if k <= |chunks| {
      assert (chunks + tail)[..k] == chunks[..k];
      CollectChunks(chunks, overlay, data, k);
    } else if k == |chunks + tail| {
      assert (chunks + tail)[..k] == chunks + tail;
      CollectStream(chunks, overlay, data, nodeId, delta);
      CutBounds(|data|);
      assert data[..|data|] == data;
    } else {
      var nd := NodeDelta(nodeId, overlay.version, delta);
      assert (chunks + tail)[..k] == chunks + [nd];
      CollectChunks(chunks, overlay, data, |chunks|);
      assert chunks[..|chunks|] == chunks;
      CollectAppend(EMPTY, chunks, [nd]);
      CollectOne(Collect(EMPTY, Sent(chunks)).config, nd);
    }
  }

  /**
   A stream that ends early is not reported as an error. The agent has collected the whole
   configuration if and only if every piece and the node delta arrived (or there was nothing
   to carry at all); without the delta it boots just the same.
   */
  lemma CutStreamBoots(chunks: seq<Chunk>, overlay: BootOverlay, data: seq<Byte>, nodeId: string, delta: seq<Byte>, k: nat)
    requires IsChunking(chunks, overlay, data) && k <= |chunks + Tail(overlay.version, nodeId, delta)|
    ensures var r := Collect(EMPTY, Sent((chunks + Tail(overlay.version, nodeId, delta))[..k]));
            && r.Booted?
            && (r.config == Assembly(data, delta, overlay.version) <==>
                  || k >= Needed(data, delta)
                  || (data == [] && delta == [] && overlay.version == 0))
  {
    CollectCut(chunks, overlay, data, nodeId, delta, k);
    CutBounds(|data|);
    var have := CutShort(data, delta, overlay.version, |chunks|, k);
    assert k < |chunks| && data != [] ==> |have.overlay| < |data|;
    assert k >= |chunks| ==> have.overlay == data;
  }

  /**
   Both ends together, decompression included, when only the first `arrived` chunks get
   through: what the agent boots with, and, for a codec that rejects a payload cut short, that
   it is the configuration of the uncut stream if and only if all that carries something
   arrived, or the delta is empty and the bytes that arrived are, as they are, those of the overlay.
   */
  method BootFromCutStream(overlays: map<string, BootOverlay>, log: seq<ConfigEntry>, nodeId: string,
                           vclusterId: string, codecs: Codecs, arrived: nat) returns (r: BootResult)
    ensures r.Booted? <==> vclusterId in overlays
    ensures r.Booted? ==>
              var overlay := overlays[vclusterId];
              var data := Payload(overlay, codecs);
              exists delta :: IsNodeDelta(delta, log, nodeId, codecs) &&
                var have := CutShort(data, delta, overlay.version, ChunkCount(|data|), arrived);
                && r.config == Unpacked(have, codecs)
                && (RejectsCut(data, codecs) ==>
                      (r.config == Unpacked(Assembly(data, delta, overlay.version), codecs) <==>
                         || arrived >= Needed(data, delta)
                         || (delta == [] && (arrived > 0 || overlay.version == 0)
                             && have.overlay == Decompress(data, codecs))))
  {
    var response := StreamBootConfig(overlays, log, Request(nodeId, vclusterId, None), codecs);
    if response.NotFound? {
      return Failed;
    }
    ghost var overlay := overlays[vclusterId];
    ghost var data := Payload(overlay, codecs);
    ghost var pieces, delta := StreamParts(response.chunks, overlay, log, nodeId, codecs);
    var k := if arrived <= |response.chunks| then arrived else |response.chunks|;
    CollectCut(pieces, overlay, data, nodeId, delta, k);
    CutBeyond(data, delta, overlay.version, |pieces|, k, arrived);
    if RejectsCut(data, codecs) {
      UnpacksWholeIff(data, delta, overlay.version, arrived, codecs);
    }
    r := ReceiveBootConfig(Sent(response.chunks[..k]), codecs);
  }

  function Unpacked(a: Assembly, codecs: Codecs): Assembly {
    a.(overlay := Decompress(a.overlay, codecs))
  }

  /** No proper prefix of the data decodes, which is so for a self-delimiting format with an end mark. */
  ghost predicate RejectsCut(data: seq<Byte>, codecs: Codecs) {
    forall n :: 4 <= n < |data| ==> codecs.decode(data[..n]).None?
  }

  /** Chunks beyond those that carry something make no difference. */
  lemma CutBeyond(data: seq<Byte>, delta: seq<Byte>, version: nat, n: nat, k: nat, arrived: nat)
    requires n == ChunkCount(|data|) && k <= arrived && (k < arrived ==> k > n)
    ensures CutShort(data, delta, version, n, k) == CutShort(data, delta, version, n, arrived)
  {
  }

  lemma UnpacksWholeIff(data: seq<Byte>, delta: seq<Byte>, version: nat, arrived: nat, codecs: Codecs)
    requires RejectsCut(data, codecs)
    ensures var have := CutShort(data, delta, version, ChunkCount(|data|), arrived);
            Unpacked(have, codecs) == Unpacked(Assembly(data, delta, version), codecs) <==>
              || arrived >= Needed(data, delta)
              || (delta == [] && (arrived > 0 || version == 0) && have.overlay == Decompress(data, codecs))
  {
    var n := ChunkCount(|data|);
    var have := CutShort(data, delta, version, n, arrived);
    CutBounds(|data|);
    if arrived >= n {
      assert have.overlay == data;
    } else {
      CutMonotone(arrived, |data|);
      assert have.overlay == data[..Cut(arrived, |data|)];
      assert Decompress(have.overlay, codecs) == have.overlay;
    }
  }

  lemma {:induction false} NodeEntriesExactly(log: seq<ConfigEntry>, nodeId: string, entry: ConfigEntry)
    ensures entry in NodeEntries(log, nodeId) <==> entry in log && BelongsTo(entry, nodeId)
    ensures multiset(NodeEntries(log, nodeId))[entry] == if BelongsTo(entry, nodeId) then multiset(log)[entry] else 0
  {
    if log != [] {
      var n := |log| - 1;
      NodeEntriesExactly(log[..n], nodeId, entry);
      assert log == log[..n] + [log[n]];
    }
  }
}
