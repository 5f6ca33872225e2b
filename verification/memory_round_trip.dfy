/** What the memory files hold: decoding what was encoded gives the records back. */
module MemoryRoundTrip {
  import opened Wrappers
  import opened Numbers
  import opened Bytes
  import opened Tries
  import opened TrieOrders
  import opened LoudsTrees
  import opened LoudsEncoding
  import opened MemoryIndexes
  import opened EntryBlocks
  import opened MemoryFiles
  import CharacterIds

  /** How a reading becomes a key. */
  type Encoder = Utf8 -> Option<Key>

  /** Different readings have different keys, and a reading that is not empty has a key that is not. */
  ghost predicate Separates(encode: Encoder) {
    && (forall a, b :: encode(a).Some? && encode(a) == encode(b) ==> a == b)
    && (forall a :: a != [] && encode(a).Some? ==> encode(a).value != [])
  }

  function TableEncoder(table: CharacterIds.CharacterIdMap, segment: CharacterIds.Segmentation): Encoder {
    text => CharacterIds.Encode(table, segment, text)
  }

  /** Every character table that parses separates readings. */
  lemma {:induction false} TablesSeparate(graphemes: seq<Utf8>, segment: CharacterIds.Segmentation)
    requires CharacterIds.ParseTable(graphemes).Ok? && CharacterIds.Segments(segment)
    ensures Separates(TableEncoder(CharacterIds.ParseTable(graphemes).value, segment))
  {
    var table := CharacterIds.ParseTable(graphemes).value;
    var encode := TableEncoder(table, segment);
    CharacterIds.ParsedTablesAreDistinct(graphemes);
    forall a, b | encode(a).Some? && encode(a) == encode(b)
      ensures a == b && (a != [] ==> encode(a).value != [])
    {
      CharacterIds.EncodeIsInjective(table, segment, a, b);
    }
  }

  function Keys(records: seq<Record>, encode: Encoder): (r: seq<Option<Key>>)
    ensures |r| == |records| && forall i :: 0 <= i < |r| ==> r[i] == encode(records[i].entry.ruby)
  {
    seq(|records|, i requires 0 <= i < |records| => encode(records[i].entry.ruby))
  }

  // ----- what the nodes hold -----

  /** Some key leads to the node. */
  ghost predicate Reached(nodes: seq<TrieNode>, node: nat)
    requires WellFormed(nodes)
  {
    exists p :: Walk(nodes, 0, p) == Some(node)
  }

  ghost predicate AllReached(nodes: seq<TrieNode>, edges: seq<Edge>)
    requires WellFormed(nodes)
  {
    forall k :: 0 <= k < |edges| ==> Reached(nodes, edges[k].node)
  }

  lemma {:induction false} ChildrenReached(nodes: seq<TrieNode>, node: nat)
    requires WellFormed(nodes) && node < |nodes| && Reached(nodes, node)
    ensures AllReached(nodes, Children(nodes, node))
  {
    hide Walk;
    var p :| Walk(nodes, 0, p) == Some(node);
    var edges := Children(nodes, node);
    forall k | 0 <= k < |edges|
      ensures Reached(nodes, edges[k].node)
    {
      FindAt(edges, k);
      WalkChild(nodes, p, edges[k].id);
      assert Walk(nodes, 0, p + [edges[k].id]) == Some(edges[k].node);
    }
  }

  lemma {:induction false} BreadthFirstReaches(nodes: seq<TrieNode>, queue: seq<Edge>)
    requires WellFormed(nodes) && Inside(nodes, queue) && AllReached(nodes, queue)
    ensures AllReached(nodes, BreadthFirst(nodes, queue))
    decreases Remaining(nodes, queue)
  {
    hide Remaining, Pending, Reached;
    if queue != [] {
      var first, rest := queue[0], queue[1..];
      assert [first] + rest == queue;
      ShiftQueue(nodes, first, rest);
      ChildrenReached(nodes, first.node);
      BreadthFirstReaches(nodes, rest + Children(nodes, first.node));
    }
  }

  /** The records of a node are those with one reading. */
  lemma {:induction false} NodeRecords(keys: seq<Option<Key>>, k: nat)
    requires k < |Order(Build(keys, |keys|))|
    ensures Order(Build(keys, |keys|))[k].node < |Build(keys, |keys|)|
    ensures exists p :: Build(keys, |keys|)[Order(Build(keys, |keys|))[k].node].records == Scan(Exact, keys, |keys|, p)
  {
    hide Walk, Build, BreadthFirst, Scan;
    var nodes := Build(keys, |keys|);
    OrderIsClosed(nodes);
    RootWalk(nodes);
    BreadthFirstReaches(nodes, [ROOT]);
    var p :| Walk(nodes, 0, p) == Some(Order(nodes)[k].node);
    BuildAnswersExactly(keys, |keys|, p);
    assert nodes[Order(nodes)[k].node].records == Scan(Exact, keys, |keys|, p);
  }

  function IndexBlocks(keys: seq<Option<Key>>): seq<seq<nat>> {
    Encoded(Build(keys, |keys|)).blocks
  }

  /** Every block is empty or the exact answer to one key. */
  lemma {:induction false} BlockIsAnswer(keys: seq<Option<Key>>, n: nat)
    requires n < |IndexBlocks(keys)|
    ensures IndexBlocks(keys)[n] == [] || exists p :: IndexBlocks(keys)[n] == Scan(Exact, keys, |keys|, p)
  {
    hide Build, BreadthFirst, Scan, Order, Pack, EncodedBits;
    var nodes := Build(keys, |keys|);
    OrderInside(nodes);
    if n >= 2 {
      assert Order(nodes)[1..][n - 2] == Order(nodes)[n - 1];
      NodeRecords(keys, n - 1);
    }
  }

  lemma {:induction false} BlockSharesReading(keys: seq<Option<Key>>, n: nat, i: nat)
    requires n < |IndexBlocks(keys)| && i < |IndexBlocks(keys)[n]|
    ensures var block := IndexBlocks(keys)[n];
            block[i] < |keys| && block[0] < |keys| && keys[block[i]].Some? && keys[block[i]] == keys[block[0]]
  {
    hide IndexBlocks, Scan, Count;
    BlockIsAnswer(keys, n);
    var p :| IndexBlocks(keys)[n] == Scan(Exact, keys, |keys|, p);
    var block := IndexBlocks(keys)[n];
    ScanCounts(Exact, keys, |keys|, p, block[i]);
    ScanCounts(Exact, keys, |keys|, p, block[0]);
    CountIn(block, block[i]);
    CountIn(block, block[0]);
  }

  lemma {:induction false} BlocksAreValid(records: seq<Record>, encode: Encoder)
    ensures Valid(records, IndexBlocks(Keys(records, encode)))
  {
    hide IndexBlocks;
    var keys := Keys(records, encode);
    forall n, i | 0 <= n < |IndexBlocks(keys)| && 0 <= i < |IndexBlocks(keys)[n]|
      ensures IndexBlocks(keys)[n][i] < |records|
    {
      BlockSharesReading(keys, n, i);
    }
  }

  // ----- encoding -----

  /** The records by node, at most 255 each. */
  function NodeBlocks(records: seq<Record>, encode: Encoder): seq<seq<Record>> {
    BlocksAreValid(records, encode);
    RecordBlocks(records, IndexBlocks(Keys(records, encode)))
  }

  function Files(records: seq<Record>, encode: Encoder, value: ValueLaw): EncodedMemory {
    var index := Encoded(Build(Keys(records, encode), |records|));
    var blocks := NodeBlocks(records, encode);
    EncodedMemory(index.louds, index.characters, MetadataBytes(blocks), Shards(blocks, value))
  }

  method EncodeShards(blocks: seq<seq<Record>>, value: ValueLaw) returns (shards: seq<seq<byte>>)
    ensures shards == Shards(blocks, value)
  {
    hide ShardBytes, BlockBytes, Chunk;
    shards := [];
    for k := 0 to ShardCount(|blocks|)
      invariant |shards| == k && forall j :: 0 <= j < k ==> shards[j] == ShardBytes(Payloads(Chunk(blocks, j), value))
    {
      var shard := EncodeShard(Chunk(blocks, k), value);
      shards := shards + [shard];
    }
  }

  method ShortenBlocks(records: seq<Record>, blocks: seq<seq<nat>>) returns (shortened: seq<seq<Record>>)
    requires Valid(records, blocks)
    ensures shortened == RecordBlocks(records, blocks)
  {
    shortened := [];
    for n := 0 to |blocks|
      invariant shortened == RecordBlocks(records, blocks)[..n]
    {
      shortened := shortened + [RecordsOfBlock(records, Shortened(blocks[n]))];
    }
  }

  method EncodeFiles(records: seq<Record>, encode: Encoder, value: ValueLaw) returns (files: EncodedMemory)
    ensures files == Files(records, encode, value)
  {
    hide Build, MetadataBytes, Encoded, Shards;
    var keys := Keys(records, encode);
    var trie := new MemoryTrie.FromReadings(keys);
    var index := trie.Encode();
    BlocksAreValid(records, encode);
    var blocks := ShortenBlocks(records, index.blocks);
    var metadata := EncodeMetadata(blocks);
    var shards := EncodeShards(blocks, value);
    files := EncodedMemory(index.louds, index.characters, metadata, shards);
  }

  // ----- decoding what was encoded -----

  /** No text can be mistaken for a field border. */
  ghost predicate TabFreeTexts(records: seq<Record>) {
    forall i :: 0 <= i < |records| ==> TabFree(records[i].entry.word) && TabFree(records[i].entry.ruby)
  }

  /** The directory contains these files; it may contain others. */
  ghost predicate Holds(directory: Directory, files: EncodedMemory) {
    && LoudsFile in directory && directory[LoudsFile] == files.louds
    && CharactersFile in directory && directory[CharactersFile] == files.characters
    && MetadataFile in directory && directory[MetadataFile] == files.metadata
    && forall k: nat :: k < |files.shards| ==> ShardFile(k) in directory && directory[ShardFile(k)] == files.shards[k]
  }

  /** Node numbers and offsets fit 32 bits. */
  ghost predicate Fits(files: EncodedMemory) {
    && |files.characters| <= U32_MAX
    && forall k :: 0 <= k < |files.shards| ==> |files.shards[k]| <= U32_MAX
  }

  /** What comes back for a record: an empty word is taken for the reading, and the value is
      computed from the count. */
  function Loaded(r: Record, value: ValueLaw): Record {
    Record(Restored(r, value), r.lastUsedDay, r.lastUpdatedDay, r.count)
  }

  function LoadedAll(records: seq<Record>, value: ValueLaw): (r: seq<Record>)
    ensures |r| == |records| && forall i :: 0 <= i < |r| ==> r[i] == Loaded(records[i], value)
  {
    seq(|records|, i requires 0 <= i < |records| => Loaded(records[i], value))
  }

  function Flatten<T>(parts: seq<seq<T>>): seq<T> {
    if parts == [] then [] else Flatten(parts[..|parts| - 1]) + parts[|parts| - 1]
  }

  function LoadedBlocks(blocks: seq<seq<Record>>, value: ValueLaw): (r: seq<seq<Record>>)
    ensures |r| == |blocks| && forall n :: 0 <= n < |r| ==> r[n] == LoadedAll(blocks[n], value)
  {
    seq(|blocks|, n requires 0 <= n < |blocks| => LoadedAll(blocks[n], value))
  }

  lemma {:induction false} NodeBlockIsBlock(records: seq<Record>, encode: Encoder, n: nat)
    requires TabFreeTexts(records) && Separates(encode) && n < |NodeBlocks(records, encode)|
    ensures Block(NodeBlocks(records, encode)[n]) && |NodeBlocks(records, encode)[n]| <= BLOCK_MAX
  {
    hide IndexBlocks;
    BlocksAreValid(records, encode);
    var keys := Keys(records, encode);
    var indices := IndexBlocks(keys)[n];
    var block := NodeBlocks(records, encode)[n];
    forall i | 0 <= i < |block|
      ensures block[i].entry.ruby == SharedRuby(block) && TabFree(block[i].entry.word) && TabFree(block[i].entry.ruby)
    {
      BlockSharesReading(keys, n, i);
      assert block[i] == records[indices[i]] && block[0] == records[indices[0]];
    }
  }

  lemma {:induction false} ChunkAt<T>(blocks: seq<T>, n: nat)
    requires n < |blocks|
    ensures n / SHARD_SIZE < ShardCount(|blocks|)
    ensures var chunk := Chunk(blocks, n / SHARD_SIZE);
            |chunk| <= SHARD_SIZE && n % SHARD_SIZE < |chunk| && chunk[n % SHARD_SIZE] == blocks[n]
  {
  }

  /** Shard `k` of these blocks is in the directory, and its offsets fit 32 bits. */
  ghost predicate HasShard(directory: Directory, blocks: seq<seq<Record>>, value: ValueLaw, k: nat) {
    && k < ShardCount(|blocks|) && |Shards(blocks, value)[k]| <= U32_MAX
    && ShardFile(k) in directory && directory[ShardFile(k)] == Shards(blocks, value)[k]
  }

  lemma {:induction false} ReadNodeBack(blocks: seq<seq<Record>>, value: ValueLaw, directory: Directory, n: nat)
    requires n < |blocks| && Block(blocks[n]) && |blocks[n]| <= BLOCK_MAX
    requires HasShard(directory, blocks, value, n / SHARD_SIZE)
    ensures ReadNode(directory, StampsOf(blocks[n]), n) == Ok(LoadedAll(blocks[n], value))
  {
    hide BlockBytes, ShardBytes, ParseShard, Block, Chunk, ShardCount;
    ChunkAt(blocks, n);
    var chunk := Chunk(blocks, n / SHARD_SIZE);
    var payloads := Payloads(chunk, value);
    ShardRoundTrip(payloads, n % SHARD_SIZE, blocks[n], value);
    assert Join(RestoredAll(blocks[n], value), StampsOf(blocks[n])) == LoadedAll(blocks[n], value);
  }

  ghost predicate AllBlocks(blocks: seq<seq<Record>>) {
    forall i :: 0 <= i < |blocks| ==> Block(blocks[i]) && |blocks[i]| <= BLOCK_MAX
  }

  lemma {:induction false} ReadNodesBack(blocks: seq<seq<Record>>, value: ValueLaw, directory: Directory, n: nat)
    requires n <= |blocks| && AllBlocks(blocks)
    requires forall k: nat :: k < ShardCount(|blocks|) ==> HasShard(directory, blocks, value, k)
    ensures ReadNodes(directory, AllStamps(blocks), n) == Ok(Flatten(LoadedBlocks(blocks, value)[..n]))
  {
    hide ReadNode, Block, HasShard, ShardCount;
    if n > 0 {
      ReadNodesBack(blocks, value, directory, n - 1);
      ChunkAt(blocks, n - 1);
      ReadNodeBack(blocks, value, directory, n - 1);
      var loaded := LoadedBlocks(blocks, value);
      assert loaded[..n][..n - 1] == loaded[..n - 1];
    }
  }

  lemma {:induction false} HeaderBack(records: seq<Record>, encode: Encoder, value: ValueLaw, directory: Directory)
    requires Holds(directory, Files(records, encode, value)) && |Files(records, encode, value).characters| <= U32_MAX
    requires forall i :: 0 <= i < |NodeBlocks(records, encode)| ==> |NodeBlocks(records, encode)[i]| <= BLOCK_MAX
    ensures ReadHeader(directory) == Ok(AllStamps(NodeBlocks(records, encode)))
  {
    hide Build, Order, Parse, Number, LittleEndian, ReadBlocks, BlocksMetadata, Pack, EncodedBits, Shards, Used;
    var nodes := Build(Keys(records, encode), |records|);
    var blocks := NodeBlocks(records, encode);
    var size := LittleEndian(Min(|blocks|, U32_MAX), 4);
    LoudsRoundTrip(nodes);
    OrderInside(nodes);
    NodeCount(Parse(Encoded(nodes).louds, Encoded(nodes).characters).value, nodes);
    assert |blocks| == |Order(nodes)| + 1 == |Encoded(nodes).characters|;
    NumberRoundTrip(|blocks|, 4);
    BlocksRoundTrip(size, blocks, []);
    assert size + BlocksMetadata(blocks) + [] == MetadataBytes(blocks);
    assert MetadataBytes(blocks)[0..4] == size;
  }

  /** Decoding the encoded files gives, node by node, the first 255 records of each reading. */
  lemma {:induction false} DecodesEncoded(records: seq<Record>, encode: Encoder, value: ValueLaw, directory: Directory)
    requires TabFreeTexts(records) && Separates(encode)
    requires Holds(directory, Files(records, encode, value)) && Fits(Files(records, encode, value))
    ensures Decoded(directory) == Ok(Flatten(LoadedBlocks(NodeBlocks(records, encode), value)))
  {
    hide NodeBlocks, Block, ReadHeader, Build, MetadataBytes, ShardBytes, Encoded;
    var blocks := NodeBlocks(records, encode);
    forall n | 0 <= n < |blocks|
      ensures Block(blocks[n]) && |blocks[n]| <= BLOCK_MAX
    {
      NodeBlockIsBlock(records, encode, n);
    }
    forall k: nat | k < ShardCount(|blocks|)
      ensures HasShard(directory, blocks, value, k)
    {
    }
    HeaderBack(records, encode, value, directory);
    ReadNodesBack(blocks, value, directory, |blocks|);
    assert LoadedBlocks(blocks, value)[..|blocks|] == LoadedBlocks(blocks, value);
  }

  // ----- nothing lost, nothing doubled -----

  lemma {:induction false} BreadthFirstCounts(nodes: seq<TrieNode>, queue: seq<Edge>, i: nat)
    requires WellFormed(nodes) && Inside(nodes, queue)
    ensures Inside(nodes, BreadthFirst(nodes, queue)) && Inside(nodes, Pending(nodes, queue, -1))
    ensures Count(Collected(nodes, BreadthFirst(nodes, queue)), i) == Count(Collected(nodes, Pending(nodes, queue, -1)), i)
    decreases Remaining(nodes, queue)
  {
    hide Pending, Collected, Subtree, Count, Remaining;
    BreadthFirstIsClosed(nodes, queue);
    PendingInside(nodes, queue, -1);
    if queue != [] {
      var first, rest := queue[0], queue[1..];
      var below := Children(nodes, first.node);
      assert [first] + rest == queue;
      ShiftQueue(nodes, first, rest);
      SubtreeUnfolds(nodes, first);
      BreadthFirstCounts(nodes, rest + below, i);
      var order := BreadthFirst(nodes, rest + below);
      CollectedCounts(nodes, [first], order, i);
      PendingOne(nodes, first);
      PendingAppend(nodes, [first], rest);
      PendingAppend(nodes, rest, below);
      PendingInside(nodes, rest, -1);
      PendingInside(nodes, below, -1);
      CollectedCounts(nodes, Pending(nodes, below, -1), Pending(nodes, rest, -1), i);
      CollectedCounts(nodes, [first], Pending(nodes, below, -1), i);
      CollectedCounts(nodes, Pending(nodes, rest, -1), [first] + Pending(nodes, below, -1), i);
    } else {
      EmptyQueue(nodes);
    }
  }

  lemma {:induction false} EmptyQueue(nodes: seq<TrieNode>)
    requires WellFormed(nodes)
    ensures Inside(nodes, []) && Pending(nodes, [], -1) == [] == BreadthFirst(nodes, [])
  {
  }

  lemma {:induction false} CollectedCounts(nodes: seq<TrieNode>, a: seq<Edge>, b: seq<Edge>, i: nat)
    requires Inside(nodes, a) && Inside(nodes, b)
    ensures Inside(nodes, a + b)
    ensures Count(Collected(nodes, a + b), i) == Count(Collected(nodes, a), i) + Count(Collected(nodes, b), i)
  {
    hide Collected, Count;
    CollectedAppend(nodes, a, b);
    CountAppend(Collected(nodes, a), Collected(nodes, b), i);
  }

  /** Behind the root, the numbering meets every record with a non-empty key exactly once. */
  lemma {:induction false} OrderCounts(keys: seq<Option<Key>>, i: nat)
    requires forall j :: 0 <= j < |keys| ==> keys[j] != Some([])
    ensures Inside(Build(keys, |keys|), Order(Build(keys, |keys|))[1..])
    ensures Count(Collected(Build(keys, |keys|), Order(Build(keys, |keys|))[1..]), i)
            == if i < |keys| && keys[i].Some? then 1 else 0
  {
    hide Build, Collected, Count, BreadthFirst, Subtree, Pending, Walk;
    var nodes := Build(keys, |keys|);
    OrderInside(nodes);
    var order := Order(nodes);
    RootWalk(nodes);
    BreadthFirstCounts(nodes, [ROOT], i);
    PendingOne(nodes, ROOT);
    SubtreeCounts(keys, [], ROOT, i);
    HereCounts(keys, [], 0, i);
    OrderIsClosed(nodes);
    assert order == [ROOT] + order[1..];
    CollectedOne(nodes, ROOT);
    CollectedCounts(nodes, [ROOT], order[1..], i);
  }

  lemma {:induction false} FlattenIsCollected(nodes: seq<TrieNode>, order: seq<Edge>)
    requires Inside(nodes, order)
    ensures Flatten(Blocks(nodes, order)) == Collected(nodes, order)
  {
    if order == [] {
      assert Blocks(nodes, order) == [];
    } else {
      FlattenIsCollected(nodes, order[..|order| - 1]);
      assert Blocks(nodes, order)[..|order| - 1] == Blocks(nodes, order[..|order| - 1]);
    }
  }

  lemma {:induction false} FlattenSkips(parts: seq<seq<nat>>)
    ensures Flatten([[], []] + parts) == Flatten(parts)
  {
    var all: seq<seq<nat>> := [[], []] + parts;
    if parts == [] {
      var one: seq<seq<nat>> := [[]];
      assert one[..0] == [] && all[..1] == one && all == one + [[]];
      assert Flatten(one) == [];
    } else {
      assert all[..|all| - 1] == [[], []] + parts[..|parts| - 1];
      FlattenSkips(parts[..|parts| - 1]);
    }
  }

  lemma {:induction false} BlocksCount(keys: seq<Option<Key>>, i: nat)
    requires forall j :: 0 <= j < |keys| ==> keys[j] != Some([])
    ensures Count(Flatten(IndexBlocks(keys)), i) == if i < |keys| && keys[i].Some? then 1 else 0
  {
    hide Build, Collected, Count, Order, Flatten, Pack, EncodedBits;
    var nodes := Build(keys, |keys|);
    OrderInside(nodes);
    OrderCounts(keys, i);
    FlattenIsCollected(nodes, Order(nodes)[1..]);
    FlattenSkips(Blocks(nodes, Order(nodes)[1..]));
  }

  ghost predicate AllBelow(s: seq<nat>, n: nat) {
    forall i :: 0 <= i < |s| ==> s[i] < n
  }

  lemma {:induction false} FlattenBelow(records: seq<Record>, blocks: seq<seq<nat>>)
    requires Valid(records, blocks)
    ensures AllBelow(Flatten(blocks), |records|)
    ensures forall n :: 0 <= n < |blocks| ==> AllBelow(blocks[n], |records|)
  {
    if blocks != [] {
      FlattenBelow(records, blocks[..|blocks| - 1]);
    }
  }

  /** Reading the blocks one after the other is reading the records in flattened order. */
  lemma {:induction false} LoadedInOrder(records: seq<Record>, blocks: seq<seq<nat>>, value: ValueLaw)
    requires Valid(records, blocks) && forall n :: 0 <= n < |blocks| ==> |blocks[n]| <= BLOCK_MAX
    ensures AllBelow(Flatten(blocks), |records|)
    ensures Flatten(LoadedBlocks(RecordBlocks(records, blocks), value))
            == LoadedAll(RecordsOfBlock(records, Flatten(blocks)), value)
  {
    FlattenBelow(records, blocks);
    if blocks == [] {
      assert LoadedBlocks(RecordBlocks(records, blocks), value) == [];
    } else {
      var init, last := blocks[..|blocks| - 1], blocks[|blocks| - 1];
      LoadedInOrder(records, init, value);
      assert Shortened(last) == last;
      LoadedLast(records, blocks, value);
      LoadedAppend(records, Flatten(init), last, value);
    }
  }

  lemma {:induction false} LoadedLast(records: seq<Record>, blocks: seq<seq<nat>>, value: ValueLaw)
    requires blocks != [] && Valid(records, blocks) && Valid(records, blocks[..|blocks| - 1])
    requires Shortened(blocks[|blocks| - 1]) == blocks[|blocks| - 1]
    ensures LoadedBlocks(RecordBlocks(records, blocks), value)
            == LoadedBlocks(RecordBlocks(records, blocks[..|blocks| - 1]), value)
               + [LoadedAll(RecordsOfBlock(records, blocks[|blocks| - 1]), value)]
  {
    hide Shortened;
    var init := blocks[..|blocks| - 1];
    var all, before := RecordBlocks(records, blocks), RecordBlocks(records, init);
    assert all == before + [RecordsOfBlock(records, Shortened(blocks[|blocks| - 1]))];
  }

  lemma {:induction false} LoadedAppend(records: seq<Record>, a: seq<nat>, b: seq<nat>, value: ValueLaw)
    requires AllBelow(a, |records|) && AllBelow(b, |records|)
    ensures AllBelow(a + b, |records|)
    ensures LoadedAll(RecordsOfBlock(records, a + b), value)
            == LoadedAll(RecordsOfBlock(records, a), value) + LoadedAll(RecordsOfBlock(records, b), value)
  {
  }

  /** Each position once: the same records in another order. */
  ghost predicate Permutes(order: seq<nat>, n: nat) {
    forall x: nat :: Count(order, x) == if x < n then 1 else 0
  }

  lemma {:induction false} PermutedMembers(order: seq<nat>, n: nat)
    requires Permutes(order, n)
    ensures forall i :: 0 <= i < |order| ==> order[i] < n
  {
    hide Count;
    forall i | 0 <= i < |order|
      ensures order[i] < n
    {
      CountIn(order, order[i]);
    }
  }

  lemma {:induction false} WithoutLast(order: seq<nat>, n: nat, j: nat)
    requires n > 0 && Permutes(order, n) && j < |order| && order[j] == n - 1
    ensures Permutes(order[..j] + order[j + 1..], n - 1)
  {
    hide Count;
    var a, b := order[..j], order[j + 1..];
    forall x: nat
      ensures Count(a + b, x) == if x < n - 1 then 1 else 0
    {
      assert order == (a + [n - 1]) + b;
      CountAppend(a + [n - 1], b, x);
      CountSnoc(a, n - 1, x);
      CountAppend(a, b, x);
      assert Count(order, x) == if x < n then 1 else 0;
    }
  }

  lemma {:induction false} SplitAtOne<T>(s: seq<T>, j: nat)
    requires j < |s|
    ensures multiset(s) == multiset(s[..j] + s[j + 1..]) + multiset{s[j]}
  {
    assert s == s[..j] + [s[j]] + s[j + 1..];
  }

  lemma {:induction false} PermutationKeepsAll<T>(s: seq<T>, picked: seq<T>, order: seq<nat>)
    requires Permutes(order, |s|) && |picked| == |order|
    requires forall i :: 0 <= i < |order| ==> order[i] < |s| && picked[i] == s[order[i]]
    ensures multiset(picked) == multiset(s)
  {
    hide Count, Permutes;
    if |s| == 0 {
    } else {
      var n := |s|;
      var j := WhereIs(order, n, n - 1);
      WithoutLast(order, n, j);
      var less, fewer := order[..j] + order[j + 1..], picked[..j] + picked[j + 1..];
      PermutedMembers(less, n - 1);
      PermutationKeepsAll(s[..n - 1], fewer, less);
      SplitAtOne(picked, j);
      assert s == s[..n - 1] + [s[n - 1]];
    }
  }

  lemma {:induction false} WhereIs(order: seq<nat>, n: nat, x: nat) returns (j: nat)
    requires Permutes(order, n) && x < n
    ensures j < |order| && order[j] == x
  {
    hide Count;
    CountIn(order, x);
    j :| j < |order| && order[j] == x;
  }

  /** At most 255 records share a reading. */
  ghost predicate FewPerReading(keys: seq<Option<Key>>) {
    forall ids :: |Scan(Exact, keys, |keys|, ids)| <= 255
  }

  ghost predicate Small(blocks: seq<seq<nat>>) {
    forall n :: 0 <= n < |blocks| ==> |blocks[n]| <= BLOCK_MAX
  }

  /** A block fits exactly if its reading has no more records. */
  lemma {:induction false} SmallBlocks(keys: seq<Option<Key>>)
    requires forall j :: 0 <= j < |keys| ==> keys[j] != Some([])
    ensures FewPerReading(keys) <==> Small(IndexBlocks(keys))
  {
    hide IndexBlocks, Scan;
    if FewPerReading(keys) {
      forall n | 0 <= n < |IndexBlocks(keys)|
        ensures |IndexBlocks(keys)[n]| <= BLOCK_MAX
      {
        BlockIsAnswer(keys, n);
      }
    }
    if Small(IndexBlocks(keys)) {
      forall ids
        ensures |Scan(Exact, keys, |keys|, ids)| <= BLOCK_MAX
      {
        if Scan(Exact, keys, |keys|, ids) != [] {
          var n := BlockOf(keys, ids);
          assert IndexBlocks(keys)[n] == Scan(Exact, keys, |keys|, ids);
        }
      }
    }
  }

  /** The block that holds the records of a reading. */
  lemma {:induction false} BlockOf(keys: seq<Option<Key>>, ids: Key) returns (n: nat)
    requires forall j :: 0 <= j < |keys| ==> keys[j] != Some([])
    requires Scan(Exact, keys, |keys|, ids) != []
    ensures n < |IndexBlocks(keys)| && IndexBlocks(keys)[n] == Scan(Exact, keys, |keys|, ids)
  {
    hide IndexBlocks, Scan, Count, Flatten;
    var x := Scan(Exact, keys, |keys|, ids)[0];
    CountIn(Scan(Exact, keys, |keys|, ids), x);
    ScanCounts(Exact, keys, |keys|, ids, x);
    BlocksCount(keys, x);
    CountIn(Flatten(IndexBlocks(keys)), x);
    n := InSomePart(IndexBlocks(keys), x);
    BlockIsAnswer(keys, n);
    var p :| IndexBlocks(keys)[n] == Scan(Exact, keys, |keys|, p);
    CountIn(Scan(Exact, keys, |keys|, p), x);
    ScanCounts(Exact, keys, |keys|, p, x);
  }

  lemma {:induction false} InSomePart(parts: seq<seq<nat>>, x: nat) returns (n: nat)
    requires x in Flatten(parts)
    ensures n < |parts| && x in parts[n]
  {
    var last := |parts| - 1;
    if x in parts[last] {
      n := last;
    } else {
      n := InSomePart(parts[..last], x);
    }
  }

  /** Blocks lose records exactly if one of them is too long. */
  lemma {:induction false} LoadedLengths(records: seq<Record>, blocks: seq<seq<nat>>, value: ValueLaw)
    requires Valid(records, blocks)
    ensures |Flatten(LoadedBlocks(RecordBlocks(records, blocks), value))| <= |Flatten(blocks)|
    ensures |Flatten(LoadedBlocks(RecordBlocks(records, blocks), value))| == |Flatten(blocks)| <==> Small(blocks)
  {
    if blocks == [] {
      assert LoadedBlocks(RecordBlocks(records, blocks), value) == [];
    } else {
      var init, last := blocks[..|blocks| - 1], blocks[|blocks| - 1];
      LoadedLengths(records, init, value);
      var all, before := RecordBlocks(records, blocks), RecordBlocks(records, init);
      assert all == before + [RecordsOfBlock(records, Shortened(last))];
      var loaded := LoadedBlocks(all, value);
      assert loaded[..|loaded| - 1] == LoadedBlocks(before, value);
      assert Small(blocks) <==> Small(init) && |last| <= BLOCK_MAX;
    }
  }

  /** The memory file round trip, across any number of shards: decoding what was encoded gives back
      the same records, each as often as before, if and only if no reading has more than 255. */
  lemma {:induction false} RecordsRoundTrip(records: seq<Record>, encode: Encoder, value: ValueLaw, directory: Directory)
    requires TabFreeTexts(records) && Separates(encode)
    requires forall i :: 0 <= i < |records| ==> records[i].entry.ruby != [] && encode(records[i].entry.ruby).Some?
    requires Holds(directory, Files(records, encode, value)) && Fits(Files(records, encode, value))
    ensures Decoded(directory).Ok?
    ensures multiset(Decoded(directory).value) == multiset(LoadedAll(records, value)) <==> FewPerReading(Keys(records, encode))
  {
    hide Files, IndexBlocks, Decoded, Flatten, Count, Permutes, FewPerReading, Small;
    var keys := Keys(records, encode);
    DecodesEncoded(records, encode, value, directory);
    BlocksAreValid(records, encode);
    SmallBlocks(keys);
    var blocks := IndexBlocks(keys);
    var order := Flatten(blocks);
    OrderPermutes(records, encode);
    PermutedMembers(order, |records|);
    var permuted, all := LoadedAll(RecordsOfBlock(records, order), value), LoadedAll(records, value);
    PermutationKeepsAll(all, permuted, order);
    LoadedLengths(records, blocks, value);
    if Small(blocks) {
      SmallInOrder(records, blocks, value);
    } else {
      assert |permuted| == |multiset(permuted)| == |multiset(all)|;
      assert |multiset(Decoded(directory).value)| == |Decoded(directory).value|;
    }
  }

  lemma {:induction false} SmallInOrder(records: seq<Record>, blocks: seq<seq<nat>>, value: ValueLaw)
    requires Valid(records, blocks) && Small(blocks)
    ensures AllBelow(Flatten(blocks), |records|)
    ensures Flatten(LoadedBlocks(RecordBlocks(records, blocks), value))
            == LoadedAll(RecordsOfBlock(records, Flatten(blocks)), value)
  {
    hide Flatten, RecordBlocks, LoadedBlocks, RecordsOfBlock, LoadedAll, AllBelow;
    LoadedInOrder(records, blocks, value);
  }

  lemma {:induction false} OrderPermutes(records: seq<Record>, encode: Encoder)
    requires Separates(encode)
    requires forall i :: 0 <= i < |records| ==> records[i].entry.ruby != [] && encode(records[i].entry.ruby).Some?
    ensures Permutes(Flatten(IndexBlocks(Keys(records, encode))), |records|)
  {
    hide IndexBlocks, Flatten, Count;
    var keys := Keys(records, encode);
    forall x: nat
      ensures Count(Flatten(IndexBlocks(keys)), x) == if x < |records| then 1 else 0
    {
      BlocksCount(keys, x);
    }
  }

  /** A record comes back with every field, and the value its count gives it, exactly if its word
      is not empty. */
  lemma {:induction false} LoadedIsExact(r: Record, value: ValueLaw)
    requires r.entry.ruby != []
    ensures Loaded(r, value) == Record(r.entry.(value := value(r.count, r.entry.ruby)), r.lastUsedDay, r.lastUpdatedDay, r.count)
            <==> r.entry.word != []
  {
  }
}
