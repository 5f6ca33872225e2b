/** The files of the learning memory (`encode_files` and `decode_directory` in `learning.rs`). */
module MemoryFiles {
  import opened Wrappers
  import opened Numbers
  import opened Bytes
  import opened Tries
  import opened TrieOrders
  import opened LoudsTrees
  import opened LoudsEncoding
  import opened EntryBlocks

  const SHARD_SIZE: nat := 2048
  const STAMP_SIZE: nat := 6
  const BLOCK_MAX: nat := 255

  /** A file of the memory directory. `Temporary` is a name with `.2` behind it. */
  datatype FileName =
    | LoudsFile
    | CharactersFile
    | MetadataFile
    | ShardFile(index: nat)
    | PauseFile
    | Temporary(file: FileName)

  type Directory = map<FileName, seq<byte>>

  datatype LoadError =
    | Io(file: FileName)
    | InvalidData(reason: string)

  datatype EncodedMemory = EncodedMemory(louds: seq<byte>, characters: seq<byte>, metadata: seq<byte>, shards: seq<seq<byte>>)

  // ----- metadata: writing -----

  function StampBytes(r: Record): (s: seq<byte>)
    ensures |s| == STAMP_SIZE
  {
    LittleEndian(r.lastUsedDay, 2) + LittleEndian(r.lastUpdatedDay, 2) + [r.count, 0]
  }

  function Stamps(block: seq<Record>): (s: seq<byte>)
    ensures |s| == STAMP_SIZE * |block|
  {
    if block == [] then [] else Stamps(block[..|block| - 1]) + StampBytes(block[|block| - 1])
  }

  function BlockMetadata(block: seq<Record>): seq<byte> {
    [Min(|block|, 255) as byte] + Stamps(block)
  }

  function BlocksMetadata(blocks: seq<seq<Record>>): seq<byte> {
    if blocks == [] then [] else BlocksMetadata(blocks[..|blocks| - 1]) + BlockMetadata(blocks[|blocks| - 1])
  }

  function MetadataBytes(blocks: seq<seq<Record>>): seq<byte> {
    LittleEndian(Min(|blocks|, U32_MAX), 4) + BlocksMetadata(blocks)
  }

  lemma {:induction false} StampsStep(before: seq<byte>, block: seq<Record>, i: nat)
    requires i < |block|
    ensures before + Stamps(block[..i + 1]) == (before + Stamps(block[..i])) + StampBytes(block[i])
  {
    hide StampBytes;
    assert block[..i + 1][..i] == block[..i];
  }

  lemma {:induction false} BlocksMetadataStep(before: seq<byte>, blocks: seq<seq<Record>>, i: nat)
    requires i < |blocks|
    ensures before + BlocksMetadata(blocks[..i + 1]) == (before + BlocksMetadata(blocks[..i])) + BlockMetadata(blocks[i])
  {
    hide BlockMetadata;
    assert blocks[..i + 1][..i] == blocks[..i];
  }

  lemma {:induction false} NoMetadata(before: seq<byte>, block: seq<Record>, blocks: seq<seq<Record>>)
    ensures before + Stamps(block[..0]) == before && before + BlocksMetadata(blocks[..0]) == before
  {
  }

  method EncodeMetadata(blocks: seq<seq<Record>>) returns (metadata: seq<byte>)
    ensures metadata == MetadataBytes(blocks)
  {
    hide LittleEndian, Stamps, BlocksMetadata;
    metadata := LittleEndian(Min(|blocks|, U32_MAX), 4);
    ghost var start := metadata;
    NoMetadata(start, [], blocks);
    for i := 0 to |blocks|
      invariant metadata == start + BlocksMetadata(blocks[..i])
    {
      var block := blocks[i];
      ghost var before := metadata;
      metadata := metadata + [Min(|block|, 255) as byte];
      ghost var head := metadata;
      NoMetadata(head, block, blocks);
      for j := 0 to |block|
        invariant metadata == head + Stamps(block[..j])
      {
        StampsStep(head, block, j);
        metadata := metadata + (LittleEndian(block[j].lastUsedDay, 2) + LittleEndian(block[j].lastUpdatedDay, 2) + [block[j].count, 0]);
      }
      assert block[..|block|] == block;
      assert metadata == before + BlockMetadata(block);
      BlocksMetadataStep(start, blocks, i);
    }
    assert blocks[..|blocks|] == blocks;
  }

  // ----- metadata: reading -----

  datatype Stamp = Stamp(lastUsedDay: u16, lastUpdatedDay: u16, count: byte)

  datatype MetadataRead = MetadataRead(blocks: seq<seq<Stamp>>, cursor: nat)

  function ReadDay(bytes: seq<byte>, cursor: nat): Result<u16, LoadError> {
    if cursor + 2 > |bytes| then Err(InvalidData("truncated numeric field"))
    else Ok(Number(bytes[cursor..cursor + 2]))
  }

  function ReadCount(bytes: seq<byte>): Result<u32, LoadError> {
    if 4 > |bytes| then Err(InvalidData("truncated numeric field"))
    else Ok(Number(bytes[0..4]))
  }

  function ReadStamp(bytes: seq<byte>, cursor: nat): Result<Stamp, LoadError> {
    match ReadDay(bytes, cursor)
    case Err(error) => Err(error)
    case Ok(lastUsedDay) =>
      match ReadDay(bytes, cursor + 2)
      case Err(error) => Err(error)
      case Ok(lastUpdatedDay) =>
        if cursor + 4 >= |bytes| then Err(InvalidData("truncated metadata count"))
        else Ok(Stamp(lastUsedDay, lastUpdatedDay, bytes[cursor + 4]))
  }

  function ReadStamps(bytes: seq<byte>, cursor: nat, count: nat): (r: Result<seq<Stamp>, LoadError>)
    ensures r.Ok? ==> |r.value| == count
  {
    if count == 0 then Ok([])
    else
      match ReadStamps(bytes, cursor, count - 1)
      case Err(error) => Err(error)
      case Ok(before) =>
        match ReadStamp(bytes, cursor + STAMP_SIZE * (count - 1))
        case Err(error) => Err(error)
        case Ok(stamp) => Ok(before + [stamp])
  }

  function ReadBlocks(bytes: seq<byte>, cursor: nat, count: nat): (r: Result<MetadataRead, LoadError>)
    ensures r.Ok? ==> |r.value.blocks| == count
  {
    if count == 0 then Ok(MetadataRead([], cursor))
    else
      match ReadBlocks(bytes, cursor, count - 1)
      case Err(error) => Err(error)
      case Ok(before) =>
        if before.cursor >= |bytes| then Err(InvalidData("truncated metadata block"))
        else
          var size := bytes[before.cursor] as nat;
          match ReadStamps(bytes, before.cursor + 1, size)
          case Err(error) => Err(error)
          case Ok(block) => Ok(MetadataRead(before.blocks + [block], before.cursor + 1 + STAMP_SIZE * size))
  }

  lemma {:induction false} ReadStampsFail(bytes: seq<byte>, cursor: nat, i: nat, count: nat)
    requires i <= count && ReadStamps(bytes, cursor, i).Err?
    ensures ReadStamps(bytes, cursor, count) == ReadStamps(bytes, cursor, i)
  {
    hide ReadStamp;
    if i < count {
      ReadStampsFail(bytes, cursor, i, count - 1);
    }
  }

  lemma {:induction false} ReadBlocksFail(bytes: seq<byte>, cursor: nat, i: nat, count: nat)
    requires i <= count && ReadBlocks(bytes, cursor, i).Err?
    ensures ReadBlocks(bytes, cursor, count) == ReadBlocks(bytes, cursor, i)
  {
    hide ReadStamps;
    if i < count {
      ReadBlocksFail(bytes, cursor, i, count - 1);
    }
  }

  method DecodeStamps(bytes: seq<byte>, start: nat, count: nat) returns (result: Result<seq<Stamp>, LoadError>)
    ensures result == ReadStamps(bytes, start, count)
  {
    hide Number;
    var block: seq<Stamp> := [];
    var cursor := start;
    for i := 0 to count
      invariant cursor == start + STAMP_SIZE * i && ReadStamps(bytes, start, i) == Ok(block)
    {
      var lastUsedDay := ReadDay(bytes, cursor);
      if lastUsedDay.Err? {
        ReadStampsFail(bytes, start, i + 1, count);
        return Err(lastUsedDay.error);
      }
      var lastUpdatedDay := ReadDay(bytes, cursor + 2);
      if lastUpdatedDay.Err? {
        ReadStampsFail(bytes, start, i + 1, count);
        return Err(lastUpdatedDay.error);
      }
      if cursor + 4 >= |bytes| {
        ReadStampsFail(bytes, start, i + 1, count);
        return Err(InvalidData("truncated metadata count"));
      }
      block := block + [Stamp(lastUsedDay.value, lastUpdatedDay.value, bytes[cursor + 4])];
      cursor := cursor + STAMP_SIZE;
    }
    result := Ok(block);
  }

  method DecodeMetadata(bytes: seq<byte>, start: nat, count: nat) returns (result: Result<MetadataRead, LoadError>)
    ensures result == ReadBlocks(bytes, start, count)
  {
    hide ReadStamps;
    var blocks: seq<seq<Stamp>> := [];
    var cursor: nat := start;
    for i := 0 to count
      invariant ReadBlocks(bytes, start, i) == Ok(MetadataRead(blocks, cursor))
    {
      if cursor >= |bytes| {
        ReadBlocksFail(bytes, start, i + 1, count);
        return Err(InvalidData("truncated metadata block"));
      }
      var size := bytes[cursor] as nat;
      cursor := cursor + 1;
      var block := DecodeStamps(bytes, cursor, size);
      if block.Err? {
        ReadBlocksFail(bytes, start, i + 1, count);
        return Err(block.error);
      }
      blocks := blocks + [block.value];
      cursor := cursor + STAMP_SIZE * size;
    }
    result := Ok(MetadataRead(blocks, cursor));
  }

  // ----- metadata: round trip -----

  function StampOf(r: Record): Stamp {
    Stamp(r.lastUsedDay, r.lastUpdatedDay, r.count)
  }

  function StampsOf(block: seq<Record>): (s: seq<Stamp>)
    ensures |s| == |block| && forall i :: 0 <= i < |s| ==> s[i] == StampOf(block[i])
  {
    seq(|block|, i requires 0 <= i < |block| => StampOf(block[i]))
  }

  function AllStamps(blocks: seq<seq<Record>>): (s: seq<seq<Stamp>>)
    ensures |s| == |blocks| && forall i :: 0 <= i < |s| ==> s[i] == StampsOf(blocks[i])
  {
    seq(|blocks|, i requires 0 <= i < |blocks| => StampsOf(blocks[i]))
  }

  lemma {:induction false} StampFields(a: seq<byte>, r: Record, c: seq<byte>)
    ensures ReadStamp(a + StampBytes(r) + c, |a|) == Ok(StampOf(r))
  {
    hide Number, LittleEndian;
    var used, updated, rest := LittleEndian(r.lastUsedDay, 2), LittleEndian(r.lastUpdatedDay, 2), [r.count, 0];
    var whole := a + StampBytes(r) + c;
    assert whole == a + used + (updated + rest + c);
    assert whole == (a + used) + updated + (rest + c);
    Middle(a, used, updated + rest + c);
    Middle(a + used, updated, rest + c);
    NumberRoundTrip(r.lastUsedDay, 2);
    NumberRoundTrip(r.lastUpdatedDay, 2);
    assert whole[|a| + 4] == rest[0];
  }

  lemma {:induction false} StampsRoundTrip(a: seq<byte>, block: seq<Record>, n: nat, c: seq<byte>)
    requires n <= |block|
    ensures ReadStamps(a + Stamps(block) + c, |a|, n) == Ok(StampsOf(block[..n]))
  {
    hide ReadStamp, StampBytes, Stamps;
    if n > 0 {
      StampsRoundTrip(a, block, n - 1, c);
      var after := StampsAround(a, block, n - 1, c);
      StampFields(a + Stamps(block[..n - 1]), block[n - 1], after);
      assert StampsOf(block[..n]) == StampsOf(block[..n - 1]) + [StampOf(block[n - 1])];
    } else {
      assert StampsOf(block[..0]) == [];
    }
  }

  /** The bytes behind the first `i + 1` stamps. */
  lemma {:induction false} StampsAround(a: seq<byte>, block: seq<Record>, i: nat, c: seq<byte>) returns (after: seq<byte>)
    requires i < |block|
    ensures a + Stamps(block) + c == (a + Stamps(block[..i])) + StampBytes(block[i]) + after
  {
    hide StampBytes, Stamps;
    StampsStep([], block, i);
    var rest := StampsPrefix(block, i + 1);
    after := rest + c;
    var head, mine := Stamps(block[..i]), StampBytes(block[i]);
    assert [] + Stamps(block[..i + 1]) == Stamps(block[..i + 1]) && [] + head == head;
    assert Stamps(block) == head + mine + rest;
    Regroup(a, head, mine, rest, c);
  }

  lemma {:induction false} Regroup(a: seq<byte>, b: seq<byte>, c: seq<byte>, d: seq<byte>, e: seq<byte>)
    ensures a + (b + c + d) + e == (a + b) + c + (d + e)
  {
  }

  lemma {:induction false} StampsPrefix(block: seq<Record>, i: nat) returns (rest: seq<byte>)
    requires i <= |block|
    ensures Stamps(block) == Stamps(block[..i]) + rest
  {
    hide StampBytes;
    if i == |block| {
      assert block[..i] == block;
      rest := [];
    } else {
      var init := block[..|block| - 1];
      var before := StampsPrefix(init, i);
      assert init[..i] == block[..i];
      rest := before + StampBytes(block[|block| - 1]);
    }
  }

  lemma {:induction false} BlocksRoundTrip(a: seq<byte>, blocks: seq<seq<Record>>, c: seq<byte>)
    requires forall i :: 0 <= i < |blocks| ==> |blocks[i]| <= BLOCK_MAX
    ensures ReadBlocks(a + BlocksMetadata(blocks) + c, |a|, |blocks|)
            == Ok(MetadataRead(AllStamps(blocks), |a| + |BlocksMetadata(blocks)|))
  {
    hide Stamps, ReadStamps, ReadBlocks, BlocksMetadata;
    if blocks == [] {
      assert AllStamps(blocks) == [];
      NoBlocks(a, blocks, c);
    } else {
      var init, last := blocks[..|blocks| - 1], blocks[|blocks| - 1];
      var head := BlocksMetadata(init);
      var size := [|last| as byte];
      BlocksRoundTrip(a, init, size + Stamps(last) + c);
      BlocksMetadataStep([], blocks, |init|);
      assert blocks[..|blocks|] == blocks && [] + BlocksMetadata(blocks) == BlocksMetadata(blocks) && [] + head == head;
      RegroupBlock(a, head, size, Stamps(last), c);
      var whole := a + BlocksMetadata(blocks) + c;
      StampsRoundTrip((a + head) + size, last, |last|, c);
      assert last[..|last|] == last;
      ReadBlocksStep(whole, |a|, |blocks|, MetadataRead(AllStamps(init), |a| + |head|), StampsOf(last));
      assert AllStamps(blocks) == AllStamps(init) + [StampsOf(last)];
    }
  }

  lemma {:induction false} NoBlocks(a: seq<byte>, blocks: seq<seq<Record>>, c: seq<byte>)
    requires blocks == []
    ensures BlocksMetadata(blocks) == [] && ReadBlocks(a + [] + c, |a|, 0) == Ok(MetadataRead([], |a|))
  {
  }

  lemma {:induction false} ReadBlocksStep(bytes: seq<byte>, cursor: nat, count: nat, before: MetadataRead, block: seq<Stamp>)
    requires count > 0 && ReadBlocks(bytes, cursor, count - 1) == Ok(before)
    requires before.cursor < |bytes| && ReadStamps(bytes, before.cursor + 1, bytes[before.cursor] as nat) == Ok(block)
    ensures ReadBlocks(bytes, cursor, count)
            == Ok(MetadataRead(before.blocks + [block], before.cursor + 1 + STAMP_SIZE * bytes[before.cursor] as nat))
  {
    hide ReadStamps;
  }

  lemma {:induction false} RegroupBlock(a: seq<byte>, head: seq<byte>, size: seq<byte>, stamps: seq<byte>, c: seq<byte>)
    requires |size| == 1
    ensures var whole := a + (head + (size + stamps)) + c;
            && whole == a + head + (size + stamps + c)
            && whole == ((a + head) + size) + stamps + c
            && whole[|a| + |head|] == size[0]
  {
  }

  // ----- the whole memory -----

  function RecordsOfBlock(records: seq<Record>, indices: seq<nat>): (r: seq<Record>)
    requires forall i :: 0 <= i < |indices| ==> indices[i] < |records|
    ensures |r| == |indices| && forall i :: 0 <= i < |r| ==> r[i] == records[indices[i]]
  {
    seq(|indices|, i requires 0 <= i < |indices| => records[indices[i]])
  }

  /** Only the first 255 records of a reading fit a block. */
  function Shortened(indices: seq<nat>): seq<nat> {
    indices[..Min(|indices|, BLOCK_MAX)]
  }

  ghost predicate Valid(records: seq<Record>, blocks: seq<seq<nat>>) {
    forall n, i :: 0 <= n < |blocks| && 0 <= i < |blocks[n]| ==> blocks[n][i] < |records|
  }

  function RecordBlocks(records: seq<Record>, blocks: seq<seq<nat>>): (r: seq<seq<Record>>)
    requires Valid(records, blocks)
    ensures |r| == |blocks|
    ensures forall n :: 0 <= n < |r| ==> r[n] == RecordsOfBlock(records, Shortened(blocks[n]))
  {
    seq(|blocks|, n requires 0 <= n < |blocks| => RecordsOfBlock(records, Shortened(blocks[n])))
  }

  function ShardCount(nodeCount: nat): nat {
    (nodeCount + (SHARD_SIZE - 1)) / SHARD_SIZE
  }

  /** The blocks of shard `k`. */
  function Chunk<T>(blocks: seq<T>, k: nat): seq<T>
    requires k < ShardCount(|blocks|)
  {
    blocks[k * SHARD_SIZE..Min((k + 1) * SHARD_SIZE, |blocks|)]
  }

  function Shards(blocks: seq<seq<Record>>, value: ValueLaw): (r: seq<seq<byte>>)
    ensures |r| == ShardCount(|blocks|)
    ensures forall k :: 0 <= k < |r| ==> r[k] == ShardBytes(Payloads(Chunk(blocks, k), value))
  {
    seq(ShardCount(|blocks|), k requires 0 <= k < ShardCount(|blocks|) => ShardBytes(Payloads(Chunk(blocks, k), value)))
  }

  // ----- reading a directory -----

  function Join(entries: seq<Entry>, stamps: seq<Stamp>): (r: seq<Record>)
    requires |entries| == |stamps|
    ensures |r| == |entries|
    ensures forall i :: 0 <= i < |r| ==> r[i] == Record(entries[i], stamps[i].lastUsedDay, stamps[i].lastUpdatedDay, stamps[i].count)
  {
    seq(|entries|, i requires 0 <= i < |entries| =>
      Record(entries[i], stamps[i].lastUsedDay, stamps[i].lastUpdatedDay, stamps[i].count))
  }

  function ReadNode(directory: Directory, stamps: seq<Stamp>, node: nat): Result<seq<Record>, LoadError> {
    var file := ShardFile(node / SHARD_SIZE);
    if file !in directory then Err(Io(file))
    else
      match ParseShard(directory[file], [node % SHARD_SIZE])
      case Err(_) => Err(InvalidData("invalid learning entry shard"))
      case Ok(entries) =>
        if |entries| != |stamps| then Err(InvalidData("entry and metadata counts differ"))
        else Ok(Join(entries, stamps))
  }

  function ReadNodes(directory: Directory, blocks: seq<seq<Stamp>>, n: nat): Result<seq<Record>, LoadError>
    requires n <= |blocks|
  {
    if n == 0 then Ok([])
    else
      match ReadNodes(directory, blocks, n - 1)
      case Err(error) => Err(error)
      case Ok(before) =>
        match ReadNode(directory, blocks[n - 1], n - 1)
        case Err(error) => Err(error)
        case Ok(records) => Ok(before + records)
  }

  /** The checks before any record is read, and the metadata they guard. */
  function ReadHeader(directory: Directory): Result<seq<seq<Stamp>>, LoadError>
    requires MetadataFile in directory
  {
    var metadata := directory[MetadataFile];
    if LoudsFile !in directory then Err(Io(LoudsFile))
    else if CharactersFile !in directory then Err(Io(CharactersFile))
    else
      var characters := directory[CharactersFile];
      match Parse(directory[LoudsFile], characters)
      case Err(_) => Err(InvalidData("invalid LOUDS topology"))
      case Ok(louds) =>
        match ReadCount(metadata)
        case Err(error) => Err(error)
        case Ok(nodeCount) =>
          if nodeCount != |characters| || nodeCount != |louds.nodeIds| then Err(InvalidData("inconsistent node counts"))
          else
            match ReadBlocks(metadata, 4, nodeCount)
            case Err(error) => Err(error)
            case Ok(read) =>
              if read.cursor != |metadata| then Err(InvalidData("trailing metadata bytes")) else Ok(read.blocks)
  }

  function Decoded(directory: Directory): Result<seq<Record>, LoadError> {
    if MetadataFile !in directory then Ok([])
    else
      match ReadHeader(directory)
      case Err(error) => Err(error)
      case Ok(blocks) => ReadNodes(directory, blocks, |blocks|)
  }

  lemma {:induction false} ReadNodesFail(directory: Directory, blocks: seq<seq<Stamp>>, i: nat, n: nat)
    requires i <= n <= |blocks| && ReadNodes(directory, blocks, i).Err?
    ensures ReadNodes(directory, blocks, n) == ReadNodes(directory, blocks, i)
  {
    hide ReadNode;
    if i < n {
      ReadNodesFail(directory, blocks, i, n - 1);
    }
  }

  method DecodeDirectory(directory: Directory) returns (result: Result<seq<Record>, LoadError>)
    ensures result == Decoded(directory)
  {
    hide Parse, ReadBlocks, ParseShard, Number;
    if MetadataFile !in directory {
      return Ok([]);
    }
    var metadata := directory[MetadataFile];
    if LoudsFile !in directory {
      return Err(Io(LoudsFile));
    }
    if CharactersFile !in directory {
      return Err(Io(CharactersFile));
    }
    var characters := directory[CharactersFile];
    var louds := ParseLouds(directory[LoudsFile], characters);
    if louds.Err? {
      return Err(InvalidData("invalid LOUDS topology"));
    }
    var nodeCount := ReadCount(metadata);
    if nodeCount.Err? {
      return Err(nodeCount.error);
    }
    if nodeCount.value != |characters| || nodeCount.value != |louds.value.nodeIds| {
      return Err(InvalidData("inconsistent node counts"));
    }
    var read := DecodeMetadata(metadata, 4, nodeCount.value);
    if read.Err? {
      return Err(read.error);
    }
    if read.value.cursor != |metadata| {
      return Err(InvalidData("trailing metadata bytes"));
    }
    result := DecodeNodes(directory, read.value.blocks);
  }

  /** The records of all nodes; a shard is kept while its nodes are being read. */
  method DecodeNodes(directory: Directory, blocks: seq<seq<Stamp>>) returns (result: Result<seq<Record>, LoadError>)
    ensures result == ReadNodes(directory, blocks, |blocks|)
  {
    hide ParseShard;
    var records: seq<Record> := [];
    var loaded: Option<nat> := None;
    var shard: seq<byte> := [];
    for node := 0 to |blocks|
      invariant ReadNodes(directory, blocks, node) == Ok(records)
      invariant loaded.Some? ==> ShardFile(loaded.value) in directory && shard == directory[ShardFile(loaded.value)]
    {
      var index := node / SHARD_SIZE;
      if loaded != Some(index) {
        if ShardFile(index) !in directory {
          ReadNodesFail(directory, blocks, node + 1, |blocks|);
          return Err(Io(ShardFile(index)));
        }
        shard := directory[ShardFile(index)];
        loaded := Some(index);
      }
      var entries := ParseEntryShard(shard, [node % SHARD_SIZE]);
      if entries.Err? {
        ReadNodesFail(directory, blocks, node + 1, |blocks|);
        return Err(InvalidData("invalid learning entry shard"));
      }
      if |entries.value| != |blocks[node]| {
        ReadNodesFail(directory, blocks, node + 1, |blocks|);
        return Err(InvalidData("entry and metadata counts differ"));
      }
      records := records + Join(entries.value, blocks[node]);
    }
    result := Ok(records);
  }
}
