/** The bytes of the memory files by position and in numbers, as every program that shares the
    files has to read and write them (`learning.rs`, `dictionary/binary.rs`, `dictionary/louds.rs`). */
module FileMeanings {
  import opened Wrappers
  import opened Numbers
  import opened Bytes
  import opened Tries
  import opened TrieOrders
  import opened LoudsTrees
  import opened LoudsEncoding
  import opened EntryBlocks
  import opened MemoryFiles
  import CharacterIds

  // ----- numbers -----

  /** A number of 16 bits, its low byte first. */
  predicate Has16(binary: seq<byte>, offset: nat, value: nat) {
    offset + 2 <= |binary| && binary[offset] as nat == value % 256 && binary[offset + 1] as nat == value / 256
  }

  /** A number of 32 bits, its low byte first. */
  predicate Has32(binary: seq<byte>, offset: nat, value: nat) {
    && offset + 4 <= |binary|
    && binary[offset] as nat == value % 256 && binary[offset + 1] as nat == value / 0x100 % 256
    && binary[offset + 2] as nat == value / 0x1_0000 % 256 && binary[offset + 3] as nat == value / 0x100_0000
  }

  lemma {:induction false} TwoDigits(value: nat)
    ensures LittleEndian(value, 2) == [(value % 256) as byte, (value / 256 % 256) as byte]
  {
    assert LittleEndian(value / 256, 1) == [(value / 256 % 256) as byte] + LittleEndian(value / 256 / 256, 0);
  }

  lemma {:induction false} FourDigits(value: nat)
    ensures LittleEndian(value, 4)
            == [(value % 256) as byte, (value / 0x100 % 256) as byte, (value / 0x1_0000 % 256) as byte, (value / 0x100_0000 % 256) as byte]
  {
    assert value / 256 / 256 == value / 0x1_0000 && value / 0x1_0000 / 256 == value / 0x100_0000;
    TwoDigits(value / 0x1_0000);
    assert LittleEndian(value / 256, 3) == [(value / 256 % 256) as byte] + LittleEndian(value / 256 / 256, 2);
    assert LittleEndian(value, 4) == [(value % 256) as byte] + LittleEndian(value / 256, 3);
  }

  lemma {:induction false} NumbersHave(value: nat)
    ensures value < 0x1_0000 ==> Has16(LittleEndian(value, 2), 0, value)
    ensures value < 0x1_0000_0000 ==> Has32(LittleEndian(value, 4), 0, value)
  {
    hide LittleEndian;
    TwoDigits(value);
    FourDigits(value);
  }

  /** A number is read from its bytes, or refused where they end too early. */
  lemma {:induction false} NumbersMean(binary: seq<byte>, offset: nat, context: string)
    ensures ReadU16(binary, offset, context)
            == if offset + 2 <= |binary| then Ok(binary[offset] as nat + 256 * binary[offset + 1] as nat)
               else Err(Truncated(context, offset + 2, |binary|))
    ensures ReadU32(binary, offset, context)
            == if offset + 4 <= |binary|
               then Ok(binary[offset] as nat + 0x100 * binary[offset + 1] as nat
                       + 0x1_0000 * binary[offset + 2] as nat + 0x100_0000 * binary[offset + 3] as nat)
               else Err(Truncated(context, offset + 4, |binary|))
  {
    if offset + 2 <= |binary| {
      assert binary[offset..offset + 2] == [binary[offset], binary[offset + 1]];
      TwoBytes(binary[offset], binary[offset + 1]);
    }
    if offset + 4 <= |binary| {
      var a, b, c, d := binary[offset], binary[offset + 1], binary[offset + 2], binary[offset + 3];
      assert binary[offset..offset + 4] == [a, b, c, d];
      FourBytes(a, b, c, d);
    }
  }

  lemma {:induction false} FourBytes(a: byte, b: byte, c: byte, d: byte)
    ensures FromLittleEndian([a, b, c, d]) == a as nat + 0x100 * b as nat + 0x1_0000 * c as nat + 0x100_0000 * d as nat
  {
    assert [a, b, c, d][1..] == [b, c, d] && [b, c, d][1..] == [c, d];
    TwoBytes(c, d);
    assert FromLittleEndian([b, c, d]) == b as nat + 256 * FromLittleEndian([c, d]);
  }

  lemma {:induction false} TwoBytes(a: byte, b: byte)
    ensures FromLittleEndian([a, b]) == a as nat + 256 * b as nat
  {
    assert [a, b][1..] == [b] && [b][1..] == [];
    assert FromLittleEndian([b]) == b as nat + 256 * FromLittleEndian([]);
  }

  lemma {:induction false} Has16In(before: seq<byte>, value: nat, after: seq<byte>)
    requires value < 0x1_0000
    ensures Has16(before + LittleEndian(value, 2) + after, |before|, value)
  {
    hide LittleEndian;
    NumbersHave(value);
  }

  lemma {:induction false} Has32In(before: seq<byte>, value: nat, after: seq<byte>)
    requires value < 0x1_0000_0000
    ensures Has32(before + LittleEndian(value, 4) + after, |before|, value)
  {
    hide LittleEndian;
    NumbersHave(value);
  }

  // ----- entry blocks -----

  /** The ten bytes in front of a record's texts. */
  predicate HasHeader(binary: seq<byte>, at: nat, e: Entry, value: u32) {
    Has16(binary, at, e.leftId) && Has16(binary, at + 2, e.rightId) && Has16(binary, at + 4, e.meaningId) && Has32(binary, at + 6, value)
  }

  lemma {:induction false} HeaderMeans(before: seq<byte>, r: Record, value: ValueLaw, after: seq<byte>)
    ensures HasHeader(before + Header(r, value) + after, |before|, r.entry, value(r.count, r.entry.ruby))
  {
    hide LittleEndian, Has16, Has32;
    var a, b, c := LittleEndian(r.entry.leftId, 2), LittleEndian(r.entry.rightId, 2), LittleEndian(r.entry.meaningId, 2);
    var d := LittleEndian(value(r.count, r.entry.ruby), 4);
    var all := before + Header(r, value) + after;
    assert all == before + a + (b + c + d + after);
    Has16In(before, r.entry.leftId, b + c + d + after);
    assert all == (before + a) + b + (c + d + after);
    Has16In(before + a, r.entry.rightId, c + d + after);
    assert all == (before + a + b) + c + (d + after);
    Has16In(before + a + b, r.entry.meaningId, d + after);
    assert all == (before + a + b + c) + d + after;
    Has32In(before + a + b + c, value(r.count, r.entry.ruby), after);
  }

  /** The number of records, and ten bytes for each of them. */
  lemma {:induction false} BlockLayout(block: seq<Record>, value: ValueLaw, i: nat)
    requires i < |block|
    ensures Has16(BlockBytes(block, value), 0, if |block| <= 0xFFFF then |block| else 0xFFFF)
    ensures HasHeader(BlockBytes(block, value), 2 + 10 * i, block[i].entry, value(block[i].count, block[i].entry.ruby))
  {
    hide Header, Headers, Words, LittleEndian, Has16, HasHeader;
    var all, headers := BlockBytes(block, value), Headers(block, value);
    var count, text := LittleEndian(Min(|block|, U16_MAX), 2), SharedRuby(block) + Words(block, SharedRuby(block));
    assert all == [] + count + (headers + text);
    Has16In([], Min(|block|, U16_MAX), headers + text);
    HeadersAt(block, value, i);
    var h := Header(block[i], value);
    assert headers == headers[..10 * i] + h + headers[10 * i + 10..];
    assert all == (count + headers[..10 * i]) + h + (headers[10 * i + 10..] + text);
    HeaderMeans(count + headers[..10 * i], block[i], value, headers[10 * i + 10..] + text);
  }

  function Reading(block: seq<Record>): Utf8
    requires block != []
  {
    block[0].entry.ruby
  }

  /** Where the tab in front of word `i` stands in the texts of a block. */
  function WordAt(block: seq<Record>, i: nat): nat
    requires block != [] && i <= |block|
  {
    if i == 0 then |Reading(block)|
    else WordAt(block, i - 1) + 1 + if block[i - 1].entry.word == Reading(block) then 0 else |block[i - 1].entry.word|
  }

  lemma {:induction false} WordsReach(block: seq<Record>, i: nat)
    requires block != [] && i <= |block|
    ensures |Reading(block) + Words(block[..i], Reading(block))| == WordAt(block, i)
  {
    if i > 0 {
      WordsReach(block, i - 1);
      assert block[..i][..i - 1] == block[..i - 1];
    }
  }

  lemma {:induction false} WordsPrefix(block: seq<Record>, ruby: Utf8, i: nat)
    requires i <= |block|
    ensures Words(block[..i], ruby) <= Words(block, ruby)
    decreases |block| - i
  {
    if i < |block| {
      WordsPrefix(block, ruby, i + 1);
      assert block[..i + 1][..i] == block[..i];
    } else {
      assert block[..i] == block;
    }
  }

  lemma {:induction false} WordPlaced(block: seq<Record>, i: nat)
    requires i < |block|
    ensures var texts := Reading(block) + Words(block, Reading(block));
            && |texts| == WordAt(block, |block|)
            && WordAt(block, i) < WordAt(block, i + 1) <= |texts|
            && texts[WordAt(block, i)] == 9
            && texts[WordAt(block, i) + 1..WordAt(block, i + 1)] == Written(block[i].entry.word, Reading(block))
  {
    hide Words, WordAt, Written;
    var ruby := Reading(block);
    var texts, written := ruby + Words(block, ruby), Written(block[i].entry.word, ruby);
    WordsReach(block, |block|);
    WordsReach(block, i);
    WordsReach(block, i + 1);
    assert block[..|block|] == block;
    WordsPrefix(block, ruby, i + 1);
    WordsStep(ruby, block, ruby, i);
    var a, c := ruby + Words(block[..i], ruby), Words(block, ruby)[|Words(block[..i + 1], ruby)|..];
    assert texts == (ruby + Words(block[..i + 1], ruby)) + c;
    assert texts == a + [TAB] + (written + c) && texts == (a + [TAB]) + written + c;
    Middle(a + [TAB], written, c);
  }

  /** Behind the headers: the reading, then each word behind a tab; a word equal to the reading is left out. */
  lemma {:induction false} TextLayout(block: seq<Record>, value: ValueLaw, i: nat)
    requires i < |block|
    ensures 2 + 10 * |block| <= |BlockBytes(block, value)|
    ensures var texts := BlockBytes(block, value)[2 + 10 * |block|..];
            && |texts| == WordAt(block, |block|) && Reading(block) <= texts
            && WordAt(block, i) < WordAt(block, i + 1) <= |texts| && texts[WordAt(block, i)] == 9
            && texts[WordAt(block, i) + 1..WordAt(block, i + 1)]
               == if block[i].entry.word == Reading(block) then [] else block[i].entry.word
  {
    hide Headers, LittleEndian, Words, WordAt;
    WordPlaced(block, i);
    assert BlockBytes(block, value)[2 + 10 * |block|..] == Reading(block) + Words(block, Reading(block));
  }

  // ----- metadata -----

  /** Where the stamps of block `i` start. */
  function StampsAt(blocks: seq<seq<Record>>, i: nat): nat
    requires i <= |blocks|
  {
    if i == 0 then 4 else StampsAt(blocks, i - 1) + 1 + 6 * |blocks[i - 1]|
  }

  /** The six bytes of one record. */
  predicate HasStamp(binary: seq<byte>, at: nat, r: Record) {
    && Has16(binary, at, r.lastUsedDay) && Has16(binary, at + 2, r.lastUpdatedDay)
    && at + 6 <= |binary| && binary[at + 4] == r.count && binary[at + 5] == 0
  }

  lemma {:induction false} StampMeans(before: seq<byte>, r: Record, after: seq<byte>)
    ensures HasStamp(before + StampBytes(r) + after, |before|, r)
  {
    hide LittleEndian, Has16;
    var a, b := LittleEndian(r.lastUsedDay, 2), LittleEndian(r.lastUpdatedDay, 2);
    var all := before + StampBytes(r) + after;
    assert all == before + a + (b + [r.count, 0] + after);
    Has16In(before, r.lastUsedDay, b + [r.count, 0] + after);
    assert all == (before + a) + b + ([r.count, 0] + after);
    Has16In(before + a, r.lastUpdatedDay, [r.count, 0] + after);
    assert all == (before + a + b) + [r.count, 0] + after;
  }

  lemma {:induction false} StampsMean(before: seq<byte>, block: seq<Record>, after: seq<byte>, j: nat)
    requires j < |block|
    ensures HasStamp(before + Stamps(block) + after, |before| + 6 * j, block[j])
  {
    hide StampBytes, HasStamp, Stamps;
    StampsStep([], block, j);
    var rest := StampsPrefix(block, j + 1);
    assert [] + Stamps(block[..j + 1]) == Stamps(block[..j + 1]) && [] + Stamps(block[..j]) == Stamps(block[..j]);
    StampMeans(before + Stamps(block[..j]), block[j], rest + after);
    assert before + Stamps(block) + after == (before + Stamps(block[..j])) + StampBytes(block[j]) + (rest + after);
  }

  lemma {:induction false} MetadataReaches(blocks: seq<seq<Record>>, i: nat)
    requires i <= |blocks|
    ensures 4 + |BlocksMetadata(blocks[..i])| == StampsAt(blocks, i) && BlocksMetadata(blocks[..i]) <= BlocksMetadata(blocks)
    decreases |blocks| - i
  {
    MetadataLength(blocks, i);
    if i < |blocks| {
      MetadataReaches(blocks, i + 1);
      assert blocks[..i + 1][..i] == blocks[..i];
    } else {
      assert blocks[..i] == blocks;
    }
  }

  lemma {:induction false} MetadataLength(blocks: seq<seq<Record>>, i: nat)
    requires i <= |blocks|
    ensures 4 + |BlocksMetadata(blocks[..i])| == StampsAt(blocks, i)
  {
    hide Stamps;
    if i > 0 {
      MetadataLength(blocks, i - 1);
      assert blocks[..i][..i - 1] == blocks[..i - 1];
    }
  }

  /** The part of the metadata that is about block `i`. */
  lemma {:induction false} MetadataOfBlock(blocks: seq<seq<Record>>, i: nat) returns (before: seq<byte>, after: seq<byte>)
    requires i < |blocks|
    ensures 4 + |before| == StampsAt(blocks, i)
    ensures BlocksMetadata(blocks) == before + BlockMetadata(blocks[i]) + after
  {
    hide BlocksMetadata, BlockMetadata;
    MetadataReaches(blocks, i);
    MetadataReaches(blocks, i + 1);
    BlocksMetadataStep([], blocks, i);
    before := BlocksMetadata(blocks[..i]);
    assert [] + BlocksMetadata(blocks[..i + 1]) == BlocksMetadata(blocks[..i + 1]) && [] + before == before;
    after := BlocksMetadata(blocks)[|before + BlockMetadata(blocks[i])|..];
  }

  /** The number of blocks, and for each its size and six bytes for each of its records. */
  lemma {:induction false} MetadataLayout(blocks: seq<seq<Record>>, i: nat, j: nat)
    requires i < |blocks| <= 0xFFFF_FFFF
    ensures var m := MetadataBytes(blocks);
            && Has32(m, 0, |blocks|) && |m| == StampsAt(blocks, |blocks|) && StampsAt(blocks, i) < |m|
            && m[StampsAt(blocks, i)] as nat == (if |blocks[i]| <= 255 then |blocks[i]| else 255)
            && (j < |blocks[i]| ==> HasStamp(m, StampsAt(blocks, i) + 1 + 6 * j, blocks[i][j]))
  {
    hide Stamps, StampsAt, LittleEndian, BlocksMetadata, Has32, HasStamp;
    var m, count := MetadataBytes(blocks), LittleEndian(|blocks|, 4);
    assert m == [] + count + BlocksMetadata(blocks);
    Has32In([], |blocks|, BlocksMetadata(blocks));
    MetadataReaches(blocks, |blocks|);
    assert blocks[..|blocks|] == blocks;
    var a, rest := MetadataOfBlock(blocks, i);
    var size := [Min(|blocks[i]|, 255) as byte];
    assert m == (count + a + size) + Stamps(blocks[i]) + rest;
    assert m[|count + a|] == size[0];
    if j < |blocks[i]| {
      StampsMean(count + a + size, blocks[i], rest, j);
    }
  }

  // ----- shards -----

  /** Where payload `k` starts. */
  function PayloadAt(payloads: seq<seq<byte>>, k: nat): nat
    requires k <= |payloads|
  {
    if k == 0 then 2 + 4 * |payloads| else PayloadAt(payloads, k - 1) + |payloads[k - 1]|
  }

  lemma {:induction false} PayloadsReach(payloads: seq<seq<byte>>, k: nat)
    requires k <= |payloads|
    ensures 2 + 4 * |payloads| + |Concat(payloads[..k])| == PayloadAt(payloads, k)
  {
    if k > 0 {
      PayloadsReach(payloads, k - 1);
      assert payloads[..k][..k - 1] == payloads[..k - 1];
    }
  }

  lemma {:induction false} ConcatPrefix(payloads: seq<seq<byte>>, k: nat)
    requires k <= |payloads|
    ensures Concat(payloads[..k]) <= Concat(payloads)
    decreases |payloads| - k
  {
    if k < |payloads| {
      ConcatPrefix(payloads, k + 1);
      assert payloads[..k + 1][..k] == payloads[..k];
    } else {
      assert payloads[..k] == payloads;
    }
  }

  lemma {:induction false} OffsetsPrefix(payloads: seq<seq<byte>>, start: nat, k: nat)
    requires k <= |payloads|
    ensures Offsets(payloads[..k], start) <= Offsets(payloads, start)
    decreases |payloads| - k
  {
    hide LittleEndian, Concat;
    if k < |payloads| {
      OffsetsPrefix(payloads, start, k + 1);
      assert payloads[..k + 1][..k] == payloads[..k];
    } else {
      assert payloads[..k] == payloads;
    }
  }

  lemma {:induction false} OffsetPlaced(count: seq<byte>, payloads: seq<seq<byte>>, k: nat, all: seq<byte>)
    requires k < |payloads| && |count| == 2
    ensures Has32(count + Offsets(payloads, 2 + 4 * |payloads|) + all, 2 + 4 * k, Min(PayloadAt(payloads, k), U32_MAX))
  {
    hide LittleEndian, Offsets, Concat, Has32, PayloadAt;
    var start := 2 + 4 * |payloads|;
    PayloadsReach(payloads, k);
    OffsetsStep([], payloads, start, k);
    OffsetsPrefix(payloads, start, k + 1);
    var table, before, offset := Offsets(payloads, start), Offsets(payloads[..k], start), LittleEndian(Min(PayloadAt(payloads, k), U32_MAX), 4);
    assert [] + Offsets(payloads[..k + 1], start) == Offsets(payloads[..k + 1], start) && [] + before == before;
    var later := table[4 * k + 4..];
    assert table == before + offset + later;
    assert count + table + all == (count + before) + offset + (later + all);
    Has32In(count + before, Min(PayloadAt(payloads, k), U32_MAX), later + all);
  }

  /** The number of payloads, the offset of each from the start of the file, and the payloads. */
  lemma {:induction false} ShardLayout(payloads: seq<seq<byte>>, k: nat)
    requires k < |payloads|
    ensures var s := ShardBytes(payloads);
            && Has16(s, 0, if |payloads| <= 0xFFFF then |payloads| else 0xFFFF)
            && Has32(s, 2 + 4 * k, if PayloadAt(payloads, k) <= 0xFFFF_FFFF then PayloadAt(payloads, k) else 0xFFFF_FFFF)
            && PayloadAt(payloads, k) <= PayloadAt(payloads, k + 1) <= |s| == PayloadAt(payloads, |payloads|)
            && s[PayloadAt(payloads, k)..PayloadAt(payloads, k + 1)] == payloads[k]
  {
    hide LittleEndian, Offsets, Concat, Has16, Has32, PayloadAt;
    var start := 2 + 4 * |payloads|;
    var count, table, all := LittleEndian(Min(|payloads|, U16_MAX), 2), Offsets(payloads, start), Concat(payloads);
    assert ShardBytes(payloads) == [] + count + (table + all);
    Has16In([], Min(|payloads|, U16_MAX), table + all);
    OffsetPlaced(count, payloads, k, all);
    PayloadsReach(payloads, |payloads|);
    assert payloads[..|payloads|] == payloads;
    PayloadPlaced(count + table, payloads, k);
  }

  lemma {:induction false} PayloadPlaced(before: seq<byte>, payloads: seq<seq<byte>>, k: nat)
    requires k < |payloads| && |before| == 2 + 4 * |payloads|
    ensures PayloadAt(payloads, k) <= PayloadAt(payloads, k + 1) <= |before + Concat(payloads)|
    ensures (before + Concat(payloads))[PayloadAt(payloads, k)..PayloadAt(payloads, k + 1)] == payloads[k]
  {
    hide Concat;
    PayloadsReach(payloads, k);
    PayloadsReach(payloads, k + 1);
    ConcatPrefix(payloads, k + 1);
    ConcatStep([], payloads, k);
    var a := Concat(payloads[..k]);
    assert [] + Concat(payloads[..k + 1]) == Concat(payloads[..k + 1]) && [] + a == a;
    var rest := Concat(payloads)[|a| + |payloads[k]|..];
    assert before + Concat(payloads) == (before + a) + payloads[k] + rest;
    Middle(before + a, payloads[k], rest);
  }

  /** Block `n` is payload `n % 2048` of shard `n / 2048`. */
  lemma {:induction false} ShardOfBlock(blocks: seq<seq<Record>>, value: ValueLaw, n: nat)
    requires n < |blocks|
    ensures |Shards(blocks, value)| == (|blocks| + 2047) / 2048
    ensures n / 2048 < |Shards(blocks, value)|
    ensures var first := 2048 * (n / 2048);
            var payloads := Payloads(blocks[first..if first + 2048 <= |blocks| then first + 2048 else |blocks|], value);
            && Shards(blocks, value)[n / 2048] == ShardBytes(payloads)
            && n % 2048 < |payloads| && payloads[n % 2048] == BlockBytes(blocks[n], value)
  {
    hide BlockBytes, ShardBytes;
  }

  // ----- trees of bits -----

  const WEIGHTS := [128, 64, 32, 16, 8, 4, 2, 1]

  lemma {:induction false} Doubles(k: nat, r: nat)
    requires k > 0
    ensures Pow2(k) * r == 2 * (Pow2(k - 1) * r)
  {
    assert Pow2(k) == 2 * Pow2(k - 1);
  }

  lemma {:induction false} ShiftAdds(a: nat, r: nat, k: nat, s: nat)
    requires s <= k
    ensures ShiftRight(a + Pow2(k) * r, s) == ShiftRight(a, s) + Pow2(k - s) * r
    decreases s
  {
    hide Pow2, ShiftRight;
    ShiftStep(a, s);
    ShiftStep(a + Pow2(k) * r, s);
    if s > 0 {
      Doubles(k, r);
      ShiftAdds(a / 2, r, k - 1, s - 1);
    }
  }

  lemma {:induction false} ShiftStep(n: nat, s: nat)
    ensures ShiftRight(n, s) == if s == 0 then n else ShiftRight(n / 2, s - 1)
  {
  }

  lemma {:induction false} ShiftTwice(n: nat, a: nat, b: nat)
    ensures ShiftRight(n, a + b) == ShiftRight(ShiftRight(n, a), b)
  {
    if a > 0 {
      ShiftTwice(n / 2, a - 1, b);
    }
  }

  lemma {:induction false} HalfOf(n: nat, w: nat)
    requires w == 1 || w == 2 || w == 4 || w == 8 || w == 16 || w == 32 || w == 64
    ensures n / w / 2 == n / (2 * w)
  {
  }

  /** The bits of a byte by their weights. */
  lemma {:induction false} ShiftDivides(n: nat, place: nat)
    requires place < 8
    ensures ShiftRight(n, 7 - place) == n / WEIGHTS[place]
    decreases 8 - place
  {
    if place < 7 {
      ShiftDivides(n, place + 1);
      ShiftTwice(n, 7 - (place + 1), 1);
      var half := ShiftRight(n, 7 - (place + 1));
      assert ShiftRight(half, 1) == ShiftRight(half / 2, 0);
      HalfOf(n, WEIGHTS[place + 1]);
    }
  }

  lemma {:induction false} ByteOfWord(bytes: seq<byte>, s: nat)
    requires s < 8 * |bytes|
    ensures BitSet(FromLittleEndian(bytes), s) <==> BitSet(bytes[s / 8] as nat, s % 8)
  {
    hide ShiftRight, Pow2, FromLittleEndian;
    var a, rest := bytes[0] as nat, FromLittleEndian(bytes[1..]);
    FirstByte(bytes);
    if s < 8 {
      LowBits(a, rest, s);
    } else {
      HighBits(a, rest, s);
      ByteOfWord(bytes[1..], s - 8);
      assert bytes[1..][(s - 8) / 8] == bytes[s / 8];
    }
  }

  lemma {:induction false} FirstByte(bytes: seq<byte>)
    requires bytes != []
    ensures FromLittleEndian(bytes) == bytes[0] as nat + 256 * FromLittleEndian(bytes[1..])
  {
  }

  lemma {:induction false} LowBits(a: nat, rest: nat, s: nat)
    requires s < 8
    ensures BitSet(a + 256 * rest, s) <==> BitSet(a, s)
  {
    assert Pow2(8) == 256;
    ShiftAdds(a, rest, 8, s);
    assert Pow2(8 - s) == 2 * Pow2(7 - s);
    EvenProduct(Pow2(7 - s), rest);
  }

  lemma {:induction false} HighBits(a: nat, rest: nat, s: nat)
    requires a < 256 && s >= 8
    ensures ShiftRight(a + 256 * rest, s) == ShiftRight(rest, s - 8)
  {
    assert Pow2(8) == 256;
    ShiftAdds(a, rest, 8, 8);
    ShiftTwice(a, 7, 1);
    ShiftDivides(a, 0);
    assert ShiftRight(a / 128, 1) == ShiftRight(a / 128 / 2, 0) == 0;
    ShiftTwice(a + 256 * rest, 8, s - 8);
  }

  lemma {:induction false} EvenProduct(p: nat, r: nat)
    ensures 2 * p * r == 2 * (p * r) && (2 * p * r) % 2 == 0
  {
  }

  lemma {:induction false} LaterByte(i: nat)
    requires i >= 64
    ensures 8 * (i / 64) + 7 - i % 64 / 8 == 8 + (8 * ((i - 64) / 64) + 7 - (i - 64) % 64 / 8)
    ensures (i - 64) % 8 == i % 8
  {
    assert (i - 64) / 64 == i / 64 - 1 && (i - 64) % 64 == i % 64;
  }

  lemma {:induction false} UnpackedBit(bytes: seq<byte>, i: nat)
    requires |bytes| % 8 == 0 && i < 8 * |bytes|
    ensures |Unpack(bytes)| == 8 * |bytes|
    ensures 8 * (i / 64) + 7 - i % 64 / 8 < |bytes|
    ensures Unpack(bytes)[i] <==> BitSet(bytes[8 * (i / 64) + 7 - i % 64 / 8] as nat, 7 - i % 8)
  {
    hide BitSet, FromLittleEndian, Unpack;
    var word, rest := bytes[..8], bytes[8..];
    assert word + rest == bytes;
    UnpackCons(word, rest);
    UnpackLength(bytes);
    UnpackLength(rest);
    if i < 64 {
      assert (63 - i) / 8 == 7 - i / 8 && (63 - i) % 8 == 7 - i % 8;
      ByteOfWord(word, 63 - i);
    } else {
      LaterByte(i);
      UnpackedBit(rest, i - 64);
    }
  }

  lemma {:induction false} UnpackLength(bytes: seq<byte>)
    requires |bytes| % 8 == 0
    ensures |Unpack(bytes)| == 8 * |bytes|
  {
    if bytes != [] {
      UnpackLength(bytes[8..]);
    }
  }

  lemma {:induction false} PackedLength(bits: seq<bool>)
    ensures |Pack(bits)| == 8 * ((|bits| + 63) / 64)
  {
    hide Pack, Unpack;
    UnpackPack(bits);
    UnpackLength(Pack(bits));
  }

  lemma {:induction false} PackedBit(bits: seq<bool>, i: nat)
    requires i < 8 * |Pack(bits)|
    ensures 8 * (i / 64) + 7 - i % 64 / 8 < |Pack(bits)|
    ensures BitSet(Pack(bits)[8 * (i / 64) + 7 - i % 64 / 8] as nat, 7 - i % 8) <==> i >= |bits| || bits[i]
  {
    hide Pack, Unpack, BitSet, PadLength;
    UnpackPack(bits);
    UnpackedBit(Pack(bits), i);
    assert (bits + Repeat(true, PadLength(|bits|)))[i] == if i < |bits| then bits[i] else true;
  }

  /** Bits are kept in words of 64, the first at the top; words are written low byte first, and
      bits that are not there are written as ones. */
  lemma {:induction false} BitsLayout(bits: seq<bool>, i: nat)
    requires i < 8 * |Pack(bits)|
    ensures |Pack(bits)| == 8 * ((|bits| + 63) / 64)
    ensures 8 * (i / 64) + 7 - i % 64 / 8 < |Pack(bits)|
    ensures Pack(bits)[8 * (i / 64) + 7 - i % 64 / 8] as nat / WEIGHTS[i % 8] % 2 == 1 <==> i >= |bits| || bits[i]
  {
    hide Pack, ShiftRight;
    PackedLength(bits);
    PackedBit(bits, i);
    ShiftDivides(Pack(bits)[8 * (i / 64) + 7 - i % 64 / 8] as nat, i % 8);
  }

  /** Where the bits of a node start. */
  function DegreeAt(nodes: seq<TrieNode>, order: seq<Edge>, k: nat): nat
    requires Inside(nodes, order) && k <= |order|
  {
    if k == 0 then 2 else DegreeAt(nodes, order, k - 1) + |Children(nodes, order[k - 1].node)| + 1
  }

  lemma {:induction false} DegreesReach(nodes: seq<TrieNode>, order: seq<Edge>, k: nat)
    requires Inside(nodes, order) && k <= |order|
    ensures Inside(nodes, order[..k])
    ensures 2 + |UnaryDegrees(nodes, order[..k])| == DegreeAt(nodes, order, k)
    ensures UnaryDegrees(nodes, order[..k]) <= UnaryDegrees(nodes, order)
    decreases |order| - k
  {
    hide Children;
    DegreesLength(nodes, order, k);
    if k < |order| {
      DegreesReach(nodes, order, k + 1);
      assert order[..k + 1][..k] == order[..k];
    } else {
      assert order[..k] == order;
    }
  }

  lemma {:induction false} DegreesLength(nodes: seq<TrieNode>, order: seq<Edge>, k: nat)
    requires Inside(nodes, order) && k <= |order|
    ensures Inside(nodes, order[..k]) && 2 + |UnaryDegrees(nodes, order[..k])| == DegreeAt(nodes, order, k)
  {
    hide Children;
    if k > 0 {
      DegreesLength(nodes, order, k - 1);
      assert order[..k][..k - 1] == order[..k - 1];
    }
  }

  /** A set bit and a delimiter come first; then each node has a set bit for each of its children
      and a delimiter. */
  lemma {:induction false} DegreesLayout(nodes: seq<TrieNode>, order: seq<Edge>, k: nat)
    requires Inside(nodes, order) && k < |order|
    ensures var bits, start, degree := EncodedBits(nodes, order), DegreeAt(nodes, order, k), |Children(nodes, order[k].node)|;
            && |bits| == DegreeAt(nodes, order, |order|) && start + degree < |bits|
            && bits[0] && !bits[1] && !bits[start + degree] && forall p :: start <= p < start + degree ==> bits[p]
  {
    hide Children, UnaryDegrees;
    DegreesReach(nodes, order, |order|);
    assert order[..|order|] == order;
    DegreesReach(nodes, order, k);
    DegreesReach(nodes, order, k + 1);
    DegreesStep(nodes, order, k);
    var bits, a, degree := EncodedBits(nodes, order), UnaryDegrees(nodes, order[..k]), |Children(nodes, order[k].node)|;
    assert [true, false] + (a + Unary(degree)) <= bits;
  }

  lemma {:induction false} DegreesStep(nodes: seq<TrieNode>, order: seq<Edge>, k: nat)
    requires Inside(nodes, order) && k < |order|
    ensures Inside(nodes, order[..k]) && Inside(nodes, order[..k + 1])
    ensures UnaryDegrees(nodes, order[..k + 1]) == UnaryDegrees(nodes, order[..k]) + Unary(|Children(nodes, order[k].node)|)
  {
    hide Children;
    assert order[..k + 1][..k] == order[..k];
  }

  // ----- reading trees of bits -----

  function Ones(bits: seq<bool>): nat {
    if bits == [] then 0 else Ones(bits[..|bits| - 1]) + if bits[|bits| - 1] then 1 else 0
  }

  /** Delimiter `n` stands behind `n` delimiters and some set bits. */
  lemma {:induction false} ZerosMean(bits: seq<bool>, n: nat)
    requires n < |Zeros(bits)|
    ensures Zeros(bits)[n] < |bits| && !bits[Zeros(bits)[n]]
    ensures Zeros(bits)[n] == n + Ones(bits[..Zeros(bits)[n]])
  {
    var init := bits[..|bits| - 1];
    ZerosAndOnes(init);
    assert init[..|init|] == init;
    if n < |Zeros(init)| {
      ZerosMean(init, n);
      assert init[..Zeros(init)[n]] == bits[..Zeros(init)[n]];
    } else {
      assert bits[..|init|] == init;
    }
  }

  lemma {:induction false} ZerosAndOnes(bits: seq<bool>)
    ensures |Zeros(bits)| + Ones(bits) == |bits|
  {
    if bits != [] {
      ZerosAndOnes(bits[..|bits| - 1]);
    }
  }

  lemma {:induction false} OnesGrow(bits: seq<bool>, i: nat, j: nat)
    requires i <= j <= |bits|
    ensures Ones(bits[..i]) <= Ones(bits[..j])
  {
    if i < j {
      OnesGrow(bits, i, j - 1);
      assert bits[..j][..j - 1] == bits[..j - 1];
    }
  }

  lemma {:induction false} ZerosAscend(bits: seq<bool>, m: nat, n: nat)
    requires m < n < |Zeros(bits)|
    ensures Zeros(bits)[m] < Zeros(bits)[n]
  {
    var init := bits[..|bits| - 1];
    if n < |Zeros(init)| {
      ZerosAscend(init, m, n);
    } else {
      ZerosMean(init, m);
    }
  }

  /** The children of node `n` are numbered by the set bits between the delimiters around it,
      as far as there are nodes. */
  ghost predicate NumberedByBits(ranges: seq<Range>, bits: seq<bool>, zeros: seq<nat>, nodeCount: nat) {
    forall n :: 1 <= n < |ranges| && n < |zeros| && zeros[n - 1] <= |bits| && zeros[n] <= |bits| ==>
      ranges[n] == Range(Min(Ones(bits[..zeros[n - 1]]) + 1, nodeCount), Min(Ones(bits[..zeros[n]]) + 1, nodeCount))
  }

  lemma {:induction false} RangesMean(bits: seq<bool>, node: nat, nodeCount: nat)
    requires node <= nodeCount <= |Zeros(bits)|
    ensures Ranges(Zeros(bits), node, nodeCount).Ok? <==> node <= 1 || bits[0]
    ensures Ranges(Zeros(bits), node, nodeCount).Ok? ==>
              var ranges := Ranges(Zeros(bits), node, nodeCount).value;
              |ranges| == node && (node > 0 ==> ranges[0] == Range(0, 0)) && NumberedByBits(ranges, bits, Zeros(bits), nodeCount)
    decreases node
  {
    hide Zeros, Ones;
    var zeros := Zeros(bits);
    if node > 1 {
      RangesMean(bits, node - 1, nodeCount);
      ZerosMean(bits, node - 1);
      ZerosMean(bits, node - 2);
      FirstBitDecides(bits, node - 2);
    }
  }

  lemma {:induction false} FirstBitDecides(bits: seq<bool>, n: nat)
    requires n < |Zeros(bits)| && bits != []
    ensures bits[0] ==> Zeros(bits)[n] > n
    ensures !bits[0] ==> Zeros(bits)[0] == 0
  {
    hide Zeros;
    ZerosMean(bits, n);
    ZerosMean(bits, 0);
    if bits[0] {
      OnesGrow(bits, 1, if Zeros(bits)[n] > 0 then Zeros(bits)[n] else 1);
      assert Ones(bits[..1]) == 1 by {
        assert bits[..1][..0] == [];
      }
    } else {
      FirstIsDelimiter(bits);
    }
  }

  lemma {:induction false} FirstIsDelimiter(bits: seq<bool>)
    requires bits != [] && !bits[0]
    ensures |Zeros(bits)| > 0 && Zeros(bits)[0] == 0
  {
    if |bits| > 1 {
      FirstIsDelimiter(bits[..|bits| - 1]);
    } else {
      assert bits[..0] == [];
    }
  }

  /** A file is taken for a tree exactly when it is made of words of eight bytes, has a delimiter
      for every node, and starts with a set bit if there is more than one node. */
  lemma {:induction false} ParsesExactly(bytes: seq<byte>, nodeIds: seq<byte>)
    ensures Parse(bytes, nodeIds).Ok?
            <==> |bytes| % 8 == 0 && |nodeIds| <= |Zeros(Unpack(bytes))| && (|nodeIds| <= 1 || Unpack(bytes)[0])
    ensures Parse(bytes, nodeIds).Ok? ==>
              var louds := Parse(bytes, nodeIds).value;
              && louds.nodeIds == nodeIds && |louds.childRanges| == |nodeIds|
              && NumberedByBits(louds.childRanges, Unpack(bytes), Zeros(Unpack(bytes)), |nodeIds|)
  {
    hide Zeros, Unpack, Ranges, NumberedByBits;
    if |bytes| % 8 == 0 && |nodeIds| <= |Zeros(Unpack(bytes))| {
      RangesMean(Unpack(bytes), |nodeIds|, |nodeIds|);
    }
  }

  // ----- reading blocks -----

  function Tabs(text: seq<byte>): nat {
    if text == [] then 0 else (if text[0] == 9 then 1 else 0) + Tabs(text[1..])
  }

  lemma {:induction false} SplitCounts(text: seq<byte>)
    ensures |SplitTabs(text)| == Tabs(text) + 1
  {
    if text != [] {
      SplitCounts(text[1..]);
    }
  }

  function WithTabs(fields: seq<Utf8>): seq<byte>
    requires fields != []
  {
    if |fields| == 1 then fields[0] else fields[0] + [9] + WithTabs(fields[1..])
  }

  /** The fields hold no tab, and with tabs between them they are the text. */
  lemma {:induction false} SplitMeans(text: seq<byte>)
    ensures WithTabs(SplitTabs(text)) == text && forall k :: 0 <= k < |SplitTabs(text)| ==> 9 !in SplitTabs(text)[k]
  {
    if text != [] {
      SplitMeans(text[1..]);
      var rest, all := SplitTabs(text[1..]), SplitTabs(text);
      if text[0] == 9 {
        assert all[1..] == rest;
      } else {
        assert all[1..] == rest[1..];
        assert text == [text[0]] + text[1..];
        if |rest| > 1 {
          assert WithTabs(rest) == rest[0] + [9] + WithTabs(rest[1..]);
          assert WithTabs(all) == [text[0]] + WithTabs(rest);
        }
      }
    }
  }

  /** A block is read exactly when it has ten bytes for every entry it counts, and behind them as
      many tabs. */
  lemma {:induction false} BlockReadsExactly(binary: seq<byte>, i: nat)
    ensures ParseBlock(binary).Ok?
            <==> |binary| >= 2
                 && var n := binary[0] as nat + 256 * binary[1] as nat;
                    2 + 10 * n <= |binary| && Tabs(binary[2 + 10 * n..]) >= n
    ensures ParseBlock(binary).Ok? ==>
              var entries := ParseBlock(binary).value;
              && |entries| == binary[0] as nat + 256 * binary[1] as nat
              && (i < |entries| ==>
                    var fields := SplitTabs(binary[2 + 10 * |entries|..]);
                    && HasHeader(binary, 2 + 10 * i, entries[i], entries[i].value)
                    && |fields| > i + 1 && entries[i].ruby == fields[0]
                    && entries[i].word == if fields[i + 1] == [] then fields[0] else fields[i + 1])
  {
    hide SplitTabs, Number, HeaderAt, Has16, Has32, Tabs;
    NumbersMean(binary, 0, "entry count");
    if |binary| >= 2 {
      var n := binary[0] as nat + 256 * binary[1] as nat;
      if 2 + 10 * n <= |binary| {
        SplitCounts(binary[2 + 10 * n..]);
        if i < n && Tabs(binary[2 + 10 * n..]) >= n {
          HeaderRead(binary, i);
        }
      }
    }
  }

  lemma {:induction false} Digits(a: byte, b: byte, c: byte, d: byte)
    ensures Has16([a, b], 0, a as nat + 256 * b as nat)
    ensures Has32([a, b, c, d], 0, a as nat + 0x100 * b as nat + 0x1_0000 * c as nat + 0x100_0000 * d as nat)
  {
    var value := a as nat + 0x100 * b as nat + 0x1_0000 * c as nat + 0x100_0000 * d as nat;
    assert value / 0x100 == b as nat + 0x100 * c as nat + 0x1_0000 * d as nat;
    assert value / 0x1_0000 == c as nat + 0x100 * d as nat;
  }

  lemma {:induction false} ReadHas(binary: seq<byte>, offset: nat, context: string)
    ensures ReadU16(binary, offset, context).Ok? ==> Has16(binary, offset, ReadU16(binary, offset, context).value)
    ensures ReadU32(binary, offset, context).Ok? ==> Has32(binary, offset, ReadU32(binary, offset, context).value)
  {
    hide Number;
    NumbersMean(binary, offset, context);
    if offset + 4 <= |binary| {
      Digits(binary[offset], binary[offset + 1], binary[offset + 2], binary[offset + 3]);
    } else if offset + 2 <= |binary| {
      Digits(binary[offset], binary[offset + 1], 0, 0);
    }
  }

  lemma {:induction false} HeaderRead(binary: seq<byte>, i: nat)
    requires 2 + 10 * (i + 1) <= |binary|
    ensures HasHeader(binary, 2 + 10 * i, HeaderAt(binary, i), HeaderAt(binary, i).value)
  {
    hide ReadU16, ReadU32, Has16, Has32, HeaderAt;
    HeaderReads(binary, i);
    ReadHas(binary, 2 + 10 * i, "left connection identifier");
    ReadHas(binary, 2 + 10 * i + 2, "right connection identifier");
    ReadHas(binary, 2 + 10 * i + 4, "meaning identifier");
    ReadHas(binary, 2 + 10 * i + 6, "entry value");
  }

  function Number32(binary: seq<byte>, offset: nat): nat
    requires offset + 4 <= |binary|
  {
    binary[offset] as nat + 0x100 * binary[offset + 1] as nat + 0x1_0000 * binary[offset + 2] as nat + 0x100_0000 * binary[offset + 3] as nat
  }

  /** A slot reaches from its offset to the next one, or to the end of the file. */
  lemma {:induction false} SlotMeans(binary: seq<byte>, slotCount: nat, index: nat)
    requires 2 + 4 * slotCount <= |binary|
    ensures index >= slotCount ==> SlotBytes(binary, slotCount, index) == Err(InvalidShardIndex(index, slotCount))
    ensures index < slotCount ==>
              var start := Number32(binary, 2 + 4 * index);
              var end := if index + 1 < slotCount then Number32(binary, 2 + 4 * (index + 1)) else |binary|;
              SlotBytes(binary, slotCount, index)
              == if start <= end <= |binary| then Ok(binary[start..end]) else Err(InvalidOffset(start, end, |binary|))
  {
    hide ReadU32;
    NumbersMean(binary, 2 + index * 4, "shard block offset");
    NumbersMean(binary, 2 + (index + 1) * 4, "shard block offset");
  }

  // ----- reading metadata -----

  lemma {:induction false} DaysMean(bytes: seq<byte>, cursor: nat)
    ensures ReadDay(bytes, cursor).Ok? <==> cursor + 2 <= |bytes|
    ensures ReadDay(bytes, cursor).Ok? ==> Has16(bytes, cursor, ReadDay(bytes, cursor).value)
    ensures ReadCount(bytes).Ok? <==> 4 <= |bytes|
    ensures ReadCount(bytes).Ok? ==> Has32(bytes, 0, ReadCount(bytes).value)
  {
    hide Number, Has16, Has32;
    ReadHas(bytes, cursor, "");
    ReadHas(bytes, 0, "");
  }

  /** The days and the count of a record, read from its bytes; the last byte may be missing. */
  predicate ReadFrom(bytes: seq<byte>, at: nat, stamp: Stamp) {
    && Has16(bytes, at, stamp.lastUsedDay) && Has16(bytes, at + 2, stamp.lastUpdatedDay)
    && at + 4 < |bytes| && bytes[at + 4] == stamp.count
  }

  /** The records of a block are read exactly when their bytes are there. */
  lemma {:induction false} StampsReadExactly(bytes: seq<byte>, cursor: nat, count: nat)
    ensures ReadStamps(bytes, cursor, count).Ok? <==> count == 0 || cursor + 6 * count - 1 <= |bytes|
    ensures ReadStamps(bytes, cursor, count).Ok? ==>
              forall i :: 0 <= i < count ==> ReadFrom(bytes, cursor + 6 * i, ReadStamps(bytes, cursor, count).value[i])
  {
    hide ReadDay, Has16;
    if count > 0 {
      StampsReadExactly(bytes, cursor, count - 1);
      DaysMean(bytes, cursor + 6 * (count - 1));
      DaysMean(bytes, cursor + 6 * (count - 1) + 2);
    }
  }

  // ----- character ids -----

  /** A table of at most 256 graphemes gives each the position where it stands last. */
  lemma {:induction false} TableMeans(graphemes: seq<Utf8>)
    ensures CharacterIds.ParseTable(graphemes).Err? <==> |graphemes| > 256
    ensures |graphemes| <= 256 ==>
              var ids := CharacterIds.ParseTable(graphemes).value.ids;
              && (forall g :: g in ids <==> g in graphemes)
              && forall g :: g in ids ==>
                   && ids[g] as nat < |graphemes| && graphemes[ids[g]] == g
                   && forall i :: ids[g] as nat < i < |graphemes| ==> graphemes[i] != g
  {
    hide CharacterIds.Positions;
    if |graphemes| <= 256 {
      PositionsMean(graphemes, |graphemes|);
      assert graphemes[..|graphemes|] == graphemes;
    }
  }

  lemma {:induction false} PositionsMean(graphemes: seq<Utf8>, n: nat)
    requires n <= |graphemes| <= 256
    ensures var ids := CharacterIds.Positions(graphemes, n);
            && (forall g :: g in ids <==> g in graphemes[..n])
            && forall g :: g in ids ==>
                 && ids[g] as nat < n && graphemes[ids[g]] == g
                 && forall i :: ids[g] as nat < i < n ==> graphemes[i] != g
  {
    if n > 0 {
      PositionsMean(graphemes, n - 1);
      assert graphemes[..n] == graphemes[..n - 1] + [graphemes[n - 1]];
    }
  }

  /** The key of a reading: the id of each grapheme, if the table knows them all. */
  lemma {:induction false} KeyMeans(table: CharacterIds.CharacterIdMap, segment: CharacterIds.Segmentation, text: Utf8)
    ensures var graphemes, key := segment(text), CharacterIds.Encode(table, segment, text);
            && (key.Some? <==> forall i :: 0 <= i < |graphemes| ==> graphemes[i] in table.ids)
            && (key.Some? ==> |key.value| == |graphemes| && forall i :: 0 <= i < |graphemes| ==> graphemes[i] in table.ids && key.value[i] == table.ids[graphemes[i]])
  {
    IdsMean(table, segment(text));
  }

  lemma {:induction false} IdsMean(table: CharacterIds.CharacterIdMap, graphemes: seq<Utf8>)
    ensures var key := CharacterIds.EncodeGraphemes(table, graphemes);
            && (key.Some? <==> forall i :: 0 <= i < |graphemes| ==> graphemes[i] in table.ids)
            && (key.Some? ==> forall i :: 0 <= i < |graphemes| ==> graphemes[i] in table.ids && key.value[i] == table.ids[graphemes[i]])
  {
    if graphemes != [] {
      IdsMean(table, graphemes[1..]);
      assert forall i :: 0 < i < |graphemes| ==> graphemes[i] == graphemes[1..][i - 1];
    }
  }
}
