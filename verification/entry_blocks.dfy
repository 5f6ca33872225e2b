/** Entry blocks and shards: written by `learning.rs`, read back by `dictionary/binary.rs`. */
module EntryBlocks {
  import opened Wrappers
  import opened Numbers
  import opened Bytes

  type u16 = x: nat | x < 0x1_0000
  type u32 = x: nat | x < 0x1_0000_0000

  const TAB: byte := 9
  const HEADER_SIZE: nat := 10
  const U16_MAX: nat := 0xFFFF

  /** `value` is the 32-bit pattern of the entry's value. */
  datatype Entry = Entry(word: Utf8, ruby: Utf8, leftId: u16, rightId: u16, meaningId: u16, value: u32)

  datatype Record = Record(entry: Entry, lastUsedDay: u16, lastUpdatedDay: u16, count: byte)

  /** `learning_value`: the value of a record from its count and reading. */
  type ValueLaw = (byte, Utf8) -> u32

  datatype BinaryError =
    | Truncated(context: string, needed: nat, available: nat)
    | InvalidShardIndex(index: nat, slotCount: nat)
    | InvalidOffset(start: nat, end: nat, length: nat)
    | MissingEntryFields(expected: nat, found: nat)

  // ----- numbers -----

  function Number(bytes: seq<byte>): (r: nat)
    ensures |bytes| == 2 ==> r < 0x1_0000
    ensures |bytes| == 4 ==> r < 0x1_0000_0000
  {
    FromLittleEndianBound(bytes);
    PowersOf256();
    FromLittleEndian(bytes)
  }

  lemma {:induction false} FromLittleEndianBound(bytes: seq<byte>)
    ensures FromLittleEndian(bytes) < Pow256(|bytes|)
  {
    if bytes != [] {
      FromLittleEndianBound(bytes[1..]);
    }
  }

  lemma {:induction false} PowersOf256()
    ensures Pow256(2) == 0x1_0000 && Pow256(4) == 0x1_0000_0000
  {
    assert Pow256(1) == 256 && Pow256(3) == 0x100_0000;
  }

  lemma {:induction false} NumberRoundTrip(value: nat, width: nat)
    requires (width == 2 && value < 0x1_0000) || (width == 4 && value < 0x1_0000_0000)
    ensures Number(LittleEndian(value, width)) == value
  {
    PowersOf256();
    LittleEndianRoundTrip(value, width);
  }

  function ReadU16(binary: seq<byte>, offset: nat, context: string): Result<u16, BinaryError> {
    if |binary| < offset + 2 then Err(Truncated(context, offset + 2, |binary|))
    else Ok(Number(binary[offset..offset + 2]))
  }

  function ReadU32(binary: seq<byte>, offset: nat, context: string): Result<u32, BinaryError> {
    if |binary| < offset + 4 then Err(Truncated(context, offset + 4, |binary|))
    else Ok(Number(binary[offset..offset + 4]))
  }

  lemma {:induction false} Middle(a: seq<byte>, b: seq<byte>, c: seq<byte>)
    ensures (a + b + c)[|a|..|a| + |b|] == b
  {
  }

  lemma {:induction false} SliceOfSlice(s: seq<byte>, i: nat, j: nat, k: nat, l: nat)
    requires i <= j <= |s| && k <= l <= j - i
    ensures s[i..j][k..l] == s[i + k..i + l]
  {
    var outer := s[i..j];
    var inner := outer[k..l];
    assert |inner| == l - k;
    forall m | 0 <= m < l - k
      ensures inner[m] == s[i + k..i + l][m]
    {
      assert inner[m] == outer[k + m] == s[i + k + m];
    }
  }

  lemma {:induction false} FourFields(a: seq<byte>, b: seq<byte>, c: seq<byte>, d: seq<byte>)
    requires |a| == |b| == |c| == 2 && |d| == 4
    ensures (a + b + c + d)[0..2] == a && (a + b + c + d)[2..4] == b
    ensures (a + b + c + d)[4..6] == c && (a + b + c + d)[6..10] == d
  {
    var s := a + b + c + d;
    assert |s| == 10;
    assert s[0..2] == a;
    assert s[2..4] == b;
    assert s[4..6] == c;
    assert s[6..10] == d;
  }

  lemma {:induction false} ReadBack(a: seq<byte>, value: nat, c: seq<byte>, context: string)
    ensures value < 0x1_0000 ==> ReadU16(a + LittleEndian(value, 2) + c, |a|, context) == Ok(value)
    ensures value < 0x1_0000_0000 ==> ReadU32(a + LittleEndian(value, 4) + c, |a|, context) == Ok(value)
  {
    hide Number, LittleEndian;
    Middle(a, LittleEndian(value, 2), c);
    Middle(a, LittleEndian(value, 4), c);
    if value < 0x1_0000 {
      NumberRoundTrip(value, 2);
    }
    if value < 0x1_0000_0000 {
      NumberRoundTrip(value, 4);
    }
  }

  // ----- entry blocks: writing -----

  function Header(r: Record, value: ValueLaw): (h: seq<byte>)
    ensures |h| == HEADER_SIZE
  {
    LittleEndian(r.entry.leftId, 2) + LittleEndian(r.entry.rightId, 2) + LittleEndian(r.entry.meaningId, 2)
    + LittleEndian(value(r.count, r.entry.ruby), 4)
  }

  function Headers(block: seq<Record>, value: ValueLaw): (h: seq<byte>)
    ensures |h| == HEADER_SIZE * |block|
  {
    if block == [] then [] else Headers(block[..|block| - 1], value) + Header(block[|block| - 1], value)
  }

  /** The reading is written once, taken from the first record. */
  function SharedRuby(block: seq<Record>): Utf8 {
    if block == [] then [] else block[0].entry.ruby
  }

  /** A word equal to the reading is written as nothing. */
  function Written(word: Utf8, ruby: Utf8): Utf8 {
    if word == ruby then [] else word
  }

  function Words(block: seq<Record>, ruby: Utf8): seq<byte> {
    if block == [] then []
    else Words(block[..|block| - 1], ruby) + ([TAB] + Written(block[|block| - 1].entry.word, ruby))
  }

  function BlockBytes(block: seq<Record>, value: ValueLaw): seq<byte> {
    LittleEndian(Min(|block|, U16_MAX), 2) + Headers(block, value) + (SharedRuby(block) + Words(block, SharedRuby(block)))
  }

  lemma {:induction false} HeadersStep(before: seq<byte>, block: seq<Record>, value: ValueLaw, i: nat)
    requires i < |block|
    ensures before + Headers(block[..i + 1], value) == (before + Headers(block[..i], value)) + Header(block[i], value)
  {
    hide Header;
    assert block[..i + 1][..i] == block[..i];
  }

  lemma {:induction false} WordsStep(before: seq<byte>, block: seq<Record>, ruby: Utf8, i: nat)
    requires i < |block|
    ensures before + Words(block[..i + 1], ruby)
            == (before + Words(block[..i], ruby)) + ([TAB] + Written(block[i].entry.word, ruby))
  {
    hide Written;
    assert block[..i + 1][..i] == block[..i];
  }

  lemma {:induction false} NothingWritten(before: seq<byte>, block: seq<Record>, value: ValueLaw)
    ensures before + Headers(block[..0], value) == before && before + Words(block[..0], SharedRuby(block)) == before
  {
  }

  method EncodeBlock(block: seq<Record>, value: ValueLaw) returns (output: seq<byte>)
    ensures output == BlockBytes(block, value)
  {
    hide Header, Headers, Words, LittleEndian;
    output := LittleEndian(Min(|block|, U16_MAX), 2);
    ghost var count := output;
    NothingWritten(count, block, value);
    for i := 0 to |block|
      invariant output == count + Headers(block[..i], value)
    {
      HeadersStep(count, block, value, i);
      output := output + Header(block[i], value);
    }
    assert block[..|block|] == block;
    var ruby := SharedRuby(block);
    ghost var headers := output;
    output := output + ruby;
    ghost var texts := output;
    NothingWritten(texts, block, value);
    for i := 0 to |block|
      invariant output == texts + Words(block[..i], ruby)
    {
      WordsStep(texts, block, ruby, i);
      var word := block[i].entry.word;
      output := output + [TAB];
      if word != ruby {
        output := output + word;
      }
    }
    assert (headers + ruby) + Words(block, ruby) == headers + (ruby + Words(block, ruby));
  }

  // ----- entry blocks: reading -----

  function SplitTabs(text: seq<byte>): (r: seq<Utf8>)
    ensures |r| > 0
  {
    if text == [] then [[]]
    else
      var rest := SplitTabs(text[1..]);
      if text[0] == TAB then [[]] + rest else [[text[0]] + rest[0]] + rest[1..]
  }

  function ParseHeader(h: seq<byte>): Entry
    requires |h| == HEADER_SIZE
  {
    Entry([], [], Number(h[0..2]), Number(h[2..4]), Number(h[4..6]), Number(h[6..10]))
  }

  function HeaderAt(binary: seq<byte>, index: nat): Entry
    requires 2 + HEADER_SIZE * (index + 1) <= |binary|
  {
    ParseHeader(binary[2 + HEADER_SIZE * index..2 + HEADER_SIZE * index + HEADER_SIZE])
  }

  function ParseHeaders(binary: seq<byte>, count: nat): (r: seq<Entry>)
    requires 2 + HEADER_SIZE * count <= |binary|
    ensures |r| == count && forall i :: 0 <= i < count ==> r[i] == HeaderAt(binary, i)
  {
    seq(count, i requires 0 <= i < count => HeaderAt(binary, i))
  }

  function WithText(e: Entry, ruby: Utf8, word: Utf8): Entry {
    e.(ruby := ruby, word := if word == [] then ruby else word)
  }

  function WithTexts(entries: seq<Entry>, fields: seq<Utf8>): (r: seq<Entry>)
    requires |fields| > |entries|
    ensures |r| == |entries| && forall i :: 0 <= i < |r| ==> r[i] == WithText(entries[i], fields[0], fields[i + 1])
  {
    seq(|entries|, i requires 0 <= i < |entries| => WithText(entries[i], fields[0], fields[i + 1]))
  }

  function ParseBlock(binary: seq<byte>): Result<seq<Entry>, BinaryError> {
    var count := ReadU16(binary, 0, "entry count");
    if count.Err? then Err(count.error)
    else
      var textOffset := 2 + HEADER_SIZE * count.value;
      if |binary| < textOffset then Err(Truncated("entry headers", textOffset, |binary|))
      else
        var fields := SplitTabs(binary[textOffset..]);
        if |fields| < count.value + 1 then Err(MissingEntryFields(count.value + 1, |fields|))
        else Ok(WithTexts(ParseHeaders(binary, count.value), fields))
  }

  lemma {:induction false} HeaderReads(binary: seq<byte>, index: nat)
    requires 2 + HEADER_SIZE * (index + 1) <= |binary|
    ensures var offset := 2 + HEADER_SIZE * index;
            && ReadU16(binary, offset, "left connection identifier") == Ok(HeaderAt(binary, index).leftId)
            && ReadU16(binary, offset + 2, "right connection identifier") == Ok(HeaderAt(binary, index).rightId)
            && ReadU16(binary, offset + 4, "meaning identifier") == Ok(HeaderAt(binary, index).meaningId)
            && ReadU32(binary, offset + 6, "entry value") == Ok(HeaderAt(binary, index).value)
    ensures HeaderAt(binary, index).word == [] && HeaderAt(binary, index).ruby == []
  {
    hide Number;
    var offset := 2 + HEADER_SIZE * index;
    SliceOfSlice(binary, offset, offset + HEADER_SIZE, 0, 2);
    SliceOfSlice(binary, offset, offset + HEADER_SIZE, 2, 4);
    SliceOfSlice(binary, offset, offset + HEADER_SIZE, 4, 6);
    SliceOfSlice(binary, offset, offset + HEADER_SIZE, 6, 10);
  }

  method ParseEntryBlock(binary: seq<byte>) returns (result: Result<seq<Entry>, BinaryError>)
    ensures result == ParseBlock(binary)
  {
    hide SplitTabs, HeaderAt;
    var count := ReadU16(binary, 0, "entry count");
    if count.Err? {
      return Err(count.error);
    }
    var headerCount: nat := count.value;
    var textOffset := 2 + HEADER_SIZE * headerCount;
    if |binary| < textOffset {
      return Err(Truncated("entry headers", textOffset, |binary|));
    }
    var headers: seq<Entry> := [];
    for index := 0 to headerCount
      invariant headers == ParseHeaders(binary, headerCount)[..index]
    {
      HeaderReads(binary, index);
      var offset := 2 + HEADER_SIZE * index;
      var left := ReadU16(binary, offset, "left connection identifier");
      var right := ReadU16(binary, offset + 2, "right connection identifier");
      var meaning := ReadU16(binary, offset + 4, "meaning identifier");
      var value := ReadU32(binary, offset + 6, "entry value");
      headers := headers + [Entry([], [], left.value, right.value, meaning.value, value.value)];
      assert headers[index] == HeaderAt(binary, index);
    }
    var fields := SplitTabs(binary[textOffset..]);
    var expected := headerCount + 1;
    assert ParseHeaders(binary, headerCount)[..headerCount] == ParseHeaders(binary, headerCount) == headers;
    if |fields| < expected {
      return Err(MissingEntryFields(expected, |fields|));
    }
    var ruby := fields[0];
    var entries: seq<Entry> := [];
    for index := 0 to |headers|
      invariant entries == WithTexts(headers, fields)[..index]
    {
      var word := fields[index + 1];
      var entry := headers[index].(ruby := ruby);
      entry := entry.(word := if word == [] then ruby else word);
      entries := entries + [entry];
    }
    assert WithTexts(headers, fields)[..|headers|] == WithTexts(headers, fields);
    result := Ok(entries);
  }

  // ----- entry blocks: round trip -----

  predicate TabFree(text: Utf8) {
    TAB !in text
  }

  /** One block: a shared reading, and texts that cannot be mistaken for a field border. */
  ghost predicate Block(block: seq<Record>) {
    && TabFree(SharedRuby(block))
    && forall i :: 0 <= i < |block| ==> block[i].entry.ruby == SharedRuby(block) && TabFree(block[i].entry.word)
  }

  /** What is left of a record's entry: the value comes from the count, and an empty word is
      taken for the reading. */
  function Restored(r: Record, value: ValueLaw): Entry {
    Entry(if r.entry.word == [] then r.entry.ruby else r.entry.word, r.entry.ruby,
          r.entry.leftId, r.entry.rightId, r.entry.meaningId, value(r.count, r.entry.ruby))
  }

  function RestoredAll(block: seq<Record>, value: ValueLaw): (r: seq<Entry>)
    ensures |r| == |block| && forall i :: 0 <= i < |r| ==> r[i] == Restored(block[i], value)
  {
    seq(|block|, i requires 0 <= i < |block| => Restored(block[i], value))
  }

  lemma {:induction false} SplitNoTab(text: Utf8)
    requires TabFree(text)
    ensures SplitTabs(text) == [text]
  {
    if text != [] {
      SplitNoTab(text[1..]);
      assert [text[0]] + text[1..] == text;
    }
  }

  lemma {:induction false} SplitAtLastTab(text: seq<byte>, last: Utf8)
    requires TabFree(last)
    ensures SplitTabs(text + ([TAB] + last)) == SplitTabs(text) + [last]
  {
    var whole := text + ([TAB] + last);
    if text == [] {
      assert whole[1..] == last;
      SplitNoTab(last);
    } else {
      assert whole[1..] == text[1..] + ([TAB] + last);
      SplitAtLastTab(text[1..], last);
      var rest := SplitTabs(text[1..]);
      assert (rest + [last])[1..] == rest[1..] + [last];
    }
  }

  lemma {:induction false} SplitWords(block: seq<Record>, ruby: Utf8)
    requires TabFree(ruby) && forall i :: 0 <= i < |block| ==> TabFree(block[i].entry.word)
    ensures var fields := SplitTabs(ruby + Words(block, ruby));
            && |fields| == |block| + 1 && fields[0] == ruby
            && forall i :: 0 <= i < |block| ==> fields[i + 1] == Written(block[i].entry.word, ruby)
  {
    hide SplitTabs, Words;
    if block == [] {
      NoWords(block, ruby);
      SplitNoTab(ruby);
    } else {
      var init, last := block[..|block| - 1], Written(block[|block| - 1].entry.word, ruby);
      SplitWords(init, ruby);
      LastWord(block, ruby);
      SplitAtLastTab(ruby + Words(init, ruby), last);
    }
  }

  lemma {:induction false} NoWords(block: seq<Record>, ruby: Utf8)
    ensures block == [] ==> ruby + Words(block, ruby) == ruby
  {
  }

  lemma {:induction false} LastWord(block: seq<Record>, ruby: Utf8)
    requires block != []
    ensures ruby + Words(block, ruby)
            == (ruby + Words(block[..|block| - 1], ruby)) + ([TAB] + Written(block[|block| - 1].entry.word, ruby))
  {
    hide Written;
  }

  lemma {:induction false} HeadersAt(block: seq<Record>, value: ValueLaw, i: nat)
    requires i < |block|
    ensures Headers(block, value)[HEADER_SIZE * i..HEADER_SIZE * i + HEADER_SIZE] == Header(block[i], value)
  {
    hide Header;
    var init := block[..|block| - 1];
    if i < |init| {
      HeadersAt(init, value, i);
      assert Headers(block, value)[HEADER_SIZE * i..HEADER_SIZE * i + HEADER_SIZE]
          == Headers(init, value)[HEADER_SIZE * i..HEADER_SIZE * i + HEADER_SIZE];
    }
  }

  lemma {:induction false} HeaderRoundTrip(r: Record, value: ValueLaw)
    ensures ParseHeader(Header(r, value))
            == Entry([], [], r.entry.leftId, r.entry.rightId, r.entry.meaningId, value(r.count, r.entry.ruby))
  {
    hide Number, LittleEndian;
    var h := Header(r, value);
    NumberRoundTrip(r.entry.leftId, 2);
    NumberRoundTrip(r.entry.rightId, 2);
    NumberRoundTrip(r.entry.meaningId, 2);
    NumberRoundTrip(value(r.count, r.entry.ruby), 4);
    FourFields(LittleEndian(r.entry.leftId, 2), LittleEndian(r.entry.rightId, 2),
               LittleEndian(r.entry.meaningId, 2), LittleEndian(value(r.count, r.entry.ruby), 4));
  }

  lemma {:induction false} HeaderInBlock(count: seq<byte>, headers: seq<byte>, text: seq<byte>, block: seq<Record>, value: ValueLaw, i: nat)
    requires |count| == 2 && headers == Headers(block, value) && i < |block|
    ensures HeaderAt(count + headers + text, i) == ParseHeader(Header(block[i], value))
  {
    hide Header, ParseHeader;
    HeadersAt(block, value, i);
    var from := HEADER_SIZE * i;
    assert (count + headers + text)[2 + from..2 + from + HEADER_SIZE] == headers[from..from + HEADER_SIZE];
  }

  /** Reading a written block gives back every entry. */
  lemma {:induction false} BlockRoundTrip(block: seq<Record>, value: ValueLaw)
    requires Block(block) && |block| <= U16_MAX
    ensures ParseBlock(BlockBytes(block, value)) == Ok(RestoredAll(block, value))
  {
    hide SplitTabs, Header, ParseHeader, HeaderAt, Number, LittleEndian, Words, Headers;
    var ruby := SharedRuby(block);
    var count, headers, text := LittleEndian(|block|, 2), Headers(block, value), ruby + Words(block, ruby);
    var binary := count + headers + text;
    assert binary == [] + count + (headers + text);
    ReadBack([], |block|, headers + text, "entry count");
    assert binary[2 + HEADER_SIZE * |block|..] == text;
    SplitWords(block, ruby);
    var parsed := WithTexts(ParseHeaders(binary, |block|), SplitTabs(text));
    forall i | 0 <= i < |block|
      ensures parsed[i] == Restored(block[i], value)
    {
      HeaderInBlock(count, headers, text, block, value, i);
      HeaderRoundTrip(block[i], value);
    }
    assert parsed == RestoredAll(block, value);
  }

  // ----- shards -----

  function Concat(parts: seq<seq<byte>>): seq<byte> {
    if parts == [] then [] else Concat(parts[..|parts| - 1]) + parts[|parts| - 1]
  }

  /** The offset table; `start` is where the first payload begins. */
  function Offsets(payloads: seq<seq<byte>>, start: nat): (r: seq<byte>)
    ensures |r| == 4 * |payloads|
  {
    if payloads == [] then []
    else
      var before := payloads[..|payloads| - 1];
      Offsets(before, start) + LittleEndian(Min(start + |Concat(before)|, U32_MAX), 4)
  }

  function ShardBytes(payloads: seq<seq<byte>>): seq<byte> {
    LittleEndian(Min(|payloads|, U16_MAX), 2) + Offsets(payloads, 2 + 4 * |payloads|) + Concat(payloads)
  }

  lemma {:induction false} OffsetsStep(before: seq<byte>, payloads: seq<seq<byte>>, start: nat, i: nat)
    requires i < |payloads|
    ensures before + Offsets(payloads[..i + 1], start)
            == (before + Offsets(payloads[..i], start)) + LittleEndian(Min(start + |Concat(payloads[..i])|, U32_MAX), 4)
  {
    hide LittleEndian, Concat;
    assert payloads[..i + 1][..i] == payloads[..i];
  }

  lemma {:induction false} ConcatStep(before: seq<byte>, payloads: seq<seq<byte>>, i: nat)
    requires i < |payloads|
    ensures before + Concat(payloads[..i + 1]) == (before + Concat(payloads[..i])) + payloads[i]
    ensures |Concat(payloads[..i + 1])| == |Concat(payloads[..i])| + |payloads[i]|
  {
    assert payloads[..i + 1][..i] == payloads[..i];
  }

  lemma {:induction false} NothingJoined(before: seq<byte>, payloads: seq<seq<byte>>, start: nat)
    ensures before + Offsets(payloads[..0], start) == before && before + Concat(payloads[..0]) == before
    ensures |Concat(payloads[..0])| == 0
  {
  }

  /** The encoded blocks of a shard. */
  function Payloads(blocks: seq<seq<Record>>, value: ValueLaw): (r: seq<seq<byte>>)
    ensures |r| == |blocks| && forall i :: 0 <= i < |r| ==> r[i] == BlockBytes(blocks[i], value)
  {
    seq(|blocks|, i requires 0 <= i < |blocks| => BlockBytes(blocks[i], value))
  }

  method EncodeShard(blocks: seq<seq<Record>>, value: ValueLaw) returns (output: seq<byte>)
    ensures output == ShardBytes(Payloads(blocks, value))
  {
    hide LittleEndian, BlockBytes, Offsets, Concat;
    var encoded: seq<seq<byte>> := [];
    for i := 0 to |blocks|
      invariant |encoded| == i && forall j :: 0 <= j < i ==> encoded[j] == BlockBytes(blocks[j], value)
    {
      var payload := EncodeBlock(blocks[i], value);
      encoded := encoded + [payload];
    }
    assert encoded == Payloads(blocks, value);
    output := LittleEndian(Min(|encoded|, U16_MAX), 2);
    ghost var count := output;
    var first := 2 + |encoded| * 4;
    var offset := first;
    NothingJoined(count, encoded, first);
    for i := 0 to |encoded|
      invariant output == count + Offsets(encoded[..i], first) && offset == first + |Concat(encoded[..i])|
    {
      OffsetsStep(count, encoded, first, i);
      ConcatStep([], encoded, i);
      output := output + LittleEndian(Min(offset, U32_MAX), 4);
      offset := offset + |encoded[i]|;
    }
    assert encoded[..|encoded|] == encoded;
    ghost var table := output;
    NothingJoined(table, encoded, first);
    for i := 0 to |encoded|
      invariant output == table + Concat(encoded[..i])
    {
      ConcatStep(table, encoded, i);
      output := output + encoded[i];
    }
  }

  function SlotBytes(binary: seq<byte>, slotCount: nat, index: nat): Result<seq<byte>, BinaryError>
    requires 2 + slotCount * 4 <= |binary|
  {
    if index >= slotCount then Err(InvalidShardIndex(index, slotCount))
    else
      match ReadU32(binary, 2 + index * 4, "shard block offset")
      case Err(error) => Err(error)
      case Ok(start) =>
        match SlotEnd(binary, slotCount, index)
        case Err(error) => Err(error)
        case Ok(end) =>
          if start > end || end > |binary| then Err(InvalidOffset(start, end, |binary|)) else Ok(binary[start..end])
  }

  function SlotEnd(binary: seq<byte>, slotCount: nat, index: nat): Result<nat, BinaryError> {
    if index + 1 == slotCount then Ok(|binary|)
    else
      match ReadU32(binary, 2 + (index + 1) * 4, "shard block offset")
      case Err(error) => Err(error)
      case Ok(end) => Ok(end)
  }

  function ParseSlots(binary: seq<byte>, slotCount: nat, indices: seq<nat>): Result<seq<Entry>, BinaryError>
    requires 2 + slotCount * 4 <= |binary|
  {
    if indices == [] then Ok([])
    else
      var before := ParseSlots(binary, slotCount, indices[..|indices| - 1]);
      if before.Err? then before
      else
        var slot := SlotBytes(binary, slotCount, indices[|indices| - 1]);
        if slot.Err? then Err(slot.error)
        else
          var entries := ParseBlock(slot.value);
          if entries.Err? then entries else Ok(before.value + entries.value)
  }

  function ParseShard(binary: seq<byte>, indices: seq<nat>): Result<seq<Entry>, BinaryError> {
    var slotCount := ReadU16(binary, 0, "shard slot count");
    if slotCount.Err? then Err(slotCount.error)
    else if |binary| < 2 + slotCount.value * 4 then Err(Truncated("shard offset table", 2 + slotCount.value * 4, |binary|))
    else ParseSlots(binary, slotCount.value, indices)
  }

  lemma {:induction false} ParseSlotsFail(binary: seq<byte>, slotCount: nat, indices: seq<nat>, i: nat)
    requires 2 + slotCount * 4 <= |binary| && i <= |indices|
    requires ParseSlots(binary, slotCount, indices[..i]).Err?
    ensures ParseSlots(binary, slotCount, indices) == ParseSlots(binary, slotCount, indices[..i])
  {
    hide SlotBytes, ParseBlock;
    if i == |indices| {
      assert indices[..i] == indices;
    } else {
      var init := indices[..|indices| - 1];
      assert init[..i] == indices[..i];
      ParseSlotsFail(binary, slotCount, init, i);
    }
  }

  method ParseEntryShard(binary: seq<byte>, indices: seq<nat>) returns (result: Result<seq<Entry>, BinaryError>)
    ensures result == ParseShard(binary, indices)
  {
    hide ParseBlock, SlotBytes;
    var slotCount := ReadU16(binary, 0, "shard slot count");
    if slotCount.Err? {
      return Err(slotCount.error);
    }
    var slots: nat := slotCount.value;
    if |binary| < 2 + slots * 4 {
      return Err(Truncated("shard offset table", 2 + slots * 4, |binary|));
    }
    var output: seq<Entry> := [];
    assert indices[..0] == [];
    for i := 0 to |indices|
      invariant ParseSlots(binary, slots, indices[..i]) == Ok(output)
    {
      assert indices[..i + 1][..i] == indices[..i];
      var slot := SlotBytes(binary, slots, indices[i]);
      if slot.Err? {
        ParseSlotsFail(binary, slots, indices, i + 1);
        return Err(slot.error);
      }
      var entries := ParseEntryBlock(slot.value);
      if entries.Err? {
        ParseSlotsFail(binary, slots, indices, i + 1);
        return entries;
      }
      output := output + entries.value;
    }
    assert indices[..|indices|] == indices;
    result := Ok(output);
  }

  // ----- shards: round trip -----

  lemma {:induction false} OffsetsAt(payloads: seq<seq<byte>>, start: nat, i: nat)
    requires i < |payloads|
    ensures Offsets(payloads, start)[4 * i..4 * i + 4] == LittleEndian(Min(start + |Concat(payloads[..i])|, U32_MAX), 4)
  {
    hide LittleEndian, Concat;
    var init := payloads[..|payloads| - 1];
    if i < |init| {
      OffsetsAt(init, start, i);
      assert init[..i] == payloads[..i];
      assert Offsets(payloads, start)[4 * i..4 * i + 4] == Offsets(init, start)[4 * i..4 * i + 4];
    }
  }

  lemma {:induction false} ConcatSplit(payloads: seq<seq<byte>>, i: nat)
    requires i < |payloads|
    ensures |Concat(payloads[..i])| + |payloads[i]| == |Concat(payloads[..i + 1])| <= |Concat(payloads)|
    ensures Concat(payloads)[|Concat(payloads[..i])|..|Concat(payloads[..i])| + |payloads[i]|] == payloads[i]
  {
    assert payloads[..i + 1][..i] == payloads[..i];
    if i == |payloads| - 1 {
      assert payloads[..i + 1] == payloads;
    } else {
      var init := payloads[..|payloads| - 1];
      assert init[..i] == payloads[..i] && init[..i + 1] == payloads[..i + 1];
      ConcatSplit(init, i);
    }
  }

  lemma {:induction false} OffsetRead(payloads: seq<seq<byte>>, i: nat)
    requires i < |payloads| && |ShardBytes(payloads)| <= U32_MAX
    ensures ReadU32(ShardBytes(payloads), 2 + i * 4, "shard block offset")
            == Ok(2 + 4 * |payloads| + |Concat(payloads[..i])|)
  {
    hide LittleEndian, Concat, Offsets, Number;
    var start := 2 + 4 * |payloads|;
    OffsetsAt(payloads, start, i);
    ConcatSplit(payloads, i);
    var offset := start + |Concat(payloads[..i])|;
    NumberRoundTrip(offset, 4);
    assert ShardBytes(payloads)[2 + i * 4..2 + i * 4 + 4] == Offsets(payloads, start)[4 * i..4 * i + 4];
  }

  lemma {:induction false} SlotRoundTrip(payloads: seq<seq<byte>>, i: nat)
    requires i < |payloads| <= U16_MAX && |ShardBytes(payloads)| <= U32_MAX
    ensures 2 + |payloads| * 4 <= |ShardBytes(payloads)|
    ensures SlotBytes(ShardBytes(payloads), |payloads|, i) == Ok(payloads[i])
  {
    hide LittleEndian, Concat, Offsets, ReadU32;
    var start := 2 + 4 * |payloads|;
    var from := |Concat(payloads[..i])|;
    OffsetRead(payloads, i);
    ConcatSplit(payloads, i);
    if i + 1 < |payloads| {
      OffsetRead(payloads, i + 1);
    } else {
      assert payloads[..i + 1] == payloads;
    }
    assert ShardBytes(payloads)[start + from..start + from + |payloads[i]|] == Concat(payloads)[from..from + |payloads[i]|];
  }

  /** Any slot of a written shard gives back its block. */
  lemma {:induction false} ShardRoundTrip(payloads: seq<seq<byte>>, i: nat, block: seq<Record>, value: ValueLaw)
    requires i < |payloads| <= U16_MAX && |ShardBytes(payloads)| <= U32_MAX
    requires Block(block) && |block| <= U16_MAX && payloads[i] == BlockBytes(block, value)
    ensures ParseShard(ShardBytes(payloads), [i]) == Ok(RestoredAll(block, value))
  {
    hide LittleEndian, Concat, Offsets, ParseBlock, BlockBytes, SlotBytes, Number;
    SlotRoundTrip(payloads, i);
    BlockRoundTrip(block, value);
    var rest := Offsets(payloads, 2 + 4 * |payloads|) + Concat(payloads);
    assert ShardBytes(payloads) == [] + LittleEndian(|payloads|, 2) + rest;
    ReadBack([], |payloads|, rest, "shard slot count");
    assert [i][..|[i]| - 1] == [];
    assert ParseSlots(ShardBytes(payloads), |payloads|, []) == Ok([]);
    assert [] + RestoredAll(block, value) == RestoredAll(block, value);
  }
}
