# Verification model of beanKey's converter and daemon

beanKey is a Japanese input method. A daemon turns keystrokes into Japanese text: it keeps a
composition under edits, looks up readings in a dictionary and in a memory of what was committed
before, searches a lattice of words for the best sentences, has a language model rate them, and
answers the front end key by key. This project is a Dafny model of the parts of that program that
are hard to get right, with proofs of what they promise. `dafny verify dfyconfig.toml` checks all
of it.

Each file holds one module. Where the program changes state in place, the model is a class or a
method with a loop, proved against a specification function; what is promised is proved about
those functions as lemmas. The modules named `…_meaning` say what those functions mean without
naming them: in the terms of the rules, keys, bytes, days and tokens involved, and in numbers.

- **The composing buffer** (`table`, `segments`, `composing`, `edits`, `composing_text`,
  `edit_limits`; `table_meaning`, `conversion_meaning`, `edit_meaning`). Rewriting is
  context-sensitive, takes the longest match and deletes back into converted text; edits in the
  middle split, freeze and separate keystrokes. Proved: an application is local to what it
  deletes; which rule wins, and what its glyphs and wildcards write; which keystrokes an edit
  keeps, replaces and adds; the boundaries found are all the clean cuts and nothing else; the
  conversion factors at them if and only if a lone separator is silent in every table; every edit
  shows what the same edit on a plain line of text shows, and over every run of edits the text is
  the conversion of the keystrokes. Two promises fail on some inputs: inserting into a buffer
  whose keystrokes show nothing, and completing keystrokes off a boundary. For both an input is
  given and the exact condition is proved: which texts can be typed into safely, which counts can
  be completed, in which tables no count ever overflows, and what comes out where the subtraction
  wraps around.
- **The learning index** (`bytes`, `trie`, `trie_orders`, `louds`, `louds_encoding`,
  `index_search`, `memory_index`; bytes and bits in `file_meaning`). The pointer trie, its
  breadth-first encoding packed into 64-bit words, the parser by delimiter positions, and both
  kinds of lookup. Proved: parsing the encoding of any trie gives the child ranges of its
  numbering; both lookups answer the linear scan of the records; the bounded prediction takes
  whole families of nodes in order under one limit, and is sound, and complete up to that limit.
- **The memory files** (`character_ids`, `entry_blocks`, `memory_files`, `memory_round_trip`,
  `file_meaning`) and **saving** (`saving`, `saving_meaning`). Blocks, shards, metadata, and the
  decoder with its errors. Proved: decoding what was encoded gives back the records if and only if
  no reading has more than 255; where every byte of the files stands and what it says; which files
  are taken for trees and blocks; a save that is killed at any step, with recovery killed any
  number of times, decodes to the old or to the new records; the tree file is published last, and
  no other file is touched.
- **Ageing and the learning memory** (`decay`, `learned_records`, `learning_memory`,
  `learning_state`, `lookup_keys`; `learned_meaning`). Proved: lazy ageing is a law of time unless
  the clock goes back, and exactly when two ageings are one; after every run of actions, failed
  saves included, both indexes answer as a scan of their list, nothing is listed twice, counts are
  added saturating, days and entry of a merged record are the later ones, only what was asked for
  is forgotten, and only the least recently used records are cut; a lookup that stops at an
  unknown character misses no record.
- **The lattice search** (`lattice_indices`, `lattice`, `lattice_search`; `lattice_meaning`).
  Proved: the two index spaces are walked in order for every boundary map; the bounded lists are
  the stable top `n`; every complete path is found or outdone by `n` others through its last word;
  totals are the scores of sentences read from the front.
- **Caches** (`kv_cache`; `lru_cache`, `evaluation`, `zenz`; `rating_meaning`, `request_meaning`).
  Proved: reusing prefixes of two token sequences gives the rows of evaluating from scratch; the
  evaluator with its two least-recently-used caches answers every sequence of calls as without
  them; a cache drops what was used longest ago unless its counter has turned over; exactly when a
  rating passes, asks for other text or ends early, and with which bytes.
- **The session machine** (`session_values`, `session`, `preview_limits`, `engine`;
  `session_meaning`). Five input modes and about twenty actions over an uninterpreted conversion.
  Proved: every request leaves every session valid, errors included; committing loses none of the
  text shown; choosing a candidate leaves exactly the remainder listed for it; what each key
  types, commits, selects and resizes, and exactly which keys are refused; old request numbers
  change nothing; and each request of any sequence keeps all of this. Enter over a preview or a
  live conversion discards what stays behind it without showing it. What that is, and when it is
  nothing, is proved for every session; three sessions in which text is lost are given, by
  revealing a form, by resizing a segment, and by a live conversion of the front of the text.
- **Two smaller cores**: the interpolated n-gram model (`ngram`, `ngram_tries`, `ngram_meaning`),
  whose counts are read back from tries exactly and give distributions that depend on the last `n
  - 1` tokens alone, and the printer and parser of custom input tables (`custom_table`).

`wrappers` and `numbers` hold what all of them use.

Conventions. A grapheme is one symbol that carries its text. Scores, probabilities and logits are
`real`; 32-bit values stored in files are bit patterns. `nat` stands for `usize`, and widths that
matter (`u8`, `u16`, `u32` and saturation or truncation to them) are written out. Errors are
`Result` or `Option` values. Ghost parameters of some methods name the list an index was built
from.

Three hypotheses recur. `SilentRegistry`: a lone separator shows nothing in any table, as in the
built-in tables. `Shows`: keystrokes that are not all separators show something; this is exactly
what it takes for typing to show something, it follows when every rule writes something fixed, and
a table that breaks it is given. `WellBehaved`: a conversion returns candidates that can be taken
from the composition they were asked for.

## Model

| member | source | states |
|---|---|---|
| InputTables.New | crates/converter/src/input/table.rs:81-99 | The table built from a list of entries: a repeated key keeps its first place and takes its last value. |
| InputTables.DistinctEntriesAreKept | crates/converter/src/input/table.rs:81-99 | Entries with different keys are stored unchanged and in order. |
| InputTables.LaterEntriesReplace | crates/converter/src/input/table.rs:81-99 | Keys in a built table never repeat, and every key answers with the value of the last entry that gave it. |
| InputTables.MatchMapping | crates/converter/src/input/table.rs:267-315 | The counting loop over one rule finds a match exactly when every key element agrees with the added piece or the text before it, with all occurrences of the wildcard agreeing, and then returns its depth, exact-key count and wildcard. |
| InputTables.BestOutranks | crates/converter/src/input/table.rs:342-348 | The chosen rule matches and outranks every other rule that matches, whatever their order. |
| InputTables.FindBest | crates/converter/src/input/table.rs:192-204 | The search over all rules returns that winner. |
| InputTables.PushValue | crates/converter/src/input/table.rs:205-226 | Pushing a rule's value element by element appends what TableMeanings.ApplicationMeans says of it. |
| InputTables.ApplyInPlace | crates/converter/src/input/table.rs:192-227 | Truncating and pushing on the buffer computes the specified application and its deletion count. |
| InputTables.Apply | crates/converter/src/input/table.rs:192-227 | An application only changes the end of the buffer: what it does not delete stays in front, unchanged. |
| InputTables.ApplyIsLocal | crates/converter/src/input/table.rs:192-227 | An application to `l + r` that deletes at most `r` is the application to `r` with `l` kept in front. |
| InputTables.EmptyTableAppends | crates/converter/src/input/table.rs:77-79 | The empty table appends what a piece displays and deletes nothing. |
| InputTables.BuiltInTablesAreSilent | crates/converter/src/input/table.rs:118-121 | A table with the rule that a lone separator writes nothing, and no later rule for it, is silent: a separator typed into nothing shows nothing. |
| TableMeanings.MatchingIsReading | crates/converter/src/input/table.rs:267-348 | Matching backwards finds exactly the rules whose elements accept the last things read, in reading order, every wildcard standing for one and the same piece. |
| TableMeanings.RankedByKeys | crates/converter/src/input/table.rs:342-348 | Whether one rule outranks another is said by their keys: the longer, then the one with fewer wildcards, then the one for a physical key, then the earlier. |
| TableMeanings.BestIsWinner | crates/converter/src/input/table.rs:192-204 | The program uses the rule that comes before all others that can be used, and none exactly if none can be. |
| TableMeanings.OneWinner | crates/converter/src/input/table.rs:342-348 | There is at most one such rule. |
| TableMeanings.ApplicationMeans | crates/converter/src/input/table.rs:192-227 | What a winning rule writes: the text it has read goes, in front everything stays, and in its place stand, in order, the glyphs of its value and, at each wildcard, what the piece read at the key's wildcard displays. |
| TableMeanings.NothingApplies | crates/converter/src/input/table.rs:192-227 | Without a rule to use, the piece is shown behind the text. |
| TableMeanings.AnyKeyCompletes | crates/converter/src/input/table.rs:192-227 | A winning rule that completes a syllable before any other key shows the syllable and, behind it, the key that was pressed. |
| TableMeanings.RomajiTyped | crates/converter/src/input/table.rs:128-135 | Typing n, k, a: n is shown, then the completed n and k, then the completed n and ka. |
| TableMeanings.GlyphsWritten | crates/converter/src/input/table.rs:205-226 | A winning rule without wildcards writes its glyphs in the place of what it has read. |
| TableMeanings.NyaTyped | crates/converter/src/input/table.rs:410-416 | A rule without wildcards wins over one of its length with a wildcard, and a longer one over both. |
| TableMeanings.KeyBeforeCharacter | crates/converter/src/input/table.rs:428-447 | A rule for a key with its modifiers wins over an earlier one for what the key displays, and is not used without the modifiers. |
| Segments.StepKeepsFront | crates/converter/src/input/composing.rs:434-459 | A keystroke deletes from the end of the text only, and the rest of the text stays. |
| Segments.SilentTablesMakeSilentRegistry | crates/converter/src/input/composing.rs:52-78 | A registry is silent in every style exactly when each of its tables is silent. |
| Segments.UpdateSurfaceIsLocal | crates/converter/src/input/composing.rs:461-475 | A keystroke that deletes nothing of `l` acts on `l + r` as on `r`, in every style. |
| Segments.CleanCutFactors | crates/converter/src/input/composing.rs:343-381 | At a cut that no later keystroke deletes across, the conversion is the two halves' conversions joined. |
| Segments.FactorizationNeedsSilence | crates/converter/src/input/composing.rs:343-381 | That factorization holds for all inputs and cuts if and only if the registry is silent. |
| Segments.LoudSeparatorBreaksFactorization | crates/converter/src/input/composing.rs:343-381 | Two keystrokes for which it fails when a separator writes something. |
| Segments.CutBehindFrozen | crates/converter/src/input/composing.rs:383-420 | A cut behind a frozen keystroke is clean, whatever follows. |
| Segments.StyleCut | crates/converter/src/input/composing.rs:343-381 | A cut where the style changes is clean: no table reaches into text of another style. |
| Segments.TrailingSeparatorIsSilent | crates/converter/src/input/composing.rs:183-215 | The frozen separator left by edits shows nothing at the end of the input. |
| ConversionMeanings.StylesMean | crates/converter/src/input/composing.rs:65-78 | Which table each style types through; a style without one shows its keystrokes. |
| ConversionMeanings.StyleConverts | crates/converter/src/input/composing.rs:422-475 | Typing in one style shows what its table makes of the keystrokes one after the other, separators at the start left out. |
| ConversionMeanings.DirectConverts | crates/converter/src/input/composing.rs:422-475 | Text typed directly is shown as it is, after anything. |
| ConversionMeanings.ConvertsStyleByStyle | crates/converter/src/input/composing.rs:434-459 | Where the style changes, both sides are converted on their own. |
| Composing.BoundariesAreCleanCuts | crates/converter/src/input/composing.rs:343-381 | The boundaries found by popping and pushing are all clean cuts, no others, ordered by keystrokes and text, each with the length of text shown before it. |
| Composing.LocateIsBoundary | crates/converter/src/input/composing.rs:383-400 | The search for a text position returns a clean cut there, or the clean cuts around it. |
| Composing.LocateIsLast | crates/converter/src/input/composing.rs:383-400 | No clean cut shown before the position is passed over. |
| Composing.ForceCursor | crates/converter/src/input/composing.rs:383-420 | Splitting the keystrokes changes neither the text nor the cursor, and returns an index into them. |
| Composing.ForceSplits | crates/converter/src/input/composing.rs:383-420 | It leaves the conversion alone, and at any requested position both halves of the keystrokes convert to exactly the text before and behind it. |
| Composing.ForceReturnsBoundary | crates/converter/src/input/composing.rs:383-420 | The returned index is a clean cut at the requested position. |
| Composing.ForceKeepsEarlierCuts | crates/converter/src/input/composing.rs:383-420 | A clean cut shown strictly before the requested position stays where it was. |
| Composing.FrozenBetween | crates/converter/src/input/composing.rs:403-419 | Frozen text between two parts converts to itself and keeps the parts apart. |
| Edits.InsertionSplits | crates/converter/src/input/composing.rs:183-203 | Around an insertion the kept keystrokes convert to the text before the cursor, the others to the text behind it. |
| Edits.InsertKeepsTheRight | crates/converter/src/input/composing.rs:183-215 | An insertion leaves every grapheme right of the cursor, and the cursor stands at the end of the reconverted prefix. |
| Edits.InsertIsValid | crates/converter/src/input/composing.rs:183-215 | On text whose keystrokes are empty when it is empty, an insertion keeps text and keystrokes in step; otherwise this one insertion does if and only if the leftover keystrokes show nothing behind the new ones. |
| Edits.InsertionsStayInStep | crates/converter/src/input/composing.rs:183-215 | Every insertion into a text keeps it in step if and only if its keystrokes are empty whenever it shows nothing, or its leading leftover keystrokes of one style change no text of that style: a condition on the text before anything is typed. |
| Edits.DeleteSomeIsExact | crates/converter/src/input/composing.rs:226-256 | The result of a deletion shows exactly the text without the deleted graphemes: nothing recombines across the cut. |
| Edits.CutForEnds | crates/converter/src/input/composing.rs:226-256 | A deletion that reaches an end of the text cuts the keystrokes at that end. |
| Edits.DeleteBackward | crates/converter/src/input/composing.rs:226-256 | Deleting `count` graphemes, clamped, removes exactly those before the cursor and keeps text and keystrokes in step. |
| Edits.DeleteForwardIsExact | crates/converter/src/input/composing.rs:217-224 | Deleting forward removes exactly the graphemes behind the cursor, which stays. |
| Edits.CompletePrefix | crates/converter/src/input/composing.rs:266-294 | A completed count keeps text and keystrokes in step. |
| Edits.CompleteSurfaceIsExact | crates/converter/src/input/composing.rs:266-294 | Completing surface counts, nested in any way, never overflows and leaves exactly the text behind them. |
| Edits.CompleteInputAtCut | crates/converter/src/input/composing.rs:266-294 | Completing keystrokes up to a clean cut never overflows and drops exactly the text they show. |
| Edits.CompleteInputExactly | crates/converter/src/input/composing.rs:266-294 | Completing keystrokes leaves exactly the text behind what they show if and only if the conversion splits at their end. |
| Edits.CompletesExactly | crates/converter/src/input/composing.rs:266-294 | A count, however nested, can be completed if and only if dropping its keystrokes never makes the text longer; then the keystrokes left are the expected ones. |
| Edits.NothingOverflows | crates/converter/src/input/composing.rs:266-294 | No count overflows on any text if and only if no end of an input shows more than the whole of it, which needs to be checked for keystroke counts alone. |
| Edits.CompleteWrapping | crates/converter/src/input/composing.rs:266-294 | Where the subtraction wraps around instead of panicking, a text in step still comes out. |
| Edits.WrappingIsHarmless | crates/converter/src/input/composing.rs:266-294 | That text has the expected keystrokes, and is the completed one wherever nothing overflows. |
| Edits.PrefixToCursorIsValid | crates/converter/src/input/composing.rs:296-302 | The part before the cursor is in step, and the keystrokes left out show the rest. |
| Edits.EditIsPlain | crates/converter/src/input/composing.rs:131-333 | Each edit acts on text and cursor as the same edit on a plain line of text; completing moves the cursor with the text, and one that reaches the start jumps to the end. |
| Edits.RunsStayInStep | crates/converter/src/input/composing.rs:131-333 | Over every run of edits, the text is the conversion of the keystrokes, the cursor is inside it, and each step is the plain edit. |
| EditMeanings.ForceMeans | crates/converter/src/input/composing.rs:383-420 | Where keystrokes are split at a text position: at the last clean cut shown there; only without one are keystrokes replaced, those between the closest clean cuts around it, by exactly their text. |
| EditMeanings.OneSplit | crates/converter/src/input/composing.rs:383-420 | That description leaves one way to split them. |
| EditMeanings.InsertMeans | crates/converter/src/input/composing.rs:183-215 | Typing puts the new keystrokes between those in front of the cursor, without an old separator, and those behind it, with a new separator if there is text behind. |
| EditMeanings.TypingAppends | crates/converter/src/input/composing.rs:183-215 | At the end of an anchored text nothing is frozen: the new keystrokes come behind all others and are converted with them. |
| EditMeanings.TypedOneByOne | crates/converter/src/input/composing.rs:183-215 | Keystrokes typed one after the other give exactly those keystrokes, and show what all of them convert to. |
| EditMeanings.DeletionMeans | crates/converter/src/input/composing.rs:226-256 | A deletion keeps the keystrokes in front of the removed text and those behind it, with a separator between them. |
| EditMeanings.BackspaceMeans | crates/converter/src/input/composing.rs:226-256 | At the end of the text it keeps the keystrokes in front, and nothing else. |
| EditMeanings.PartsMean | crates/converter/src/input/composing.rs:266-302 | Completing text leaves the keystrokes behind it; the part before the cursor has those in front. |
| EditLimits.SeparatorVanishes | crates/converter/src/input/composing.rs:434-459 | A separator typed into an empty buffer is kept as a keystroke but shows nothing, so the guard of insertion can fail. |
| EditLimits.InsertIntoVanishedText | crates/converter/src/input/composing.rs:183-215 | Inserting into that text leaves it out of step with its keystrokes. |
| EditLimits.DroppingKeystrokesCanOverflow | crates/converter/src/input/composing.rs:266-294 | Such a table: three keystrokes of which completing one would delete more text than there is. |
| ComposingTexts.UpdateSurfaceInPlace | crates/converter/src/input/composing.rs:461-475 | One piece applied to the text of its run, in place, is the specified update. |
| ComposingTexts.UpdateSegments | crates/converter/src/input/composing.rs:434-459 | The update of the runs in place is the specified step, deletion count included. |
| ComposingTexts.ConvertElements | crates/converter/src/input/composing.rs:422-432 | The conversion loop computes the specified conversion. |
| ComposingTexts.CommonPrefixLength | crates/converter/src/input/composing.rs:477-482 | The longest common prefix of two texts. |
| ComposingTexts.PopAbove | crates/converter/src/input/composing.rs:343-381 | Popping boundaries from the end keeps exactly those up to the limit. |
| ComposingTexts.SearchBackwards | crates/converter/src/input/composing.rs:383-400 | The backward search finds the boundary at a position or those around it. |
| ComposingTexts.ComposingText.constructor | crates/converter/src/input/composing.rs:131-134 | A new buffer is empty. |
| ComposingTexts.ComposingText.IndependentBoundaries | crates/converter/src/input/composing.rs:343-381 | The loop lists exactly the clean cuts of the keystrokes, in order. |
| ComposingTexts.ComposingText.ForceInputCursor | crates/converter/src/input/composing.rs:383-420 | Splitting in place: new keystrokes and index are the specified ones, text and cursor unchanged. |
| ComposingTexts.ComposingText.RemoveSeparatorBefore | crates/converter/src/input/composing.rs:195-201 | Only a frozen separator right before the index is removed. |
| ComposingTexts.ComposingText.InsertElements | crates/converter/src/input/composing.rs:183-215 | The splice computes the specified insertion; what is right of the cursor stays, and the cursor arithmetic over the common prefix is right. |
| ComposingTexts.ComposingText.DeleteCharactersBackward | crates/converter/src/input/composing.rs:226-256 | Two splits, a removed separator and a splice compute the specified deletion. |
| ComposingTexts.ComposingText.DeleteCharactersForward | crates/converter/src/input/composing.rs:217-224 | The specified forward deletion. |
| ComposingTexts.ComposingText.MoveBy | crates/converter/src/input/composing.rs:258-264 | The cursor moves by the returned, clamped distance. |
| ComposingTexts.ComposingText.CompletePrefixBy | crates/converter/src/input/composing.rs:266-294 | The specified completion, with failure reported exactly where the subtraction would overflow. |
| ComposingTexts.ComposingText.ClonePrefixToCursor | crates/converter/src/input/composing.rs:296-302 | A new buffer holding the part before the cursor; the original is unchanged. |
| ComposingTexts.ComposingText.Clear | crates/converter/src/input/composing.rs:329-333 | Everything is emptied. |
| Tries.WalkAppend | crates/converter/src/learning/index.rs:58-70 | Walking a key is walking its parts one after the other. |
| Tries.PathsAreUnique | crates/converter/src/learning/index.rs:43-56 | Different keys lead to different nodes. |
| Tries.InsertAtAdds | crates/converter/src/learning/index.rs:43-56 | An insertion adds the record at its key, behind the records there, and nowhere else. |
| Tries.BuildAnswersExactly | crates/converter/src/learning/index.rs:33-41 | The node of a key holds exactly the ascending scan of the records with that reading. |
| Tries.ScanCounts | crates/converter/src/learning/index.rs:58-85 | The scan that lookups are compared with lists each answering record once. |
| Tries.ReadingsHaveNodes | crates/converter/src/learning/index.rs:43-56 | Every prefix of every indexed reading has a node. |
| TrieOrders.PopAndPush | crates/converter/src/learning/index.rs:72-83 | Popping the pending stack and pushing the children goes on with the same traversal. |
| TrieOrders.ExtendsOrHere | crates/converter/src/learning/index.rs:58-85 | A reading that starts with a key ends at its node or goes on through exactly one child. |
| TrieOrders.SubtreeCounts | crates/converter/src/learning/index.rs:58-85 | The subtree at a key holds each record whose reading starts with the key once, and no other. |
| TrieOrders.BreadthFirstIsClosed | crates/converter/src/learning/index.rs:87-119 | The breadth-first order is its queue followed by the children of its members, in order. |
| LoudsTrees.UnpackPack | crates/converter/src/learning.rs:632-647 | Unpacking the 64-bit words gives back the bits, padded with ones to a whole word. |
| LoudsTrees.EncodeWord | crates/converter/src/learning.rs:632-647 | Setting bits from the most significant down, the rest of the word ones, builds the padded word. |
| LoudsTrees.EncodeLouds | crates/converter/src/learning.rs:632-647 | The bytes are the little-endian words of the bits. |
| LoudsTrees.ZerosOfPrefix | crates/converter/src/dictionary/louds.rs:94-146 | Bits read later only add later delimiters. |
| LoudsTrees.ScanWord | crates/converter/src/dictionary/louds.rs:94-146 | Reading one word, most significant bit first, finds its delimiters until enough are known. |
| LoudsTrees.FindZeros | crates/converter/src/dictionary/louds.rs:94-146 | The delimiters found are the first of the whole bit string, and all of them if there are too few. |
| LoudsTrees.ParseLouds | crates/converter/src/dictionary/louds.rs:94-146 | Parsing accepts or rejects as specified, with the specified child ranges and errors. |
| LoudsEncoding.OrderIsClosed | crates/converter/src/learning/index.rs:87-119 | The numbering starts at the root, and behind it stand the children of all numbered nodes in order. |
| LoudsEncoding.ChildIndex | crates/converter/src/learning/index.rs:87-119 | A node's children are numbered one after the other, in label order, behind those of all nodes before it. |
| LoudsEncoding.ZerosOfEncoding | crates/converter/src/learning/index.rs:87-119 | The delimiter behind each node stands where its children have been counted. |
| LoudsEncoding.LoudsRoundTrip | crates/converter/src/learning/index.rs:87-119 | Parsing the encoding of any trie succeeds, and every node's child range is exactly the numbers of its children. |
| LoudsEncoding.NumberedChildren | crates/converter/src/dictionary/louds.rs:148-159 | The child range of a number, the labels in it and the nodes they stand for. |
| LoudsEncoding.SearchChildAgrees | crates/converter/src/dictionary/louds.rs:156-159 | Searching a child by number finds what following the pointer finds. |
| IndexSearch.FoundSorted | crates/converter/src/learning/index.rs:58-85 | Sorting the records found, whatever their order, gives exactly the linear scan. |
| IndexSearch.SortedIsUnique | crates/converter/src/learning/index.rs:58-85 | An ascending list is determined by how often each number occurs. |
| IndexSearch.PrefixesStep | crates/converter/src/learning/index.rs:143-169 | One more id of the key adds exactly the records that read that far. |
| IndexSearch.StoppedWalk | crates/converter/src/learning/index.rs:58-70 | Where the walk stops, no reading goes on. |
| IndexSearch.FoundSubtree | crates/converter/src/learning/index.rs:58-85 | The subtree of a key holds exactly its completions. |
| IndexSearch.BoundedCounts | crates/converter/src/dictionary/louds.rs:181-205 | The bounded descent finds strict extensions only, each at most once, and all of them if there are no more nodes than the limit. |
| IndexSearch.BoundedIsFlat | crates/converter/src/dictionary/louds.rs:181-205 | The recursion that hands the rest of the limit from child to child takes whole families of children, in order, under one limit. |
| MemoryIndexes.MemoryTrie.FromReadings | crates/converter/src/learning/index.rs:33-41 | Reindexing a list; a reading that cannot be encoded is left out. |
| MemoryIndexes.MemoryTrie.Insert | crates/converter/src/learning/index.rs:43-56 | The walk that grows missing nodes computes the specified insertion. |
| MemoryIndexes.InsertExtendsBuild | crates/converter/src/learning/index.rs:43-56 | Inserting one more reading gives the index of the longer list. |
| MemoryIndexes.MemoryTrie.CollectBelow | crates/converter/src/learning/index.rs:72-83 | The stack loop collects the whole subtree. |
| MemoryIndexes.MemoryTrie.Lookup | crates/converter/src/learning/index.rs:58-85 | Exact, prefix and completion lookups answer exactly the ascending scan of the readings. |
| MemoryIndexes.MemoryTrie.Encode | crates/converter/src/learning/index.rs:87-119 | The level-by-level loop computes the specified bits, labels and blocks. |
| MemoryIndexes.EncodedIsStored | crates/converter/src/learning/index.rs:134-141 | Parsed again, the encoding stores the trie with the records of every numbered node. |
| MemoryIndexes.MemoryLouds.constructor | crates/converter/src/learning/index.rs:134-141 | The compact index of a list of readings. |
| MemoryIndexes.MemoryLouds.DescendantsFrom | crates/converter/src/dictionary/louds.rs:181-205 | The recursion by number visits what the bounded descent by pointers visits. |
| MemoryIndexes.MemoryLouds.Search | crates/converter/src/dictionary/louds.rs:161-167 | Walking by number follows the pointers, and stops where they stop. |
| MemoryIndexes.MemoryLouds.Descendants | crates/converter/src/dictionary/louds.rs:169-179 | The records below a key, bounded by the number of nodes. |
| MemoryIndexes.MemoryLouds.Lookup | crates/converter/src/learning/index.rs:143-169 | Exact and prefix lookups of a non-empty key answer the same scan; a prediction takes whole families of nodes in order until there are more than 700, so it gives each strict extension at most once, and all of them if at most 700 nodes lie below the key. |
| MemoryIndexes.Predicted | crates/converter/src/learning/index.rs:161-168 | What the bounded descent collects are those families' records, each strict extension at most once. |
| CharacterIds.ParsedTablesAreDistinct | crates/converter/src/dictionary/louds.rs:54-66 | A character table that parses gives different graphemes different ids. |
| CharacterIds.EncodeIsInjective | crates/converter/src/dictionary/louds.rs:72-76 | Different readings have different keys, and only the empty reading has the empty key. |
| EntryBlocks.EncodeBlock | crates/converter/src/learning.rs:671-698 | The loops write the specified bytes of a block. |
| EntryBlocks.ParseEntryBlock | crates/converter/src/dictionary/binary.rs:75-113 | Reading a block gives the specified entries or error. |
| EntryBlocks.BlockRoundTrip | crates/converter/src/learning.rs:671-698 | Reading a written block gives back every entry, its value computed from the count. |
| EntryBlocks.EncodeShard | crates/converter/src/learning.rs:649-669 | The offset table and the payloads of the blocks. |
| EntryBlocks.ParseEntryShard | crates/converter/src/dictionary/binary.rs:115-142 | Reading slots of a shard gives the specified entries or error. |
| EntryBlocks.SlotRoundTrip | crates/converter/src/learning.rs:649-669 | Through the offset table, any slot of a written shard is its payload. |
| EntryBlocks.ShardRoundTrip | crates/converter/src/learning.rs:649-669 | Parsing any one slot of a written shard gives back its block. |
| EntryBlocks.ReadBack | crates/converter/src/dictionary/binary.rs:221-245 | A 16- or 32-bit number is read back at its offset. |
| MemoryFiles.EncodeMetadata | crates/converter/src/learning.rs:595-630 | The counts and day stamps of all blocks, in order. |
| MemoryFiles.DecodeStamps | crates/converter/src/learning.rs:837-853 | Reading the stamps of one block, with the truncation error. |
| MemoryFiles.DecodeMetadata | crates/converter/src/learning.rs:700-762 | Reading the stamps of all blocks, stopping at the first error. |
| MemoryFiles.StampsRoundTrip | crates/converter/src/learning.rs:595-630 | The stamps of any first part of a block are read back. |
| MemoryFiles.BlocksRoundTrip | crates/converter/src/learning.rs:595-630 | The stamps of all blocks are read back, and the cursor ends behind them. |
| MemoryFiles.DecodeNodes | crates/converter/src/learning.rs:700-762 | Node by node, with a shard kept while its nodes are read: the specified records or error. |
| MemoryFiles.DecodeDirectory | crates/converter/src/learning.rs:700-762 | Decoding the directory: nothing without the files, the specified error, or the records. |
| MemoryRoundTrip.TablesSeparate | crates/converter/src/dictionary/louds.rs:52-76 | Every character table that parses keeps readings apart, as the round trip needs. |
| MemoryRoundTrip.NodeRecords | crates/converter/src/learning.rs:595-630 | The records of a node all have one reading, which its block shares. |
| MemoryRoundTrip.EncodeFiles | crates/converter/src/learning.rs:595-630 | Shards of 2048 nodes, at most 255 records a node, labels, bits and metadata: the specified files. |
| MemoryRoundTrip.DecodesEncoded | crates/converter/src/learning.rs:700-762 | Decoding the encoded files gives, node by node, exactly the first 255 records of each reading. |
| MemoryRoundTrip.BreadthFirstCounts | crates/converter/src/learning.rs:595-630 | Breadth-first and depth-first order collect every record equally often. |
| MemoryRoundTrip.PermutationKeepsAll | crates/converter/src/learning.rs:595-630 | Reading records in another order, each position once, gives the same multiset. |
| MemoryRoundTrip.RecordsRoundTrip | crates/converter/src/learning.rs:700-762 | Decoding what was encoded gives back the same multiset of records, across any number of shards, if and only if no reading has more than 255 records. |
| MemoryRoundTrip.LoadedIsExact | crates/converter/src/learning.rs:671-698 | A record comes back unchanged, but for its recomputed value, if and only if its word is not empty. |
| FileMeanings.NumbersMean | crates/converter/src/dictionary/binary.rs:205-245 | A number is read low byte first, or refused, with the bytes needed and there, where the file ends too early. |
| FileMeanings.BlockLayout | crates/converter/src/learning.rs:671-698 | A block starts with its count, and at byte 2 + 10 i are the ids and the value of record i, each low byte first. |
| FileMeanings.TextLayout | crates/converter/src/learning.rs:671-698 | Behind them stands the reading, and each word behind a tab; a word equal to the reading is left out. |
| FileMeanings.MetadataLayout | crates/converter/src/learning.rs:595-630 | Metadata: the number of blocks in four bytes, for each block its size in one, and six bytes for each record: both days, the count, a zero. |
| FileMeanings.ShardLayout | crates/converter/src/learning.rs:649-669 | A shard: the number of payloads in two bytes, the offset of each from the start of the file in four, and the payloads. |
| FileMeanings.ShardOfBlock | crates/converter/src/learning.rs:595-630 | The block of node n is payload n % 2048 of shard n / 2048, and there are no more shards than needed. |
| FileMeanings.BitsLayout | crates/converter/src/learning.rs:632-647 | The place of every bit in the bytes: words of 64 bits, the first at the top, the bytes of a word in reverse, ones behind the end. |
| FileMeanings.DegreesLayout | crates/converter/src/learning/index.rs:87-119 | The bits of a tree: one and zero, then for each node in order a one for each child and a zero. |
| FileMeanings.ParsesExactly | crates/converter/src/dictionary/louds.rs:94-146 | A file is taken for a tree if and only if it is made of words of eight bytes, has a delimiter for every node, and starts with a one if there is more than one node; the children of a node are then numbered by counting ones. |
| FileMeanings.BlockReadsExactly | crates/converter/src/dictionary/binary.rs:75-113 | A block is read if and only if it has ten bytes for each entry it counts and as many tabs behind them; ids, values and texts come from those bytes and fields. |
| FileMeanings.SplitMeans | crates/converter/src/dictionary/binary.rs:75-113 | The fields hold no tab, and with tabs between them they are the text. |
| FileMeanings.SlotMeans | crates/converter/src/dictionary/binary.rs:115-142 | A slot reaches from its offset to the next one or the end of the file, with the errors for an index or an offset out of range. |
| FileMeanings.StampsReadExactly | crates/converter/src/learning.rs:837-853 | The stamps of a block are read if and only if their bytes are there, of which the last may be missing. |
| FileMeanings.TableMeans | crates/converter/src/dictionary/louds.rs:54-66 | A character table of at most 256 graphemes gives each the position where it stands last; a longer one is refused. |
| FileMeanings.KeyMeans | crates/converter/src/dictionary/louds.rs:72-76 | A reading has a key if and only if the table knows all its graphemes, and then their ids in order. |
| Saving.MemoryDirectory.WriteTemporary | crates/converter/src/learning.rs:764-767 | A file is written under its temporary name only. |
| Saving.MemoryDirectory.RestoreTemporary | crates/converter/src/learning.rs:769-778 | A temporary file is copied over its live file, or the copy fails and nothing changes. |
| Saving.MemoryDirectory.RestoreAll | crates/converter/src/learning.rs:537-565 | Files are published in order up to the first that is missing. |
| Saving.MemoryDirectory.SaveFiles | crates/converter/src/learning.rs:537-565 | A save performs the specified steps: temporary files, marker, copies, marker removed. |
| Saving.MemoryDirectory.RecoverIfPaused | crates/converter/src/learning.rs:567-586 | Opening performs the recovery steps if and only if the marker is there. |
| Saving.MemoryDirectory.FindShards | crates/converter/src/learning.rs:567-586 | The shards to publish are those with a temporary file in the listing. |
| Saving.SavePublishes | crates/converter/src/learning.rs:537-565 | A save that is not interrupted makes all new files live and removes the marker. |
| Saving.SaveKilled | crates/converter/src/learning.rs:537-565 | Killed at any step, with any bytes torn in that step, a save leaves the live files untouched, or is paused with all new files waiting, or has published them. |
| Saving.OpenKilled | crates/converter/src/learning.rs:567-586 | Recovery killed at any step leaves a state from which recovery still works. |
| Saving.OpenFinishes | crates/converter/src/learning.rs:567-586 | Recovery from such a state succeeds and leaves the old or the new live files, without the marker. |
| Saving.UntouchedDecodesAlike | crates/converter/src/learning.rs:700-762 | Decoding looks at live files only. |
| Saving.CrashAtomicity | crates/converter/src/learning.rs:537-586 | A save killed anywhere, then recovery killed any number of times, then opened: the directory decodes to exactly what it decoded to before, or exactly the new records, even with stale temporary shards around. |
| SavingMeanings.SaveMeans | crates/converter/src/learning.rs:537-565 | What a save does to every file: the new ones stand under their own and under their temporary names, the marker is gone, and every other file is as it was. |
| SavingMeanings.KilledSaveLeavesOthers | crates/converter/src/learning.rs:537-565 | Wherever a save is killed, no file of another name is touched. |
| SavingMeanings.TopologyComesLast | crates/converter/src/learning.rs:553-561 | Publication order: wherever a save is killed, the tree file is as it was, or all other new files are live. |
| SavingMeanings.TopologyComesLastAgain | crates/converter/src/learning.rs:567-586 | The same wherever recovery is killed, whatever else is lying around. |
| SavingMeanings.MarkedSavesCount | crates/converter/src/learning.rs:537-586 | Once the marker stands, opening the memory publishes the new files, however many recoveries were killed before. |
| SavingMeanings.NothingToRecover | crates/converter/src/learning.rs:567-571 | Without the marker, opening changes no file. |
| Decays.DecayRecord | crates/converter/src/learning.rs:497-513 | The halving loop of one record computes the specified ageing. |
| Decays.Decay | crates/converter/src/learning.rs:497-513 | Surviving records, in order, each aged. |
| Decays.HalvedIsRecent | crates/converter/src/learning.rs:497-513 | Halving ends within 32 days of today and changes no day of use and no entry. |
| Decays.DecaySettles | crates/converter/src/learning.rs:497-513 | What survives is settled, and a record is left alone exactly when it is settled. |
| Decays.DecayAllSettles | crates/converter/src/learning.rs:497-513 | The same for lists: ageing twice on a day is ageing once. |
| Decays.DecayTwiceIsOnce | crates/converter/src/learning.rs:413-423 | Ageing on two days, the clock not going back, is ageing once on the later day. |
| Decays.DecayIsALawOfTime | crates/converter/src/learning.rs:413-423 | After any ascending series of days, the records are those aged once on the last day. |
| Decays.SettingBackForgets | crates/converter/src/learning.rs:497-513 | Where it fails: with a clock set back, a settled record forgets its count. |
| Decays.DroppedExactly | crates/converter/src/learning.rs:497-513 | A record is dropped if and only if it was not used for the limit of days or the half-lives passed halve its count to nothing. |
| Decays.DecayGoesOnExactly | crates/converter/src/learning.rs:497-513 | Ageing a record on one day and then on a later one is ageing it on the later one if and only if the record is not newer than the first day, or the days are the same, or the record is gone by the later day anyway and a half-life lies between the days. |
| Decays.DecayTwiceExactly | crates/converter/src/learning.rs:413-423 | For a whole list, order and survivors included, the same holds if and only if it holds of each of its records. |
| LearnedMeanings.AgedInNumbers | crates/converter/src/learning.rs:497-513 | Ageing in numbers: dropped after 128 days without use or when nothing is left of the count, which is halved once for each 32 days that are over; the day of update moves on by those days, and day of use and entry stay. |
| LearnedRecords.MergeInto | crates/converter/src/learning.rs:462-474 | Merging finds the record of the entry and updates it, or appends; by identity, LearnedMeanings.MergeJoins says with which days, count and entry. |
| LearnedRecords.MergeAddsCounts | crates/converter/src/learning.rs:462-474 | Merging adds the counts of one entry, saturating at 255, touches no other entry and makes no duplicate. |
| LearnedRecords.MergeAllAddsCounts | crates/converter/src/learning.rs:537-550 | Merging a whole list adds the counts of every entry, saturating. |
| LearnedMeanings.IdentityMeans | crates/converter/src/learning.rs:476-481 | Two entries are the same if and only if reading, word and both ids agree. |
| LearnedMeanings.MergeJoins | crates/converter/src/learning.rs:462-474 | By identity: after merging a record, its word's record has the later of both days each time, the counts added up to 255, and the incoming entry; every other word's record stays. |
| LearnedMeanings.MergeAllJoins | crates/converter/src/learning.rs:307-322 | The same for a list: the record of every word is its record of before joined with the incoming one. |
| LearnedRecords.SortIsStable | crates/converter/src/learning.rs:537-550 | Sorting by day of use keeps all records, and their order within a day. |
| LearnedRecords.KeepsTheNewest | crates/converter/src/learning.rs:537-550 | What is cut off was used no more recently than anything kept, and something is cut off only if as many are kept as allowed. |
| LearnedRecords.KeptCounts | crates/converter/src/learning.rs:537-550 | An entry is kept with its full count or not at all. |
| LearningMemories.MemorizedCounts | crates/converter/src/learning.rs:425-452 | Learning an entry raises its count by one, saturating, and no other. |
| LearningMemories.PerformIsSound | crates/converter/src/learning.rs:221-338 | Every action keeps the records settled, valid and free of duplicates, also when saving fails. |
| LearningMemories.RunsStaySound | crates/converter/src/learning.rs:221-338 | The same after every run of actions and day changes. |
| LearningMemories.CommitAddsCounts | crates/converter/src/learning.rs:307-322 | After a commit, an entry that is kept has the sum of both counts, saturating; what was dropped is used no more recently than anything kept. |
| LearningMemories.ForgetRemoves | crates/converter/src/learning.rs:280-305 | What is forgotten is gone from the pending list at once and from the saved list as soon as the save succeeds, and only then. |
| LearnedMeanings.CommitJoins | crates/converter/src/learning.rs:307-322 | After a commit, the record of every word that is kept is the saved one joined with the pending one: used last on the later day, with both counts, and the newer entry. |
| LearnedMeanings.MemorizedMeans | crates/converter/src/learning.rs:425-452 | After learning an entry, its record was last used today, has the new entry and one more use, and the day of update it had; every other record stays. |
| LearnedMeanings.LearnedAllMeans | crates/converter/src/learning.rs:221-240 | After learning a list, every word taught by it has as many more uses as it has entries there, was last used today, and has the last of those entries. |
| LearnedMeanings.LearningLearns | crates/converter/src/learning.rs:221-240 | A memory that may learn does learn an entry without control characters whose reading has a key. |
| LearnedMeanings.NotLearned | crates/converter/src/learning.rs:455-460 | Any other entry changes nothing. |
| LearnedMeanings.ModesMean | crates/converter/src/learning.rs:37-45 | A memory that only reads, or is off, changes by age and by being reset only. |
| LearnedMeanings.ForgetMeans | crates/converter/src/learning.rs:280-305 | Forgetting drops exactly the pending records by reading and word, and exactly the saved ones by word, and keeps all others in order; saved ones only if the save succeeds. |
| LearningStates.LearningState.constructor | crates/converter/src/learning.rs:119-155 | An opened memory: unlearnable records dropped, the rest aged, and both indexes exact. |
| LearningStates.LearningState.RefreshDay | crates/converter/src/learning.rs:413-423 | On a new day both lists are aged and both indexes rebuilt exactly. |
| LearningStates.LearningState.FindAmong | crates/converter/src/learning.rs:425-452 | Looking only at the index's exact answers finds the entry's record if there is one. |
| LearningStates.LearningState.Memorize | crates/converter/src/learning.rs:425-452 | The record is raised or appended, and the index still answers for the list. |
| LearningStates.LearningState.Learn | crates/converter/src/learning.rs:221-240 | The specified action, with both indexes exact afterwards. |
| LearningStates.LearningState.SaveRecords | crates/converter/src/learning.rs:537-565 | What is kept is sorted and cut; the files are published exactly when the save succeeds. |
| LearningStates.LearningState.Commit | crates/converter/src/learning.rs:307-322 | The specified action; both lists and indexes change only if the save succeeds. |
| LearningStates.LearningState.Forget | crates/converter/src/learning.rs:280-305 | The specified action, also when the save fails after the pending list has changed. |
| LearningStates.LearningState.Reset | crates/converter/src/learning.rs:324-338 | Both lists and both indexes are empty. |
| LearningStates.LearningState.Lookup | crates/converter/src/learning.rs:206-214 | A key answers what scanning both lists answers, the saved list first; a prediction from saved records is bounded as in the index. |
| LookupKeys.CollectIds | crates/converter/src/learning.rs:198-205 | The loop over graphemes collects the ids of a key; at an unknown grapheme a prefix lookup ends there and the others find nothing. |
| LookupKeys.UnknownGraphemesHideNothing | crates/converter/src/learning.rs:188-214 | Comparing by ids finds exactly the readings that answer grapheme by grapheme: where a lookup stops early, no stored reading goes on. |
| LearningStates.LearningState.LookUpReading | crates/converter/src/learning.rs:188-214 | A lookup of a text, cut to its length limit, answers what comparing the readings of both lists grapheme by grapheme answers; an empty reading answers nothing. |
| LearningStates.MergeLists | crates/converter/src/learning.rs:537-550 | Merging record by record. |
| LearningStates.Retain | crates/converter/src/learning.rs:280-305 | Keeping, in order, the records that are not to be dropped. |
| LearningStates.SavedRecordsAreReadBack | crates/converter/src/learning.rs:537-565 | After any run, what a successful save published decodes to the multiset of records the memory holds, if and only if no reading has more than 255. |
| LatticeIndices.TextMapsAreMonotone | crates/converter/src/lattice.rs:131-145 | The boundary map of every text in step keeps order and both ends. |
| LatticeIndices.NewMap | crates/converter/src/lattice.rs:131-145 | The inverse map, whatever the order of visiting, takes each text position to a keystroke boundary shown there. |
| LatticeIndices.EndsTogether | crates/converter/src/lattice.rs:147-167 | A dual index is at the end in either space exactly when its text position is the end of the text. |
| LatticeIndices.EmitUpTo | crates/converter/src/lattice.rs:169-199 | The text positions before a paired one are emitted in order. |
| LatticeIndices.Indices | crates/converter/src/lattice.rs:169-199 | For every monotone map, each keystroke index and each text index is emitted exactly once, in increasing order, and pairs agree with the map. |
| LatticeMeanings.TextMapMeans | crates/converter/src/input/composing.rs:304-341 | The map of a text relates exactly its clean cuts to the text shown before them; the short cut for text typed directly changes nothing. |
| LatticeMeanings.TextMapSplits | crates/converter/src/lattice.rs:131-145 | Wherever the two spaces meet, the keystrokes before the place show the text before it, and those behind it the text behind it. |
| LatticeMeanings.DualMeans | crates/converter/src/lattice.rs:147-167 | A text position is paired with a keystroke position shown there, if there is one. |
| Lattices.SortDescends | crates/converter/src/lattice.rs:1191-1203 | The stable sort is descending and keeps all entries. |
| Lattices.InsertAllIsStableTop | crates/converter/src/lattice.rs:1191-1203 | Inserting one by one into the bounded list keeps exactly the first `n` of the stable sort of everything inserted. |
| Lattices.PathsAreCovered | crates/converter/src/lattice.rs:614-715 | Every path is among the paths its last node completes, or these are `n` of at least its total. |
| Lattices.CompletedAreGenuine | crates/converter/src/lattice.rs:614-715 | What a node completes are different paths that end there, with their exact totals. |
| Lattices.NBestIsOptimal | crates/converter/src/lattice.rs:614-715 | Every complete path is a result, or its last node contributed `n` different results of at least its total. |
| Lattices.ResultsAreExact | crates/converter/src/lattice.rs:614-715 | Results are different complete paths with their exact totals. |
| Lattices.BestPathIsFound | crates/converter/src/lattice.rs:614-715 | No complete path beats all results. |
| LatticeMeanings.PathsFollow | crates/converter/src/lattice.rs:476-565 | A path is exactly a row of words that follow each other from the start of the text. |
| LatticeMeanings.TotalIsScore | crates/converter/src/lattice.rs:614-715 | Its total is the score read from the front: every word's value, and the cost of putting its left id behind the right id of what stands before it, first of all the context. |
| LatticeMeanings.SearchMeans | crates/converter/src/lattice.rs:461-715 | In plain words: every result is a sentence over the whole text with its score, and no sentence over the whole text scores higher than all results. |
| LatticeSearch.InsertPredecessor | crates/converter/src/lattice.rs:1191-1203 | The bounded insertion in place. |
| LatticeSearch.InsertPredecessors | crates/converter/src/lattice.rs:681-713 | Passing all paths of a node to the next is inserting them with their connection cost. |
| LatticeSearch.BuildNodes | crates/converter/src/lattice.rs:481-566 | One node per word, numbered by where it starts, and listed there. |
| LatticeSearch.CompletePaths | crates/converter/src/lattice.rs:631-657 | A node's predecessors extended by its word, costs added. |
| LatticeSearch.PassOn | crates/converter/src/lattice.rs:659-713 | After a node has passed on its paths, every later node holds what the specification gives it. |
| LatticeSearch.ProcessNode | crates/converter/src/lattice.rs:614-715 | One step of the walk: results and predecessor lists advance by one node. |
| LatticeSearch.Convert | crates/converter/src/lattice.rs:614-715 | Walking the nodes by dual index computes exactly the specified results. |
| LatticeSearch.Search | crates/converter/src/lattice.rs:461-471 | With nothing asked for, nothing is found; else the results are the specified ones. |
| LatticeSearch.SearchText | crates/converter/src/lattice.rs:461-715 | For every text in step with its keystrokes, the search over its own boundary map computes the specified results. |
| KvCaches.CommonPrefixCount | crates/llama/src/lib.rs:410-415 | The longest common prefix of two token lists. |
| KvCaches.BatchStores | crates/llama/src/lib.rs:299-382 | Decoding the tokens behind a cached prefix completes the store. |
| KvCaches.BatchOutputs | crates/llama/src/lib.rs:299-382 | The rows asked for are those of evaluating every prefix from scratch. |
| KvCaches.ReusedCells | crates/llama/src/lib.rs:299-382 | Cutting a sequence, or copying the other one's prefix, leaves exactly the common prefix decoded. |
| KvCaches.FillBatch | crates/llama/src/lib.rs:299-382 | One row per token behind the prefix, at its position, with output from the first requested one on. |
| KvCaches.LlamaContext.constructor | crates/llama/src/lib.rs:118-196 | Both sequences start empty. |
| KvCaches.LlamaContext.Plan | crates/llama/src/lib.rs:384-407 | The plan reuses the longest prefix that either sequence holds, short of the first requested row. |
| KvCaches.LlamaContext.Logits | crates/llama/src/lib.rs:299-382 | After every call, failing ones included, each sequence's cells are those of its recorded tokens; a successful call returns the rows of evaluating every prefix from scratch; only the tokens behind the longest prefix held by either sequence are decoded; every failure has its code. |
| LruCaches.LruCache.constructor | crates/converter/src/zenz.rs:379-385 | An empty cache with room for at least one entry. |
| LruCaches.LruCache.Get | crates/converter/src/zenz.rs:387-392 | A hit gives the stored value and becomes the most recent; the contents stay. |
| LruCaches.LruCache.Oldest | crates/converter/src/zenz.rs:394-413 | Some entry that was used longest ago. |
| LruCaches.LruCache.MakeRoom | crates/converter/src/zenz.rs:394-413 | Only a full cache loses an entry, one that was used longest ago. |
| LruCaches.LruCache.Insert | crates/converter/src/zenz.rs:394-413 | The new value is stored, the cache stays within its capacity, and only an entry used longest ago may go. |
| LruCaches.DropsLongestUnused | crates/converter/src/zenz.rs:394-413 | Of entries told apart by a 64-bit counter, the one dropped was used longest ago if and only if the counter has not turned over between their last uses. |
| Evaluations.StrictArgmax | crates/converter/src/zenz.rs:980-988 | The first position of the largest number. |
| Evaluations.EvaluateRows | crates/converter/src/zenz.rs:665-798 | The loop over the candidate's tokens computes the rating whose three outcomes RatingMeanings says exactly. |
| Evaluations.SameWordPriorities | crates/converter/src/zenz.rs:944-969 | Learned-word priorities depend on words, readings and the learned marks only. |
| Evaluations.RatingSeesSegments | crates/converter/src/zenz.rs:665-798 | Candidates whose entries agree in these three are rated alike, so the cache key sees enough. |
| RatingMeanings.FixRequiredExactly | crates/converter/src/zenz.rs:721-764 | A rating asks for other bytes if and only if some token is beaten by one that is not the end and is not saved by learning, all tokens before it being accepted; the bytes are the pieces of those tokens and of the best one there. |
| RatingMeanings.WholeResultExactly | crates/converter/src/zenz.rs:721-749 | It takes the text before a token for the whole if and only if the end is best there, all tokens before being accepted. |
| RatingMeanings.PassExactly | crates/converter/src/zenz.rs:721-798 | A candidate passes if and only if every token is the best one or saved by its priority; its score is the sum of the largest numbers. |
| RatingMeanings.FailsOnlyUnreadable | crates/converter/src/zenz.rs:665-798 | Where a rating fails, a token is out of range or a piece that is needed cannot be read. |
| RatingMeanings.RowsArePredictions | crates/converter/src/zenz.rs:702-731 | The row that rates a token is what the model predicts behind the prompt and the tokens before it. |
| RatingMeanings.RatedRowMeans | crates/converter/src/zenz.rs:914-942 | With personal probabilities every number is moved by how much likelier the personal model finds the token; without, it is the model's own. |
| RatingMeanings.WordPriorityMeans | crates/converter/src/zenz.rs:944-969 | The tokens of a learned word have the logarithm of its priority, those of other words none. |
| RatingMeanings.PriorityNumbers | crates/converter/src/zenz.rs:971-978 | The priorities by length of reading, in numbers. |
| RatingMeanings.RankedMeans | crates/converter/src/zenz.rs:766-774 | The ranking lists every token once, the larger number first, equal ones by place. |
| RatingMeanings.RunnersUp | crates/converter/src/zenz.rs:766-786 | The alternatives of a row are the second and third by rank, each with its ratio to the best and the text it would continue. |
| RatingMeanings.SortedByRatio | crates/converter/src/zenz.rs:792-793 | Alternatives are sorted by ratio, all of them kept, equal ones in order. |
| RatingMeanings.PassAlternatives | crates/converter/src/zenz.rs:766-798 | A candidate that passes comes with the five likeliest alternatives met, or all of them. |
| ZenzEvaluators.FindAddressedPrefix | crates/converter/src/zenz.rs:552-564 | The longest run of graphemes that the constraint already covers. |
| ZenzEvaluators.KeyDeterminesResult | crates/converter/src/zenz.rs:493-581 | Two evaluations with the same cache key have the same result, whatever was evaluated before. |
| ZenzEvaluators.ComputedForAll | crates/converter/src/zenz.rs:493-581 | A stored result is right for every request with its key. |
| ZenzEvaluators.ZenzEvaluator.constructor | crates/converter/src/zenz.rs:424-430 | Both caches empty, no previous prompt. |
| ZenzEvaluators.ZenzEvaluator.TokenizePrompt | crates/converter/src/zenz.rs:545-551 | Tokens come out as if they were not cached. |
| ZenzEvaluators.ZenzEvaluator.CountAddressed | crates/converter/src/zenz.rs:519-545 | How many candidate tokens are skipped when the previous prompt was the same. |
| ZenzEvaluators.ZenzEvaluator.Compute | crates/converter/src/zenz.rs:493-581 | A rating without the result cache. |
| ZenzEvaluators.ZenzEvaluator.EvaluateAsIs | crates/converter/src/zenz.rs:493-581 | With both caches the answer, errors and remembered prompt included, is that of the program without them. |
| ZenzEvaluators.ZenzEvaluator.Evaluate | crates/converter/src/zenz.rs:434-491 | The same for requests with a fixed prefix, which is moved to the context and put back in front of the answer. |
| ZenzEvaluators.ZenzEvaluator.EvaluateAll | crates/converter/src/zenz.rs:434-491 | Any sequence of calls returns what it returns with both caches removed. |
| RequestMeanings.AddressedMeans | crates/converter/src/zenz.rs:552-565 | The addressed prefix is the candidate's first graphemes, as many as the constraint starts with. |
| RequestMeanings.AsIsMeans | crates/converter/src/zenz.rs:518-577 | The model is asked about the tokens behind the addressed ones if and only if the prompt is the last one and no alternatives are wanted; else about all of them. |
| RequestMeanings.DictionaryPromptMeans | crates/converter/src/zenz.rs:498-504 | The prompt names each word of the user dictionary with its reading, in order. |
| RequestMeanings.FixedAppliesExactly | crates/converter/src/zenz.rs:439-456 | A fixed prefix applies if and only if candidate and constraint both start with it and as many graphemes have been typed, before the cursor if there is one. |
| RequestMeanings.RemainingMeans | crates/converter/src/zenz.rs:458-488 | The request for the rest: candidate, constraint, input and cursor without the prefix, the left context with it at its end. |
| RequestMeanings.DroppingMeans | crates/converter/src/zenz.rs:589-604 | The entries left are those behind the last one that lies in the fixed bytes. |
| RequestMeanings.FixedAnswer | crates/converter/src/zenz.rs:489-490 | The answer to the whole is that to the rest with the prefix in front of every text. |
| SessionValues.WritingTablesShow | crates/converter/src/session.rs:367-425 | A check on the rules: if every rule writes something fixed, or only swallows a lone separator, all keystrokes but separators show something. |
| SessionValues.InsertShows | crates/converter/src/session.rs:367-401 | In such a registry every insertion into any text in step shows something, unless separators alone are typed into nothing. |
| SessionValues.TypingShowsExactly | crates/converter/src/session.rs:367-425 | Typing shows something for every text and all keystrokes that are not separators typed into nothing, if and only if all keystrokes that are not separators alone have a conversion that is not empty. |
| SessionValues.WildcardRulesCanSwallow | crates/converter/src/session.rs:367-401 | A table outside of that condition, and the character it swallows. |
| SessionValues.TypeInto | crates/converter/src/session.rs:367-425 | Typing keeps the composition in step, not empty, and what is right of the cursor unchanged. |
| SessionValues.DirectTextAppends | crates/converter/src/session.rs:367-377 | Text typed as it is at the end is shown behind everything shown before, recombining with nothing. |
| SessionValues.Erase | crates/converter/src/session.rs:427-435 | Erasing keeps the composition in step and removes exactly the last characters before the cursor. |
| SessionValues.Taken | crates/converter/src/session.rs:957-985 | Taking a candidate leaves exactly the remainder shown for it, and nothing at all if that is empty. |
| SessionValues.CompletableExactly | crates/converter/src/session.rs:957-985 | A candidate can be taken if and only if dropping its keystrokes never makes the text longer; with tables in which ends show less, every candidate can. |
| SessionValues.RestIsConversion | crates/converter/src/session.rs:957-985 | What a candidate leaves, whatever it counts, is what the keystrokes it does not take show on their own. |
| SessionValues.TakesAllExactly | crates/converter/src/session.rs:957-985 | A candidate that counts shown characters takes all of a text if and only if it counts as many. |
| SessionValues.Additional | crates/converter/src/session.rs:466-525 | The five latin and kana forms can all be taken, and take what the chosen candidate takes, or everything. |
| SessionValues.MergedMembers | crates/converter/src/session.rs:82-90 | Merging invents no candidate and repeats no text. |
| SessionValues.DesktopCompletable | crates/converter/src/session.rs:997-1011 | Every candidate offered can be taken from the composition, and something is offered if something was found. |
| SessionMeanings.MergedMeans | crates/converter/src/session.rs:82-90 | Merging lists, in order, exactly the first candidate with each text. |
| SessionMeanings.DesktopMeans | crates/converter/src/session.rs:997-1011 | Partial conversions come first, but not at all if one of them takes everything. |
| SessionMeanings.FormsMean | crates/converter/src/session.rs:466-525 | Of what the forms are made: the selected candidate's reading and the keys it takes, or all that is shown and all keys. |
| SessionMeanings.RawInputMeans | crates/converter/src/session.rs:1099-1109 | The keys of a keystroke are what was typed, not what it was meant as. |
| SessionMeanings.ConsumedMeans | crates/converter/src/session.rs:1013-1024 | A candidate that counts keystrokes takes the first ones. |
| SessionValues.SuffixEdit | crates/daemon/src/engine.rs:2020-2036 | The edit of the text's end, carried out, gives exactly the target; there is none exactly when nothing differs. |
| Sessions.PreviewOrderListsAll | crates/daemon/src/engine.rs:2442-2554 | The preview window lists every candidate once, the preview's first. |
| Sessions.KeystrokesShow | crates/daemon/src/engine.rs:1948-1984 | An event with text stands for at least one keystroke that is not a separator. |
| Sessions.PreviewTakesAll | crates/daemon/src/engine.rs:1918-1932 | The preview chosen for a conversion takes all of the text it was asked for. |
| Sessions.WindowTakes | crates/daemon/src/engine.rs:1886-1945 | In any coherent window the preview, while no forms are above it, takes all of the text converted, and a listed live conversion takes all of the text if and only if there is a preview. |
| Sessions.RevealFits | crates/daemon/src/engine.rs:1488-1520 | A list with one more form on top stays coherent, and its base candidates stay as they were. |
| Sessions.RevealedRemainders | crates/daemon/src/engine.rs:1488-1520 | Base candidates keep their remainders, and at the position of the preview stands the remainder of the best base candidate or of the entry one before. |
| Sessions.ReplacedEnd | crates/daemon/src/engine.rs:1315-1347 | Deleting the end and typing another one shows the text with its end replaced. |
| SessionMeanings.LatinKeysShow | crates/daemon/src/engine.rs:1948-1984 | What a latin key types is shown as it is. |
| SessionMeanings.MappedKeys | crates/daemon/src/engine.rs:1948-1984 | A key typed through a table is one keystroke with its intention, its input, and the shift key exactly if pressed. |
| SessionMeanings.PlainKeys | crates/daemon/src/engine.rs:1948-1984 | Other text is typed character by character. |
| SessionMeanings.HexRoundTrip | crates/daemon/src/engine.rs:1447-1486 | The hexadecimal digits of a number are read as that number. |
| SessionMeanings.CodePointMeans | crates/daemon/src/engine.rs:1447-1486 | The digits of a code point give its character; of half a surrogate pair, or of a larger number, nothing. |
| SessionMeanings.ListedMeans | crates/daemon/src/engine.rs:2442-2554 | The window lists all candidates in order; while typing without live conversion the preview stands in front of them. |
| SessionMeanings.PreeditMeans | crates/daemon/src/engine.rs:1994-2018 | Without a composition nothing is shown, or the digits of a code point behind their mark. |
| SessionMeanings.MarkedMeans | crates/daemon/src/engine.rs:1593-1617 | The candidate learned with a text is the live conversion of that text, or the first one listed with it that leaves nothing. |
| SessionMeanings.LiveMeans | crates/daemon/src/engine.rs:1934-1944 | A live conversion is shown if and only if Japanese is typed at the end of a text of more than one character, no segment is resized, and nothing was just erased. |
| SessionMeanings.SelectionEndMeans | crates/daemon/src/engine.rs:1259-1284 | The selected part ends where its remainder begins; without a selection, at the cursor. |
| Sessions.Session.constructor | crates/daemon/src/engine.rs:728-764 | A new session is valid, idle, and carries the request's number. |
| Sessions.Session.Reset | crates/daemon/src/engine.rs:108-118 | From any state, also an incoherent one left by a failure, a valid idle session with an empty composition. |
| Sessions.Session.RequestCandidates | crates/daemon/src/engine.rs:1706-1739 | It fails exactly when refreshing or converting fails; else the window lists what the conversion of the target offers, preview and live conversion included, and lists, remainders, preview and predictions are coherent. |
| Sessions.Session.ShowFound | crates/daemon/src/engine.rs:1878-1945 | Remainders are those of the current composition, also for a resized segment, and a correction's prediction is exactly the edit to its target. |
| Sessions.Session.ShowLists | crates/daemon/src/engine.rs:1886-1933 | The list offered is that of the conversion, its remainders and annotations fit each other, and the preview takes all of the text or segment converted. |
| Sessions.Session.Foresee | crates/daemon/src/engine.rs:1934-1944 | A prediction of another ending is exactly the edit to the remembered correction, and a live conversion is the best one, selected where it is listed. |
| Sessions.Session.TakeCandidate | crates/daemon/src/engine.rs:1573-1591 | The candidate's part leaves the composition; learning may fail. |
| Sessions.Session.CommitCandidate | crates/daemon/src/engine.rs:1550-1571 | Commits the candidate's text, leaves its remainder, and is idle exactly when nothing remains. |
| Sessions.Session.SelectCandidate | crates/daemon/src/engine.rs:1530-1548 | Choosing index `i` commits exactly that text and leaves exactly the remainder shown for it; for the selected one, commit and new text together are the preedit shown. |
| Sessions.Session.Type | crates/daemon/src/engine.rs:1399-1404 | Inserting keystrokes and asking for candidates. |
| Sessions.Session.TypeKeyEvent | crates/daemon/src/engine.rs:1387-1405 | A character key in a preview or selection commits exactly what is shown and starts a new composition with the key. |
| Sessions.Session.TypeZero | crates/daemon/src/engine.rs:1092-1107 | A zero in a selection commits exactly what is shown and is typed itself. |
| Sessions.Session.TypeLatinSpace | crates/daemon/src/engine.rs:1064-1076 | A space between latin words is typed as it is and clears the window. |
| Sessions.Session.EraseLast | crates/daemon/src/engine.rs:1110-1144 | Exactly the last character is erased, wherever the cursor is, and the session is idle exactly when nothing is left. |
| Sessions.Session.ShowErased | crates/daemon/src/engine.rs:1123-1143 | After a deletion the raw text is shown, and a correction's prediction fits what is left. |
| Sessions.Session.RememberCorrection | crates/daemon/src/engine.rs:975-994 | A remembered correction is the first suggestion that is not empty, and is shown differently from the text before. |
| Sessions.Session.PressEscape | crates/daemon/src/engine.rs:1145-1166 | One step back; only leaving a composition discards text, and the lists stay otherwise. |
| Sessions.Session.LearnMarked | crates/daemon/src/engine.rs:1593-1617 | The candidate learned is the live conversion if its text is committed, or else the first listed one of that text that leaves nothing; its part leaves the composition, and only learning can fail. |
| Sessions.Session.EnterKeepsAll | crates/daemon/src/engine.rs:1167-1175 | When Enter loses nothing: over a preview if no forms were revealed and no segment ends early, and for surface counts if and only if all of the text is counted; over a listed live conversion if and only if there is a preview. |
| Sessions.Session.EnterDiscardsKeystrokes | crates/daemon/src/engine.rs:1167-1175 | What Enter discards over a preview or a live conversion, whatever it counts: what the keystrokes show that it does not take. |
| Sessions.Session.Confirm | crates/daemon/src/engine.rs:1167-1175 | Commit and remaining text together are exactly the preedit shown; outside of a selection the composition is empty afterwards. |
| Sessions.Session.Separate | crates/daemon/src/engine.rs:1183-1187 | Marks the end of the keystrokes unless it is marked; the composition stays in step and not empty. |
| Sessions.Session.Offer | crates/daemon/src/engine.rs:1188-1204 | Candidates to choose from or to preview, with the selection in range. |
| Sessions.Session.PressSpace | crates/daemon/src/engine.rs:1176-1220 | Per mode: a space, the preview, the selection, or the next candidate, clamped; selecting changes neither text nor lists. |
| Sessions.Session.PressDown | crates/daemon/src/engine.rs:1221-1244 | Opens the selection at its first candidate, with the list of the marked text, or goes to the next, clamped. |
| Sessions.Session.Reveal | crates/daemon/src/engine.rs:1488-1520 | One more form of the best base candidate above the list, in the fixed order of forms; the base candidates and their remainders stay behind it, and what stays behind the preview is afterwards exactly what the old list says one position up. |
| Sessions.Session.PressUp | crates/daemon/src/engine.rs:1245-1255 | One back, or one more form at the top, at most five, with what is then behind the preview. |
| Sessions.Session.Resize | crates/daemon/src/engine.rs:1256-1302 | In numbers: forward from an end before the last character the segment ends one further, from the last it starts over behind the first; backward one less, but never before the first; counted from the end of the selected part; no text changes; what stays behind the preview is said by the candidate's count and the segment. |
| Sessions.Session.SegmentPreview | crates/daemon/src/engine.rs:1256-1302 | Behind the preview of a segment nothing stays if the segment is the whole text; for a surface count no larger than the segment, exactly then. |
| Sessions.Session.GoToSelection | crates/daemon/src/engine.rs:1259-1284 | The cursor goes to the end of the selected candidate's part. |
| Sessions.Session.AcceptCandidate | crates/converter/src/session.rs:209-238 | A prediction is accepted only at the end of the text, and then the text continues with the predicted rest. |
| Sessions.Session.ReplaceEnd | crates/daemon/src/engine.rs:1327-1343 | The text with its end replaced by the given one. |
| Sessions.Session.PressTab | crates/daemon/src/engine.rs:1315-1347 | Accepting a remembered correction leaves exactly its target; without a prediction nothing changes. |
| Sessions.Session.Represent | crates/daemon/src/engine.rs:1348-1379 | The asked form of the selected part, or of everything, is committed, and exactly that part leaves the composition. |
| Sessions.Session.ForgetCandidate | crates/daemon/src/engine.rs:1648-1677 | An index out of range is refused; else text and mode stay and the window is refreshed. |
| Sessions.Session.ResetLearning | crates/daemon/src/engine.rs:1679-1696 | Text and mode stay and the window is refreshed. |
| Sessions.Session.PageCandidates | crates/daemon/src/engine.rs:2416-2436 | A page turn stays in the list; a page without size or direction is refused and changes nothing. |
| Sessions.Session.CommitComposition | crates/daemon/src/engine.rs:901-916 | Commits exactly what is shown and resets. |
| Sessions.Session.SelectTypoCorrection | crates/daemon/src/engine.rs:1619-1646 | Commits the chosen correction and resets, or refuses the index. |
| Sessions.Session.EnterUnicode | crates/daemon/src/engine.rs:1411-1445 | Commits exactly what is shown, remainder included, before digits are typed. |
| Sessions.Session.TypeUnicode | crates/daemon/src/engine.rs:1447-1486 | Digits are collected, dropped or turned into the character they name; surrogates and too large numbers give nothing. |
| Sessions.Session.SwitchLanguage | crates/daemon/src/engine.rs:1048-1062 | The latin key also takes what is selected, losing nothing; otherwise only the language changes. |
| Sessions.Session.PressArrow | crates/daemon/src/engine.rs:1256-1314 | Resizing, by one in the direction of the arrow, taking the selected part, or nothing, in that order. |
| Sessions.Session.HandleAction | crates/daemon/src/engine.rs:1109-1409 | The actions behind the early branches, each with its effect on commit, text, mode and selection. |
| Sessions.Session.HandleDigit | crates/daemon/src/engine.rs:1092-1107 | A digit in a selection chooses exactly that candidate of the page of nine on which the selection is, or is refused where there is none; a zero is typed. |
| Sessions.Session.HandleMove | crates/daemon/src/engine.rs:1176-1255 | Space, down and up, in numbers: which mode follows and which candidate is selected. |
| Sessions.Session.HandleTyping | crates/daemon/src/engine.rs:1256-1409 | Text, arrows, tabulator and swallowed keys, each with its effect on text, commit and segment. |
| Sessions.Session.HandleEnd | crates/daemon/src/engine.rs:1110-1175 | Backspace, Escape and Enter, each with its effect; without a composition they are not consumed. |
| Sessions.Session.HandleList | crates/daemon/src/engine.rs:1348-1386 | The asked form is committed; forgetting changes no text; without a candidate it is refused. |
| Sessions.Session.HandleMode | crates/daemon/src/engine.rs:1019-1062 | While a code point is typed, every key belongs to it; the keys that start one and switch the language come next. |
| Sessions.Session.HandleCharacter | crates/daemon/src/engine.rs:1064-1409 | Latin spaces and letters and digits come before the actions, and every key is refused exactly if it needs a candidate that is not there. |
| Sessions.Session.HandleKey | crates/daemon/src/engine.rs:1019-1409 | Every key leaves a valid session unless it fails, and while nothing it asks for fails, it is refused exactly if it needs a candidate that is not there; what each key commits, types, selects and resizes; keys that take what is shown lose none of it, and typing over a selection commits exactly what is shown. |
| PreviewLimits.EnterDiscards | crates/daemon/src/engine.rs:1167-1175 | Enter over a preview or in a composition commits a candidate and discards exactly what stays behind it, or commits the whole text. |
| PreviewLimits.RevealThenEnter | crates/daemon/src/engine.rs:1145-1175 | Up at the top, Escape and Enter: all of the text is kept if and only if, before, nothing stayed behind the entry one before the preview, or behind the best base candidate. |
| PreviewLimits.ResizeThenEnter | crates/daemon/src/engine.rs:1145-1302 | Shift with an arrow, Escape and Enter: what is lost is exactly what the keystrokes show that the best conversion of the segment does not take, if that takes all of the segment; for surface counts nothing, if and only if they count all of the text. |
| PreviewLimits.RevealingLosesText | crates/daemon/src/engine.rs:1221-1255 | A session from its start: two characters, Down, Up, Escape and Enter; the second character is gone. |
| PreviewLimits.ResizingLosesText | crates/daemon/src/engine.rs:1256-1302 | Two characters, shift with the left arrow, Escape and Enter; the second character is gone. |
| PreviewLimits.LiveConversionLosesText | crates/daemon/src/engine.rs:1167-1175 | Two characters and Enter under a live conversion of the first; the second character is gone. |
| Engines.Engine.Start | crates/daemon/src/engine.rs:645-775 | A new session replaces an older one only with a larger number, and a refused start changes nothing. |
| Engines.Engine.Act | crates/daemon/src/engine.rs:850-935 | Requests that may fail, with the commits they promise; while nothing fails that they ask for, exactly those are refused that need a candidate that is not there. |
| Engines.Engine.Serve | crates/daemon/src/engine.rs:823-936 | Every request leaves the session valid: a failing one resets it; commits, choices and keys that take text conserve the text shown; pages are turned within the list, and a reset session is idle. |
| Engines.Engine.Handle | crates/daemon/src/engine.rs:630-785 | Every session stays valid, no other session changes, a stale number changes nothing, a session only changes to a larger number, and what is committed and left conserves the text shown. |
| Engines.Engine.HandleSession | crates/daemon/src/engine.rs:787-936 | The same for a session that is there: stale, ended or served. |
| Engines.Engine.HandleAll | crates/daemon/src/engine.rs:630-936 | Over every sequence of requests, failing ones included, each single one keeps all of this, from what the sessions remembered before it to what they remember after it. |
| Engines.UnaddressedStays | crates/daemon/src/engine.rs:630-936 | Over any stretch of requests, a session that none of them names stays as it is. |
| Engines.NumbersGrow | crates/daemon/src/engine.rs:787-822 | The number of a session that goes on never shrinks over a stretch of requests, and if it is the same at the end, nothing about the session has changed. |
| NGrams.DiscountTakesPerSeen | crates/converter/src/ngram.rs:168-225 | With counts of at least the discount, discounting takes it once from every token seen. |
| NGrams.BalancedMeans | crates/converter/src/ngram.rs:168-225 | A level passes on exactly what its discount takes, if and only if its shares and its weight for lower levels make one. |
| NGrams.ConsistentIsBalanced | crates/converter/src/ngram.rs:168-225 | Counts that fit their totals make a level balanced. |
| NGrams.BulkPredict | crates/converter/src/ngram.rs:168-225 | The loops over levels and tokens compute the specified probability of every token. |
| NGrams.SumIsOneWhenBalanced | crates/converter/src/ngram.rs:168-225 | With balanced lower levels, the probabilities sum to one if and only if the main level is balanced. |
| NGrams.IsADistribution | crates/converter/src/ngram.rs:168-225 | With consistent counts the probabilities are not negative and sum to one. |
| NGramTries.ReadContext | crates/converter/src/ngram.rs:168-193 | The loop over ever shorter contexts reads the specified levels, or ends with the first error. |
| NGramTries.TrainedModelPredicts | crates/converter/src/ngram.rs:155-225 | For every history of tokens and every order, a model whose tries were written from counts predicts without an error: a distribution over the vocabulary, from the levels behind the last n - 1 tokens. |
| NGrams.WriteKey | crates/converter/src/ngram.rs:378-388 | The bytes of a key, or the error for a token out of range. |
| NGrams.TokenRoundTrip | crates/converter/src/ngram.rs:390-397 | A token is read back, and no byte of it is a delimiter. |
| NGrams.KeysAreWrittenApart | crates/converter/src/ngram.rs:378-388 | Different keys are written differently. |
| NGramTries.ReadValue | crates/converter/src/ngram.rs:399-411 | Reading five digits of a number, with the errors for a zero byte, a short value and more than 32 bits. |
| NGramTries.ValueRoundTrip | crates/converter/src/ngram.rs:399-411 | Every 32-bit number in the fixed format is read back, whatever follows it. |
| NGramTries.GetValue | crates/converter/src/ngram.rs:336-344 | The number behind a key, from the first entry found. |
| NGramTries.ValueFindsNumber | crates/converter/src/ngram.rs:336-344 | Looking a key up in a trie written from numbers gives exactly the number of that key, or none. |
| NGramTries.BulkValues | crates/converter/src/ngram.rs:346-364 | The loop over the entries found collects counts and their sum, skips entries of another kind, and stops at the first error. |
| NGramTries.KeysAreFoundApart | crates/converter/src/ngram.rs:346-376 | A search behind a key and a delimiter meets the entries of that very key only. |
| NGramTries.BulkFindsCounts | crates/converter/src/ngram.rs:346-364 | In a trie written from counts in any order, the counts read behind a context are exactly those written for it, and their sum is right; it fails if and only if they add up to more than 32 bits hold. |
| NGramTries.TrainedLevelIsConsistent | crates/converter/src/ngram.rs:168-190 | The two tries of a trained level say exactly what was counted, and sum, number of tokens seen and discount fit together. |
| NGramTries.Probabilities | crates/converter/src/ngram.rs:155-225 | The probabilities of all tokens behind a history, which depend on its context alone, its last n - 1 tokens; or the error for numbers that are no tokens or for a trie that cannot be read. |
| NGramTries.WindowIsContext | crates/converter/src/ngram.rs:168-172 | The program reads exactly the context of a history: its last n - 1 tokens, with token 2 where it has not begun. |
| NGramMeanings.GramLayout | crates/converter/src/ngram.rs:346-411 | The bytes of a counted gram: two for each token of its context, quotient and remainder by 126 from one on, 129, the token behind it, 128, and the count in five digits by 126. |
| NGramMeanings.SameEndSameContext | crates/converter/src/ngram.rs:168-172 | Histories that end in the same n - 1 tokens have the same context, whatever came before. |
| NGramMeanings.EmptyHistory | crates/converter/src/ngram.rs:168-172 | The context of an empty history is start tokens only. |
| NGramMeanings.OneMoreToken | crates/converter/src/ngram.rs:168-172 | One more token: the first of the context goes, and the token comes at its end. |
| NGramMeanings.LevelsSayCounts | crates/converter/src/ngram.rs:168-193 | The values read are, level by level, the counts behind the whole context and the continuation counts behind each of its shorter ends. |
| NGramMeanings.ProbabilityInterpolates | crates/converter/src/ngram.rs:194-225 | A token's probability is its discounted share behind the whole context and, of what the discount passes on, the same of the next shorter context, down to an equal share for all. |
| CustomTables.ParseKeyText | crates/converter/src/input/custom.rs:204-218 | The shrinking-remainder loop parses a key as specified. |
| CustomTables.ParseValueText | crates/converter/src/input/custom.rs:220-231 | The same for a value. |
| CustomTables.KeyRoundTrip | crates/converter/src/input/custom.rs:275-306 | A written key is parsed back, braces and named tokens included. |
| CustomTables.ValueRoundTrip | crates/converter/src/input/custom.rs:308-313 | A written value is parsed back. |
| CustomTables.LineRoundTrip | crates/converter/src/input/custom.rs:78-90 | A written line is one line, not empty, and parses to its mapping. |
| CustomTables.LinesOfJoined | crates/converter/src/input/custom.rs:60-76 | Joined lines are split again into the same lines. |
| CustomTables.TableRoundTrip | crates/converter/src/input/custom.rs:60-90 | Importing an exported table restores the same mappings in the same order. |
| CustomTables.ExportSucceeds | crates/converter/src/input/custom.rs:78-90 | Export succeeds if and only if every key element has a notation. |

## Left out

- Floating point: rounding, overflow and NaN of `f32` and `f64` are not modelled; numbers are exact, so ties and sums are those of the reals.
- Unicode: grapheme segmentation is a parameter, text in files is bytes, and lossy decoding of invalid UTF-8 does not occur.
- Hash maps: the order in which a map is visited is a parameter or does not show; an order is never assumed.
- The contents of the built-in tables: the proofs hold for any tables that meet the hypotheses; the large roman and AZIK tables are not transcribed.
- `combined`, `possible_nexts` and the checking of custom tables with their reports: they add lists and messages, no new state.
- The dictionary on disk and its connection matrix: the lattice takes words and costs as given, and I/O errors while reading them are not modelled.
- Typo nodes, prefix constraints, and what happens to complete paths afterwards (`make_candidate`, `unique_candidates`): optimality does not carry over to the first two.
- Predictions, foreign words, special candidates, templates, date shortcuts, emoji: they only add candidates.
- The choice of entries that a committed candidate teaches: the learning memory takes any list of entries.
- Prompt texts: prompt building, normalization and segmentation for the language model are uninterpreted functions, and `generate_next_input` is not part of this model.
- llama.cpp: a sequence is a store of tokens by position, and the device's answers (decode code, missing logits, failed removal) are parameters.
- Sockets, configuration, sharing between connections, surrounding text, and normalization of key events: a key event arrives normalized.
- `check_custom_tsv`, frame encoding and the front ends.
- ComposingTexts.ComposingText.CompletePrefixBy: where the program panics, the buffer it leaves behind is not described; where the subtraction wraps around, Edits.CompleteWrapping gives the text.
- InputTables.BuiltInTablesAreSilent: proved for any table with such a rule, from which the built-in tables are silent; their other rules are not listed.
- MemoryIndexes.MemoryLouds.Lookup: the number of nodes is taken to fit a machine word.
- MemoryRoundTrip.RecordsRoundTrip: for words and readings without tabs, readings that have a key, and files below 4 GiB; with more than 255 records of a reading, DecodesEncoded says which come back.
- Saving.CrashAtomicity: the directory maps names to bytes, a killed step may leave any bytes in the file it was writing, and files of other names are not touched; saves whose I/O fails while the process lives on are not covered.
- LearningStates.LearningState.SaveRecords: a save either works or fails before changing any file; a parameter decides.
- LearningStates.LearningState.Reset: removal of the files is not modelled, only the lists and indexes.
- LatticeSearch.Convert: costs are given per word and per pair of neighbouring words.
- ZenzEvaluators.ZenzEvaluator.Evaluate: for a deterministic model.
- NGramTries.TrainedModelPredicts: that training writes the number of tokens seen behind each context, and no count below the discount, is a hypothesis; the compressed trie itself is taken as a search by prefix, and opening its files is not part of this model.
- CustomTables.TableRoundTrip: keys and values are not empty, free of tabs and line ends, and a line is not wholly blank.
- Sessions.Session.RequestCandidates: conversion, evaluation marks, typo suggestions and accepted predictions are answers of an arbitrary environment, for which only `WellBehaved` is required.
- Sessions.Session.HandleKey: the session that a failing key leaves behind is described by the reset that follows it in Engines.Engine.Serve, not on its own.
- LruCaches.LruCache.Insert: where the 64-bit counter turns over, an entry used later than another may go first; LruCaches.DropsLongestUnused says exactly when.
- TableMeanings.RomajiTyped: proved for a table of its two rules, not for the whole built-in table.
- Engines.Engine.Start: user dictionary and learning memory of a new session are reduced to whether they could be opened.
