/** Saving the memory files and recovering from an interrupted save (`save_records` and
    `recover_if_paused` in `learning.rs`). */
module Saving {
  import opened Wrappers
  import opened Bytes
  import opened EntryBlocks
  import opened MemoryFiles
  import opened MemoryRoundTrip

  /** One change of the file system. `Copy` publishes the temporary version of a file. */
  datatype Step =
    | Write(file: FileName, bytes: seq<byte>)
    | Copy(file: FileName)
    | Remove(file: FileName)

  datatype Outcome = Outcome(files: Directory, ok: bool)

  function Put(files: Directory, file: FileName, bytes: seq<byte>): Directory {
    files[file := bytes]
  }

  function ApplyStep(step: Step, files: Directory): Option<Directory> {
    match step
    case Write(file, bytes) => Some(files[file := bytes])
    case Copy(file) => if Temporary(file) in files then Some(files[file := files[Temporary(file)]]) else None
    case Remove(file) => Some(files - {file})
  }

  /** Steps run in order; a failing one ends the run with an error. */
  function RunSteps(steps: seq<Step>, files: Directory): Outcome {
    if steps == [] then Outcome(files, true)
    else
      match ApplyStep(steps[0], files)
      case None => Outcome(files, false)
      case Some(next) => RunSteps(steps[1..], next)
  }

  /** What a process killed during a step can leave: the step not begun, done, or its file torn. */
  ghost predicate Torn(step: Step, before: Directory, after: Directory) {
    || after == before
    || ApplyStep(step, before) == Some(after)
    || (!step.Remove? && exists junk :: after == Put(before, step.file, junk))
  }

  /** The process is killed during one of the steps. */
  ghost predicate Killed(steps: seq<Step>, before: Directory, after: Directory) {
    && steps != []
    && (|| Torn(steps[0], before, after)
        || (match ApplyStep(steps[0], before)
            case None => false
            case Some(next) => Killed(steps[1..], next, after)))
  }

  lemma {:induction false} RunAppend(a: seq<Step>, b: seq<Step>, files: Directory)
    ensures RunSteps(a + b, files)
            == if RunSteps(a, files).ok then RunSteps(b, RunSteps(a, files).files) else RunSteps(a, files)
  {
    hide ApplyStep;
    if a == [] {
      assert a + b == b;
    } else {
      assert (a + b)[0] == a[0] && (a + b)[1..] == a[1..] + b;
      match ApplyStep(a[0], files)
      case None =>
      case Some(next) => RunAppend(a[1..], b, next);
    }
  }

  lemma {:induction false} KilledAppend(a: seq<Step>, b: seq<Step>, before: Directory, after: Directory)
    requires Killed(a + b, before, after)
    ensures Killed(a, before, after) || (RunSteps(a, before).ok && Killed(b, RunSteps(a, before).files, after))
  {
    hide ApplyStep, Torn;
    if a == [] {
      assert a + b == b;
    } else {
      assert (a + b)[0] == a[0] && (a + b)[1..] == a[1..] + b;
      if !Torn(a[0], before, after) {
        KilledAppend(a[1..], b, ApplyStep(a[0], before).value, after);
      }
    }
  }

  // ----- the files of a memory -----

  function ShardNames(n: nat): (r: seq<FileName>)
    ensures |r| == n && forall k :: 0 <= k < n ==> r[k] == ShardFile(k)
  {
    seq(n, k requires 0 <= k < n => ShardFile(k))
  }

  /** The order in which temporary files are written. */
  function WriteOrder(memory: EncodedMemory): seq<FileName> {
    [LoudsFile, CharactersFile, MetadataFile] + ShardNames(|memory.shards|)
  }

  /** The order in which they are published: the topology comes last. */
  function PublishOrder(memory: EncodedMemory): seq<FileName> {
    [CharactersFile, MetadataFile] + ShardNames(|memory.shards|) + [LoudsFile]
  }

  predicate IsPart(memory: EncodedMemory, file: FileName) {
    match file
    case LoudsFile => true
    case CharactersFile => true
    case MetadataFile => true
    case ShardFile(index) => index < |memory.shards|
    case _ => false
  }

  function Content(memory: EncodedMemory, file: FileName): seq<byte>
    requires IsPart(memory, file)
  {
    match file
    case LoudsFile => memory.louds
    case CharactersFile => memory.characters
    case MetadataFile => memory.metadata
    case ShardFile(index) => memory.shards[index]
  }

  function WriteSteps(memory: EncodedMemory, files: seq<FileName>): (r: seq<Step>)
    requires forall i :: 0 <= i < |files| ==> IsPart(memory, files[i])
    ensures |r| == |files|
    ensures forall i :: 0 <= i < |r| ==> r[i] == Write(Temporary(files[i]), Content(memory, files[i]))
  {
    seq(|files|, i requires 0 <= i < |files| => Write(Temporary(files[i]), Content(memory, files[i])))
  }

  function CopySteps(files: seq<FileName>): (r: seq<Step>)
    ensures |r| == |files| && forall i :: 0 <= i < |r| ==> r[i] == Copy(files[i])
  {
    seq(|files|, i requires 0 <= i < |files| => Copy(files[i]))
  }

  function SaveSteps(memory: EncodedMemory): seq<Step> {
    WriteSteps(memory, WriteOrder(memory)) + ([Write(PauseFile, [])] + (CopySteps(PublishOrder(memory)) + [Remove(PauseFile)]))
  }

  /** The listed temporary shards. */
  function PendingShards(listing: seq<FileName>): seq<FileName> {
    if listing == [] then []
    else
      var last := listing[|listing| - 1];
      PendingShards(listing[..|listing| - 1]) + if last.Temporary? && last.file.ShardFile? then [last.file] else []
  }

  function RecoverOrder(listing: seq<FileName>): seq<FileName> {
    [CharactersFile, MetadataFile] + PendingShards(listing) + [LoudsFile]
  }

  function RecoverySteps(listing: seq<FileName>): seq<Step> {
    CopySteps(RecoverOrder(listing)) + [Remove(PauseFile)]
  }

  /** Opening a memory: without a pause marker nothing has to be done. */
  function OpenSteps(files: Directory, listing: seq<FileName>): seq<Step> {
    if PauseFile in files then RecoverySteps(listing) else []
  }

  ghost predicate Lists(listing: seq<FileName>, files: Directory) {
    forall f :: f in listing <==> f in files
  }

  class MemoryDirectory {
    var files: Directory

    method WriteTemporary(name: FileName, bytes: seq<byte>)
      modifies this
      ensures files == old(files)[Temporary(name) := bytes]
    {
      files := files[Temporary(name) := bytes];
    }

    method RestoreTemporary(name: FileName) returns (ok: bool)
      modifies this
      ensures ok <==> ApplyStep(Copy(name), old(files)).Some?
      ensures files == if ok then ApplyStep(Copy(name), old(files)).value else old(files)
    {
      ok := Temporary(name) in files;
      if ok {
        files := files[name := files[Temporary(name)]];
      }
    }

    /** Publishing a list of files, ending at the first that is missing. */
    method RestoreAll(names: seq<FileName>) returns (ok: bool)
      modifies this
      ensures Outcome(files, ok) == RunSteps(CopySteps(names), old(files))
    {
      hide ApplyStep, RunSteps;
      NoSteps(old(files));
      assert CopySteps(names[..0]) == [];
      for i := 0 to |names|
        invariant Outcome(files, true) == RunSteps(CopySteps(names[..i]), old(files))
      {
        assert CopySteps(names[..i + 1]) == CopySteps(names[..i]) + [Copy(names[i])];
        assert CopySteps(names) == CopySteps(names[..i + 1]) + CopySteps(names[i + 1..]);
        RunAppend(CopySteps(names[..i]), [Copy(names[i])], old(files));
        RunAppend(CopySteps(names[..i + 1]), CopySteps(names[i + 1..]), old(files));
        OneStep(Copy(names[i]), files);
        ok := RestoreTemporary(names[i]);
        if !ok {
          return;
        }
      }
      assert names[..|names|] == names;
      ok := true;
    }

    method SaveFiles(memory: EncodedMemory) returns (ok: bool)
      modifies this
      ensures Outcome(files, ok) == RunSteps(SaveSteps(memory), old(files))
    {
      hide ApplyStep, RunSteps, PublishOrder;
      var names := WriteOrder(memory);
      ghost var writes := WriteSteps(memory, names);
      NoSteps(old(files));
      assert writes[..0] == [];
      for i := 0 to |names|
        invariant Outcome(files, true) == RunSteps(writes[..i], old(files))
      {
        assert writes[..i + 1] == writes[..i] + [writes[i]];
        RunAppend(writes[..i], [writes[i]], old(files));
        OneStep(writes[i], files);
        WriteApplies(writes[i], files);
        WriteTemporary(names[i], Content(memory, names[i]));
      }
      assert writes[..|names|] == writes;
      ghost var written := files;
      ghost var copies := CopySteps(PublishOrder(memory));
      RunAppend(writes, [Write(PauseFile, [])] + (copies + [Remove(PauseFile)]), old(files));
      RunAppend([Write(PauseFile, [])], copies + [Remove(PauseFile)], written);
      OneStep(Write(PauseFile, []), files);
      WriteApplies(Write(PauseFile, []), files);
      files := files[PauseFile := []];
      ghost var paused := files;
      RunAppend(copies, [Remove(PauseFile)], paused);
      ok := RestoreAll(PublishOrder(memory));
      if !ok {
        return;
      }
      OneStep(Remove(PauseFile), files);
      WriteApplies(Remove(PauseFile), files);
      files := files - {PauseFile};
    }

    method RecoverIfPaused(listing: seq<FileName>) returns (ok: bool)
      modifies this
      ensures Outcome(files, ok) == RunSteps(OpenSteps(old(files), listing), old(files))
    {
      hide ApplyStep, RunSteps, RecoverOrder;
      if PauseFile !in files {
        NoSteps(files);
        return true;
      }
      RunAppend(CopySteps(RecoverOrder(listing)), [Remove(PauseFile)], files);
      var shards := FindShards(listing);
      RecoverOrderIs(listing);
      ok := RestoreAll([CharactersFile, MetadataFile] + shards + [LoudsFile]);
      if !ok {
        return;
      }
      OneStep(Remove(PauseFile), files);
      WriteApplies(Remove(PauseFile), files);
      files := files - {PauseFile};
    }

    method FindShards(listing: seq<FileName>) returns (shards: seq<FileName>)
      ensures shards == PendingShards(listing)
    {
      shards := [];
      for i := 0 to |listing|
        invariant shards == PendingShards(listing[..i])
      {
        assert listing[..i + 1][..i] == listing[..i];
        if listing[i].Temporary? && listing[i].file.ShardFile? {
          shards := shards + [listing[i].file];
        }
      }
      assert listing[..|listing|] == listing;
    }
  }

  lemma {:induction false} NoSteps(files: Directory)
    ensures RunSteps([], files) == Outcome(files, true)
  {
  }

  lemma {:induction false} OneStep(step: Step, files: Directory)
    ensures RunSteps([step], files)
            == if ApplyStep(step, files).Some? then Outcome(ApplyStep(step, files).value, true) else Outcome(files, false)
  {
    hide ApplyStep;
    assert [step][1..] == [];
    match ApplyStep(step, files)
    case None =>
    case Some(next) => NoSteps(next);
  }

  lemma {:induction false} WriteApplies(step: Step, files: Directory)
    requires !step.Copy?
    ensures ApplyStep(step, files) == Some(if step.Write? then files[step.file := step.bytes] else files - {step.file})
  {
  }

  lemma {:induction false} RecoverOrderIs(listing: seq<FileName>)
    ensures RecoverOrder(listing) == [CharactersFile, MetadataFile] + PendingShards(listing) + [LoudsFile]
  {
  }

  // ----- what each phase keeps -----

  predicate IsLive(file: FileName) {
    !file.Temporary? && !file.PauseFile?
  }

  /** No save is in progress, and every live file is as it was. */
  ghost predicate Untouched(files: Directory, earlier: Directory) {
    && PauseFile !in files
    && forall f :: IsLive(f) ==> (f in files <==> f in earlier) && (f in files ==> files[f] == earlier[f])
  }

  ghost predicate HasTemporary(files: Directory, memory: EncodedMemory, file: FileName) {
    IsPart(memory, file) ==> Temporary(file) in files && files[Temporary(file)] == Content(memory, file)
  }

  ghost predicate HasLive(files: Directory, memory: EncodedMemory, file: FileName) {
    IsPart(memory, file) ==> file in files && files[file] == Content(memory, file)
  }

  /** The marker is set and all new files wait in their temporary versions. */
  ghost predicate Paused(files: Directory, memory: EncodedMemory) {
    PauseFile in files && forall f :: HasTemporary(files, memory, f)
  }

  /** The new files are all live. */
  ghost predicate Published(files: Directory, memory: EncodedMemory) {
    PauseFile !in files && forall f :: HasLive(files, memory, f)
  }

  ghost predicate AllParts(memory: EncodedMemory, names: seq<FileName>) {
    forall i :: 0 <= i < |names| ==> IsPart(memory, names[i])
  }

  lemma {:induction false} WritesRun(memory: EncodedMemory, names: seq<FileName>, files: Directory, earlier: Directory)
    requires AllParts(memory, names) && Untouched(files, earlier)
    ensures var r := RunSteps(WriteSteps(memory, names), files);
            && r.ok && Untouched(r.files, earlier)
            && (forall f :: IsPart(memory, f) && (f in names || HasTemporary(files, memory, f)) ==> HasTemporary(r.files, memory, f))
  {
    var steps := WriteSteps(memory, names);
    if names != [] {
      var next := files[Temporary(names[0]) := Content(memory, names[0])];
      assert steps[1..] == WriteSteps(memory, names[1..]);
      assert ApplyStep(steps[0], files) == Some(next);
      WritesRun(memory, names[1..], next, earlier);
      assert forall f :: f in names ==> f == names[0] || f in names[1..];
    }
  }

  lemma {:induction false} WritesKilled(memory: EncodedMemory, names: seq<FileName>, files: Directory, earlier: Directory, after: Directory)
    requires AllParts(memory, names) && Untouched(files, earlier) && Killed(WriteSteps(memory, names), files, after)
    ensures Untouched(after, earlier)
  {
    var steps := WriteSteps(memory, names);
    if !Torn(steps[0], files, after) {
      var next := files[Temporary(names[0]) := Content(memory, names[0])];
      assert steps[1..] == WriteSteps(memory, names[1..]);
      assert ApplyStep(steps[0], files) == Some(next);
      WritesKilled(memory, names[1..], next, earlier, after);
    }
  }

  ghost predicate AllLiveNames(names: seq<FileName>) {
    forall i :: 0 <= i < |names| ==> IsLive(names[i])
  }

  ghost predicate AllHaveTemporary(files: Directory, names: seq<FileName>) {
    forall i :: 0 <= i < |names| ==> Temporary(names[i]) in files
  }

  lemma {:induction false} CopiesRun(memory: EncodedMemory, names: seq<FileName>, files: Directory)
    requires AllLiveNames(names) && AllHaveTemporary(files, names) && Paused(files, memory)
    ensures var r := RunSteps(CopySteps(names), files);
            && r.ok && Paused(r.files, memory)
            && (forall f :: f in names || (IsLive(f) && HasLive(files, memory, f)) ==> HasLive(r.files, memory, f))
  {
    var steps := CopySteps(names);
    if names != [] {
      var next := files[names[0] := files[Temporary(names[0])]];
      assert steps[1..] == CopySteps(names[1..]);
      assert ApplyStep(steps[0], files) == Some(next);
      CopyKeeps(memory, names[0], files, files[Temporary(names[0])]);
      assert HasTemporary(files, memory, names[0]) && HasLive(next, memory, names[0]);
      CopiesRun(memory, names[1..], next);
      assert forall f :: f in names ==> f == names[0] || f in names[1..];
      forall f | IsLive(f) && HasLive(files, memory, f)
        ensures HasLive(next, memory, f)
      {
      }
    }
  }

  /** Overwriting a live file disturbs neither the marker nor the temporary files. */
  lemma {:induction false} CopyKeeps(memory: EncodedMemory, name: FileName, files: Directory, bytes: seq<byte>)
    requires IsLive(name) && Paused(files, memory)
    ensures Paused(files[name := bytes], memory)
  {
    var changed := files[name := bytes];
    forall f
      ensures HasTemporary(changed, memory, f)
    {
      assert HasTemporary(files, memory, f);
    }
  }

  lemma {:induction false} CopiesKilled(memory: EncodedMemory, names: seq<FileName>, files: Directory, after: Directory)
    requires AllLiveNames(names) && AllHaveTemporary(files, names) && Paused(files, memory)
    requires Killed(CopySteps(names), files, after)
    ensures Paused(after, memory)
  {
    hide Paused;
    var steps := CopySteps(names);
    var next := files[names[0] := files[Temporary(names[0])]];
    assert ApplyStep(steps[0], files) == Some(next);
    CopyKeeps(memory, names[0], files, files[Temporary(names[0])]);
    if Torn(steps[0], files, after) {
      if after != files && after != next {
        var junk :| after == Put(files, names[0], junk);
        CopyKeeps(memory, names[0], files, junk);
      }
    } else {
      assert steps[1..] == CopySteps(names[1..]);
      CopiesKilled(memory, names[1..], next, after);
    }
  }

  /** From a paused state, publishing every new file and then removing the marker. */
  lemma {:induction false} PublishRuns(memory: EncodedMemory, names: seq<FileName>, files: Directory)
    requires AllLiveNames(names) && AllHaveTemporary(files, names) && Paused(files, memory)
    requires forall f :: IsPart(memory, f) ==> f in names
    ensures var r := RunSteps(CopySteps(names) + [Remove(PauseFile)], files);
            r.ok && Published(r.files, memory)
  {
    hide RunSteps;
    CopiesRun(memory, names, files);
    var copied := RunSteps(CopySteps(names), files).files;
    RunAppend(CopySteps(names), [Remove(PauseFile)], files);
    OneStep(Remove(PauseFile), copied);
    forall f
      ensures HasLive(copied - {PauseFile}, memory, f)
    {
      assert IsPart(memory, f) ==> HasLive(copied, memory, f);
    }
  }

  lemma {:induction false} PublishKilled(memory: EncodedMemory, names: seq<FileName>, files: Directory, after: Directory)
    requires AllLiveNames(names) && AllHaveTemporary(files, names) && Paused(files, memory)
    requires forall f :: IsPart(memory, f) ==> f in names
    requires Killed(CopySteps(names) + [Remove(PauseFile)], files, after)
    ensures Paused(after, memory) || Published(after, memory)
  {
    hide RunSteps, Killed, Paused, Published;
    var remove := [Remove(PauseFile)];
    KilledAppend(CopySteps(names), remove, files, after);
    if Killed(CopySteps(names), files, after) {
      CopiesKilled(memory, names, files, after);
    } else {
      CopiesRun(memory, names, files);
      PublishRuns(memory, names, files);
      var copied := RunSteps(CopySteps(names), files).files;
      RunAppend(CopySteps(names), remove, files);
      OneStep(Remove(PauseFile), copied);
      KilledLast(Remove(PauseFile), copied, after);
    }
  }

  lemma {:induction false} KilledLast(step: Step, files: Directory, after: Directory)
    requires Killed([step], files, after)
    ensures Torn(step, files, after)
  {
    assert [step][1..] == [];
  }

  // ----- saving -----

  lemma {:induction false} OrdersCover(memory: EncodedMemory)
    ensures AllParts(memory, WriteOrder(memory)) && AllLiveNames(PublishOrder(memory))
    ensures forall f :: IsPart(memory, f) <==> f in WriteOrder(memory)
    ensures forall f :: IsPart(memory, f) <==> f in PublishOrder(memory)
  {
    forall f | IsPart(memory, f)
      ensures f in WriteOrder(memory) && f in PublishOrder(memory)
    {
      if f.ShardFile? {
        assert ShardNames(|memory.shards|)[f.index] == f;
      }
    }
  }

  lemma {:induction false} WritesPause(memory: EncodedMemory, files: Directory, bytes: seq<byte>)
    requires PauseFile !in files && AllParts(memory, WriteOrder(memory))
    ensures var r := RunSteps(WriteSteps(memory, WriteOrder(memory)), files);
            && r.ok && Untouched(r.files, files)
            && Paused(r.files[PauseFile := bytes], memory)
            && AllHaveTemporary(r.files[PauseFile := bytes], PublishOrder(memory))
  {
    hide RunSteps;
    OrdersCover(memory);
    WritesRun(memory, WriteOrder(memory), files, files);
    var written := RunSteps(WriteSteps(memory, WriteOrder(memory)), files).files;
    var paused := written[PauseFile := bytes];
    forall f
      ensures HasTemporary(paused, memory, f)
    {
      assert IsPart(memory, f) ==> HasTemporary(written, memory, f);
    }
    assert forall i :: 0 <= i < |PublishOrder(memory)| ==> HasTemporary(paused, memory, PublishOrder(memory)[i]);
  }

  /** A save that is not interrupted publishes the new files. */
  lemma {:induction false} SavePublishes(memory: EncodedMemory, files: Directory)
    requires PauseFile !in files
    ensures var r := RunSteps(SaveSteps(memory), files); r.ok && Published(r.files, memory)
  {
    hide RunSteps, Paused, Published, WriteOrder, PublishOrder;
    OrdersCover(memory);
    var writes, copies := WriteSteps(memory, WriteOrder(memory)), CopySteps(PublishOrder(memory));
    var pause, rest := [Write(PauseFile, [])], copies + [Remove(PauseFile)];
    WritesPause(memory, files, []);
    var written := RunSteps(writes, files).files;
    RunAppend(writes, pause + rest, files);
    RunAppend(pause, rest, written);
    OneStep(Write(PauseFile, []), written);
    PublishRuns(memory, PublishOrder(memory), written[PauseFile := []]);
  }

  /** Wherever a save is killed, the old files are untouched, or the marker stands with all new
      files waiting, or the new files are live. */
  lemma {:induction false} SaveKilled(memory: EncodedMemory, files: Directory, after: Directory)
    requires PauseFile !in files && Killed(SaveSteps(memory), files, after)
    ensures Untouched(after, files) || Paused(after, memory) || Published(after, memory)
  {
    hide RunSteps, Killed, Paused, Published, WriteOrder, PublishOrder, Untouched;
    OrdersCover(memory);
    var writes, copies := WriteSteps(memory, WriteOrder(memory)), CopySteps(PublishOrder(memory));
    var pause, rest := [Write(PauseFile, [])], copies + [Remove(PauseFile)];
    UntouchedYet(files);
    KilledAppend(writes, pause + rest, files, after);
    if Killed(writes, files, after) {
      WritesKilled(memory, WriteOrder(memory), files, files, after);
    } else {
      WritesPause(memory, files, []);
      var written := RunSteps(writes, files).files;
      KilledAppend(pause, rest, written, after);
      OneStep(Write(PauseFile, []), written);
      if Killed(pause, written, after) {
        KilledLast(Write(PauseFile, []), written, after);
        if after != written && after != written[PauseFile := []] {
          var junk :| after == Put(written, PauseFile, junk);
          WritesPause(memory, files, junk);
        }
      } else {
        PublishKilled(memory, PublishOrder(memory), written[PauseFile := []], after);
      }
    }
  }

  lemma {:induction false} UntouchedYet(files: Directory)
    requires PauseFile !in files
    ensures Untouched(files, files)
  {
  }

  // ----- recovering -----

  lemma {:induction false} PendingShardsAre(listing: seq<FileName>)
    ensures forall f :: f in PendingShards(listing) <==> f.ShardFile? && Temporary(f) in listing
  {
    if listing != [] {
      var init, last := listing[..|listing| - 1], listing[|listing| - 1];
      PendingShardsAre(init);
      assert listing == init + [last];
      forall f
        ensures f in PendingShards(listing) <==> f.ShardFile? && Temporary(f) in listing
      {
        assert f in PendingShards(listing) <==> f in PendingShards(init) || (last == Temporary(f) && f.ShardFile?);
      }
    }
  }

  lemma {:induction false} RecoverCovers(memory: EncodedMemory, files: Directory, listing: seq<FileName>)
    requires Paused(files, memory) && Lists(listing, files)
    ensures AllLiveNames(RecoverOrder(listing)) && AllHaveTemporary(files, RecoverOrder(listing))
    ensures forall f :: IsPart(memory, f) ==> f in RecoverOrder(listing)
  {
    hide PendingShards;
    PendingShardsAre(listing);
    assert HasTemporary(files, memory, LoudsFile) && HasTemporary(files, memory, CharactersFile) && HasTemporary(files, memory, MetadataFile);
    var order := RecoverOrder(listing);
    forall i | 0 <= i < |order|
      ensures IsLive(order[i]) && Temporary(order[i]) in files
    {
      assert order[i] in order;
      if order[i].ShardFile? {
        assert order[i] in PendingShards(listing);
      }
    }
    forall f | IsPart(memory, f)
      ensures f in order
    {
      assert HasTemporary(files, memory, f);
    }
  }

  /** After a save and any number of interrupted recoveries. */
  ghost predicate Recoverable(files: Directory, earlier: Directory, memory: EncodedMemory) {
    Untouched(files, earlier) || Paused(files, memory) || Published(files, memory)
  }

  lemma {:induction false} OpenKilled(memory: EncodedMemory, files: Directory, earlier: Directory, listing: seq<FileName>, after: Directory)
    requires Recoverable(files, earlier, memory) && Lists(listing, files) && Killed(OpenSteps(files, listing), files, after)
    ensures Recoverable(after, earlier, memory)
  {
    hide Killed, Untouched, Paused, Published, RecoverOrder;
    if PauseFile in files {
      OnlyPaused(files, earlier, memory);
      RecoverCovers(memory, files, listing);
      PublishKilled(memory, RecoverOrder(listing), files, after);
    } else {
      NeverKilled(files, after);
    }
  }

  lemma {:induction false} NeverKilled(files: Directory, after: Directory)
    ensures !Killed([], files, after)
  {
  }

  lemma {:induction false} OnlyPaused(files: Directory, earlier: Directory, memory: EncodedMemory)
    requires Recoverable(files, earlier, memory)
    ensures PauseFile in files <==> Paused(files, memory)
    ensures PauseFile !in files ==> Untouched(files, earlier) || Published(files, memory)
  {
  }

  lemma {:induction false} OpenFinishes(memory: EncodedMemory, files: Directory, earlier: Directory, listing: seq<FileName>)
    requires Recoverable(files, earlier, memory) && Lists(listing, files)
    ensures var r := RunSteps(OpenSteps(files, listing), files);
            r.ok && (Untouched(r.files, earlier) || Published(r.files, memory))
  {
    hide RunSteps, Untouched, Paused, Published, RecoverOrder;
    OnlyPaused(files, earlier, memory);
    if PauseFile in files {
      RecoverCovers(memory, files, listing);
      PublishRuns(memory, RecoverOrder(listing), files);
    } else {
      NoSteps(files);
    }
  }

  // ----- crash atomicity -----

  /** A process is killed while saving; each later process is killed while opening. */
  ghost predicate Crashes(memory: EncodedMemory, start: Directory, states: seq<Directory>, listings: seq<seq<FileName>>) {
    && |states| > 0 && |listings| == |states|
    && Killed(SaveSteps(memory), start, states[0])
    && (forall i :: 0 <= i < |states| ==> Lists(listings[i], states[i]))
    && (forall i :: 0 < i < |states| ==>
          states[i] == states[i - 1] || Killed(OpenSteps(states[i - 1], listings[i - 1]), states[i - 1], states[i]))
  }

  lemma {:induction false} CrashesStayRecoverable(memory: EncodedMemory, start: Directory, states: seq<Directory>, listings: seq<seq<FileName>>, i: nat)
    requires PauseFile !in start && Crashes(memory, start, states, listings) && i < |states|
    ensures Recoverable(states[i], start, memory)
  {
    hide Killed, Recoverable, SaveSteps, OpenSteps;
    if i == 0 {
      SaveKilled(memory, start, states[0]);
      IsRecoverable(states[0], start, memory);
    } else {
      CrashesStayRecoverable(memory, start, states, listings, i - 1);
      if states[i] != states[i - 1] {
        OpenKilled(memory, states[i - 1], start, listings[i - 1], states[i]);
      }
    }
  }

  lemma {:induction false} IsRecoverable(files: Directory, earlier: Directory, memory: EncodedMemory)
    requires Untouched(files, earlier) || Paused(files, memory) || Published(files, memory)
    ensures Recoverable(files, earlier, memory)
  {
    hide Untouched, Paused, Published;
  }

  /** Decoding looks at live files only. */
  lemma {:induction false} UntouchedDecodesAlike(files: Directory, earlier: Directory)
    requires Untouched(files, earlier)
    ensures Decoded(files) == Decoded(earlier)
  {
    hide ReadBlocks, ParseShard;
    assert IsLive(MetadataFile) && IsLive(LoudsFile) && IsLive(CharactersFile);
    if MetadataFile in files {
      match ReadHeader(files)
      case Err(_) =>
      case Ok(blocks) => ReadNodesAlike(files, earlier, blocks, |blocks|);
    }
  }

  lemma {:induction false} ReadNodesAlike(files: Directory, earlier: Directory, blocks: seq<seq<Stamp>>, n: nat)
    requires Untouched(files, earlier) && n <= |blocks|
    ensures ReadNodes(files, blocks, n) == ReadNodes(earlier, blocks, n)
  {
    hide ParseShard;
    if n > 0 {
      ReadNodesAlike(files, earlier, blocks, n - 1);
      assert IsLive(ShardFile((n - 1) / SHARD_SIZE));
    }
  }

  lemma {:induction false} PublishedHolds(files: Directory, memory: EncodedMemory)
    requires Published(files, memory)
    ensures Holds(files, memory)
  {
    assert HasLive(files, memory, LoudsFile) && HasLive(files, memory, CharactersFile) && HasLive(files, memory, MetadataFile);
    forall k: nat | k < |memory.shards|
      ensures ShardFile(k) in files && files[ShardFile(k)] == memory.shards[k]
    {
      assert HasLive(files, memory, ShardFile(k));
    }
  }

  /** Crash atomicity: a process is killed at any step of a save, with the file of that step torn,
      and recovery is killed any number of times; opening the memory then succeeds, leaves no
      marker, and reads the old records or the new ones, whatever stale files lie around. */
  lemma {:induction false} CrashAtomicity(records: seq<Record>, encode: Encoder, value: ValueLaw, start: Directory,
                                          states: seq<Directory>, listings: seq<seq<FileName>>)
    requires TabFreeTexts(records) && Separates(encode) && Fits(Files(records, encode, value))
    requires PauseFile !in start && Crashes(Files(records, encode, value), start, states, listings)
    ensures var last := |states| - 1;
            var reopened := RunSteps(OpenSteps(states[last], listings[last]), states[last]);
            && reopened.ok && PauseFile !in reopened.files
            && (|| Decoded(reopened.files) == Decoded(start)
                || Decoded(reopened.files) == Ok(Flatten(LoadedBlocks(NodeBlocks(records, encode), value))))
  {
    hide Killed, Files, RunSteps, Recoverable, OpenSteps, SaveSteps, Decoded, Flatten, NodeBlocks, TabFreeTexts, Separates, Fits;
    var memory := Files(records, encode, value);
    var last := |states| - 1;
    CrashesStayRecoverable(memory, start, states, listings, last);
    OpenFinishes(memory, states[last], start, listings[last]);
    var files := RunSteps(OpenSteps(states[last], listings[last]), states[last]).files;
    if Untouched(files, start) {
      UntouchedDecodesAlike(files, start);
    } else {
      PublishedHolds(files, memory);
      DecodesEncoded(records, encode, value, files);
    }
  }
}
