/** Which files a save and a recovery change, and in which order (`save_records` and
    `recover_if_paused` in `learning.rs`). */
module SavingMeanings {
  import opened Wrappers
  import opened Bytes
  import opened EntryBlocks
  import opened MemoryFiles
  import opened MemoryRoundTrip
  import opened Saving

  /** Both directories agree on a file: it is in neither, or the same in both. */
  predicate SameFile(a: Directory, b: Directory, file: FileName) {
    (file in a <==> file in b) && (file in a ==> a[file] == b[file])
  }

  predicate LeavesAlone(steps: seq<Step>, file: FileName) {
    forall i :: 0 <= i < |steps| ==> steps[i].file != file
  }

  lemma {:induction false} StepFrame(step: Step, before: Directory, file: FileName)
    requires step.file != file
    ensures ApplyStep(step, before).Some? ==> SameFile(ApplyStep(step, before).value, before, file)
  {
  }

  lemma {:induction false} RunFrame(steps: seq<Step>, before: Directory, file: FileName)
    requires LeavesAlone(steps, file)
    ensures SameFile(RunSteps(steps, before).files, before, file)
  {
    hide ApplyStep;
    if steps != [] {
      StepFrame(steps[0], before, file);
      match ApplyStep(steps[0], before)
      case None =>
      case Some(next) =>
        assert forall i :: 0 <= i < |steps[1..]| ==> steps[1..][i] == steps[i + 1];
        RunFrame(steps[1..], next, file);
    }
  }

  /** A process that is killed changes no file that its steps do not name. */
  lemma {:induction false} KilledFrame(steps: seq<Step>, before: Directory, after: Directory, file: FileName)
    requires LeavesAlone(steps, file) && Killed(steps, before, after)
    ensures SameFile(after, before, file)
  {
    hide ApplyStep;
    StepFrame(steps[0], before, file);
    if !Torn(steps[0], before, after) {
      assert forall i :: 0 <= i < |steps[1..]| ==> steps[1..][i] == steps[i + 1];
      KilledFrame(steps[1..], ApplyStep(steps[0], before).value, after, file);
    }
  }

  /** The content of the file of a memory with this name, if it has one. */
  function PartOf(memory: EncodedMemory, file: FileName): Option<seq<byte>> {
    match file
    case LoudsFile => Some(memory.louds)
    case CharactersFile => Some(memory.characters)
    case MetadataFile => Some(memory.metadata)
    case ShardFile(index) => if index < |memory.shards| then Some(memory.shards[index]) else None
    case _ => None
  }

  /** The files as a finished save leaves them: the new files under their own names and under their
      temporary ones, no marker, and every other file as it was. */
  ghost predicate Saved(memory: EncodedMemory, before: Directory, after: Directory) {
    forall f: FileName ::
      if f == PauseFile then f !in after
      else if PartOf(memory, f).Some? then f in after && after[f] == PartOf(memory, f).value
      else if f.Temporary? && PartOf(memory, f.file).Some? then f in after && after[f] == PartOf(memory, f.file).value
      else SameFile(after, before, f)
  }

  lemma {:induction false} SaveNames(memory: EncodedMemory, file: FileName)
    requires file != PauseFile && PartOf(memory, file).None? && !(file.Temporary? && PartOf(memory, file.file).Some?)
    ensures LeavesAlone(SaveSteps(memory), file)
  {
    hide WriteOrder, PublishOrder;
    OrdersCover(memory);
    var steps := SaveSteps(memory);
    var writes := WriteSteps(memory, WriteOrder(memory));
    forall i | 0 <= i < |steps|
      ensures steps[i].file != file
    {
      if i < |writes| {
        assert WriteOrder(memory)[i] in WriteOrder(memory);
      } else if |writes| + 1 <= i < |steps| - 1 {
        assert PublishOrder(memory)[i - |writes| - 1] in PublishOrder(memory);
        assert steps[i] == Copy(PublishOrder(memory)[i - |writes| - 1]);
      }
    }
  }

  lemma {:induction false} CopiesLeaveTemporaries(names: seq<FileName>, file: FileName)
    requires AllLiveNames(names) && file.Temporary?
    ensures LeavesAlone([Write(PauseFile, [])] + (CopySteps(names) + [Remove(PauseFile)]), file)
  {
  }

  /** What a save does to every file. */
  lemma {:induction false} SaveMeans(memory: EncodedMemory, before: Directory)
    requires PauseFile !in before
    ensures RunSteps(SaveSteps(memory), before).ok && Saved(memory, before, RunSteps(SaveSteps(memory), before).files)
  {
    hide RunSteps, WriteOrder, PublishOrder, Paused, AllHaveTemporary;
    SavePublishes(memory, before);
    OrdersCover(memory);
    var writes, rest := WriteSteps(memory, WriteOrder(memory)), [Write(PauseFile, [])] + (CopySteps(PublishOrder(memory)) + [Remove(PauseFile)]);
    WritesPause(memory, before, []);
    WritesRun(memory, WriteOrder(memory), before, before);
    RunAppend(writes, rest, before);
    var written, after := RunSteps(writes, before).files, RunSteps(SaveSteps(memory), before).files;
    assert after == RunSteps(rest, written).files;
    forall f: FileName
      ensures if f == PauseFile then f !in after
              else if PartOf(memory, f).Some? then f in after && after[f] == PartOf(memory, f).value
              else if f.Temporary? && PartOf(memory, f.file).Some? then f in after && after[f] == PartOf(memory, f.file).value
              else SameFile(after, before, f)
    {
      if f == PauseFile {
      } else if PartOf(memory, f).Some? {
        assert HasLive(after, memory, f);
      } else if f.Temporary? && PartOf(memory, f.file).Some? {
        assert HasTemporary(written, memory, f.file);
        CopiesLeaveTemporaries(PublishOrder(memory), f);
        RunFrame(rest, written, f);
      } else {
        SaveNames(memory, f);
        RunFrame(SaveSteps(memory), before, f);
      }
    }
  }

  /** Wherever a save is killed, no other file is touched. */
  lemma {:induction false} KilledSaveLeavesOthers(memory: EncodedMemory, before: Directory, after: Directory, file: FileName)
    requires Killed(SaveSteps(memory), before, after)
    requires file != PauseFile && PartOf(memory, file).None? && !(file.Temporary? && PartOf(memory, file.file).Some?)
    ensures SameFile(after, before, file)
  {
    hide Killed, SaveSteps;
    SaveNames(memory, file);
    KilledFrame(SaveSteps(memory), before, after, file);
  }

  // ----- the topology is published last -----

  /** Every new file but the topology is live. */
  ghost predicate OthersPublished(files: Directory, memory: EncodedMemory) {
    forall f: FileName :: f != LoudsFile && PartOf(memory, f).Some? ==> f in files && files[f] == PartOf(memory, f).value
  }

  lemma {:induction false} OthersStay(memory: EncodedMemory, before: Directory, after: Directory)
    requires OthersPublished(before, memory) && Killed([Copy(LoudsFile), Remove(PauseFile)], before, after)
    ensures OthersPublished(after, memory)
  {
    hide Killed;
    forall f: FileName | f != LoudsFile && PartOf(memory, f).Some?
      ensures f in after && after[f] == PartOf(memory, f).value
    {
      KilledFrame([Copy(LoudsFile), Remove(PauseFile)], before, after, f);
    }
  }

  lemma {:induction false} PublishedBeforeTopology(memory: EncodedMemory, names: seq<FileName>, files: Directory, after: Directory)
    requires AllLiveNames(names) && AllHaveTemporary(files, names) && Paused(files, memory)
    requires LoudsFile !in names && forall f :: IsPart(memory, f) && f != LoudsFile ==> f in names
    requires Killed(CopySteps(names) + [Copy(LoudsFile), Remove(PauseFile)], files, after)
    ensures SameFile(after, files, LoudsFile) || OthersPublished(after, memory)
  {
    hide Killed, RunSteps, Paused, AllHaveTemporary;
    var last := [Copy(LoudsFile), Remove(PauseFile)];
    KilledAppend(CopySteps(names), last, files, after);
    if Killed(CopySteps(names), files, after) {
      KilledFrame(CopySteps(names), files, after, LoudsFile);
    } else {
      CopiesRun(memory, names, files);
      var copied := RunSteps(CopySteps(names), files).files;
      forall f: FileName | f != LoudsFile && PartOf(memory, f).Some?
        ensures f in copied && copied[f] == PartOf(memory, f).value
      {
        assert IsPart(memory, f) && HasLive(copied, memory, f);
      }
      OthersStay(memory, copied, after);
    }
  }

  function Others(memory: EncodedMemory): (r: seq<FileName>)
    ensures LoudsFile !in r && forall f :: IsPart(memory, f) && f != LoudsFile ==> f in r
    ensures AllLiveNames(r)
  {
    assert forall k: nat :: k < |memory.shards| ==> ShardNames(|memory.shards|)[k] == ShardFile(k);
    [CharactersFile, MetadataFile] + ShardNames(|memory.shards|)
  }

  lemma {:induction false} PausedByWrites(memory: EncodedMemory, before: Directory)
    requires PauseFile !in before
    ensures var r := RunSteps(WriteSteps(memory, WriteOrder(memory)), before);
            var paused := r.files[PauseFile := []];
            && r.ok && Untouched(r.files, before) && Paused(paused, memory)
            && AllHaveTemporary(paused, Others(memory))
  {
    hide RunSteps, WriteOrder, PublishOrder;
    OrdersCover(memory);
    WritesPause(memory, before, []);
    var paused := RunSteps(WriteSteps(memory, WriteOrder(memory)), before).files[PauseFile := []];
    var names := Others(memory);
    forall i | 0 <= i < |names|
      ensures Temporary(names[i]) in paused
    {
      assert names[i] in names && IsPart(memory, names[i]);
      assert HasTemporary(paused, memory, names[i]);
    }
  }

  /** A program that reads while a save is under way, or after it was killed, sees the new topology
      only with all other new files: the topology stays as it was until they are live. */
  lemma {:induction false} TopologyComesLast(memory: EncodedMemory, before: Directory, after: Directory)
    requires PauseFile !in before && Killed(SaveSteps(memory), before, after)
    ensures SameFile(after, before, LoudsFile) || OthersPublished(after, memory)
  {
    hide Killed, RunSteps, WriteOrder, Paused, Untouched, OthersPublished, AllHaveTemporary;
    OrdersCover(memory);
    var writes, pause := WriteSteps(memory, WriteOrder(memory)), [Write(PauseFile, [])];
    var rest := CopySteps(Others(memory)) + [Copy(LoudsFile), Remove(PauseFile)];
    assert CopySteps(PublishOrder(memory)) + [Remove(PauseFile)] == rest;
    KilledAppend(writes, pause + rest, before, after);
    if Killed(writes, before, after) {
      KilledFrame(writes, before, after, LoudsFile);
    } else {
      PausedByWrites(memory, before);
      var written := RunSteps(writes, before).files;
      RunFrame(writes, before, LoudsFile);
      KilledAppend(pause, rest, written, after);
      OneStep(Write(PauseFile, []), written);
      if Killed(pause, written, after) {
        KilledFrame(pause, written, after, LoudsFile);
      } else {
        PublishedBeforeTopology(memory, Others(memory), written[PauseFile := []], after);
      }
    }
  }

  /** The same while a save is made up for. */
  lemma {:induction false} TopologyComesLastAgain(memory: EncodedMemory, files: Directory, listing: seq<FileName>, after: Directory)
    requires Paused(files, memory) && Lists(listing, files) && Killed(OpenSteps(files, listing), files, after)
    ensures SameFile(after, files, LoudsFile) || OthersPublished(after, memory)
  {
    hide Killed, Paused, OthersPublished, AllHaveTemporary, PendingShards;
    RecoverCovers(memory, files, listing);
    PendingShardsAre(listing);
    MarkerStands(files, memory);
    var names := [CharactersFile, MetadataFile] + PendingShards(listing);
    assert RecoverOrder(listing) == names + [LoudsFile];
    assert CopySteps(RecoverOrder(listing)) + [Remove(PauseFile)] == CopySteps(names) + [Copy(LoudsFile), Remove(PauseFile)];
    AllBefore(files, names, LoudsFile);
    PublishedBeforeTopology(memory, names, files, after);
  }

  lemma {:induction false} MarkerStands(files: Directory, memory: EncodedMemory)
    requires Paused(files, memory)
    ensures PauseFile in files
  {
  }

  lemma {:induction false} AllBefore(files: Directory, names: seq<FileName>, last: FileName)
    requires AllLiveNames(names + [last]) && AllHaveTemporary(files, names + [last])
    ensures AllLiveNames(names) && AllHaveTemporary(files, names)
  {
    var all := names + [last];
    assert forall i :: 0 <= i < |names| ==> all[i] == names[i];
  }

  // ----- when a save counts -----

  /** Once the marker stands, opening the memory publishes the new files, whatever else was killed. */
  lemma {:induction false} MarkedSavesCount(memory: EncodedMemory, start: Directory, states: seq<Directory>, listings: seq<seq<FileName>>, i: nat)
    requires PauseFile !in start && Crashes(memory, start, states, listings) && i < |states| && PauseFile in states[i]
    ensures var reopened := RunSteps(OpenSteps(states[i], listings[i]), states[i]);
            reopened.ok && Published(reopened.files, memory)
  {
    hide Killed, RunSteps, Paused, Published, RecoverOrder, Recoverable, SaveSteps;
    CrashesStayRecoverable(memory, start, states, listings, i);
    OnlyPaused(states[i], start, memory);
    RecoverCovers(memory, states[i], listings[i]);
    PublishRuns(memory, RecoverOrder(listings[i]), states[i]);
  }

  /** Without a marker, opening changes nothing. */
  lemma {:induction false} NothingToRecover(files: Directory, listing: seq<FileName>)
    requires PauseFile !in files
    ensures RunSteps(OpenSteps(files, listing), files) == Outcome(files, true)
  {
  }
}
