/** Where the files of an extraction come from, whatever the archive holds. */
module TarOrigin {
  import opened Common
  import opened TarReader

  predicate MarksFile(header: Bytes)
    requires |header| == BLOCK
  {
    header[156] == FLAG_FILE || header[156] == 0
  }

  /** The data that a header at this offset carries. */
  ghost predicate Carries(tarData: Bytes, offset: int, data: Bytes) {
    var size := TarOctal(HeaderAt(tarData, offset), 124, 12);
    size.Success? && data == Subarray(tarData, offset + BLOCK, offset + BLOCK + size.value)
  }

  /** A long-name block of the archive gives this name. */
  ghost predicate IsLongName(tarData: Bytes, name: Bytes) {
    exists offset, data ::
      HeaderAt(tarData, offset)[156] == FLAG_LONG_NAME && Carries(tarData, offset, data) && name == CutAtZero(data)
  }

  /** The name a header has of itself, or one that a long-name block gives. */
  ghost predicate IsNameAt(tarData: Bytes, offset: int, name: Bytes) {
    name == TarEntryName(HeaderAt(tarData, offset)) || IsLongName(tarData, name)
  }

  /** Some header marked as a regular file names the path and carries the content. */
  ghost predicate ComesFromHeader(root: Path, tarData: Bytes, p: Path, content: Bytes) {
    exists offset, name ::
      MarksFile(HeaderAt(tarData, offset)) && IsNameAt(tarData, offset, name) &&
      SafeTarDestination(root, name) == Success(p) && Carries(tarData, offset, content)
  }

  /** Every file is as it was before, or comes from a header of the archive. */
  ghost predicate FilesAreExplained(root: Path, tarData: Bytes, before: FileSystem, after: FileSystem) {
    forall p :: p in after && after[p].File? && !(p in before && before[p] == after[p]) ==>
      ComesFromHeader(root, tarData, p, after[p].content)
  }

  /** And a pending name is one of the archive's long names. */
  ghost predicate IsExplained(root: Path, tarData: Bytes, before: FileSystem, turn: Turn) {
    FilesAreExplained(root, tarData, before, turn.Files()) &&
    (turn.Continue? && turn.pending.Some? ==> IsLongName(tarData, turn.pending.value))
  }

  /** One header writes at most the file it is marked for. */
  lemma HeaderWrites(root: Path, header: Bytes, data: Bytes, pending: Option<Bytes>, fs: FileSystem, p: Path)
    requires |header| == BLOCK
    ensures var after := ApplyHeader(root, header, data, pending, fs).fs;
            var name := if pending.Some? then pending.value else TarEntryName(header);
            p in after && after[p].File? && !(p in fs && fs[p] == after[p]) ==>
              MarksFile(header) && SafeTarDestination(root, name) == Success(p) && after[p].content == data
  {
    hide TarOctal, TarEntryName, CutAtZero;
    var name := if pending.Some? then pending.value else TarEntryName(header);
    var destination := SafeTarDestination(root, name);
    hide SafeTarDestination;
    if destination.Success? {
      DirectoriesWriteNothing(fs, destination.value, p);
      FileWrites(fs, destination.value, data, TarOctal(header, 100, 8), p);
      hide MakeDirectories, PutFile;
    }
  }

  lemma DirectoriesWriteNothing(fs: FileSystem, destination: Path, p: Path)
    ensures MakeDirectories(fs, destination).Success? ==>
              var after := MakeDirectories(fs, destination).value;
              p in after && after[p].File? ==> p in fs && fs[p] == after[p]
  {
    if MakeDirectories(fs, destination).Success? {
      MakeDirectoriesTouches(fs, destination);
    }
  }

  lemma FileWrites(fs: FileSystem, destination: Path, data: Bytes, mode: Result<int>, p: Path)
    ensures var after := PutFile(fs, destination, data, mode).fs;
            p in after && after[p].File? && !(p in fs && fs[p] == after[p]) ==>
              p == destination && after[p].content == data
  {
    DirectoriesWriteNothing(fs, if destination == [] then [] else destination[..|destination| - 1], p);
    hide MakeDirectories;
  }

  lemma HeaderKeepsName(root: Path, header: Bytes, data: Bytes, pending: Option<Bytes>, fs: FileSystem)
    requires |header| == BLOCK
    ensures var step := ApplyHeader(root, header, data, pending, fs);
            step.Step? && step.pending.Some? ==>
              step.pending == pending || (header[156] == FLAG_LONG_NAME && step.pending.value == CutAtZero(data))
  {
    hide SafeTarDestination, MakeDirectories, WriteFile, TarOctal, TarEntryName;
  }

  lemma TurnIsExplained(root: Path, tarData: Bytes, before: FileSystem, offset: int, pending: Option<Bytes>, fs: FileSystem)
    requires IsExplained(root, tarData, before, Continue(offset, pending, fs))
    ensures IsExplained(root, tarData, before, TurnAt(root, tarData, offset, pending, fs))
  {
    hide IsZeroBlock, TarOctal, ApplyHeader, HeaderAt, Subarray, SafeTarDestination, TarEntryName, Advance, CutAtZero, MarksFile;
    var header := HeaderAt(tarData, offset);
    var field := TarOctal(header, 124, 12);
    if field.Success? {
      var data := Subarray(tarData, offset + BLOCK, offset + BLOCK + field.value);
      var step := ApplyHeader(root, header, data, pending, fs);
      assert Carries(tarData, offset, data);
      HeaderKeepsName(root, header, data, pending, fs);
      forall p | p in step.fs && step.fs[p].File? && !(p in before && before[p] == step.fs[p])
        ensures ComesFromHeader(root, tarData, p, step.fs[p].content)
      {
        HeaderWrites(root, header, data, pending, fs, p);
        if !(p in fs && fs[p] == step.fs[p]) {
          var name := if pending.Some? then pending.value else TarEntryName(header);
          assert IsNameAt(tarData, offset, name);
        }
      }
    }
  }

  /** After any number of turns, also where the loop steps back. */
  lemma {:induction false} LoopIsExplained(root: Path, tarData: Bytes, before: FileSystem, start: Turn, n: nat)
    requires IsExplained(root, tarData, before, start)
    ensures IsExplained(root, tarData, before, Loop(root, tarData, start, n))
  {
    hide IsExplained, TurnAt;
    if n > 0 {
      LoopIsExplained(root, tarData, before, start, n - 1);
      var turn := Loop(root, tarData, start, n - 1);
      if turn.Continue? {
        if turn.offset + BLOCK <= |tarData| {
          TurnIsExplained(root, tarData, before, turn.offset, turn.pending, turn.fs);
        } else {
          EndIsExplained(root, tarData, before, turn.offset, turn.pending, turn.fs);
        }
      }
    }
  }

  lemma EndIsExplained(root: Path, tarData: Bytes, before: FileSystem, offset: int, pending: Option<Bytes>, fs: FileSystem)
    requires IsExplained(root, tarData, before, Continue(offset, pending, fs))
    ensures IsExplained(root, tarData, before, Stop(Extracted(fs)))
  {
    hide ComesFromHeader;
  }

  lemma StartIsExplained(root: Path, tarData: Bytes, fs: FileSystem, made: FileSystem)
    requires MakeDirectories(fs, root) == Success(made)
    ensures IsExplained(root, tarData, fs, Continue(0, None, made))
  {
    hide ComesFromHeader;
    forall p | p in made && made[p].File?
      ensures p in fs && fs[p] == made[p]
    {
      DirectoriesWriteNothing(fs, root, p);
    }
  }

  /**
   However the extraction of any archive ends, each file was there before as it is, or a header flagged as
   a regular file names its path and carries its content.
   */
  lemma FilesComeFromHeaders(root: Path, tarData: Bytes, fs: FileSystem)
    ensures FilesAreExplained(root, tarData, fs, Extract(root, tarData, fs).fs)
  {
    hide MakeDirectories, ExtractFrom, TurnAt, FilesAreExplained, Finish;
    if MakeDirectories(fs, root).Success? {
      var made := MakeDirectories(fs, root).value;
      StartIsExplained(root, tarData, fs, made);
      var n := LoopArrives(root, tarData, 0, None, made);
      LoopIsExplained(root, tarData, fs, Continue(0, None, made), n);
      assert From(tarData, 0) == tarData;
    } else {
      NothingIsExplained(root, tarData, fs);
    }
  }

  lemma NothingIsExplained(root: Path, tarData: Bytes, fs: FileSystem)
    ensures FilesAreExplained(root, tarData, fs, fs)
  {
  }
}
