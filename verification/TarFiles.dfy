/** What one header of an archive does to the disk: what it makes, what it leaves, and when it throws. */
module TarFiles {
  import opened Common
  import opened TarReader

  /** A file stands at a path or above it. */
  ghost predicate IsBlocked(fs: FileSystem, p: Path) {
    exists n :: 0 < n <= |p| && p[..n] in fs && fs[p[..n]].File?
  }

  predicate IsAtOrAbove(q: Path, p: Path) { q != [] && q <= p }

  ghost predicate HasDirectories(fs: FileSystem, made: FileSystem, p: Path) {
    && (forall q :: q in made <==> q in fs || IsAtOrAbove(q, p))
    && (forall q :: q in made ==> made[q] == if IsAtOrAbove(q, p) then Directory else fs[q])
  }

  /** Directories are made all the way down, unless a file is in the way; then nothing changes. */
  lemma {:induction false} MakeDirectoriesIff(fs: FileSystem, p: Path)
    ensures MakeDirectories(fs, p).Failure? <==> IsBlocked(fs, p)
    ensures MakeDirectories(fs, p).Success? ==> HasDirectories(fs, MakeDirectories(fs, p).value, p)
  {
    if p != [] {
      var parent := p[..|p| - 1];
      MakeDirectoriesIff(fs, parent);
      BlockedAbove(fs, p);
      hide IsBlocked;
      forall q
        ensures IsAtOrAbove(q, p) <==> q == p || IsAtOrAbove(q, parent)
      {
        AtOrAboveParent(q, p);
      }
    }
  }

  lemma BlockedAbove(fs: FileSystem, p: Path)
    requires p != []
    ensures IsBlocked(fs, p) <==> IsBlocked(fs, p[..|p| - 1]) || (p in fs && fs[p].File?)
  {
    var parent := p[..|p| - 1];
    assert p[..|p|] == p;
    if n :| 0 < n <= |p| && p[..n] in fs && fs[p[..n]].File? {
      assert n < |p| ==> p[..n] == parent[..n];
    }
    if n :| 0 < n <= |parent| && parent[..n] in fs && fs[parent[..n]].File? {
      assert p[..n] == parent[..n];
    }
  }

  lemma AtOrAboveParent(q: Path, p: Path)
    requires p != []
    ensures IsAtOrAbove(q, p) <==> q == p || IsAtOrAbove(q, p[..|p| - 1])
    ensures IsAtOrAbove(p, p) && !IsAtOrAbove(p, p[..|p| - 1])
  {
    if q <= p && q != p {
      assert |q| < |p|;
    }
  }

  lemma PutDirectoryIff(fs: FileSystem, destination: Path)
    ensures var step := PutDirectory(fs, destination);
            && (step.Thrown? <==> IsBlocked(fs, destination))
            && (if step.Thrown? then step.fs == fs else HasDirectories(fs, step.fs, destination) && step.pending == None)
  {
    MakeDirectoriesIff(fs, destination);
    hide MakeDirectories, HasDirectories, IsBlocked;
  }

  /** No file stands above the destination, and no directory at it. */
  ghost predicate CanWrite(fs: FileSystem, destination: Path) {
    destination != [] && !IsBlocked(fs, destination[..|destination| - 1]) &&
    (destination in fs ==> fs[destination].File?)
  }

  /** The mode field, if it reads as a positive number, else the mode the file had. */
  function ModeAfter(fs: FileSystem, destination: Path, mode: Result<int>): Option<int> {
    if mode.Success? && mode.value > 0 then Some(mode.value)
    else if destination in fs && fs[destination].File? then fs[destination].mode
    else None
  }

  /**
   A file is written with the directories above it, its mode set if the field reads as a positive number; a
   field that does not read throws after the write.
   */
  lemma PutFileIff(fs: FileSystem, destination: Path, content: Bytes, mode: Result<int>)
    ensures var step := PutFile(fs, destination, content, mode);
            && (step.Thrown? <==> !CanWrite(fs, destination) || mode.Failure?)
            && (step.Step? ==> step.pending == None)
            && (CanWrite(fs, destination) ==>
                  && (forall q :: q in step.fs <==> q in fs || IsAtOrAbove(q, destination))
                  && (forall q :: q in step.fs ==>
                        step.fs[q] == if q == destination then File(content, ModeAfter(fs, destination, mode))
                                      else if IsAtOrAbove(q, destination) then Directory else fs[q]))
  {
    if destination != [] {
      var parent := destination[..|destination| - 1];
      MakeDirectoriesIff(fs, parent);
      forall q
        ensures IsAtOrAbove(q, destination) <==> q == destination || IsAtOrAbove(q, parent)
        ensures !IsAtOrAbove(destination, parent)
      {
        AtOrAboveParent(q, destination);
      }
      hide MakeDirectories, IsBlocked, IsAtOrAbove;
    }
  }

  /** The name a header goes by, and what is pending after it. */
  lemma PendingAfter(root: Path, header: Bytes, data: Bytes, pending: Option<Bytes>, fs: FileSystem)
    requires |header| == BLOCK
    ensures var step := ApplyHeader(root, header, data, pending, fs);
            step.Step? ==>
              step.pending == if header[156] == 'L' as byte then Some(CutAtZero(data))
                              else if header[156] == 'x' as byte || header[156] == 'g' as byte then pending
                              else None
  {
    hide MakeDirectories, SafeTarDestination, TarEntryName, TarOctal, CutAtZero;
  }

  /**
   A header throws exactly if it is no long-name or pax header, has a name, and that leads out of the root, or
   to a directory that cannot be made, or to a file that cannot be written or whose mode does not read.
   */
  lemma HeaderThrowsIff(root: Path, header: Bytes, data: Bytes, pending: Option<Bytes>, fs: FileSystem)
    requires |header| == BLOCK
    ensures var flag := header[156] as int as char;
            var name := if pending.Some? then pending.value else TarEntryName(header);
            var destination := SafeTarDestination(root, name);
            ApplyHeader(root, header, data, pending, fs).Thrown? <==>
            && flag !in {'L', 'x', 'g'} && name != []
            && (|| destination.Failure?
                || (flag == '5' && IsBlocked(fs, destination.value))
                || (flag in {'0', '\0'} &&
                    (!CanWrite(fs, destination.value) || TarOctal(header, 100, 8).Failure?)))
  {
    var name := if pending.Some? then pending.value else TarEntryName(header);
    if SafeTarDestination(root, name).Success? {
      PutDirectoryIff(fs, SafeTarDestination(root, name).value);
      PutFileIff(fs, SafeTarDestination(root, name).value, data, TarOctal(header, 100, 8));
    }
    hide PutDirectory, PutFile, SafeTarDestination, TarEntryName, TarOctal, IsBlocked, CanWrite;
  }
}
