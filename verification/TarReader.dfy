/**
 The in-process tar extractor: 512-byte headers, octal fields, GNU long names, and the test
 that keeps every destination below the output directory. POSIX paths.
 */
module TarReader {
  import opened Common

  newtype byte = x: int | 0 <= x < 0x100
  type Bytes = seq<byte>

  const BLOCK: nat := 512
  const SLASH: byte := 0x2F
  const ZERO_DIGIT: byte := 0x30
  const DOT: Bytes := [0x2E]
  const DOT_DOT: Bytes := [0x2E, 0x2E]
  const FLAG_FILE: byte := 0x30
  const FLAG_DIRECTORY: byte := 0x35
  const FLAG_LONG_NAME: byte := 0x4C
  const FLAG_PAX: byte := 0x78
  const FLAG_PAX_GLOBAL: byte := 0x67

  // ---- Header fields ----

  /** The bytes before the first NUL. */
  function CutAtZero(s: Bytes): (r: Bytes)
    ensures r <= s && 0 !in r
  {
    if s == [] || s[0] == 0 then [] else [s[0]] + CutAtZero(s[1..])
  }

  function TarString(block: Bytes, start: nat, length: nat): Bytes
    requires start + length <= |block|
  {
    CutAtZero(block[start..start + length])
  }

  predicate IsSpace(b: byte) { 0x09 <= b <= 0x0D || b == 0x20 }

  function TrimStart(s: Bytes): Bytes {
    if s != [] && IsSpace(s[0]) then TrimStart(s[1..]) else s
  }

  function TrimEnd(s: Bytes): Bytes {
    if s != [] && IsSpace(s[|s| - 1]) then TrimEnd(s[..|s| - 1]) else s
  }

  predicate IsOctalDigit(b: byte) { ZERO_DIGIT <= b < ZERO_DIGIT + 8 }

  function OctalPrefix(s: Bytes): Bytes {
    if s == [] || !IsOctalDigit(s[0]) then [] else [s[0]] + OctalPrefix(s[1..])
  }

  function OctalValue(s: Bytes): (n: int)
    ensures n >= 0
  {
    if s == [] then 0
    else
      var digit := s[|s| - 1] as int - ZERO_DIGIT as int;
      8 * OctalValue(s[..|s| - 1]) + if digit < 0 then 0 else digit
  }

  /** `Number.parseInt(raw, 8)`, with its optional sign; `None` is NaN. */
  function ParseOctal(raw: Bytes): Option<int> {
    var signed := raw != [] && (raw[0] == 0x2B || raw[0] == 0x2D);
    var digits := OctalPrefix(if signed then raw[1..] else raw);
    if digits == [] then None
    else if signed && raw[0] == 0x2D then Some(-(OctalValue(digits) as int))
    else Some(OctalValue(digits))
  }

  function TarOctal(block: Bytes, start: nat, length: nat): Result<int>
    requires start + length <= |block|
  {
    var raw := TrimEnd(TrimStart(TarString(block, start, length)));
    if raw == [] then Success(0)
    else
      match ParseOctal(raw)
      case None => Failure
      case Some(n) => Success(n)
  }

  predicate IsZeroBlock(block: Bytes) {
    forall i :: 0 <= i < |block| ==> block[i] == 0
  }

  function TarEntryName(header: Bytes): Bytes
    requires |header| == BLOCK
  {
    var name := TarString(header, 0, 100);
    var prefix := TarString(header, 345, 155);
    if prefix != [] then prefix + [SLASH] + name else name
  }

  // ---- Destinations ----

  /** An absolute path, as its components. */
  type Path = seq<Bytes>

  function ToSlashes(s: Bytes): (r: Bytes)
    ensures |r| == |s| && 0x5C !in r
    ensures forall i :: 0 <= i < |s| ==> if s[i] == 0x5C then r[i] == 0x2F else r[i] == s[i]
  {
    seq(|s|, i requires 0 <= i < |s| => if s[i] == 0x5C then SLASH else s[i])
  }

  function Split(s: Bytes): (parts: seq<Bytes>)
    ensures parts != [] && forall i :: 0 <= i < |parts| ==> SLASH !in parts[i]
  {
    if s == [] then [[]]
    else
      var rest := Split(s[1..]);
      if s[0] == SLASH then [[]] + rest else [[s[0]] + rest[0]] + rest[1..]
  }

  /** `path.resolve` from an absolute directory, one component at a time. */
  function Resolve(dir: Path, parts: seq<Bytes>): Path
    decreases |parts|
  {
    if parts == [] then dir
    else
      var part := parts[0];
      var next :=
        if part == [] || part == DOT then dir
        else if part == DOT_DOT then if dir == [] then dir else dir[..|dir| - 1]
        else dir + [part];
      Resolve(next, parts[1..])
  }

  predicate IsPlainName(part: Bytes) { part != [] && part != DOT && part != DOT_DOT }

  /** Plain names go below the directory, in order. */
  lemma {:induction false} PlainNamesResolve(dir: Path, parts: seq<Bytes>)
    requires forall part :: part in parts ==> IsPlainName(part)
    ensures Resolve(dir, parts) == dir + parts
    decreases |parts|
  {
    if parts == [] {
      assert dir + parts == dir;
    } else {
      assert parts[0] in parts;
      PlainNamesResolve(dir + [parts[0]], parts[1..]);
      assert dir + [parts[0]] + parts[1..] == dir + parts;
    }
  }

  /** What comes later resolves from where the first parts lead. */
  lemma {:induction false} ResolveInSteps(dir: Path, a: seq<Bytes>, b: seq<Bytes>)
    ensures Resolve(dir, a + b) == Resolve(Resolve(dir, a), b)
    decreases |a|
  {
    if a == [] {
      assert a + b == b;
    } else {
      assert (a + b)[1..] == a[1..] + b;
      var part := a[0];
      var next :=
        if part == [] || part == DOT then dir
        else if part == DOT_DOT then if dir == [] then dir else dir[..|dir| - 1]
        else dir + [part];
      ResolveInSteps(next, a[1..], b);
    }
  }

  /** Empty and dot components go nowhere, and `..` undoes the component before it. */
  lemma SpecialNamesResolve(dir: Path, a: seq<Bytes>, part: Bytes, b: seq<Bytes>)
    ensures Resolve(dir, a + [[]] + b) == Resolve(dir, a + [DOT] + b) == Resolve(dir, a + b)
    ensures IsPlainName(part) ==> Resolve(dir, a + [part, DOT_DOT] + b) == Resolve(dir, a + b)
    ensures Resolve([], [DOT_DOT] + b) == Resolve([], b)
  {
    var here := Resolve(dir, a);
    ResolveInSteps(dir, a, b);
    ResolveInSteps(dir, a + [[]], b);
    ResolveInSteps(dir, a, [[]]);
    ResolveInSteps(dir, a + [DOT], b);
    ResolveInSteps(dir, a, [DOT]);
    ResolveInSteps(dir, a + [part, DOT_DOT], b);
    ResolveInSteps(dir, a, [part, DOT_DOT]);
    ResolveInSteps([], [DOT_DOT], b);
    OneStep(here, part);
  }

  lemma OneStep(dir: Path, part: Bytes)
    ensures Resolve(dir, [[]]) == dir && Resolve(dir, [DOT]) == dir && Resolve([], [DOT_DOT]) == []
    ensures IsPlainName(part) ==> Resolve(dir, [part, DOT_DOT]) == dir
  {
    if IsPlainName(part) {
      var below := dir + [part];
      assert below[..|below| - 1] == dir;
      assert [part, DOT_DOT][1..] == [DOT_DOT] && [DOT_DOT][1..] == [];
      assert Resolve(below, [DOT_DOT]) == dir;
    }
  }

  function Joined(p: Path): Bytes {
    if p == [] then [] else [SLASH] + (p[0] + Joined(p[1..]))
  }

  /** The text of an absolute path. */
  function PathText(p: Path): Bytes {
    if p == [] then [SLASH] else Joined(p)
  }

  predicate IsProperPath(p: Path) {
    forall i :: 0 <= i < |p| ==> p[i] != [] && SLASH !in p[i]
  }

  /** The prefix test as written: on the texts, with a separator after the root. */
  predicate PassesPrefixTest(root: Path, destination: Path) {
    PathText(destination) == PathText(root) || PathText(root) + [SLASH] <= PathText(destination)
  }

  function SafeTarDestination(root: Path, entryName: Bytes): Result<Path> {
    var name := ToSlashes(entryName);
    if name == [] || name[0] == SLASH then Failure
    else
      var destination := Resolve(root, Split(name));
      if PassesPrefixTest(root, destination) then Success(destination) else Failure
  }

  lemma {:induction false} ResolveIsProper(dir: Path, parts: seq<Bytes>)
    requires IsProperPath(dir) && forall i :: 0 <= i < |parts| ==> SLASH !in parts[i]
    ensures IsProperPath(Resolve(dir, parts))
    decreases |parts|
  {
    if parts != [] {
      var part := parts[0];
      var next :=
        if part == [] || part == DOT then dir
        else if part == DOT_DOT then if dir == [] then dir else dir[..|dir| - 1]
        else dir + [part];
      ResolveIsProper(next, parts[1..]);
    }
  }

  lemma AppendHead(x: Bytes, rest: Bytes)
    requires x != []
    ensures x + rest != [] && (x + rest)[0] == x[0] && (x + rest)[1..] == x[1..] + rest
  {
  }

  /** A component ends at the first separator. */
  lemma {:induction false} FirstComponent(x: Bytes, r: Bytes, y: Bytes, s: Bytes)
    requires SLASH !in x && SLASH !in y && x + r == y + s
    requires (r == [] || r[0] == SLASH) && (s == [] || s[0] == SLASH)
    ensures x == y && r == s
  {
    if x != [] {
      AppendHead(x, r);
    }
    if y != [] {
      AppendHead(y, s);
    }
    if x != [] && y != [] {
      FirstComponent(x[1..], r, y[1..], s);
      assert x == [x[0]] + x[1..] && y == [y[0]] + y[1..];
    } else {
      assert [] + r == r && [] + s == s;
    }
  }

  /** Proper components can be read back from the text. */
  lemma {:induction false} JoinedPrefix(p: Path, q: Path, tail: Bytes)
    requires IsProperPath(p) && IsProperPath(q) && (tail == [] || tail[0] == SLASH)
    requires Joined(p) + tail == Joined(q)
    ensures p <= q && (tail == [] ==> p == q)
    decreases |p|
  {
    if p == [] {
      assert Joined(p) + tail == tail;
      assert q != [] ==> |Joined(q)| > 0;
    } else {
      assert |Joined(p)| > 0;
      var r, s := Joined(p[1..]) + tail, Joined(q[1..]);
      assert Joined(p) + tail == [SLASH] + (p[0] + r);
      assert Joined(q) == [SLASH] + (q[0] + s);
      assert ([SLASH] + (p[0] + r))[1..] == p[0] + r;
      assert ([SLASH] + (q[0] + s))[1..] == q[0] + s;
      FirstComponent(p[0], r, q[0], s);
      JoinedPrefix(p[1..], q[1..], tail);
      assert p == [p[0]] + p[1..] && q == [q[0]] + q[1..];
    }
  }

  lemma Associates(a: Bytes, b: Bytes, c: Bytes, d: Bytes)
    ensures a + (b + (c + d)) == a + (b + c) + d
  {
  }

  lemma {:induction false} JoinedAppend(p: Path, q: Path)
    ensures Joined(p + q) == Joined(p) + Joined(q)
  {
    if p == [] {
      assert p + q == q;
    } else {
      JoinedAppend(p[1..], q);
      assert (p + q)[1..] == p[1..] + q;
      Associates([SLASH], p[0], Joined(p[1..]), Joined(q));
    }
  }

  /** The text test is the component test, except below `/`, where only `/` itself passes. */
  lemma PrefixTestIsComponentwise(root: Path, destination: Path)
    requires IsProperPath(root) && IsProperPath(destination)
    ensures PassesPrefixTest(root, destination) <==> if root == [] then destination == [] else root <= destination
  {
    var rt, dt := PathText(root), PathText(destination);
    if root == [] {
      if destination != [] {
        assert dt == [SLASH] + (destination[0] + Joined(destination[1..]));
        assert dt[1] == destination[0][0];
      }
    } else {
      if rt + [SLASH] <= dt || rt == dt {
        var tail := dt[|rt|..];
        assert Joined(root) + tail == dt;
        assert destination != [] by { assert |root[0]| > 0; }
        JoinedPrefix(root, destination, tail);
      }
      if root <= destination {
        var more := destination[|root|..];
        assert destination == root + more;
        JoinedAppend(root, more);
        if more != [] {
          assert Joined(more)[0] == SLASH;
          assert dt[..|rt| + 1] == rt + [SLASH];
        } else {
          assert destination == root;
        }
      }
    }
  }

  /** Every accepted destination is at or below the root, and every such entry is accepted. */
  lemma DestinationIsBelowRoot(root: Path, entryName: Bytes)
    requires IsProperPath(root) && root != []
    ensures var name := ToSlashes(entryName);
            SafeTarDestination(root, entryName) ==
            if name != [] && name[0] != SLASH && root <= Resolve(root, Split(name))
            then Success(Resolve(root, Split(name))) else Failure
  {
    var name := ToSlashes(entryName);
    ResolveIsProper(root, Split(name));
    PrefixTestIsComponentwise(root, Resolve(root, Split(name)));
  }

  // ---- The file system ----

  datatype Node = Directory | File(content: Bytes, mode: Option<int>)
  type FileSystem = map<Path, Node>

  /** `mkdirSync(p, { recursive: true })`: fails where a file stands in the way. */
  function MakeDirectories(fs: FileSystem, p: Path): Result<FileSystem> {
    if p == [] then Success(fs)
    else
      match MakeDirectories(fs, p[..|p| - 1])
      case Failure => Failure
      case Success(above) =>
        if p in above && above[p].File? then Failure else Success(above[p := Directory])
  }

  /** `writeFileSync`: fails on a directory, keeps the mode of a file it overwrites. */
  function WriteFile(fs: FileSystem, p: Path, content: Bytes): Result<FileSystem> {
    if p == [] || (p in fs && fs[p].Directory?) then Failure
    else Success(fs[p := File(content, if p in fs then fs[p].mode else None)])
  }

  function ChangeMode(fs: FileSystem, p: Path, mode: int): FileSystem
    requires p in fs && fs[p].File?
  {
    if mode > 0 then fs[p := fs[p].(mode := Some(mode))] else fs
  }

  // ---- One header ----

  /** How far the loop moves past a header whose size field is `size`. */
  function Advance(size: int): int {
    BLOCK + (size + BLOCK - 1) / BLOCK * BLOCK
  }

  /** The loop moves by a multiple of a block, and forward exactly when the size is above -512. */
  lemma AdvanceIsForwardIff(size: int)
    ensures Advance(size) % BLOCK == 0
    ensures Advance(size) > 0 <==> size > -512
    ensures size >= 0 ==> Advance(size) >= BLOCK + size
  {
    var blocks := (size + BLOCK - 1) / BLOCK;
    assert Advance(size) == (blocks + 1) * BLOCK;
  }

  /** An unsigned octal field never reads as a negative size. */
  lemma UnsignedFieldIsNatural(block: Bytes, start: nat, length: nat)
    requires start + length <= |block|
    requires var raw := TrimEnd(TrimStart(TarString(block, start, length))); raw == [] || raw[0] != 0x2D
    ensures TarOctal(block, start, length).Success? ==> TarOctal(block, start, length).value >= 0
  {
  }

  /** The state after one header, or the files as they are when an error is thrown. */
  datatype Step = Step(pending: Option<Bytes>, fs: FileSystem) | Thrown(fs: FileSystem)

  /** What one header with its data does to the pending name and the files. */
  function ApplyHeader(root: Path, header: Bytes, data: Bytes, pending: Option<Bytes>, fs: FileSystem): Step
    requires |header| == BLOCK
  {
    var flag := header[156];
    if flag == FLAG_LONG_NAME then Step(Some(CutAtZero(data)), fs)
    else if flag == FLAG_PAX || flag == FLAG_PAX_GLOBAL then Step(pending, fs)
    else
      var name := if pending.Some? then pending.value else TarEntryName(header);
      if name == [] then Step(None, fs)
      else
        match SafeTarDestination(root, name)
        case Failure => Thrown(fs)
        case Success(destination) =>
          if flag == FLAG_DIRECTORY then PutDirectory(fs, destination)
          else if flag != FLAG_FILE && flag != 0 then Step(None, fs)
          else PutFile(fs, destination, data, TarOctal(header, 100, 8))
  }

  function PutDirectory(fs: FileSystem, destination: Path): Step {
    match MakeDirectories(fs, destination)
    case Failure => Thrown(fs)
    case Success(made) => Step(None, made)
  }

  /** Create the parent directories, write the file, then set its mode; an error leaves what was done. */
  function PutFile(fs: FileSystem, destination: Path, content: Bytes, mode: Result<int>): Step {
    var parent := if destination == [] then [] else destination[..|destination| - 1];
    match MakeDirectories(fs, parent)
    case Failure => Thrown(fs)
    case Success(made) =>
      match WriteFile(made, destination, content)
      case Failure => Thrown(made)
      case Success(written) =>
        if mode.Failure? then Thrown(written) else Step(None, ChangeMode(written, destination, mode.value))
  }

  // ---- The loop ----

  /**
   How an extraction ends: at the end of the archive, with an error, or at a header whose size field
   makes the offset stay or go back. `SignedSize` is that header before it is applied, with the number
   of bytes left; `Backward` is the loop's state after it.
   */
  datatype Outcome =
    | Extracted(fs: FileSystem)
    | Failed(fs: FileSystem)
    | SignedSize(remaining: nat, pending: Option<Bytes>, fs: FileSystem)
    | Backward(offset: int, pending: Option<Bytes>, fs: FileSystem)

  /** Extracting what remains of the archive, up to the first header that does not move forward. */
  function ExtractFrom(root: Path, rest: Bytes, pending: Option<Bytes>, fs: FileSystem): Outcome
    decreases |rest|
  {
    if |rest| < BLOCK then Extracted(fs)
    else
      var header := rest[..BLOCK];
      if IsZeroBlock(header) then Extracted(fs)
      else
        match TarOctal(header, 124, 12)
        case Failure => Failed(fs)
        case Success(size) =>
          if BLOCK + size > |rest| then Failed(fs)
          else if size <= -512 then SignedSize(|rest|, pending, fs)
          else
            var data := if size > 0 then rest[BLOCK..BLOCK + size] else [];
            var step := ApplyHeader(root, header, data, pending, fs);
            if step.Thrown? then Failed(step.fs)
            else
              AdvanceIsForwardIff(size);
              var move := Advance(size);
              ExtractFrom(root, if move <= |rest| then rest[move..] else [], step.pending, step.fs)
  }

  /** What follows a header: the error it threw, or the rest of the archive. */
  function GoOn(root: Path, rest: Bytes, step: Step): Outcome {
    if step.Thrown? then Failed(step.fs) else ExtractFrom(root, rest, step.pending, step.fs)
  }

  function From(tarData: Bytes, offset: int): Bytes {
    if 0 <= offset <= |tarData| then tarData[offset..] else []
  }

  /** Where an index of `subarray` falls: a negative one counts from the end. */
  function Position(length: nat, i: int): (at: nat)
    ensures at <= length
  {
    if i >= 0 then Min(i, length) else if length + i >= 0 then length + i else 0
  }

  function Subarray(data: Bytes, start: int, end: int): Bytes {
    var from, to := Position(|data|, start), Position(|data|, end);
    if from < to then data[from..to] else []
  }

  /**
   The header block at any offset. One cut short at a negative offset reads as if filled up with
   zeros: its text fields end with it, and a missing flag counts as NUL.
   */
  function HeaderAt(tarData: Bytes, offset: int): (header: Bytes)
    ensures |header| == BLOCK
    ensures 0 <= offset && offset + BLOCK <= |tarData| ==> header == tarData[offset..offset + BLOCK]
  {
    var block := Subarray(tarData, offset, offset + BLOCK);
    if |block| >= BLOCK then block[..BLOCK] else block + seq(BLOCK - |block|, _ => 0)
  }

  /** A turn ends the loop or moves the offset, forward or not. */
  datatype Turn = Stop(outcome: Outcome) | Continue(offset: int, pending: Option<Bytes>, fs: FileSystem) {
    function Files(): FileSystem { if Stop? then outcome.fs else fs }
  }

  /** One turn of the loop, in terms of the offset into the whole archive, which may have become negative. */
  function TurnAt(root: Path, tarData: Bytes, offset: int, pending: Option<Bytes>, fs: FileSystem): Turn {
    var header := HeaderAt(tarData, offset);
    if IsZeroBlock(header) then Stop(Extracted(fs))
    else
      match TarOctal(header, 124, 12)
      case Failure => Stop(Failed(fs))
      case Success(size) =>
        if offset + BLOCK + size > |tarData| then Stop(Failed(fs))
        else
          var data := Subarray(tarData, offset + BLOCK, offset + BLOCK + size);
          var step := ApplyHeader(root, header, data, pending, fs);
          if step.Thrown? then Stop(Failed(step.fs)) else Continue(offset + Advance(size), step.pending, step.fs)
  }

  /** A header that does not move forward, applied where it stands. */
  function Finish(root: Path, tarData: Bytes, o: Outcome): Outcome {
    if o.SignedSize? && BLOCK <= o.remaining <= |tarData| then
      match TurnAt(root, tarData, |tarData| - o.remaining, o.pending, o.fs)
      case Stop(outcome) => outcome
      case Continue(offset, pending, fs) => Backward(offset, pending, fs)
    else o
  }

  function Extract(root: Path, tarData: Bytes, fs: FileSystem): Outcome {
    match MakeDirectories(fs, root)
    case Failure => Failed(fs)
    case Success(made) => Finish(root, tarData, ExtractFrom(root, tarData, None, made))
  }

  /** What is still to come after a turn that began at `offset`. */
  function AfterTurn(root: Path, tarData: Bytes, offset: int, turn: Turn): Outcome {
    match turn
    case Stop(outcome) => outcome
    case Continue(next, pending, fs) =>
      if next > offset then Finish(root, tarData, ExtractFrom(root, From(tarData, next), pending, fs))
      else Backward(next, pending, fs)
  }

  lemma ExtractAt(root: Path, tarData: Bytes, offset: nat, pending: Option<Bytes>, fs: FileSystem)
    requires offset + BLOCK <= |tarData|
    ensures Finish(root, tarData, ExtractFrom(root, From(tarData, offset), pending, fs)) ==
            AfterTurn(root, tarData, offset, TurnAt(root, tarData, offset, pending, fs))
  {
    hide IsZeroBlock, TarOctal, ApplyHeader, Advance, HeaderAt, Subarray;
    var rest := tarData[offset..];
    var header := HeaderAt(tarData, offset);
    assert rest[..BLOCK] == header;
    var field := TarOctal(header, 124, 12);
    if field.Success? {
      var size := field.value;
      AdvanceIsForwardIff(size);
      if -512 < size <= |rest| - BLOCK {
        var move := Advance(size);
        SubarrayAhead(tarData, offset, size);
        assert move <= |rest| ==> rest[move..] == tarData[offset + move..];
      }
    }
  }

  lemma SubarrayAhead(tarData: Bytes, offset: nat, size: int)
    requires -512 < size && offset + BLOCK + size <= |tarData| && offset + BLOCK <= |tarData|
    ensures Subarray(tarData, offset + BLOCK, offset + BLOCK + size) ==
            if size > 0 then tarData[offset..][BLOCK..BLOCK + size] else []
  {
  }

  lemma ExtractAtEnd(root: Path, tarData: Bytes, offset: nat, pending: Option<Bytes>, fs: FileSystem)
    requires offset + BLOCK > |tarData|
    ensures ExtractFrom(root, From(tarData, offset), pending, fs) == Extracted(fs)
  {
  }

  method ReadEntry(root: Path, tarData: Bytes, start: int, pending: Option<Bytes>, fs: FileSystem) returns (turn: Turn)
    ensures turn == TurnAt(root, tarData, start, pending, fs)
  {
    hide IsZeroBlock, TarOctal, ApplyHeader, HeaderAt, Subarray;
    var offset := start;
    var header := HeaderAt(tarData, offset);
    offset := offset + BLOCK;
    if IsZeroBlock(header) {
      return Stop(Extracted(fs));
    }
    var field := TarOctal(header, 124, 12);
    if field.Failure? {
      return Stop(Failed(fs));
    }
    var size := field.value;
    if offset + size > |tarData| {
      return Stop(Failed(fs));
    }
    var data := Subarray(tarData, offset, offset + size);
    offset := offset + (size + BLOCK - 1) / BLOCK * BLOCK;
    match ApplyHeader(root, header, data, pending, fs)
    case Thrown(left) => return Stop(Failed(left));
    case Step(name, files) => return Continue(offset, name, files);
  }

  method ExtractTarBuffer(root: Path, tarData: Bytes, before: FileSystem) returns (r: Outcome)
    ensures r == Extract(root, tarData, before)
  {
    var made := MakeDirectories(before, root);
    if made.Failure? {
      return Failed(before);
    }
    var fs := made.value;
    var offset := 0;
    var pendingLongName: Option<Bytes> := None;
    assert From(tarData, 0) == tarData;
    hide ExtractFrom, From, TurnAt, Finish;
    while offset + BLOCK <= |tarData|
      invariant offset >= 0
      invariant Finish(root, tarData, ExtractFrom(root, tarData, None, made.value)) ==
                Finish(root, tarData, ExtractFrom(root, From(tarData, offset), pendingLongName, fs))
      decreases |tarData| - offset
    {
      ExtractAt(root, tarData, offset, pendingLongName, fs);
      var turn := ReadEntry(root, tarData, offset, pendingLongName, fs);
      match turn
      case Stop(outcome) => return outcome;
      case Continue(next, pending, files) =>
        if next <= offset {
          return Backward(next, pending, files);
        }
        offset, pendingLongName, fs := next, pending, files;
    }
    ExtractAtEnd(root, tarData, offset, pendingLongName, fs);
    FinishExtracted(root, tarData, fs);
    return Extracted(fs);
  }

  lemma FinishExtracted(root: Path, tarData: Bytes, fs: FileSystem)
    ensures Finish(root, tarData, Extracted(fs)) == Extracted(fs)
  {
  }

  // ---- Nothing is written outside the root ----

  /**
   What is not at or below the root is as it was, apart from new directories above the root, and nothing
   that was there is gone.
   */
  ghost predicate OnlyBelow(root: Path, before: FileSystem, after: FileSystem) {
    (forall p :: p in after ==>
       (p in before && after[p] == before[p]) || root <= p || (p <= root && after[p].Directory?)) &&
    (forall p :: p in before ==> p in after && (root <= p || after[p] == before[p]))
  }

  lemma {:induction false} MakeDirectoriesTouches(fs: FileSystem, p: Path)
    requires MakeDirectories(fs, p).Success?
    ensures var made := MakeDirectories(fs, p).value;
            && (forall q :: q in made ==> (q in fs && made[q] == fs[q]) || (q <= p && made[q].Directory?))
            && (forall q :: q in fs ==> q in made && made[q] == fs[q])
            && (p != [] ==> p in made && made[p].Directory?)
    decreases |p|
  {
    if p != [] {
      MakeDirectoriesTouches(fs, p[..|p| - 1]);
    }
  }

  lemma PrefixesCompare(root: Path, q: Path, p: Path)
    requires root <= p && q <= p
    ensures root <= q || q <= root
  {
  }

  lemma ApplyHeaderStaysBelow(root: Path, header: Bytes, data: Bytes, pending: Option<Bytes>, fs: FileSystem)
    requires |header| == BLOCK && IsProperPath(root) && root != []
    ensures OnlyBelow(root, fs, ApplyHeader(root, header, data, pending, fs).fs)
  {
    hide TarOctal, TarEntryName, CutAtZero, SafeTarDestination;
    var name := if pending.Some? then pending.value else TarEntryName(header);
    DestinationIsBelowRoot(root, name);
    var destination := SafeTarDestination(root, name);
    if destination.Success? {
      MakesBelow(root, fs, destination.value);
      PutsBelow(root, fs, destination.value, data, TarOctal(header, 100, 8));
      hide PutFile, MakeDirectories;
    }
  }

  lemma MakesBelow(root: Path, fs: FileSystem, destination: Path)
    requires root <= destination
    ensures MakeDirectories(fs, destination).Success? ==>
            OnlyBelow(root, fs, MakeDirectories(fs, destination).value)
  {
    if MakeDirectories(fs, destination).Success? {
      MakeDirectoriesTouches(fs, destination);
      var made := MakeDirectories(fs, destination).value;
      forall q | q in made && q <= destination ensures root <= q || q <= root {
        PrefixesCompare(root, q, destination);
      }
    }
  }

  lemma PutsBelow(root: Path, fs: FileSystem, destination: Path, content: Bytes, mode: Result<int>)
    requires root <= destination && root != []
    ensures OnlyBelow(root, fs, PutFile(fs, destination, content, mode).fs)
  {
    var parent := destination[..|destination| - 1];
    if MakeDirectories(fs, parent).Success? {
      MakeDirectoriesTouches(fs, parent);
      var made := MakeDirectories(fs, parent).value;
      forall q | q in made && q <= parent ensures root <= q || q <= root {
        PrefixesCompare(root, q, destination);
      }
    }
    hide MakeDirectories;
  }

  lemma BelowTwice(root: Path, a: FileSystem, b: FileSystem, c: FileSystem)
    requires OnlyBelow(root, a, b) && OnlyBelow(root, b, c)
    ensures OnlyBelow(root, a, c)
  {
  }

  lemma {:induction false} ExtractFromStaysBelow(root: Path, rest: Bytes, pending: Option<Bytes>, fs: FileSystem)
    requires IsProperPath(root) && root != []
    ensures OnlyBelow(root, fs, ExtractFrom(root, rest, pending, fs).fs)
    decreases |rest|
  {
    hide IsZeroBlock, TarOctal, ApplyHeader, Advance;
    if |rest| >= BLOCK && !IsZeroBlock(rest[..BLOCK]) {
      var header := rest[..BLOCK];
      var field := TarOctal(header, 124, 12);
      if field.Success? && -512 < field.value <= |rest| - BLOCK {
        var size := field.value;
        var data := if size > 0 then rest[BLOCK..BLOCK + size] else [];
        ApplyHeaderStaysBelow(root, header, data, pending, fs);
        var step := ApplyHeader(root, header, data, pending, fs);
        if step.Step? {
          AdvanceIsForwardIff(size);
          var move := Advance(size);
          var after := if move <= |rest| then rest[move..] else [];
          ExtractFromStaysBelow(root, after, step.pending, step.fs);
          BelowTwice(root, fs, step.fs, ExtractFrom(root, after, step.pending, step.fs).fs);
        }
      }
    }
  }

  lemma TurnStaysBelow(root: Path, tarData: Bytes, offset: int, pending: Option<Bytes>, fs: FileSystem)
    requires IsProperPath(root) && root != []
    ensures OnlyBelow(root, fs, TurnAt(root, tarData, offset, pending, fs).Files())
  {
    NothingChanged(root, fs);
    hide IsZeroBlock, TarOctal, ApplyHeader, Advance, Subarray, HeaderAt, OnlyBelow;
    var header := HeaderAt(tarData, offset);
    var field := TarOctal(header, 124, 12);
    if field.Success? && offset + BLOCK + field.value <= |tarData| {
      ApplyHeaderStaysBelow(root, header, Subarray(tarData, offset + BLOCK, offset + BLOCK + field.value), pending, fs);
    }
  }

  /**
   Whatever the archive holds and however its extraction ends, an error included, nothing outside the
   output directory has changed.
   */
  lemma ExtractStaysBelow(root: Path, tarData: Bytes, fs: FileSystem)
    requires IsProperPath(root) && root != []
    ensures OnlyBelow(root, fs, Extract(root, tarData, fs).fs)
  {
    MakesBelow(root, fs, root);
    hide MakeDirectories, ExtractFrom, OnlyBelow, TurnAt;
    if MakeDirectories(fs, root).Success? {
      var made := MakeDirectories(fs, root).value;
      var o := ExtractFrom(root, tarData, None, made);
      ExtractFromStaysBelow(root, tarData, None, made);
      BelowTwice(root, fs, made, o.fs);
      if o.SignedSize? && BLOCK <= o.remaining <= |tarData| {
        TurnStaysBelow(root, tarData, |tarData| - o.remaining, o.pending, o.fs);
        BelowTwice(root, fs, o.fs, Finish(root, tarData, o).fs);
      }
    } else {
      NothingChanged(root, fs);
    }
  }

  lemma NothingChanged(root: Path, fs: FileSystem)
    ensures OnlyBelow(root, fs, fs)
  {
  }

  // ---- The loop turn by turn, where it steps back too ----

  /** The loop after `n` turns. */
  function Loop(root: Path, tarData: Bytes, start: Turn, n: nat): Turn {
    if n == 0 then start
    else
      var before := Loop(root, tarData, start, n - 1);
      match before
      case Stop(_) => before
      case Continue(offset, pending, fs) =>
        if offset + BLOCK > |tarData| then Stop(Extracted(fs)) else TurnAt(root, tarData, offset, pending, fs)
  }

  lemma {:induction false} LoopOn(root: Path, tarData: Bytes, start: Turn, m: nat, n: nat)
    ensures Loop(root, tarData, start, m + n) == Loop(root, tarData, Loop(root, tarData, start, m), n)
  {
    hide TurnAt;
    if n > 0 {
      LoopOn(root, tarData, start, m, n - 1);
    }
  }

  lemma {:induction false} LoopStaysBelow(root: Path, tarData: Bytes, start: Turn, n: nat)
    requires IsProperPath(root) && root != []
    ensures OnlyBelow(root, start.Files(), Loop(root, tarData, start, n).Files())
  {
    hide OnlyBelow, TurnAt;
    NothingChanged(root, start.Files());
    if n > 0 {
      LoopStaysBelow(root, tarData, start, n - 1);
      var before := Loop(root, tarData, start, n - 1);
      if before.Continue? && before.offset + BLOCK <= |tarData| {
        TurnStaysBelow(root, tarData, before.offset, before.pending, before.fs);
        BelowTwice(root, start.Files(), before.fs, Loop(root, tarData, start, n).Files());
      }
    }
  }

  /** After any number of turns, forward or back, nothing outside the output directory has changed. */
  lemma EveryTurnStaysBelow(root: Path, tarData: Bytes, fs: FileSystem, n: nat)
    requires IsProperPath(root) && root != [] && MakeDirectories(fs, root).Success?
    ensures OnlyBelow(root, fs, Loop(root, tarData, Continue(0, None, MakeDirectories(fs, root).value), n).Files())
  {
    hide MakeDirectories, OnlyBelow, TurnAt, Loop;
    MakesBelow(root, fs, root);
    var start := Continue(0, None, MakeDirectories(fs, root).value);
    LoopStaysBelow(root, tarData, start, n);
    BelowTwice(root, fs, start.fs, Loop(root, tarData, start, n).Files());
  }

  /** Where the loop stands at an outcome: ended, or at an offset it stepped back to. */
  predicate Arrives(turn: Turn, o: Outcome) {
    match o
    case Backward(offset, pending, fs) => turn == Continue(offset, pending, fs)
    case _ => turn == Stop(o)
  }

  /** One turn on, from an offset. */
  lemma OneTurn(root: Path, tarData: Bytes, offset: int, pending: Option<Bytes>, fs: FileSystem)
    ensures Loop(root, tarData, Continue(offset, pending, fs), 1) ==
            if offset + BLOCK > |tarData| then Stop(Extracted(fs)) else TurnAt(root, tarData, offset, pending, fs)
  {
    hide TurnAt;
    assert Loop(root, tarData, Continue(offset, pending, fs), 0) == Continue(offset, pending, fs);
  }

  /** The loop gets to the outcome that the specification names. */
  lemma {:induction false} LoopArrives(root: Path, tarData: Bytes, offset: nat, pending: Option<Bytes>, fs: FileSystem)
    returns (n: nat)
    ensures Arrives(Loop(root, tarData, Continue(offset, pending, fs), n),
                    Finish(root, tarData, ExtractFrom(root, From(tarData, offset), pending, fs)))
    decreases |tarData| + BLOCK - offset
  {
    hide ExtractFrom, From, Finish, TurnAt, Loop;
    OneTurn(root, tarData, offset, pending, fs);
    n := 1;
    if offset + BLOCK > |tarData| {
      ExtractAtEnd(root, tarData, offset, pending, fs);
      FinishExtracted(root, tarData, fs);
    } else {
      ExtractAt(root, tarData, offset, pending, fs);
      TurnOutcome(root, tarData, offset, pending, fs);
      var turn := TurnAt(root, tarData, offset, pending, fs);
      if turn.Continue? && turn.offset > offset {
        var more := LoopArrives(root, tarData, turn.offset, turn.pending, turn.fs);
        n := 1 + more;
        LoopOn(root, tarData, Continue(offset, pending, fs), 1, more);
      }
    }
  }

  lemma TurnOutcome(root: Path, tarData: Bytes, offset: int, pending: Option<Bytes>, fs: FileSystem)
    ensures var turn := TurnAt(root, tarData, offset, pending, fs);
            turn.Stop? ==> turn.outcome.Extracted? || turn.outcome.Failed?
  {
    hide IsZeroBlock, TarOctal, ApplyHeader, HeaderAt, Subarray, Advance;
  }
}
