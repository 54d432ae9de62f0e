/**
 A reference writer of the ustar Interchange Format with GNU long names and pax headers, and what the
 extractor makes of its archives.
 */
module TarWriter {
  import opened Common
  import opened TarReader

  // ---- A reference writer ----

  /** How a name is stored: in the name field, split over prefix and name, or as a GNU long name. */
  datatype NameForm = Plain | SplitAt(k: nat) | LongName

  /** A pax header, of this file or of all that follow; the reader passes over it. */
  datatype Pax = Pax(global: bool, data: Bytes, other: Bytes)

  /**
   One entry with the pax headers written before its own. `other` supplies every header byte the reader
   does not look at; `nulFlag` is the old way to mark a regular file. An `OtherEntry` is a link, a device,
   a fifo or anything else that is neither file nor directory.
   */
  datatype TarEntry =
    | FileEntry(name: Bytes, form: NameForm, pax: seq<Pax>, content: Bytes, mode: nat, nulFlag: bool, other: Bytes)
    | DirectoryEntry(name: Bytes, form: NameForm, pax: seq<Pax>, other: Bytes)
    | OtherEntry(name: Bytes, form: NameForm, pax: seq<Pax>, data: Bytes, mode: nat, flag: byte, other: Bytes)

  /** `n` in exactly `width` octal digits. */
  function Octal(n: nat, width: nat): (s: Bytes)
    ensures |s| == width && forall i :: 0 <= i < |s| ==> IsOctalDigit(s[i])
  {
    if width == 0 then [] else Octal(n / 8, width - 1) + [ZERO_DIGIT + (n % 8) as byte]
  }

  function Pow8(width: nat): nat {
    if width == 0 then 1 else 8 * Pow8(width - 1)
  }

  /** Byte `i` of a NUL-padded field. */
  function Padded(field: Bytes, i: nat): byte {
    if i < |field| then field[i] else 0
  }

  function HeaderByte(name: Bytes, prefix: Bytes, mode: nat, size: nat, flag: byte, other: Bytes, i: nat): byte
    requires i < BLOCK <= |other|
  {
    if i < 100 then Padded(name, i)
    else if 100 <= i < 108 then Padded(Octal(mode, 7), i - 100)
    else if 124 <= i < 136 then Padded(Octal(size, 11), i - 124)
    else if i == 156 then flag
    else if 345 <= i < 500 then Padded(prefix, i - 345)
    else other[i]
  }

  function Header(name: Bytes, prefix: Bytes, mode: nat, size: nat, flag: byte, other: Bytes): (header: Bytes)
    requires |other| == BLOCK
    ensures |header| == BLOCK
  {
    seq(BLOCK, i requires 0 <= i < BLOCK => HeaderByte(name, prefix, mode, size, flag, other, i))
  }

  /** Data, padded with NULs to whole blocks. */
  function Blocks(data: Bytes): Bytes {
    data + seq((BLOCK - |data| % BLOCK) % BLOCK, _ => 0)
  }

  function DataOf(e: TarEntry): Bytes {
    match e
    case FileEntry(_, _, _, content, _, _, _) => content
    case DirectoryEntry(_, _, _, _) => []
    case OtherEntry(_, _, _, data, _, _, _) => data
  }

  function FlagOf(e: TarEntry): byte {
    match e
    case FileEntry(_, _, _, _, _, nulFlag, _) => if nulFlag then 0 else FLAG_FILE
    case DirectoryEntry(_, _, _, _) => FLAG_DIRECTORY
    case OtherEntry(_, _, _, _, _, flag, _) => flag
  }

  function ModeOf(e: TarEntry): nat { if e.DirectoryEntry? then 0 else e.mode }

  function WritePax(x: Pax): Bytes
    requires |x.other| == BLOCK
  {
    Header([], [], 0, |x.data|, if x.global then FLAG_PAX_GLOBAL else FLAG_PAX, x.other) + Blocks(x.data)
  }

  function WritePaxes(paxes: seq<Pax>): Bytes
    requires forall x :: x in paxes ==> |x.other| == BLOCK
  {
    if paxes == [] then [] else WritePax(paxes[0]) + WritePaxes(paxes[1..])
  }

  /** The entry's own header and data. */
  function WriteOwn(e: TarEntry): Bytes
    requires Writable(e)
  {
    (match e.form
     case Plain => Header(e.name, [], ModeOf(e), |DataOf(e)|, FlagOf(e), e.other)
     case SplitAt(k) => Header(e.name[k + 1..], e.name[..k], ModeOf(e), |DataOf(e)|, FlagOf(e), e.other)
     case LongName => StoredHeader(e))
    + Blocks(DataOf(e))
  }

  /** The block that carries a long name, if the name is long. */
  function WriteLongName(e: TarEntry): Bytes
    requires Writable(e)
  {
    if e.form.LongName? then Header([], [], 0, |e.name| + 1, FLAG_LONG_NAME, e.other) + Blocks(e.name + [0]) else []
  }

  function WriteEntry(e: TarEntry): Bytes
    requires Writable(e)
  {
    WriteLongName(e) + (WritePaxes(e.pax) + WriteOwn(e))
  }

  function WriteEntries(entries: seq<TarEntry>): Bytes
    requires forall e :: e in entries ==> Writable(e)
  {
    if entries == [] then [] else WriteEntry(entries[0]) + WriteEntries(entries[1..])
  }

  predicate FitsForm(name: Bytes, form: NameForm) {
    match form
    case Plain => |name| <= 100
    case SplitAt(k) => 0 < k <= 155 && k < |name| && name[k] == SLASH && |name| - k - 1 <= 100
    case LongName => |name| + 1 < Pow8(11)
  }

  /** What the format can hold: a non-empty name without NUL, and sizes and modes that fit their fields. */
  predicate Writable(e: TarEntry) {
    && e.name != [] && 0 !in e.name && |e.other| == BLOCK && FitsForm(e.name, e.form)
    && |DataOf(e)| < Pow8(11) && ModeOf(e) < Pow8(7)
    && (forall x :: x in e.pax ==> |x.other| == BLOCK && |x.data| < Pow8(11))
    && (e.OtherEntry? ==>
          e.flag !in {0, FLAG_FILE, FLAG_DIRECTORY, FLAG_LONG_NAME, FLAG_PAX, FLAG_PAX_GLOBAL})
  }

  // ---- Reading fields back ----

  lemma {:induction false} CutPadded(field: Bytes, s: Bytes)
    requires 0 !in field && |field| <= |s| && s[..|field|] == field
    requires |field| < |s| ==> s[|field|] == 0
    ensures CutAtZero(s) == field
    decreases |field|
  {
    if field != [] {
      assert s[0] == field[0] && field[0] in field;
      assert s[1..][..|field| - 1] == field[1..];
      CutPadded(field[1..], s[1..]);
      assert field == [field[0]] + field[1..];
    }
  }

  lemma {:induction false} OctalReads(n: nat, width: nat)
    requires n < Pow8(width)
    ensures OctalValue(Octal(n, width)) == n
  {
    if width > 0 {
      OctalReads(n / 8, width - 1);
      var s := Octal(n, width);
      assert s[..|s| - 1] == Octal(n / 8, width - 1);
      assert s[|s| - 1] as int - ZERO_DIGIT as int == n % 8;
    }
  }

  lemma {:induction false} OctalPrefixOfDigits(s: Bytes)
    requires forall i :: 0 <= i < |s| ==> IsOctalDigit(s[i])
    ensures OctalPrefix(s) == s
  {
    if s != [] {
      OctalPrefixOfDigits(s[1..]);
    }
  }

  /** A field holding `width` digits and a NUL reads as its number. */
  lemma OctalFieldReads(block: Bytes, start: nat, n: nat, width: nat)
    requires 0 < width && n < Pow8(width) && start + width + 1 <= |block|
    requires block[start..start + width + 1] == Octal(n, width) + [0]
    ensures TarOctal(block, start, width + 1) == Success(n)
  {
    var digits := Octal(n, width);
    CutPadded(digits, digits + [0]);
    assert IsOctalDigit(digits[0]) && IsOctalDigit(digits[width - 1]);
    OctalPrefixOfDigits(digits);
    OctalReads(n, width);
  }

  lemma HeaderTextReads(header: Bytes, start: nat, length: nat, field: Bytes)
    requires start + length <= |header| && |field| <= length && 0 !in field
    requires forall i :: start <= i < start + length ==> header[i] == Padded(field, i - start)
    ensures TarString(header, start, length) == field
  {
    CutPadded(field, header[start..start + length]);
  }

  lemma HeaderTextsRead(name: Bytes, prefix: Bytes, mode: nat, size: nat, flag: byte, other: Bytes)
    requires |other| == BLOCK && |name| <= 100 && |prefix| <= 155 && 0 !in name && 0 !in prefix
    ensures var header := Header(name, prefix, mode, size, flag, other);
            TarString(header, 0, 100) == name && TarString(header, 345, 155) == prefix
  {
    hide TarString, Octal;
    var header := Header(name, prefix, mode, size, flag, other);
    HeaderTextReads(header, 0, 100, name);
    HeaderTextReads(header, 345, 155, prefix);
  }

  lemma HeaderModeReads(name: Bytes, prefix: Bytes, mode: nat, size: nat, flag: byte, other: Bytes)
    requires |other| == BLOCK && mode < Pow8(7)
    ensures TarOctal(Header(name, prefix, mode, size, flag, other), 100, 8) == Success(mode)
  {
    hide TarOctal;
    var header := Header(name, prefix, mode, size, flag, other);
    assert header[100..108] == Octal(mode, 7) + [0];
    OctalFieldReads(header, 100, mode, 7);
  }

  lemma HeaderSizeReads(name: Bytes, prefix: Bytes, mode: nat, size: nat, flag: byte, other: Bytes)
    requires |other| == BLOCK && size < Pow8(11)
    ensures TarOctal(Header(name, prefix, mode, size, flag, other), 124, 12) == Success(size)
  {
    hide TarOctal;
    var header := Header(name, prefix, mode, size, flag, other);
    assert header[124..136] == Octal(size, 11) + [0];
    OctalFieldReads(header, 124, size, 11);
  }

  /** The size field alone keeps a header from being a zero block. */
  lemma HeaderFlagReads(name: Bytes, prefix: Bytes, mode: nat, size: nat, flag: byte, other: Bytes)
    requires |other| == BLOCK
    ensures var header := Header(name, prefix, mode, size, flag, other); header[156] == flag && !IsZeroBlock(header)
  {
    var header := Header(name, prefix, mode, size, flag, other);
    assert IsOctalDigit(Octal(size, 11)[0]);
    hide Octal;
    assert header[124] == Octal(size, 11)[0];
    assert header[156] == flag;
  }

  lemma HeaderReads(name: Bytes, prefix: Bytes, mode: nat, size: nat, flag: byte, other: Bytes)
    requires |other| == BLOCK && |name| <= 100 && |prefix| <= 155 && 0 !in name && 0 !in prefix
    requires mode < Pow8(7) && size < Pow8(11)
    ensures var header := Header(name, prefix, mode, size, flag, other);
            && TarString(header, 0, 100) == name && TarString(header, 345, 155) == prefix
            && TarOctal(header, 100, 8) == Success(mode) && TarOctal(header, 124, 12) == Success(size)
            && header[156] == flag && !IsZeroBlock(header)
  {
    hide Header, TarString, TarOctal, IsZeroBlock;
    HeaderTextsRead(name, prefix, mode, size, flag, other);
    HeaderModeReads(name, prefix, mode, size, flag, other);
    HeaderSizeReads(name, prefix, mode, size, flag, other);
    HeaderFlagReads(name, prefix, mode, size, flag, other);
  }

  lemma BlocksAdvance(data: Bytes)
    ensures Advance(|data|) == BLOCK + |Blocks(data)|
  {
    var n := |data|;
    var full, part := n / BLOCK, n % BLOCK;
    assert n == full * BLOCK + part;
    assert (n + BLOCK - 1) / BLOCK == if part == 0 then full else full + 1;
  }

  /** The extractor reads one written header and its data, then goes on with the rest. */
  lemma BlockReads(root: Path, header: Bytes, data: Bytes, rest: Bytes, pending: Option<Bytes>, fs: FileSystem)
    requires |header| == BLOCK && !IsZeroBlock(header) && TarOctal(header, 124, 12) == Success(|data|)
    ensures ExtractFrom(root, header + Blocks(data) + rest, pending, fs) ==
            GoOn(root, rest, ApplyHeader(root, header, data, pending, fs))
  {
    hide IsZeroBlock, TarOctal, ApplyHeader, Advance;
    BlocksAdvance(data);
    AdvanceIsForwardIff(|data|);
    var all := header + Blocks(data) + rest;
    assert all[..BLOCK] == header;
    assert |data| > 0 ==> all[BLOCK..BLOCK + |data|] == data;
    assert all[Advance(|data|)..] == rest;
  }

  // ---- The extractor inverts the writer ----

  /** What an entry is meant to do, without any archive. */
  function ApplyEntry(root: Path, e: TarEntry, fs: FileSystem): Step {
    match SafeTarDestination(root, e.name)
    case Failure => Thrown(fs)
    case Success(destination) =>
      match e
      case FileEntry(_, _, _, content, mode, _, _) => PutFile(fs, destination, content, Success(mode))
      case DirectoryEntry(_, _, _, _) => PutDirectory(fs, destination)
      case OtherEntry(_, _, _, _, _, _, _) => Step(None, fs)
  }

  /** One entry after another, up to the first that throws. */
  function ApplyEntries(root: Path, entries: seq<TarEntry>, fs: FileSystem): Outcome {
    if entries == [] then Extracted(fs)
    else
      var step := ApplyEntry(root, entries[0], fs);
      if step.Thrown? then Failed(step.fs) else ApplyEntries(root, entries[1..], step.fs)
  }

  lemma EntryLeavesNoName(root: Path, e: TarEntry, fs: FileSystem)
    ensures ApplyEntry(root, e, fs).Step? ==> ApplyEntry(root, e, fs).pending == None
  {
    hide SafeTarDestination, MakeDirectories, WriteFile, ChangeMode;
  }

  /** The header that carries the entry itself does what the entry means. */
  lemma EntryHeaderApplies(root: Path, e: TarEntry, header: Bytes, pending: Option<Bytes>, fs: FileSystem)
    requires |header| == BLOCK && Writable(e)
    requires (if pending.Some? then pending.value else TarEntryName(header)) == e.name
    requires header[156] == FlagOf(e) && TarOctal(header, 100, 8) == Success(ModeOf(e))
    ensures ApplyHeader(root, header, DataOf(e), pending, fs) == ApplyEntry(root, e, fs)
  {
    hide SafeTarDestination, MakeDirectories, TarOctal, TarEntryName, WriteFile, ChangeMode;
  }

  /** One header, one entry: when the header, or what is pending, names it and the header carries its data. */
  lemma SingleHeaderReads(root: Path, e: TarEntry, name: Bytes, prefix: Bytes, pending: Option<Bytes>, rest: Bytes,
                          fs: FileSystem)
    requires Writable(e) && |name| <= 100 && |prefix| <= 155 && 0 !in name && 0 !in prefix
    requires (if pending.Some? then pending.value else if prefix != [] then prefix + [SLASH] + name else name) == e.name
    ensures var header := Header(name, prefix, ModeOf(e), |DataOf(e)|, FlagOf(e), e.other);
            ExtractFrom(root, header + Blocks(DataOf(e)) + rest, pending, fs) ==
            GoOn(root, rest, ApplyEntry(root, e, fs))
  {
    var header := Header(name, prefix, ModeOf(e), |DataOf(e)|, FlagOf(e), e.other);
    HeaderReads(name, prefix, ModeOf(e), |DataOf(e)|, FlagOf(e), e.other);
    hide Header, TarOctal, IsZeroBlock, TarString, ExtractFrom, ApplyHeader, ApplyEntry, DataOf, FlagOf, ModeOf;
    BlockReads(root, header, DataOf(e), rest, pending, fs);
    EntryHeaderApplies(root, e, header, pending, fs);
  }

  /** What is pending before the entry's own header. */
  function PendingOf(e: TarEntry): Option<Bytes> { if e.form.LongName? then Some(e.name) else None }

  lemma OwnReads(root: Path, e: TarEntry, rest: Bytes, fs: FileSystem)
    requires Writable(e)
    ensures ExtractFrom(root, WriteOwn(e) + rest, PendingOf(e), fs) == GoOn(root, rest, ApplyEntry(root, e, fs))
  {
    hide Header, Blocks, ExtractFrom, ApplyEntry, DataOf, FlagOf, ModeOf;
    match e.form
    case Plain => SingleHeaderReads(root, e, e.name, [], None, rest, fs);
    case SplitAt(k) =>
      assert e.name[..k] + [SLASH] + e.name[k + 1..] == e.name;
      SingleHeaderReads(root, e, e.name[k + 1..], e.name[..k], None, rest, fs);
    case LongName => SingleHeaderReads(root, e, e.name[..Min(100, |e.name|)], [], Some(e.name), rest, fs);
  }

  /** A pax header changes nothing and leaves a pending name pending. */
  lemma PaxReads(root: Path, x: Pax, rest: Bytes, pending: Option<Bytes>, fs: FileSystem)
    requires |x.other| == BLOCK && |x.data| < Pow8(11)
    ensures ExtractFrom(root, WritePax(x) + rest, pending, fs) == ExtractFrom(root, rest, pending, fs)
  {
    PowersPositive(7);
    var flag := if x.global then FLAG_PAX_GLOBAL else FLAG_PAX;
    var header := Header([], [], 0, |x.data|, flag, x.other);
    HeaderReads([], [], 0, |x.data|, flag, x.other);
    hide Header, TarOctal, IsZeroBlock, TarString, ExtractFrom;
    BlockReads(root, header, x.data, rest, pending, fs);
  }

  lemma {:induction false} PaxesRead(root: Path, paxes: seq<Pax>, rest: Bytes, pending: Option<Bytes>, fs: FileSystem)
    requires forall x :: x in paxes ==> |x.other| == BLOCK && |x.data| < Pow8(11)
    ensures ExtractFrom(root, WritePaxes(paxes) + rest, pending, fs) == ExtractFrom(root, rest, pending, fs)
    decreases |paxes|
  {
    hide ExtractFrom, WritePax;
    if paxes == [] {
      assert WritePaxes(paxes) + rest == rest;
    } else {
      assert WritePaxes(paxes) + rest == WritePax(paxes[0]) + (WritePaxes(paxes[1..]) + rest);
      PaxReads(root, paxes[0], WritePaxes(paxes[1..]) + rest, pending, fs);
      PaxesRead(root, paxes[1..], rest, pending, fs);
    }
  }

  lemma EntryReads(root: Path, e: TarEntry, rest: Bytes, fs: FileSystem)
    requires Writable(e)
    ensures ExtractFrom(root, WriteEntry(e) + rest, None, fs) ==
            GoOn(root, rest, ApplyEntry(root, e, fs))
  {
    var after := WritePaxes(e.pax) + (WriteOwn(e) + rest);
    hide ExtractFrom, ApplyEntry, WritePaxes, WriteOwn, GoOn;
    assert WriteEntry(e) + rest == WriteLongName(e) + after;
    LongNameReads(root, e, after, fs);
    PaxesRead(root, e.pax, WriteOwn(e) + rest, PendingOf(e), fs);
    OwnReads(root, e, rest, fs);
  }

  lemma LongNameReads(root: Path, e: TarEntry, after: Bytes, fs: FileSystem)
    requires Writable(e)
    ensures ExtractFrom(root, WriteLongName(e) + after, None, fs) == ExtractFrom(root, after, PendingOf(e), fs)
  {
    hide ExtractFrom, Header, Blocks;
    if e.form.LongName? {
      LongHeaderReads(root, e.name, e.other, after, fs);
    } else {
      assert WriteLongName(e) + after == after;
    }
  }

  lemma {:induction false} PowersPositive(width: nat)
    ensures Pow8(width) > 0
  {
    if width > 0 {
      PowersPositive(width - 1);
    }
  }

  /** A long-name block leaves its name pending for the header after it. */
  lemma LongHeaderReads(root: Path, name: Bytes, other: Bytes, after: Bytes, fs: FileSystem)
    requires 0 !in name && |name| + 1 < Pow8(11) && |other| == BLOCK
    ensures var header := Header([], [], 0, |name| + 1, FLAG_LONG_NAME, other);
            ExtractFrom(root, header + Blocks(name + [0]) + after, None, fs) ==
            ExtractFrom(root, after, Some(name), fs)
  {
    PowersPositive(7);
    var header := Header([], [], 0, |name| + 1, FLAG_LONG_NAME, other);
    HeaderReads([], [], 0, |name| + 1, FLAG_LONG_NAME, other);
    CutPadded(name, name + [0]);
    hide Header, TarOctal, IsZeroBlock, TarString, ExtractFrom;
    BlockReads(root, header, name + [0], after, None, fs);
  }

  /** The header after a long-name block, with as much of the name as fits. */
  function StoredHeader(e: TarEntry): (header: Bytes)
    requires Writable(e)
    ensures |header| == BLOCK
  {
    Header(e.name[..Min(100, |e.name|)], [], ModeOf(e), |DataOf(e)|, FlagOf(e), e.other)
  }

  /** An archive ends at a short tail or at a zero block. */
  predicate IsTrailer(trailer: Bytes) {
    |trailer| < BLOCK || IsZeroBlock(trailer[..BLOCK])
  }

  lemma TrailerEnds(root: Path, trailer: Bytes, fs: FileSystem)
    requires IsTrailer(trailer)
    ensures ExtractFrom(root, trailer, None, fs) == Extracted(fs)
  {
  }

  /** Extracting what the reference writer wrote does exactly what the entries mean, in order. */
  lemma {:induction false} ExtractInvertsWrite(root: Path, entries: seq<TarEntry>, trailer: Bytes, fs: FileSystem)
    requires (forall e :: e in entries ==> Writable(e)) && IsTrailer(trailer)
    ensures ExtractFrom(root, WriteEntries(entries) + trailer, None, fs) == ApplyEntries(root, entries, fs)
    decreases |entries|
  {
    hide ExtractFrom, WriteEntry, ApplyEntry, Writable, IsTrailer;
    if entries == [] {
      assert WriteEntries(entries) + trailer == trailer;
      TrailerEnds(root, trailer, fs);
    } else {
      var rest := WriteEntries(entries[1..]) + trailer;
      assert WriteEntries(entries) + trailer == WriteEntry(entries[0]) + rest;
      EntryReads(root, entries[0], rest, fs);
      EntryLeavesNoName(root, entries[0], fs);
      var next := ApplyEntry(root, entries[0], fs);
      if next.Step? {
        ExtractInvertsWrite(root, entries[1..], trailer, next.fs);
      }
    }
  }

  // ---- What ends up on disk ----

  /** An entry touches only its destination and the directories above it. */
  lemma EntryTouches(root: Path, e: TarEntry, fs: FileSystem)
    requires ApplyEntry(root, e, fs).Step?
    ensures SafeTarDestination(root, e.name).Success?
    ensures var destination := SafeTarDestination(root, e.name).value;
            var next := ApplyEntry(root, e, fs).fs;
            && (forall q :: q in fs && !(e.FileEntry? && q == destination) ==> q in next && next[q] == fs[q])
            && (forall q :: q in next && q !in fs ==> q <= destination)
            && (forall q :: q in next && next[q].File? && !(q in fs && next[q] == fs[q]) ==>
                  e.FileEntry? && q == destination)
            && (e.FileEntry? ==>
                  && destination in next && next[destination].File? && next[destination].content == e.content
                  && next[destination].mode ==
                     if e.mode > 0 then Some(e.mode)
                     else if destination in fs && fs[destination].File? then fs[destination].mode else None)
            && (e.OtherEntry? ==> next == fs)
            && (e.DirectoryEntry? && destination != [] ==> destination in next && next[destination].Directory?)
  {
    hide SafeTarDestination;
    var destination := SafeTarDestination(root, e.name).value;
    if e.DirectoryEntry? {
      MakeDirectoriesTouches(fs, destination);
    } else if e.FileEntry? && destination != [] {
      MakeDirectoriesTouches(fs, destination[..|destination| - 1]);
    }
    hide MakeDirectories;
  }

  /** A path whose destination no entry writes as a file keeps the file it has. */
  lemma {:induction false} UntouchedFileStays(root: Path, entries: seq<TarEntry>, fs: FileSystem, p: Path)
    requires ApplyEntries(root, entries, fs).Extracted? && p in fs
    requires forall e :: e in entries && e.FileEntry? ==> SafeTarDestination(root, e.name) != Success(p)
    ensures p in ApplyEntries(root, entries, fs).fs && ApplyEntries(root, entries, fs).fs[p] == fs[p]
    decreases |entries|
  {
    if entries != [] {
      EntryTouches(root, entries[0], fs);
      hide ApplyEntry;
      UntouchedFileStays(root, entries[1..], ApplyEntry(root, entries[0], fs).fs, p);
    }
  }

  /** The last file entry for a destination decides what the destination holds. */
  lemma {:induction false} LastWriteWins(root: Path, entries: seq<TarEntry>, fs: FileSystem, k: nat)
    requires ApplyEntries(root, entries, fs).Extracted?
    requires k < |entries| && entries[k].FileEntry?
    requires forall j :: k < j < |entries| && entries[j].FileEntry? ==>
               SafeTarDestination(root, entries[j].name) != SafeTarDestination(root, entries[k].name)
    ensures SafeTarDestination(root, entries[k].name).Success?
    ensures var p := SafeTarDestination(root, entries[k].name).value;
            var after := ApplyEntries(root, entries, fs).fs;
            && p in after && after[p].File? && after[p].content == entries[k].content
            && (entries[k].mode > 0 ==> after[p].mode == Some(entries[k].mode))
    decreases |entries|
  {
    hide ApplyEntry, SafeTarDestination;
    EntryTouches(root, entries[0], fs);
    var next := ApplyEntry(root, entries[0], fs).fs;
    if k == 0 {
      var p := SafeTarDestination(root, entries[0].name).value;
      FileStaysAfter(root, entries, next, p);
    } else {
      forall j | k - 1 < j < |entries[1..]| && entries[1..][j].FileEntry?
        ensures SafeTarDestination(root, entries[1..][j].name) != SafeTarDestination(root, entries[k].name)
      {
        assert entries[1..][j] == entries[j + 1];
      }
      LastWriteWins(root, entries[1..], next, k - 1);
    }
  }

  lemma FileStaysAfter(root: Path, entries: seq<TarEntry>, next: FileSystem, p: Path)
    requires entries != [] && ApplyEntries(root, entries[1..], next).Extracted? && p in next
    requires forall j :: 0 < j < |entries| && entries[j].FileEntry? ==>
               SafeTarDestination(root, entries[j].name) != Success(p)
    ensures var after := ApplyEntries(root, entries[1..], next).fs; p in after && after[p] == next[p]
  {
    hide SafeTarDestination, ApplyEntries;
    forall e | e in entries[1..] && e.FileEntry? ensures SafeTarDestination(root, e.name) != Success(p) {
      var j :| 0 < j < |entries| && entries[j] == e;
    }
    UntouchedFileStays(root, entries[1..], next, p);
  }

  /** Every file on disk afterwards was there before or is some file entry's destination. */
  lemma {:induction false} OnlyEntriesAppear(root: Path, entries: seq<TarEntry>, fs: FileSystem, p: Path)
    requires ApplyEntries(root, entries, fs).Extracted?
    requires p in ApplyEntries(root, entries, fs).fs && ApplyEntries(root, entries, fs).fs[p].File?
    ensures (p in fs && ApplyEntries(root, entries, fs).fs[p] == fs[p])
            || exists e :: e in entries && e.FileEntry? && SafeTarDestination(root, e.name) == Success(p)
    decreases |entries|
  {
    if entries != [] {
      EntryTouches(root, entries[0], fs);
      hide ApplyEntry, SafeTarDestination;
      assert entries[0] in entries;
      OnlyEntriesAppear(root, entries[1..], ApplyEntry(root, entries[0], fs).fs, p);
    }
  }

  lemma {:induction false} EntriesEnd(root: Path, entries: seq<TarEntry>, fs: FileSystem)
    ensures ApplyEntries(root, entries, fs).Extracted? || ApplyEntries(root, entries, fs).Failed?
    decreases |entries|
  {
    hide ApplyEntry;
    if entries != [] && ApplyEntry(root, entries[0], fs).Step? {
      EntriesEnd(root, entries[1..], ApplyEntry(root, entries[0], fs).fs);
    }
  }

  /** The whole extractor on a written archive: the output directory, then the entries in order. */
  lemma ExtractWrittenArchive(root: Path, entries: seq<TarEntry>, trailer: Bytes, fs: FileSystem)
    requires (forall e :: e in entries ==> Writable(e)) && IsTrailer(trailer)
    ensures Extract(root, WriteEntries(entries) + trailer, fs) ==
            match MakeDirectories(fs, root)
            case Failure => Failed(fs)
            case Success(made) => ApplyEntries(root, entries, made)
  {
    hide ExtractFrom, ApplyEntries, TurnAt;
    var made := MakeDirectories(fs, root);
    if made.Success? {
      ExtractInvertsWrite(root, entries, trailer, made.value);
      EntriesEnd(root, entries, made.value);
    }
  }

  // ---- A signed size field ----

  /** A minus sign and 512 in octal. */
  const SIGNED_SIZE: Bytes := [0x2D] + Octal(512, 4)

  function SignedSizeHeader(): (header: Bytes)
    ensures |header| == BLOCK
  {
    seq(BLOCK, i requires 0 <= i < BLOCK =>
      if 124 <= i < 136 then Padded(SIGNED_SIZE, i - 124) else if i == 156 then FLAG_FILE else 0)
  }

  lemma SignedSizeText()
    ensures TarString(SignedSizeHeader(), 124, 12) == SIGNED_SIZE
  {
    HeaderTextReads(SignedSizeHeader(), 124, 12, SIGNED_SIZE);
  }

  lemma SignedSizeDigits()
    ensures OctalPrefix(SIGNED_SIZE[1..]) == SIGNED_SIZE[1..] && OctalValue(SIGNED_SIZE[1..]) == 512
    ensures |SIGNED_SIZE| == 5 && SIGNED_SIZE[0] == 0x2D && IsOctalDigit(SIGNED_SIZE[4])
  {
    OctalPrefixOfDigits(Octal(512, 4));
    assert Pow8(4) == 4096 by { assert Pow8(2) == 64; }
    OctalReads(512, 4);
    hide Octal, OctalPrefix, OctalValue;
    assert SIGNED_SIZE[1..] == Octal(512, 4);
  }

  lemma SignedSizeReads()
    ensures TarOctal(SignedSizeHeader(), 124, 12) == Success(-512)
  {
    SignedSizeText();
    SignedSizeDigits();
    hide SIGNED_SIZE, SignedSizeHeader, OctalPrefix, OctalValue, TarString;
  }

  lemma SignedSizeTurn(root: Path, tarData: Bytes, offset: nat, fs: FileSystem)
    requires offset + BLOCK <= |tarData| && HeaderAt(tarData, offset) == SignedSizeHeader()
    ensures TurnAt(root, tarData, offset, None, fs) == Continue(offset, None, fs)
  {
    SignedSizeReads();
    NamelessHeader();
    hide TarOctal, TarEntryName, HeaderAt, Subarray;
    assert SignedSizeHeader()[156] == FLAG_FILE;
  }

  /** At this header every turn comes back to the very state it began in: the loop never ends. */
  lemma {:induction false} SignedSizeDoesNotAdvance(root: Path, tarData: Bytes, offset: nat, fs: FileSystem, n: nat)
    requires offset + BLOCK <= |tarData| && HeaderAt(tarData, offset) == SignedSizeHeader()
    ensures Loop(root, tarData, Continue(offset, None, fs), n) == Continue(offset, None, fs)
  {
    hide TurnAt, HeaderAt, SignedSizeHeader;
    if n > 0 {
      SignedSizeDoesNotAdvance(root, tarData, offset, fs, n - 1);
      SignedSizeTurn(root, tarData, offset, fs);
    }
  }

  lemma NamelessHeader()
    ensures TarEntryName(SignedSizeHeader()) == []
  {
    assert SignedSizeHeader()[0..100][0] == 0 && SignedSizeHeader()[345..500][0] == 0;
  }
}
