/**
 The glob translation of the source-mtime selection: the regex text it emits, what that text
 accepts, and what the glob denotes.
 */
module GlobRegex {
  import opened Common

  // ---- What a glob denotes ----

  predicate HasSlash(s: string) { '/' in s }

  /** The text after a `**`, with one optional `/` swallowed. */
  function AfterDoubleStar(glob: string): (rest: string)
    requires |glob| >= 2
    ensures |rest| < |glob|
  {
    if |glob| > 2 && glob[2] == '/' then glob[3..] else glob[2..]
  }

  predicate IsDoubleStar(glob: string) { |glob| >= 2 && glob[0] == '*' && glob[1] == '*' }

  /** The characters an ECMAScript `.` does not accept. */
  predicate IsLineTerminator(c: char) { c in "\n\r\U{2028}\U{2029}" }

  ghost predicate OneLine(s: string) { forall c :: c in s ==> !IsLineTerminator(c) }

  /**
   `*` and `?` stop at `/`; `**` with an optional `/` spans anything; the rest is literal.
   With `oneLine`, a `**` span stops at a line terminator.
   */
  ghost predicate Denotes(glob: string, s: string, oneLine: bool)
    decreases |glob|
  {
    if glob == "" then s == ""
    else if IsDoubleStar(glob) then
      exists k :: 0 <= k <= |s| && (oneLine ==> OneLine(s[..k])) && Denotes(AfterDoubleStar(glob), s[k..], oneLine)
    else if glob[0] == '*' then exists k :: 0 <= k <= |s| && !HasSlash(s[..k]) && Denotes(glob[1..], s[k..], oneLine)
    else if glob[0] == '?' then s != "" && s[0] != '/' && Denotes(glob[1..], s[1..], oneLine)
    else s != "" && s[0] == glob[0] && Denotes(glob[1..], s[1..], oneLine)
  }

  // ---- The translation ----

  /** The class `[.+^$|(){}\\]`. */
  predicate IsMeta(c: char) { c in ".+^$|(){}\\" }

  function IndexOf(s: string, c: char): (i: nat)
    ensures i <= |s| && (i < |s| ==> s[i] == c) && c !in s[..i]
  {
    if s == "" || s[0] == c then 0 else 1 + IndexOf(s[1..], c)
  }

  const ANYTHING: string := ".*"
  const NO_SLASHES: string := "[^/]*"
  const NO_SLASH: string := "[^/]"

  /** What the translation emits for the front of a glob, and how much of the glob that takes. */
  datatype Chunk = Chunk(text: string, width: nat)

  function Emit(glob: string): (c: Chunk)
    requires glob != ""
    ensures 0 < c.width <= |glob|
  {
    if IsDoubleStar(glob) then Chunk(ANYTHING, if |glob| > 2 && glob[2] == '/' then 3 else 2)
    else if glob[0] == '*' then Chunk(NO_SLASHES, 1)
    else if glob[0] == '?' then Chunk(NO_SLASH, 1)
    else if glob[0] == '[' then
      var end := IndexOf(glob, ']');
      if end == |glob| then Chunk(['\\', '['], 1) else Chunk(glob[..end + 1], end + 1)
    else if IsMeta(glob[0]) then Chunk(['\\', glob[0]], 1)
    else Chunk([glob[0]], 1)
  }

  /** The regex body for `glob`. */
  function Translate(glob: string): string
    decreases |glob|
  {
    if glob == "" then "" else Emit(glob).text + Translate(glob[Emit(glob).width..])
  }

  method NextChunk(pattern: string, i: nat) returns (chunk: Chunk)
    requires i < |pattern|
    ensures chunk == Emit(pattern[i..])
  {
    hide ANYTHING, NO_SLASHES, NO_SLASH, IsMeta;
    var c := pattern[i];
    if c == '*' {
      if i + 1 < |pattern| && pattern[i + 1] == '*' {
        chunk := Chunk(ANYTHING, 2);
        if i + 2 < |pattern| && pattern[i + 2] == '/' {
          chunk := Chunk(ANYTHING, 3);
        }
      } else {
        chunk := Chunk(NO_SLASHES, 1);
      }
    } else if c == '?' {
      chunk := Chunk(NO_SLASH, 1);
    } else if c == '[' {
      var end := IndexOf(pattern[i..], ']');
      if end == |pattern| - i {
        chunk := Chunk(['\\', '['], 1);
      } else {
        chunk := Chunk(pattern[i..][..end + 1], end + 1);
      }
    } else if IsMeta(c) {
      chunk := Chunk(['\\', c], 1);
    } else {
      chunk := Chunk([c], 1);
    }
  }

  lemma TranslateStep(pattern: string, i: nat)
    requires i < |pattern|
    ensures i + Emit(pattern[i..]).width <= |pattern|
    ensures Translate(pattern[i..]) ==
            Emit(pattern[i..]).text + Translate(pattern[i + Emit(pattern[i..]).width..])
  {
    hide Emit;
    var width := Emit(pattern[i..]).width;
    assert pattern[i..][width..] == pattern[i + width..];
  }

  lemma TranslateEnd()
    ensures Translate("") == ""
  {
  }

  method FnmatchToRegex(pattern: string) returns (out: string)
    ensures out == Translate(pattern)
  {
    hide Translate, Emit;
    out := "";
    var i := 0;
    assert pattern[0..] == pattern;
    while i < |pattern|
      invariant 0 <= i <= |pattern|
      invariant Translate(pattern) == out + Translate(pattern[i..])
    {
      var chunk := NextChunk(pattern, i);
      TranslateStep(pattern, i);
      assert out + (chunk.text + Translate(pattern[i + chunk.width..])) ==
             out + chunk.text + Translate(pattern[i + chunk.width..]);
      out := out + chunk.text;
      i := i + chunk.width;
    }
    assert pattern[i..] == "";
    TranslateEnd();
  }

  // ---- The regular expressions the translation emits ----

  datatype Atom = AnyChar | NotSlash | Literal(c: char)

  predicate AtomAccepts(atom: Atom, c: char) {
    match atom
    case AnyChar => !IsLineTerminator(c)
    case NotSlash => c != '/'
    case Literal(d) => c == d
  }

  datatype Piece = Piece(atom: Atom, starred: bool)

  /** The characters that do not stand for themselves in a pattern. */
  predicate IsSyntax(c: char) { c in "^$\\.*+?()[|{}" }

  /** The atom at the front of a regex text, and its width. */
  function ReadAtom(text: string): (r: Option<(Atom, nat)>)
    ensures r.Some? ==> 0 < r.value.1 <= |text|
  {
    if text == "" then None
    else if text[0] == '.' then Some((AnyChar, 1))
    else if NO_SLASH <= text then Some((NotSlash, 4))
    else if text[0] == '\\' then if |text| > 1 && IsSyntax(text[1]) then Some((Literal(text[1]), 2)) else None
    else if IsSyntax(text[0]) then None
    else Some((Literal(text[0]), 1))
  }

  /** Atoms, each with an optional star; `None` for any other regex text. */
  function ParsePieces(text: string): Option<seq<Piece>>
    decreases |text|
  {
    if text == "" then Some([]) else
    var (atom, width) :- ReadAtom(text);
    var rest := text[width..];
    var starred := rest != "" && rest[0] == '*';
    var pieces :- ParsePieces(if starred then rest[1..] else rest);
    Some([Piece(atom, starred)] + pieces)
  }

  /** Whether a whole string is in the language of the pieces; a star is unfolded one step at a time. */
  predicate Matches(pieces: seq<Piece>, s: string)
    decreases |pieces|, |s|
  {
    if pieces == [] then s == ""
    else
      var atom := pieces[0].atom;
      if pieces[0].starred then
        Matches(pieces[1..], s) || (s != "" && AtomAccepts(atom, s[0]) && Matches(pieces, s[1..]))
      else
        s != "" && AtomAccepts(atom, s[0]) && Matches(pieces[1..], s[1..])
  }

  /** `new RegExp("^" + text + "$").test(s)` for the regex texts this module knows. */
  predicate Accepts(text: string, s: string) {
    var pieces := ParsePieces(text);
    pieces.Some? && Matches(pieces.value, s)
  }

  // ---- The text accepts what the glob denotes ----

  /** No `[` that a later `]` closes. */
  ghost predicate ClassFree(glob: string) {
    forall i :: 0 <= i < |glob| && glob[i] == '[' ==> ']' !in glob[i..]
  }

  function Pieces(glob: string): seq<Piece>
    decreases |glob|
  {
    if glob == "" then []
    else if IsDoubleStar(glob) then [Piece(AnyChar, true)] + Pieces(AfterDoubleStar(glob))
    else if glob[0] == '*' then [Piece(NotSlash, true)] + Pieces(glob[1..])
    else if glob[0] == '?' then [Piece(NotSlash, false)] + Pieces(glob[1..])
    else [Piece(Literal(glob[0]), false)] + Pieces(glob[1..])
  }

  lemma ClassFreeRest(glob: string, width: nat)
    requires ClassFree(glob) && width <= |glob|
    ensures ClassFree(glob[width..])
  {
    var rest := glob[width..];
    forall i | 0 <= i < |rest| && rest[i] == '['
      ensures ']' !in rest[i..]
    {
      assert rest[i..] == glob[width + i..];
      assert glob[width + i] == '[';
    }
  }

  lemma EmitsNoStar(glob: string)
    ensures Translate(glob) != "" ==> Translate(glob)[0] != '*'
  {
    if glob != "" {
      EmittedHead(glob);
    }
  }

  lemma EmittedHead(glob: string)
    requires glob != ""
    ensures |Emit(glob).text| > 0 && Emit(glob).text[0] != '*'
  {
  }

  ghost predicate ReadsAs(text: string, piece: Piece, tail: string) {
    var r := ReadAtom(text);
    r.Some? && r.value.0 == piece.atom && text[r.value.1..] == (if piece.starred then "*" else "") + tail
  }

  lemma StarsRead(tail: string)
    ensures ReadsAs(ANYTHING + tail, Piece(AnyChar, true), tail)
    ensures ReadsAs(NO_SLASHES + tail, Piece(NotSlash, true), tail)
    ensures ReadsAs(NO_SLASH + tail, Piece(NotSlash, false), tail)
  {
    assert (ANYTHING + tail)[1..] == "*" + tail;
    assert (NO_SLASHES + tail)[4..] == "*" + tail;
    assert (NO_SLASHES + tail)[..4] == NO_SLASH;
  }

  lemma LiteralReads(c: char, tail: string)
    ensures IsSyntax(c) ==> ReadsAs(['\\', c] + tail, Piece(Literal(c), false), tail)
    ensures !IsSyntax(c) ==> ReadsAs([c] + tail, Piece(Literal(c), false), tail)
  {
    assert (['\\', c] + tail)[2..] == "" + tail;
    assert ([c] + tail)[1..] == "" + tail;
  }

  lemma EmittedAtom(glob: string, tail: string)
    requires glob != "" && ClassFree(glob)
    ensures ReadsAs(Emit(glob).text + tail, Pieces(glob)[0], tail)
  {
    hide ReadsAs, ANYTHING, NO_SLASHES, NO_SLASH;
    StarsRead(tail);
    LiteralReads(glob[0], tail);
    if glob[0] == '[' {
      assert glob[0..] == glob;
    }
  }

  lemma PiecesStep(glob: string)
    requires glob != "" && ClassFree(glob)
    ensures Pieces(glob) != [] && Pieces(glob)[1..] == Pieces(glob[Emit(glob).width..])
  {
    if glob[0] == '[' {
      assert glob[0..] == glob;
    }
  }

  /** Read back, the emitted text has one piece for each `**`, `*`, `?` and literal of the glob. */
  lemma {:induction false} TranslationParses(glob: string)
    requires ClassFree(glob)
    ensures ParsePieces(Translate(glob)) == Some(Pieces(glob))
    decreases |glob|
  {
    if glob != "" {
      var chunk := Emit(glob);
      var rest := glob[chunk.width..];
      ClassFreeRest(glob, chunk.width);
      TranslationParses(rest);
      PiecesStep(glob);
      EmitsNoStar(rest);
      EmittedAtom(glob, Translate(rest));
      EmittedHead(glob);
      ParseStep(chunk.text, Translate(rest), Pieces(glob)[0], Pieces(rest));
    }
  }

  lemma ParseStep(text: string, tail: string, piece: Piece, pieces: seq<Piece>)
    requires text != ""
    requires ReadsAs(text + tail, piece, tail)
    requires tail != "" ==> tail[0] != '*'
    requires ParsePieces(tail) == Some(pieces)
    ensures ParsePieces(text + tail) == Some([piece] + pieces)
  {
    hide ReadAtom;
    assert ("*" + tail)[1..] == tail;
    assert "" + tail == tail;
  }

  ghost predicate Spans(atom: Atom, front: string) { forall c :: c in front ==> AtomAccepts(atom, c) }

  lemma {:induction false} StarSpans(pieces: seq<Piece>, s: string)
    requires pieces != [] && pieces[0].starred
    ensures Matches(pieces, s) <==>
            exists k :: 0 <= k <= |s| && Spans(pieces[0].atom, s[..k]) && Matches(pieces[1..], s[k..])
    decreases |s|
  {
    var atom := pieces[0].atom;
    if Matches(pieces[1..], s) {
      assert s[..0] == "" && s[0..] == s;
      assert Spans(atom, s[..0]);
    } else if s != "" && AtomAccepts(atom, s[0]) {
      StarSpans(pieces, s[1..]);
      SpanShift(atom, pieces[1..], s);
    } else {
      NoSpan(atom, pieces[1..], s);
    }
  }

  lemma NoSpan(atom: Atom, rest: seq<Piece>, s: string)
    requires !Matches(rest, s) && (s == "" || !AtomAccepts(atom, s[0]))
    ensures !exists k :: 0 <= k <= |s| && Spans(atom, s[..k]) && Matches(rest, s[k..])
  {
    assert s[0..] == s;
    forall k | 0 < k <= |s|
      ensures !Spans(atom, s[..k])
    {
      assert s[..k][0] == s[0];
    }
  }

  /** A span over a string that starts with an accepted character is one over the rest, one longer. */
  lemma SpanShift(atom: Atom, rest: seq<Piece>, s: string)
    requires s != "" && AtomAccepts(atom, s[0]) && !Matches(rest, s)
    ensures (exists k :: 0 <= k <= |s[1..]| && Spans(atom, s[1..][..k]) && Matches(rest, s[1..][k..])) <==>
            exists k :: 0 <= k <= |s| && Spans(atom, s[..k]) && Matches(rest, s[k..])
  {
    hide AtomAccepts, Matches;
    var u := s[1..];
    forall k | 0 <= k <= |u|
      ensures u[k..] == s[k + 1..] && (Spans(atom, u[..k]) <==> Spans(atom, s[..k + 1]))
    {
      assert s[..k + 1] == [s[0]] + u[..k];
    }
    assert s[0..] == s;
    forall k | 0 <= k <= |s| && Spans(atom, s[..k]) && Matches(rest, s[k..])
      ensures Spans(atom, u[..k - 1]) && Matches(rest, u[k - 1..])
    {
      assert k > 0;
      assert u[k - 1..] == s[k - 1 + 1..];
    }
    if k :| 0 <= k <= |u| && Spans(atom, u[..k]) && Matches(rest, u[k..]) {
      assert Spans(atom, s[..k + 1]) && Matches(rest, s[k + 1..]);
    }
    if k :| 0 <= k <= |s| && Spans(atom, s[..k]) && Matches(rest, s[k..]) {
      assert Spans(atom, u[..k - 1]) && Matches(rest, u[k - 1..]);
    }
  }

  lemma {:induction false} PiecesDenote(glob: string, s: string)
    ensures Matches(Pieces(glob), s) <==> Denotes(glob, s, true)
    decreases |glob|
  {
    if glob == "" {
    } else if glob[0] == '*' {
      var rest := if IsDoubleStar(glob) then AfterDoubleStar(glob) else glob[1..];
      StarSpans(Pieces(glob), s);
      assert Pieces(glob)[1..] == Pieces(rest);
      forall k | 0 <= k <= |s|
        ensures Matches(Pieces(rest), s[k..]) <==> Denotes(rest, s[k..], true)
      {
        PiecesDenote(rest, s[k..]);
      }
      forall k | 0 <= k <= |s|
        ensures Spans(AnyChar, s[..k]) <==> OneLine(s[..k])
        ensures Spans(NotSlash, s[..k]) <==> !HasSlash(s[..k])
      {
      }
    } else if s != "" {
      assert Pieces(glob)[1..] == Pieces(glob[1..]);
      PiecesDenote(glob[1..], s[1..]);
    }
  }

  /** The emitted regex accepts exactly what the glob denotes, a `**` span stopping at a line terminator. */
  lemma TranslationAcceptsDenoted(glob: string, s: string)
    requires ClassFree(glob)
    ensures Accepts(Translate(glob), s) <==> Denotes(glob, s, true)
  {
    TranslationParses(glob);
    PiecesDenote(glob, s);
  }

  /** Over a string without line terminators, that is everything the glob denotes. */
  lemma {:induction false} OneLineDenotes(glob: string, s: string)
    requires OneLine(s)
    ensures Denotes(glob, s, true) <==> Denotes(glob, s, false)
    decreases |glob|
  {
    if glob == "" {
    } else if glob[0] == '*' {
      var rest := if IsDoubleStar(glob) then AfterDoubleStar(glob) else glob[1..];
      forall k | 0 <= k <= |s|
        ensures OneLine(s[..k]) && (Denotes(rest, s[k..], true) <==> Denotes(rest, s[k..], false))
      {
        OneLineDenotes(rest, s[k..]);
      }
    } else if s != "" {
      OneLineDenotes(glob[1..], s[1..]);
    }
  }

  /** The class-free translation on paths without line terminators. */
  lemma TranslationMeansGlob(glob: string, s: string)
    requires ClassFree(glob) && OneLine(s)
    ensures Accepts(Translate(glob), s) <==> Denotes(glob, s, false)
  {
    TranslationAcceptsDenoted(glob, s);
    OneLineDenotes(glob, s);
  }
}
