/** The textual encoding of sections 2 and 3 of RFC 7468: what pem.EncodeToMemory prints for a block
    without headers, and the steps by which pem.Decode reads the block its input starts with. What it
    finds in place of a faulty one is left open. */
module Pem {
  import opened GoStrings
  import opened Base64

  const DASHES := Ascii("-----")
  const ARMOR := Ascii("-----BEGIN")
  const BEGIN := ARMOR + [SPACE]
  const END := Ascii("-----END ")
  const BLANKS: set<byte> := {SPACE, TAB}
  const LINE_LENGTH := 64

  datatype Block = Block(kind: GoString, bytes: seq<byte>)

  /** What becomes of the block a text starts with: it is read, the search ends without one, or the
      block is faulty and the search goes on behind it. */
  datatype Reading = Read(block: Block) | NoBlock | Faulty

  /** A search for blocks in a text; base64 is longer than the bytes it stands for. */
  type BlockFinder = find: GoString -> Option<Block> | forall t :: find(t).Some? ==> |find(t).value.bytes| < |t|
    witness (t: GoString) => None

  function IndexOf(s: GoString, c: byte): (i: nat)
    ensures i <= |s|
  {
    if s == [] || s[0] == c then 0 else 1 + IndexOf(s[1..], c)
  }

  /** Where the first line ends, at LF, CRLF or the end of the text. */
  function LineStop(data: GoString): (i: nat)
    ensures i <= IndexOf(data, LF) <= |data|
  {
    var i := IndexOf(data, LF);
    if i < |data| && i > 0 && data[i - 1] == CR then i - 1 else i
  }

  /** The first line without its line end and trailing blanks, and everything after it. */
  function GetLine(data: GoString): (r: (GoString, GoString))
    ensures data != [] ==> |r.1| < |data|
  {
    var i := IndexOf(data, LF);
    (TrimRight(data[..LineStop(data)], BLANKS), data[if i < |data| then i + 1 else i..])
  }

  /** Where "\n-----END " first occurs. */
  function FindEnd(s: GoString): (r: Option<nat>)
    ensures r.Some? ==> r.value + 1 + |END| <= |s|
  {
    if [LF] + END <= s then Some(0)
    else if s == [] then None
    else match FindEnd(s[1..])
      case Some(i) => Some(i + 1)
      case None => None
  }

  /** Where the END line begins. */
  function EndAt(s: GoString): (r: Option<nat>)
    ensures r.Some? ==> r.value + |END| <= |s|
  {
    if END <= s then Some(0)
    else match FindEnd(s)
      case Some(i) => Some(i + 1)
      case None => None
  }

  /** p occurs in s. */
  predicate Holds(s: GoString, p: GoString) {
    p <= s || (s != [] && Holds(s[1..], p))
  }

  /** How long the header lines are that s starts with, a header being any line with a colon; None if
      nothing follows them. */
  function HeadersLength(s: GoString): (r: Option<nat>)
    ensures r.Some? ==> r.value < |s|
  {
    if s == [] then None
    else
      var (line, next) := GetLine(s);
      if COLON !in line then Some(0)
      else match HeadersLength(next)
        case None => None
        case Some(h) => Some(|s| - |next| + h)
  }

  /** The header lines in front of a body. */
  function HeaderBytes(s: GoString): (r: Option<nat>)
    ensures r.Some? ==> r.value < |s|
  {
    HeadersLength(s)
  }

  function DropBlanks(s: GoString): GoString {
    if s == [] then []
    else if s[0] in BLANKS then DropBlanks(s[1..])
    else [s[0]] + DropBlanks(s[1..])
  }

  /** What the base64 reader sees of a body. */
  function Squeeze(body: GoString): GoString {
    DropNewlines(DropBlanks(body))
  }

  /** Reads the block that t starts with; what a search finds that has to skip it is up to later. */
  function Decode(later: BlockFinder, t: GoString): Option<Block> {
    match ReadFirst(t)
    case Read(block) => Some(block)
    case NoBlock => None
    case Faulty => later(t)
  }

  function ReadFirst(t: GoString): Reading {
    if !(BEGIN <= t) then Faulty
    else
      var (typeLine, rest) := GetLine(t[|BEGIN|..]);
      if |typeLine| < 5 || typeLine[|typeLine| - 5..] != DASHES then Faulty
      else
        var kind := typeLine[..|typeLine| - 5];
        if Holds(kind, BEGIN) then Faulty else ReadBody(kind, rest)
  }

  /** The body reaches from the headers to the END line, which may follow the type line at once; then
      there are no headers. Another BEGIN in between starts another block. The search ends when there
      is no END line, nothing after the headers, or a header that swallows the END line. */
  function ReadBody(kind: GoString, rest: GoString): Reading {
    match EndAt(rest)
    case None => NoBlock
    case Some(end) =>
      if end > 0 && Holds(rest[..end - 1], BEGIN) then Faulty else ReadHeaded(kind, rest, end)
  }

  /** Headers and body up to an END line at end. */
  function ReadHeaded(kind: GoString, rest: GoString, end: nat): Reading
    requires end + |END| <= |rest|
  {
    match HeaderBytes(rest)
    case None => NoBlock
    case Some(h) =>
      if end + |END| < h then NoBlock
      else if h > 0 && end <= h then Faulty
      else Close(kind, if end == 0 then [] else rest[h..end - 1], rest[end + |END|..])
  }

  /** The END line must repeat the type and hold nothing else; then the body must be base64. */
  function Close(kind: GoString, body: GoString, trailer: GoString): Reading {
    if !(kind + DASHES <= trailer) || GetLine(trailer[|kind| + 5..]).0 != [] then Faulty
    else match Base64.Decode(DropBlanks(body))
      case None => Faulty
      case Some(bytes) => Read(Block(kind, bytes))
  }

  /** Lines of 64 characters, each closed by a line feed. */
  function Wrap(s: GoString): GoString {
    if s == [] then []
    else if |s| <= LINE_LENGTH then s + [LF]
    else s[..LINE_LENGTH] + [LF] + Wrap(s[LINE_LENGTH..])
  }

  /** pem.EncodeToMemory(&pem.Block{Type: kind, Bytes: d}). */
  function EncodeToMemory(kind: GoString, d: seq<byte>): GoString {
    Text(kind, [LF], Wrap(Encode(d)), [LF])
  }

  /** A block laid out with any line end after BEGIN, any body and any text after END. */
  function Text(kind: GoString, eol: GoString, body: GoString, tail: GoString): GoString {
    BEGIN + (kind + DASHES + eol + (body + END + (kind + DASHES + tail)))
  }

  /** body holds the base64 of d, broken into lines and spaced in any way. */
  ghost predicate LaysOut(body: GoString, d: seq<byte>) {
    && (body != [] ==> body[|body| - 1] == LF)
    && (forall c <- body :: IsPrinted(c) || c in BLANKS || c == LF || c == CR)
    && Squeeze(body) == Encode(d)
  }

  /** A type such as CERTIFICATE: it stays within its line and does not open a block itself. */
  predicate IsKind(kind: GoString) {
    LF !in kind && !Holds(kind, BEGIN)
  }

  /** An END line that follows the type line at once is read as a header if it holds a colon. */
  predicate EndsAsHeader(kind: GoString, body: GoString) {
    body == [] && COLON in kind
  }

  lemma {:induction false} IndexOfFirst(a: GoString, c: byte, b: GoString)
    requires c !in a
    ensures IndexOf(a + [c] + b, c) == |a|
  {
    if a != [] {
      assert (a + [c] + b)[1..] == a[1..] + [c] + b;
      IndexOfFirst(a[1..], c, b);
    }
  }

  lemma TypeLine(line: GoString, eol: GoString, rest: GoString)
    requires LF !in line && line != [] && line[|line| - 1] == DASH
    requires eol == [LF] || eol == [CR, LF]
    ensures GetLine(line + eol + rest) == (line, rest)
  {
    var data := line + eol + rest;
    var shown := line + eol[..|eol| - 1];
    assert data == shown + [LF] + rest;
    IndexOfFirst(shown, LF, rest);
    assert data[..|line|] == line;
    assert data[|shown| + 1..] == rest;
  }

  lemma {:induction false} EndFound(body: GoString, rest: GoString)
    requires DASH !in body
    ensures FindEnd(body + [LF] + END + rest) == Some(|body|)
  {
    var s := body + [LF] + END + rest;
    if body == [] {
      assert s == [LF] + END + rest;
    } else {
      assert s[1..] == body[1..] + [LF] + END + rest;
      assert !([LF] + END <= s) by {
        assert END[0] == DASH;
        assert ([LF] + END)[1] == DASH;
        assert s[1] == (if |body| > 1 then body[1] else LF);
      }
      EndFound(body[1..], rest);
    }
  }

  /** The decoder finds the END line of a laid out body, whatever comes after it. */
  lemma BodyFound(body: GoString, trailer: GoString)
    requires body != [] && body[|body| - 1] == LF && DASH !in body
    ensures var rest := body + END + trailer;
            EndAt(rest) == Some(|body|) && rest[..|body| - 1] == body[..|body| - 1] && rest[|body| + |END|..] == trailer
  {
    var rest := body + END + trailer;
    var inner := body[..|body| - 1];
    assert rest == inner + [LF] + END + trailer;
    assert END[0] == DASH && rest[0] == body[0];
    EndFound(inner, trailer);
    ConcatParts(body + END, trailer);
  }

  /** The last line feed of a body is the one in front of END. */
  lemma SqueezeLastLine(body: GoString)
    requires body != [] && body[|body| - 1] == LF
    ensures Squeeze(body[..|body| - 1]) == Squeeze(body)
  {
    var inner := body[..|body| - 1];
    assert body == inner + [LF];
    SqueezeConcat(inner, [LF]);
    SqueezeCons([LF]);
  }

  lemma PrintedIsVisible(c: byte)
    requires IsPrinted(c)
    ensures c > 32 && c != DASH && c != COLON
  {
  }

  lemma SqueezeCons(s: GoString)
    requires s != []
    ensures Squeeze(s) ==
            if s[0] in BLANKS || s[0] == LF || s[0] == CR then Squeeze(s[1..]) else [s[0]] + Squeeze(s[1..])
  {
    if s[0] !in BLANKS {
      assert DropBlanks(s)[1..] == DropBlanks(s[1..]);
    }
  }

  lemma {:induction false} DropBlanksConcat(a: GoString, b: GoString)
    ensures DropBlanks(a + b) == DropBlanks(a) + DropBlanks(b)
  {
    if a == [] {
      assert a + b == b;
    } else {
      assert (a + b)[1..] == a[1..] + b;
      DropBlanksConcat(a[1..], b);
    }
  }

  lemma {:induction false} DropNewlinesConcat(a: GoString, b: GoString)
    ensures DropNewlines(a + b) == DropNewlines(a) + DropNewlines(b)
  {
    if a == [] {
      assert a + b == b;
    } else {
      assert (a + b)[1..] == a[1..] + b;
      DropNewlinesConcat(a[1..], b);
    }
  }

  lemma SqueezeConcat(a: GoString, b: GoString)
    ensures Squeeze(a + b) == Squeeze(a) + Squeeze(b)
  {
    DropBlanksConcat(a, b);
    DropNewlinesConcat(DropBlanks(a), DropBlanks(b));
  }

  /** The type line splits off, leaving body, END line and the rest. */
  lemma TypeLineFound(kind: GoString, eol: GoString, body: GoString, tail: GoString)
    requires IsKind(kind)
    requires eol == [LF] || eol == [CR, LF]
    ensures var t := Text(kind, eol, body, tail);
            BEGIN <= t && GetLine(t[|BEGIN|..]) == (kind + DASHES, body + END + (kind + DASHES + tail))
    ensures (kind + DASHES)[|kind|..] == DASHES && (kind + DASHES)[..|kind|] == kind
  {
    var line := kind + DASHES;
    var rest := body + END + (kind + DASHES + tail);
    var t := Text(kind, eol, body, tail);
    assert t[|BEGIN|..] == line + eol + rest;
    assert line[|line| - 1] == DASHES[4] == DASH;
    assert LF !in DASHES;
    TypeLine(line, eol, rest);
  }

  lemma SqueezedDecodes(body: GoString, d: seq<byte>)
    requires Squeeze(body) == Encode(d)
    ensures Base64.Decode(DropBlanks(body)) == Some(d)
  {
    QuadsInverse(d);
  }

  lemma CloseReads(kind: GoString, body: GoString, tail: GoString, d: seq<byte>)
    requires Squeeze(body) == Encode(d) && GetLine(tail).0 == []
    ensures Close(kind, body, kind + DASHES + tail) == Read(Block(kind, d))
  {
    ConcatParts(kind + DASHES, tail);
    SqueezedDecodes(body, d);
  }

  lemma PlainKind(kind: GoString)
    requires forall c <- kind :: c > 64
    ensures IsKind(kind) && COLON !in kind
  {
    NoDashNoBegin(kind);
  }

  lemma {:induction false} NoDashNoBegin(s: GoString)
    requires DASH !in s
    ensures !Holds(s, BEGIN)
  {
    assert BEGIN[0] == DASH;
    if s != [] {
      NoDashNoBegin(s[1..]);
    }
  }

  lemma {:induction false} IndexWithin(a: GoString, c: byte, b: GoString)
    requires c in a
    ensures IndexOf(a + b, c) < |a| && IndexOf(a + b, c) == IndexOf(a, c)
  {
    if a[0] != c {
      assert (a + b)[1..] == a[1..] + b;
      IndexWithin(a[1..], c, b);
    }
  }

  /** A body line is no header. */
  lemma BodyHasNoHeaders(body: GoString, more: GoString)
    requires LF in body && COLON !in body
    ensures HeaderBytes(body + more) == Some(0)
  {
    var s := body + more;
    IndexWithin(body, LF, more);
    assert GetLine(s).0 <= s[..IndexOf(s, LF)] <= body;
  }

  lemma {:induction false} TrimRightBlank(line: GoString, blank: GoString)
    requires line != [] && line[|line| - 1] !in BLANKS && TrimRight(blank, BLANKS) == []
    ensures TrimRight(line + blank, BLANKS) == line
  {
    var s := line + blank;
    if blank == [] {
      assert s == line;
    } else {
      assert s[..|s| - 1] == line + blank[..|blank| - 1];
      TrimRightBlank(line, blank[..|blank| - 1]);
    }
  }

  lemma {:induction false} IndexAfter(a: GoString, c: byte, b: GoString)
    requires c !in a
    ensures IndexOf(a + b, c) == |a| + IndexOf(b, c)
  {
    if a == [] {
      assert a + b == b;
    } else {
      assert (a + b)[1..] == a[1..] + b;
      IndexAfter(a[1..], c, b);
    }
  }

  lemma StopAfter(line: GoString, tail: GoString)
    requires LF !in line && line != [] && line[|line| - 1] != CR
    ensures LineStop(line + tail) == |line| + LineStop(tail)
    ensures (line + tail)[..|line| + LineStop(tail)] == line + tail[..LineStop(tail)]
  {
    IndexAfter(line, LF, tail);
  }

  /** The END line, whatever blanks end it, is one line of the text. */
  lemma EndLine(line: GoString, tail: GoString)
    requires LF !in line && line != [] && line[|line| - 1] == DASH && GetLine(tail).0 == []
    ensures GetLine(line + tail).0 == line
  {
    StopAfter(line, tail);
    TrimRightBlank(line, tail[..LineStop(tail)]);
  }

  lemma NoBodyReads(kind: GoString, tail: GoString, d: seq<byte>)
    requires LF !in kind && LaysOut([], d) && GetLine(tail).0 == []
    ensures ReadBody(kind, [] + END + (kind + DASHES + tail)) == if COLON in kind then NoBlock else Read(Block(kind, d))
  {
    var trailer := kind + DASHES + tail;
    var rest := [] + END + trailer;
    assert rest[|END|..] == trailer;
    FirstLineIsEnd(kind, tail);
    EndAtOnce(kind, rest);
    CloseReads(kind, [], tail, d);
  }

  /** With the END line first, its colon decides. */
  lemma EndAtOnce(kind: GoString, rest: GoString)
    requires END <= rest
    ensures ReadBody(kind, rest) == if COLON in GetLine(rest).0 then NoBlock else Close(kind, [], rest[|END|..])
  {
    if COLON in GetLine(rest).0 {
      HeaderIsLonger(rest);
    }
  }

  /** A header line that starts with the END mark reaches past it. */
  lemma HeaderIsLonger(rest: GoString)
    requires END <= rest && COLON in GetLine(rest).0
    ensures HeaderBytes(rest).Some? ==> HeaderBytes(rest).value > |END|
  {
    var (line, next) := GetLine(rest);
    EndCharacters();
    forall j | 0 <= j < |END|
      ensures rest[j] != COLON
    {
      assert rest[j] == END[j];
    }
    var i :| 0 <= i < |line| && line[i] == COLON;
    assert rest[i] == COLON;
    assert |rest| - |next| >= |line|;
  }

  lemma FirstLineIsEnd(kind: GoString, tail: GoString)
    requires LF !in kind && GetLine(tail).0 == []
    ensures var rest := [] + END + (kind + DASHES + tail);
      rest != [] && (COLON in GetLine(rest).0 <==> COLON in kind)
  {
    var line := END + kind + DASHES;
    EndCharacters();
    assert line[|line| - 1] == DASHES[4];
    assert [] + END + (kind + DASHES + tail) == line + tail;
    EndLine(line, tail);
  }

  lemma EndCharacters()
    ensures LF !in END && COLON !in END && LF !in DASHES && COLON !in DASHES
    ensures DASHES[4] == DASH
  {
  }

  lemma BodyReads(kind: GoString, body: GoString, tail: GoString, d: seq<byte>)
    requires body != [] && LaysOut(body, d) && GetLine(tail).0 == []
    ensures ReadBody(kind, body + END + (kind + DASHES + tail)) == Read(Block(kind, d))
  {
    BodyCharacters(body, d);
    HeadedBodyReads(kind, [], body, kind + DASHES + tail);
    assert HeaderText([]) + body == body;
    SqueezeLastLine(body);
    CloseReads(kind, body[..|body| - 1], tail, d);
  }

  lemma BodyCharacters(body: GoString, d: seq<byte>)
    requires LaysOut(body, d)
    ensures DASH !in body && COLON !in body
  {
    if c :| c in body && (c == DASH || c == COLON) {
      assert IsPrinted(c);
      PrintedIsVisible(c);
    }
  }

  lemma ReadText(kind: GoString, eol: GoString, body: GoString, tail: GoString)
    requires IsKind(kind) && (eol == [LF] || eol == [CR, LF])
    ensures ReadFirst(Text(kind, eol, body, tail)) == ReadBody(kind, body + END + (kind + DASHES + tail))
  {
    TypeLineFound(kind, eol, body, tail);
  }

  lemma LaidOutReads(kind: GoString, body: GoString, tail: GoString, d: seq<byte>)
    requires IsKind(kind) && LaysOut(body, d) && GetLine(tail).0 == []
    ensures ReadBody(kind, body + END + (kind + DASHES + tail))
            == if EndsAsHeader(kind, body) then NoBlock else Read(Block(kind, d))
  {
    if body == [] {
      NoBodyReads(kind, tail, d);
    } else {
      BodyReads(kind, body, tail, d);
    }
  }

  /** Decode reads back the block from every layout: any line breaks and blanks in the body, LF or
      CRLF after BEGIN, and any text following the END line. The one exception is an END line that is
      taken for a header; then it reads no block at all. */
  lemma DecodeText(later: BlockFinder, kind: GoString, eol: GoString, body: GoString, tail: GoString, d: seq<byte>)
    requires IsKind(kind) && LaysOut(body, d)
    requires eol == [LF] || eol == [CR, LF]
    requires GetLine(tail).0 == []
    ensures Decode(later, Text(kind, eol, body, tail))
            == if EndsAsHeader(kind, body) then None else Some(Block(kind, d))
  {
    ReadText(kind, eol, body, tail);
    LaidOutReads(kind, body, tail, d);
  }

  lemma {:induction false} WrapLaysOut(s: GoString)
    requires forall c <- s :: IsPrinted(c)
    ensures Wrap(s) != [] ==> Wrap(s)[|Wrap(s)| - 1] == LF
    ensures forall c <- Wrap(s) :: IsPrinted(c) || c == LF
    ensures Squeeze(Wrap(s)) == s
  {
    if s != [] {
      var line := if |s| <= LINE_LENGTH then s else s[..LINE_LENGTH];
      var more := s[|line|..];
      assert Wrap(s) == line + [LF] + Wrap(more);
      WrapLaysOut(more);
      SqueezeConcat(line + [LF], Wrap(more));
      SqueezeConcat(line, [LF]);
      SqueezeCons([LF]);
      SqueezePrinted(line);
      assert s == line + more;
    }
  }

  lemma {:induction false} SqueezePrinted(s: GoString)
    requires forall c <- s :: IsPrinted(c)
    ensures Squeeze(s) == s
  {
    if s != [] {
      SqueezeCons(s);
      assert IsPrinted(s[0]);
      PrintedIsVisible(s[0]);
      SqueezePrinted(s[1..]);
    }
  }

  lemma EncodedLaysOut(d: seq<byte>)
    ensures LaysOut(Wrap(Encode(d)), d) && (Wrap(Encode(d)) == [] <==> d == [])
  {
    EncodePrints(d);
    WrapLaysOut(Encode(d));
    WrapEmpty(Encode(d));
  }

  lemma WrapEmpty(s: GoString)
    ensures Wrap(s) == [] <==> s == []
  {
  }

  lemma LineFeedIsBlank()
    ensures GetLine([LF]).0 == []
  {
  }

  /** What the encoder prints is one of those layouts, so decoding undoes encoding, except for an empty
      block whose type holds a colon. */
  lemma EncodeDecode(later: BlockFinder, kind: GoString, d: seq<byte>)
    requires IsKind(kind)
    ensures LaysOut(Wrap(Encode(d)), d)
    ensures Decode(later, EncodeToMemory(kind, d)) == if d == [] && COLON in kind then None else Some(Block(kind, d))
  {
    EncodedLaysOut(d);
    LineFeedIsBlank();
    DecodeText(later, kind, [LF], Wrap(Encode(d)), [LF], d);
  }

  lemma {:induction false} DropBlanksShrinks(s: GoString)
    ensures |DropBlanks(s)| <= |s|
  {
    if s != [] {
      DropBlanksShrinks(s[1..]);
    }
  }

  lemma CloseShrinks(kind: GoString, body: GoString, trailer: GoString)
    ensures Close(kind, body, trailer).Read? ==> |Close(kind, body, trailer).block.bytes| <= |body|
  {
    DropBlanksShrinks(body);
    DropNewlinesShrinks(DropBlanks(body));
    DecodeShrinks(DropNewlines(DropBlanks(body)));
  }

  lemma BodyShrinks(kind: GoString, rest: GoString)
    ensures ReadBody(kind, rest).Read? ==> |ReadBody(kind, rest).block.bytes| <= |rest|
  {
    if ReadBody(kind, rest).Read? {
      var end, h := EndAt(rest).value, HeaderBytes(rest).value;
      CloseShrinks(kind, if end == 0 then [] else rest[h..end - 1], rest[end + |END|..]);
    }
  }

  lemma FirstShrinks(t: GoString)
    ensures ReadFirst(t).Read? ==> |ReadFirst(t).block.bytes| < |t|
  {
    if ReadFirst(t).Read? {
      var (line, rest) := GetLine(t[|BEGIN|..]);
      BodyShrinks(line[..|line| - 5], rest);
    }
  }

  /** The bytes of a block are fewer than those of its text. */
  lemma BlockIsShorter(later: BlockFinder, t: GoString)
    ensures Decode(later, t).Some? ==> |Decode(later, t).value.bytes| < |t|
  {
    FirstShrinks(t);
  }

  // The text written out, and what is refused.

  /** The text of a block: the marks of section 3 of RFC 7468 around the body. */
  lemma Layout(kind: GoString, d: seq<byte>)
    ensures EncodeToMemory(kind, d)
            == Ascii("-----BEGIN ") + (kind + Ascii("-----") + [10]
               + (Wrap(Encode(d)) + Ascii("-----END ") + (kind + Ascii("-----") + [10])))
  {
    assert BEGIN == Ascii("-----BEGIN ");
  }

  /** Every line of the body has 64 characters, the last one perhaps fewer, and each ends in LF. */
  lemma {:induction false} WrapColumns(s: GoString, i: nat)
    requires i < |s|
    ensures |Wrap(s)| == |s| + (|s| + 63) / 64 && Wrap(s)[|Wrap(s)| - 1] == 10
    ensures Wrap(s)[i + i / 64] == s[i]
    ensures i % 64 == 63 ==> Wrap(s)[i + i / 64 + 1] == 10
  {
    if |s| > LINE_LENGTH {
      var more := s[LINE_LENGTH..];
      WrapColumns(more, if i < 64 then 0 else i - 64);
      assert Wrap(s) == (s[..64] + [LF]) + Wrap(more);
      if i >= 64 {
        assert i / 64 == (i - 64) / 64 + 1 && i % 64 == (i - 64) % 64;
        assert Wrap(s)[i + i / 64] == Wrap(more)[i - 64 + (i - 64) / 64];
      }
    }
  }

  /** The characters that do not count in a body: space, tab, line feed and carriage return. */
  lemma SqueezeDrops(c: byte)
    ensures Squeeze([c]) == if c == 32 || c == 9 || c == 10 || c == 13 then [] else [c]
  {
    SqueezeCons([c]);
  }

  /** A text with a body of any content, without dashes and colons, up to its END mark. */
  lemma FirstRead(kind: GoString, eol: GoString, body: GoString, trailer: GoString)
    requires IsKind(kind) && (eol == [LF] || eol == [CR, LF])
    requires body != [] && body[|body| - 1] == LF && DASH !in body && COLON !in body
    ensures ReadFirst(BEGIN + (kind + DASHES + eol + (body + END + trailer)))
            == Close(kind, body[..|body| - 1], trailer)
  {
    LineFound(kind, eol, body + END + trailer);
    BodyFound(body, trailer);
    ConcatAssoc(body, END, trailer);
    BodyHasNoHeaders(body, END + trailer);
    NoDashNoBegin(body[..|body| - 1]);
  }

  lemma LineFound(kind: GoString, eol: GoString, rest: GoString)
    requires IsKind(kind) && (eol == [LF] || eol == [CR, LF])
    ensures ReadFirst(BEGIN + (kind + DASHES + eol + rest)) == ReadBody(kind, rest)
  {
    var line := kind + DASHES;
    ConcatParts(BEGIN, line + eol + rest);
    assert line[|line| - 1] == DASHES[4] == DASH;
    EndCharacters();
    TypeLine(line, eol, rest);
    ConcatParts(kind, DASHES);
  }

  lemma CloseDecides(kind: GoString, body: GoString, trailer: GoString)
    ensures DecodeQuads(Squeeze(body)).Some? <==> IsBase64(Squeeze(body))
    ensures var closed := kind + DASHES <= trailer && GetLine(trailer[|kind| + 5..]).0 == [];
      Close(kind, body, trailer) ==
      if closed && IsBase64(Squeeze(body)) then Read(Block(kind, DecodeQuads(Squeeze(body)).value)) else Faulty
  {
    DecodesIffBase64(Squeeze(body));
  }

  /** A block is read exactly when its END line repeats its type, nothing but blanks follows there, and the
      body is base64; any other block is faulty. */
  lemma ReadsExactly(kind: GoString, eol: GoString, body: GoString, trailer: GoString)
    requires IsKind(kind) && (eol == [10] || eol == [13, 10])
    requires body != [] && body[|body| - 1] == 10 && DASH !in body && COLON !in body
    ensures IsBase64(Squeeze(body)) <==> DecodeQuads(Squeeze(body)).Some?
    ensures var closed := kind + Ascii("-----") <= trailer && GetLine(trailer[|kind| + 5..]).0 == [];
      ReadFirst(Ascii("-----BEGIN ") + (kind + Ascii("-----") + eol + (body + Ascii("-----END ") + trailer))) ==
      if closed && IsBase64(Squeeze(body)) then Read(Block(kind, DecodeQuads(Squeeze(body)).value)) else Faulty
  {
    assert BEGIN == Ascii("-----BEGIN ");
    DecodesIffBase64(Squeeze(body));
    FirstRead(kind, eol, body, trailer);
    SqueezeLastLine(body);
    CloseDecides(kind, body[..|body| - 1], trailer);
  }

  /** A body with a byte that is neither base64 nor blank is not base64, whatever else it holds. */
  lemma BadByte(body: GoString, i: nat)
    requires i < |body| && !IsSymbol(body[i])
    requires body[i] != '=' as int && body[i] != 32 && body[i] != 9 && body[i] != 10 && body[i] != 13
    ensures !IsBase64(Squeeze(body))
  {
    var before, behind := body[..i], body[i + 1..];
    assert body == before + ([body[i]] + behind);
    SqueezeConcat(before, [body[i]] + behind);
    SqueezeConcat([body[i]], behind);
    SqueezeDrops(body[i]);
    BadCharacter(Squeeze(before), body[i], Squeeze(behind));
    ConcatAssoc(Squeeze(before), [body[i]], Squeeze(behind));
  }

  lemma BadCharacter(a: GoString, c: byte, b: GoString)
    requires !IsSymbol(c) && c != '=' as int
    ensures !IsBase64(a + ([c] + b))
  {
    var s := a + ([c] + b);
    assert s[|a|] == c;
  }

  lemma NoBeginBefore(kind: GoString, rest: GoString, end: nat)
    requires EndAt(rest) == Some(end) && end > 0 && DASH !in rest[..end - 1]
    ensures ReadBody(kind, rest) == ReadHeaded(kind, rest, end)
  {
    NoDashNoBegin(rest[..end - 1]);
  }

  lemma BodyBehind(kind: GoString, rest: GoString, h: nat, end: nat)
    requires HeaderBytes(rest) == Some(h) && h < end && end + |END| <= |rest|
    ensures ReadHeaded(kind, rest, end) == Close(kind, rest[h..end - 1], rest[end + |END|..])
  {
  }

  lemma HeadedBody(headers: GoString, body: GoString, trailer: GoString)
    requires body != []
    ensures var all := headers + body; var rest := all + END + trailer;
      && rest == headers + (body + (END + trailer))
      && rest[..|all| - 1] == all[..|all| - 1] && rest[|headers|..|all| - 1] == body[..|body| - 1]
      && rest[|all| + |END|..] == trailer
  {
    var all := headers + body;
    ConcatAssoc(all, END, trailer);
    ConcatAssoc(headers, body, END + trailer);
    ConcatParts(all + END, trailer);
  }

  lemma EndBehind(kind: GoString, all: GoString, trailer: GoString)
    requires all != [] && all[|all| - 1] == LF && DASH !in all
    ensures var rest := all + END + trailer;
      |all| + |END| <= |rest| && ReadBody(kind, rest) == ReadHeaded(kind, rest, |all|)
  {
    BodyFound(all, trailer);
    NoBeginBefore(kind, all + END + trailer, |all|);
  }

  lemma HeadersBefore(lines: seq<GoString>, body: GoString, trailer: GoString)
    requires (forall l <- lines :: IsHeader(l)) && LF in body && COLON !in body
    ensures HeaderBytes(HeaderText(lines) + (body + (END + trailer))) == Some(|HeaderText(lines)|)
  {
    BodyHasNoHeaders(body, END + trailer);
    HeadersCounted(lines, body + (END + trailer));
  }

  lemma HeadedBodyReads(kind: GoString, lines: seq<GoString>, body: GoString, trailer: GoString)
    requires forall l <- lines :: IsHeader(l)
    requires body != [] && body[|body| - 1] == LF && DASH !in body && COLON !in body
    ensures ReadBody(kind, HeaderText(lines) + body + END + trailer) == Close(kind, body[..|body| - 1], trailer)
  {
    var headers := HeaderText(lines);
    HeadersHoldNoDash(lines);
    EndBehind(kind, headers + body, trailer);
    HeadersBefore(lines, body, trailer);
    HeadedBody(headers, body, trailer);
    BodyBehind(kind, headers + body + END + trailer, |headers|, |headers + body|);
  }

  /** Header lines in front of the body do not matter. */
  lemma HeadersSkipped(kind: GoString, eol: GoString, lines: seq<GoString>, body: GoString, trailer: GoString)
    requires IsKind(kind) && (eol == [10] || eol == [13, 10])
    requires forall l <- lines :: IsHeader(l)
    requires body != [] && body[|body| - 1] == 10 && DASH !in body && COLON !in body
    ensures ReadFirst(Ascii("-----BEGIN ")
                      + (kind + Ascii("-----") + eol + (HeaderText(lines) + body + Ascii("-----END ") + trailer)))
            == Close(kind, body[..|body| - 1], trailer)
  {
    assert BEGIN == Ascii("-----BEGIN ");
    LineFound(kind, eol, HeaderText(lines) + body + END + trailer);
    HeadedBodyReads(kind, lines, body, trailer);
  }

  /** A line with a colon, without its line feed and without dashes or padding at its end. */
  predicate IsHeader(line: GoString) {
    && COLON in line && LF !in line && DASH !in line
    && line[|line| - 1] != CR && line[|line| - 1] !in BLANKS
  }

  function HeaderText(lines: seq<GoString>): GoString {
    if lines == [] then [] else lines[0] + [LF] + HeaderText(lines[1..])
  }

  lemma {:induction false} HeadersHoldNoDash(lines: seq<GoString>)
    requires forall l <- lines :: IsHeader(l)
    ensures DASH !in HeaderText(lines)
  {
    if lines != [] {
      HeadersHoldNoDash(lines[1..]);
      assert IsHeader(lines[0]);
    }
  }

  lemma HeaderLine(line: GoString, next: GoString)
    requires IsHeader(line)
    ensures GetLine(line + [LF] + next) == (line, next)
  {
    var data := line + [LF] + next;
    IndexOfFirst(line, LF, next);
    assert data[..|line|] == line && data[|line| + 1..] == next;
  }

  lemma HeaderStep(s: GoString, line: GoString, next: GoString, h: nat)
    requires s != [] && GetLine(s) == (line, next) && COLON in line && HeaderBytes(next) == Some(h)
    ensures HeaderBytes(s) == Some(|s| - |next| + h)
  {
  }

  lemma FirstHeader(line: GoString, text: GoString, more: GoString)
    requires IsHeader(line) && HeaderBytes(text + more) == Some(|text|)
    ensures HeaderBytes(line + [LF] + text + more) == Some(|line + [LF] + text|)
  {
    ConcatAssoc(line + [LF], text, more);
    HeaderLine(line, text + more);
    HeaderStep(line + [LF] + (text + more), line, text + more, |text|);
  }

  lemma {:induction false} HeadersCounted(lines: seq<GoString>, more: GoString)
    requires (forall l <- lines :: IsHeader(l)) && HeaderBytes(more) == Some(0)
    ensures HeaderBytes(HeaderText(lines) + more) == Some(|HeaderText(lines)|)
  {
    if lines == [] {
      assert HeaderText(lines) + more == more;
    } else {
      HeadersCounted(lines[1..], more);
      FirstHeader(lines[0], HeaderText(lines[1..]), more);
    }
  }
}
