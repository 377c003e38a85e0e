/** keywordsJSON and exampleQueriesJSON (internal/x509worker/meta.go). */
module Keywords {
  import opened GoStrings
  import opened Json

  /** unicode.IsSpace. */
  predicate IsSpace(c: char) {
    var v := c as int;
    9 <= v <= 13 || v == 0x20 || v == 0x85 || v == 0xA0 || v == 0x1680 || 0x2000 <= v <= 0x200A
    || v == 0x2028 || v == 0x2029 || v == 0x202F || v == 0x205F || v == 0x3000
  }

  const WHITE_SPACE := set c: char | IsSpace(c)

  /** The pieces that are not blank, trimmed of spaces. */
  function Clean(spaces: set<char>, parts: seq<string>): seq<string> {
    if parts == [] then []
    else
      var s := Trim(parts[0], spaces);
      (if s == "" then [] else [s]) + Clean(spaces, parts[1..])
  }

  /** The keywords a comma-separated list stands for. */
  function KeywordsOf(csv: string): seq<string> {
    Clean(WHITE_SPACE, Split(csv, ','))
  }

  method KeywordsJSON(csv: string) returns (json: string)
    ensures json == StringsText(KeywordsOf(csv))
  {
    var parts := Split(csv, ',');
    var kw := TrimAndDrop(WHITE_SPACE, parts);
    json := StringsText(kw);
  }

  /** The loop of keywordsJSON. */
  method TrimAndDrop(spaces: set<char>, parts: seq<string>) returns (kw: seq<string>)
    ensures kw == Clean(spaces, parts)
  {
    kw := [];
    for i := 0 to |parts|
      invariant kw == Clean(spaces, parts[..i])
    {
      var s := Trim(parts[i], spaces);
      CleanOneMore(spaces, parts[..i], parts[i]);
      assert parts[..i + 1] == parts[..i] + [parts[i]];
      if s != "" {
        kw := kw + [s];
      }
    }
    assert parts[..|parts|] == parts;
  }

  /** A JSON reader finds the keywords in the tag, in order, for every list whatever its characters. */
  lemma TagHoldsKeywords(csv: string)
    ensures ReadArray(ReadString, StringsText(KeywordsOf(csv))) == Some(KeywordsOf(csv))
  {
    StringsInverse(KeywordsOf(csv));
  }

  /** A list as KeywordsOf makes them: no piece is empty, is padded with space or holds a comma. */
  ghost predicate IsKeywordList(spaces: set<char>, ks: seq<string>) {
    forall k <- ks :: k != "" && ',' !in k && IsTrimmed(k, spaces)
  }

  lemma {:induction false} CleanConcat(spaces: set<char>, a: seq<string>, b: seq<string>)
    ensures Clean(spaces, a + b) == Clean(spaces, a) + Clean(spaces, b)
  {
    if a == [] {
      assert a + b == b;
    } else {
      assert (a + b)[1..] == a[1..] + b;
      CleanConcat(spaces, a[1..], b);
    }
  }

  lemma CleanOneMore(spaces: set<char>, parts: seq<string>, p: string)
    ensures Clean(spaces, parts + [p])
            == Clean(spaces, parts) + (if Trim(p, spaces) == "" then [] else [Trim(p, spaces)])
  {
    CleanConcat(spaces, parts, [p]);
    assert [p][1..] == [];
  }

  lemma {:induction false} CleanIsKeywordList(spaces: set<char>, parts: seq<string>)
    requires forall p <- parts :: ',' !in p
    ensures IsKeywordList(spaces, Clean(spaces, parts))
  {
    if parts != [] {
      CleanIsKeywordList(spaces, parts[1..]);
      TrimTrims(parts[0], spaces);
    }
  }

  lemma {:induction false} CleanKeeps(spaces: set<char>, ks: seq<string>)
    requires IsKeywordList(spaces, ks)
    ensures Clean(spaces, ks) == ks
  {
    if ks != [] {
      TrimFixed(ks[0], spaces);
      CleanKeeps(spaces, ks[1..]);
      assert ks == [ks[0]] + ks[1..];
    }
  }

  /** Joining two lists with a comma joins their keywords in order. */
  lemma KeywordsConcat(a: string, b: string)
    ensures KeywordsOf(a + "," + b) == KeywordsOf(a) + KeywordsOf(b)
  {
    SplitConcat(a, b, ',');
    CleanConcat(WHITE_SPACE, Split(a, ','), Split(b, ','));
  }

  lemma BlankHasNone(spaces: set<char>)
    ensures Clean(spaces, [""]) == []
  {
    TrimFixed("", spaces);
    assert [""][1..] == [];
  }

  /** Every result is a keyword list, and the keyword lists are exactly the lists that survive being
      joined and read again: normalising twice changes nothing. */
  lemma KeywordsFixed(ks: seq<string>)
    ensures KeywordsOf(Join(ks, ',')) == ks <==> IsKeywordList(WHITE_SPACE, ks)
  {
    if IsKeywordList(WHITE_SPACE, ks) {
      if ks == [] {
        assert Split("", ',') == [""];
        BlankHasNone(WHITE_SPACE);
      } else {
        SplitJoin(ks, ',');
        CleanKeeps(WHITE_SPACE, ks);
      }
    } else {
      PiecesHoldNoSeparator(Join(ks, ','), ',');
      CleanIsKeywordList(WHITE_SPACE, Split(Join(ks, ','), ','));
    }
  }

  /** A list decoded from the tag and joined again encodes to the same tag. */
  lemma KeywordsNormal(csv: string)
    ensures IsKeywordList(WHITE_SPACE, KeywordsOf(csv))
    ensures KeywordsOf(Join(KeywordsOf(csv), ',')) == KeywordsOf(csv)
  {
    PiecesHoldNoSeparator(csv, ',');
    CleanIsKeywordList(WHITE_SPACE, Split(csv, ','));
    KeywordsFixed(KeywordsOf(csv));
  }

  /** vgi.CatalogExample and executableExample, each in its own field order. */
  datatype CatalogExample = CatalogExample(sql: string, description: string)

  datatype ExecutableExample = ExecutableExample(description: string, sql: string)

  function MembersOf(e: ExecutableExample): seq<(string, string)> {
    [("description", e.description), ("sql", e.sql)]
  }

  /** exampleQueriesJSON: no example loses its description or its statement. */
  method ExampleQueriesJSON(exs: seq<CatalogExample>) returns (json: string)
    ensures ReadArray(ReadObject, json)
            == Some(seq(|exs|, i requires 0 <= i < |exs| =>
                 [("description", exs[i].description), ("sql", exs[i].sql)]))
  {
    var out := new ExecutableExample[|exs|](_ => ExecutableExample("", ""));
    for i := 0 to |exs|
      invariant forall k | 0 <= k < i :: out[k] == ExecutableExample(exs[k].description, exs[k].sql)
    {
      out[i] := ExecutableExample(exs[i].description, exs[i].sql);
    }
    var objects := Objects(out[..]);
    json := ArrayText(ObjectText, objects);
    ObjectsInverse(objects);
    ObjectsOf(out[..], exs);
  }

  function Objects(out: seq<ExecutableExample>): seq<seq<(string, string)>> {
    seq(|out|, i requires 0 <= i < |out| => MembersOf(out[i]))
  }

  lemma ObjectsOf(out: seq<ExecutableExample>, exs: seq<CatalogExample>)
    requires |out| == |exs|
    requires forall k | 0 <= k < |exs| :: out[k] == ExecutableExample(exs[k].description, exs[k].sql)
    ensures Objects(out) == seq(|exs|, i requires 0 <= i < |exs| =>
              [("description", exs[i].description), ("sql", exs[i].sql)])
  {
  }

  // The white space written out.

  /** The characters of the Unicode property White_Space. */
  predicate IsUnicodeSpace(c: char) {
    c as int in {0x09, 0x0A, 0x0B, 0x0C, 0x0D, 0x20, 0x85, 0xA0, 0x1680, 0x2000, 0x2001, 0x2002, 0x2003, 0x2004,
                 0x2005, 0x2006, 0x2007, 0x2008, 0x2009, 0x200A, 0x2028, 0x2029, 0x202F, 0x205F, 0x3000}
  }

  lemma SpacesWrittenOut(c: char)
    ensures c in WHITE_SPACE <==> IsUnicodeSpace(c)
  {
  }

  /** The piece is k with white space around it. */
  ghost predicate Pads(piece: string, k: string) {
    exists before: string, behind: string ::
      && piece == before + k + behind
      && (forall c <- before :: IsUnicodeSpace(c)) && (forall c <- behind :: IsUnicodeSpace(c))
  }

  lemma PieceTrimmed(piece: string, k: string)
    requires Pads(piece, k) && k != "" && !IsUnicodeSpace(k[0]) && !IsUnicodeSpace(k[|k| - 1])
    ensures Trim(piece, WHITE_SPACE) == k
  {
    var before: string, behind: string :|
      && piece == before + k + behind
      && (forall c <- before :: IsUnicodeSpace(c)) && (forall c <- behind :: IsUnicodeSpace(c));
    forall c: char
      ensures c in WHITE_SPACE <==> IsUnicodeSpace(c)
    {
      SpacesWrittenOut(c);
    }
    TrimPadded(before, k, behind, WHITE_SPACE);
  }

  lemma {:induction false} PiecesTrimmed(pieces: seq<string>, ks: seq<string>)
    requires |pieces| == |ks|
    requires forall i | 0 <= i < |ks| ::
      Pads(pieces[i], ks[i]) && ks[i] != "" && !IsUnicodeSpace(ks[i][0]) && !IsUnicodeSpace(ks[i][|ks[i]| - 1])
    ensures Clean(WHITE_SPACE, pieces) == ks
  {
    if ks != [] {
      PieceTrimmed(pieces[0], ks[0]);
      PiecesTrimmed(pieces[1..], ks[1..]);
      assert ks == [ks[0]] + ks[1..];
    }
  }

  /** Keywords written with any white space around the commas are read without it. */
  lemma PaddedKeywords(pieces: seq<string>, ks: seq<string>)
    requires |pieces| == |ks| > 0 && forall p <- pieces :: ',' !in p
    requires forall i | 0 <= i < |ks| ::
      Pads(pieces[i], ks[i]) && ks[i] != "" && !IsUnicodeSpace(ks[i][0]) && !IsUnicodeSpace(ks[i][|ks[i]| - 1])
    ensures KeywordsOf(Join(pieces, ',')) == ks
  {
    SplitJoin(pieces, ',');
    PiecesTrimmed(pieces, ks);
  }

  /** A blank piece is no keyword; every other single character is one. */
  lemma SingleCharacter(c: char)
    requires c != ','
    ensures KeywordsOf([c]) == if IsUnicodeSpace(c) then [] else [[c]]
  {
    SpacesWrittenOut(c);
    SplitPiece([c], ',');
    TrimFixed([c], WHITE_SPACE);
    TrimTrims([c], WHITE_SPACE);
    var t := Trim([c], WHITE_SPACE);
    if t != "" {
      assert t[0] in t && t[0] in [c] && t[0] == c;
    }
    assert Split([c], ',') == [[c]] && [[c]][1..] == [];
    assert Clean(WHITE_SPACE, [[c]]) == (if t == "" then [] else [t]) + Clean(WHITE_SPACE, []);
  }
}
