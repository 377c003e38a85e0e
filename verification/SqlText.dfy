/** The SQL text of the cert_fields view (internal/x509worker/meta.go), for any registry, and a
    reader of that text whose string literals follow section 5.3 of ISO/IEC 9075-2. */
module SqlText {
  import opened GoStrings

  datatype CertField = CertField(field: string, scalar: string, resultType: string, desc: string)

  const HEAD := "SELECT * FROM (VALUES "
  const TAIL :=
    ") AS t(" + ("field" + (", " + ("scalar_function" + (", " + ("result_type" + (", " + ("description" + ")")))))))

  /** strings.ReplaceAll(s, "'", "''") */
  function DoubleQuotes(s: string): string {
    if s == "" then "" else (if s[0] == '\'' then "''" else [s[0]]) + DoubleQuotes(s[1..])
  }

  function SqlStr(s: string): string {
    "'" + DoubleQuotes(s) + "'"
  }

  /** A literal with the punctuation in front of it. */
  function Cell(before: string, s: string): string {
    before + SqlStr(s)
  }

  function RowText(f: CertField): string {
    Cell("(", f.field) + Cell(", ", f.scalar) + Cell(", ", f.resultType) + Cell(", ", f.desc) + ")"
  }

  function RowsText(rows: seq<CertField>): string {
    if rows == [] then ""
    else if |rows| == 1 then RowText(rows[0])
    else RowText(rows[0]) + ", " + RowsText(rows[1..])
  }

  lemma OneMoreRow(registry: seq<CertField>, i: nat)
    requires i < |registry|
    ensures HEAD + RowsText(registry[..i + 1])
            == HEAD + RowsText(registry[..i]) + (if i > 0 then ", " else "") + RowText(registry[i])
  {
    var done, comma := RowsText(registry[..i]), if i > 0 then ", " else "";
    assert registry[..i + 1] == registry[..i] + [registry[i]];
    RowsTextAppend(registry[..i], registry[i]);
    ConcatAssoc(HEAD, done, comma);
    ConcatAssoc(HEAD, done + comma, RowText(registry[i]));
  }

  /** CertFieldsViewDefinition over a registry given as a parameter. */
  method CertFieldsViewDefinition(registry: seq<CertField>) returns (b: string)
    ensures b == HEAD + RowsText(registry) + TAIL
    ensures registry != [] ==>
      ReadTable(b) == Some(Table(["field", "scalar_function", "result_type", "description"],
        seq(|registry|, i requires 0 <= i < |registry| =>
          [registry[i].field, registry[i].scalar, registry[i].resultType, registry[i].desc])))
  {
    b := HEAD;
    for i := 0 to |registry|
      invariant b == HEAD + RowsText(registry[..i])
    {
      OneMoreRow(registry, i);
      if i > 0 {
        b := b + ", ";
      }
      b := b + RowText(registry[i]);
    }
    assert registry[..|registry|] == registry;
    b := b + TAIL;
    if registry != [] {
      ViewIsTable(registry);
    }
  }

  lemma {:induction false} RowsTextAppend(rows: seq<CertField>, f: CertField)
    ensures RowsText(rows + [f]) == RowsText(rows) + (if rows == [] then "" else ", ") + RowText(f)
  {
    if |rows| == 0 {
      assert rows + [f] == [f];
    } else {
      assert (rows + [f])[1..] == rows[1..] + [f];
      RowsTextAppend(rows[1..], f);
      var first := RowText(rows[0]) + ", ";
      if |rows| == 1 {
        assert rows[1..] == [];
        assert RowsText(rows[1..] + [f]) == RowText(f);
      } else {
        ConcatAssoc(first, RowsText(rows[1..]), ", " + RowText(f));
        ConcatAssoc(RowsText(rows[1..]), ", ", RowText(f));
        ConcatAssoc(RowsText(rows), ", ", RowText(f));
      }
    }
  }

  // The reader.

  /** s without the prefix p. */
  function Expect(s: string, p: string): Option<string> {
    if p <= s then Some(s[|p|..]) else None
  }

  /** The rest of a literal after its opening quote: a doubled quote is a quote, a single one ends
      the literal. Also returns the text after the literal. */
  function ReadBody(s: string): (r: Option<(string, string)>)
    ensures r.Some? ==> |r.value.1| < |s|
  {
    if s == "" then None
    else if s[0] != '\'' then Cons(s[0], ReadBody(s[1..]))
    else if |s| > 1 && s[1] == '\'' then Cons('\'', ReadBody(s[2..]))
    else Some(("", s[1..]))
  }

  function Cons(c: char, r: Option<(string, string)>): Option<(string, string)> {
    match r case Some((value, rest)) => Some(([c] + value, rest)) case None => None
  }

  /** A literal with the given text in front of it. */
  function ReadCell(before: string, s: string): (r: Option<(string, string)>)
    ensures r.Some? ==> |r.value.1| < |s|
  {
    match Expect(s, before + "'") case Some(t) => ReadBody(t) case None => None
  }

  function ReadRow(s: string): (r: Option<(CertField, string)>)
    ensures r.Some? ==> |r.value.1| < |s|
  {
    match ReadCell("(", s) case None => None case Some((a, s1)) =>
      match ReadCell(", ", s1) case None => None case Some((b, s2)) =>
        match ReadCell(", ", s2) case None => None case Some((c, s3)) =>
          match ReadCell(", ", s3) case None => None case Some((d, s4)) =>
            match Expect(s4, ")") case None => None case Some(s5) => Some((CertField(a, b, c, d), s5))
  }

  /** One row or more, separated by commas. */
  function ReadRows(s: string): Option<(seq<CertField>, string)>
    decreases |s|
  {
    match ReadRow(s)
    case None => None
    case Some((f, t)) =>
      match Expect(t, ", ")
      case None => Some(([f], t))
      case Some(u) =>
        match ReadRows(u) case None => None case Some((rows, v)) => Some(([f] + rows, v))
  }

  function ReadView(s: string): Option<seq<CertField>> {
    match Expect(s, HEAD) case None => None case Some(t) =>
      match ReadRows(t) case None => None case Some((rows, u)) => if u == TAIL then Some(rows) else None
  }

  // Reading undoes printing, and accepts nothing else.

  predicate StartsWithQuote(s: string) {
    s != "" && s[0] == '\''
  }

  lemma ExpectPrefix(p: string, s: string, rest: string)
    ensures Expect(s, p) == Some(rest) <==> s == p + rest
  {
    if p <= s {
      assert s == p + s[|p|..];
    }
    if s == p + rest {
      assert s[|p|..] == rest;
    }
  }

  /** Quote doubling is self-delimiting: for every text, the literal ends where it was closed, as long
      as no quote follows; and a text that reads as a literal is the literal of what was read. */
  lemma {:induction false} BodyInverse(x: string, rest: string)
    requires !StartsWithQuote(rest)
    ensures ReadBody(DoubleQuotes(x) + ("'" + rest)) == Some((x, rest))
  {
    var close := "'" + rest;
    if x == "" {
      assert "" + close == close;
      assert close[1..] == rest;
    } else {
      var t := DoubleQuotes(x[1..]) + close;
      BodyInverse(x[1..], rest);
      var head := if x[0] == '\'' then "''" else [x[0]];
      ConcatAssoc(head, DoubleQuotes(x[1..]), close);
      var s := head + t;
      assert s[|head|..] == t;
      assert [x[0]] + x[1..] == x;
    }
  }

  lemma {:induction false} BodyFaithful(s: string)
    requires ReadBody(s).Some?
    ensures var (x, rest) := ReadBody(s).value; s == DoubleQuotes(x) + ("'" + rest) && !StartsWithQuote(rest)
  {
    if s[0] == '\'' && (|s| == 1 || s[1] != '\'') {
      assert s == "" + ("'" + s[1..]);
    } else {
      var k := if s[0] == '\'' then 2 else 1;
      BodyFaithful(s[k..]);
      var (x, rest) := ReadBody(s[k..]).value;
      assert ([s[0]] + x)[1..] == x;
      assert s == s[..k] + s[k..];
      ConcatAssoc(s[..k], DoubleQuotes(x), "'" + rest);
      assert s[..k] == if s[0] == '\'' then "''" else [s[0]];
    }
  }

  lemma CellInverse(before: string, x: string, rest: string)
    requires !StartsWithQuote(rest)
    ensures ReadCell(before, Cell(before, x) + rest) == Some((x, rest))
  {
    var t := DoubleQuotes(x) + ("'" + rest);
    assert Cell(before, x) + rest == (before + "'") + t;
    ExpectPrefix(before + "'", Cell(before, x) + rest, t);
    BodyInverse(x, rest);
  }

  lemma CellFaithful(before: string, s: string)
    requires ReadCell(before, s).Some?
    ensures var (x, rest) := ReadCell(before, s).value; s == Cell(before, x) + rest
  {
    var t := Expect(s, before + "'").value;
    ExpectPrefix(before + "'", s, t);
    BodyFaithful(t);
    var (x, rest) := ReadBody(t).value;
    assert Cell(before, x) + rest == (before + "'") + (DoubleQuotes(x) + ("'" + rest));
  }

  /** The five parts of a row in front of any text. */
  lemma RowParts(f: CertField, rest: string)
    ensures RowText(f) + rest
            == Cell("(", f.field)
               + (Cell(", ", f.scalar) + (Cell(", ", f.resultType) + (Cell(", ", f.desc) + (")" + rest))))
  {
    var a, b, c, d := Cell("(", f.field), Cell(", ", f.scalar), Cell(", ", f.resultType), Cell(", ", f.desc);
    ConcatAssoc(a + b + c + d, ")", rest);
    ConcatAssoc(a + b + c, d, ")" + rest);
    ConcatAssoc(a + b, c, d + (")" + rest));
    ConcatAssoc(a, b, c + (d + (")" + rest)));
  }

  lemma RowInverse(f: CertField, rest: string)
    ensures ReadRow(RowText(f) + rest) == Some((f, rest))
  {
    RowParts(f, rest);
    var s4 := ")" + rest;
    var s3 := Cell(", ", f.desc) + s4;
    var s2 := Cell(", ", f.resultType) + s3;
    var s1 := Cell(", ", f.scalar) + s2;
    CellInverse("(", f.field, s1);
    CellInverse(", ", f.scalar, s2);
    CellInverse(", ", f.resultType, s3);
    CellInverse(", ", f.desc, s4);
    ExpectPrefix(")", s4, rest);
  }

  lemma RowFaithful(s: string)
    requires ReadRow(s).Some?
    ensures var (f, rest) := ReadRow(s).value; s == RowText(f) + rest
  {
    CellFaithful("(", s);
    var (a, s1) := ReadCell("(", s).value;
    CellFaithful(", ", s1);
    var (b, s2) := ReadCell(", ", s1).value;
    CellFaithful(", ", s2);
    var (c, s3) := ReadCell(", ", s2).value;
    CellFaithful(", ", s3);
    var (d, s4) := ReadCell(", ", s3).value;
    ExpectPrefix(")", s4, Expect(s4, ")").value);
    RowParts(CertField(a, b, c, d), Expect(s4, ")").value);
  }

  lemma FirstRowText(rows: seq<CertField>, rest: string)
    requires |rows| > 1
    ensures RowsText(rows) + rest == RowText(rows[0]) + ", " + (RowsText(rows[1..]) + rest)
  {
    ConcatAssoc(RowText(rows[0]) + ", ", RowsText(rows[1..]), rest);
  }

  lemma LastRow(f: CertField, rest: string)
    requires Expect(rest, ", ").None?
    ensures ReadRows(RowText(f) + rest) == Some(([f], rest))
  {
    RowInverse(f, rest);
  }

  lemma NextRow(f: CertField, more: string, rows: seq<CertField>, rest: string)
    requires ReadRows(more) == Some((rows, rest))
    ensures ReadRows(RowText(f) + ", " + more) == Some(([f] + rows, rest))
  {
    ConcatAssoc(RowText(f), ", ", more);
    RowInverse(f, ", " + more);
    ExpectPrefix(", ", ", " + more, more);
  }

  lemma MoreRows(rows: seq<CertField>, rest: string)
    requires |rows| > 1 && ReadRows(RowsText(rows[1..]) + rest) == Some((rows[1..], rest))
    ensures ReadRows(RowsText(rows) + rest) == Some((rows, rest))
  {
    FirstRowText(rows, rest);
    NextRow(rows[0], RowsText(rows[1..]) + rest, rows[1..], rest);
    assert rows == [rows[0]] + rows[1..];
  }

  lemma {:induction false} RowsInverse(rows: seq<CertField>, rest: string)
    requires rows != [] && Expect(rest, ", ").None?
    ensures ReadRows(RowsText(rows) + rest) == Some((rows, rest))
  {
    if |rows| == 1 {
      LastRow(rows[0], rest);
      assert rows == [rows[0]];
    } else {
      RowsInverse(rows[1..], rest);
      MoreRows(rows, rest);
    }
  }

  lemma {:induction false} RowsFaithful(s: string)
    requires ReadRows(s).Some?
    ensures var (rows, rest) := ReadRows(s).value; rows != [] && s == RowsText(rows) + rest
    decreases |s|
  {
    RowFaithful(s);
    var (f, t) := ReadRow(s).value;
    if Expect(t, ", ").Some? {
      var u := Expect(t, ", ").value;
      ExpectPrefix(", ", t, u);
      RowsFaithful(u);
      var (rows, rest) := ReadRows(u).value;
      assert ([f] + rows)[1..] == rows;
      ConcatAssoc(RowText(f), ", ", u);
      ConcatAssoc(RowText(f) + ", ", RowsText(rows), rest);
    }
  }

  /** The view text of every non-empty registry - quotes, commas and parentheses in any cell - reads
      back as exactly that registry, and a text reads as rows only if it is their view text. */
  lemma ViewRoundTrip(s: string, rows: seq<CertField>)
    ensures ReadView(s) == Some(rows) <==> rows != [] && s == HEAD + RowsText(rows) + TAIL
  {
    var t := RowsText(rows) + TAIL;
    ConcatAssoc(HEAD, RowsText(rows), TAIL);
    if rows != [] && s == HEAD + t {
      ExpectPrefix(HEAD, s, t);
      assert Expect(TAIL, ", ").None? by { assert TAIL[0] == ')' && ", "[0] == ','; }
      RowsInverse(rows, TAIL);
    }
    if ReadView(s) == Some(rows) {
      var u := Expect(s, HEAD).value;
      ExpectPrefix(HEAD, s, u);
      RowsFaithful(u);
    }
  }

  // The table a database makes of the text: a reader of any VALUES list that names its columns.

  datatype Table = Table(columns: seq<string>, rows: seq<seq<string>>)

  /** String literals separated by commas, up to the closing parenthesis. */
  function ReadLiterals(s: string): (r: Option<(seq<string>, string)>)
    ensures r.Some? ==> |r.value.1| < |s|
    decreases |s|
  {
    match Expect(s, "'") case None => None case Some(t) =>
      match ReadBody(t) case None => None case Some((x, u)) =>
        if ")" <= u then Some(([x], u[1..]))
        else match Expect(u, ", ") case None => None case Some(v) =>
          match ReadLiterals(v) case None => None case Some((xs, w)) => Some(([x] + xs, w))
  }

  /** A tuple after its opening parenthesis. */
  function ReadTuple(s: string): (r: Option<(seq<string>, string)>)
    ensures r.Some? ==> |r.value.1| < |s|
  {
    ReadLiterals(s)
  }

  /** Tuples in parentheses, separated by commas. */
  function ReadTuples(s: string): (r: Option<(seq<seq<string>>, string)>)
    decreases |s|
  {
    match Expect(s, "(") case None => None case Some(t) =>
      match ReadTuple(t) case None => None case Some((row, u)) =>
        match Expect(u, ", ") case None => Some(([row], u)) case Some(v) =>
          match ReadTuples(v) case None => None case Some((rows, w)) => Some(([row] + rows, w))
  }

  predicate IsNameCharacter(c: char) {
    'a' <= c <= 'z' || c == '_'
  }

  /** An identifier and the text after it. */
  function ReadName(s: string): (r: (string, string))
    ensures |r.1| <= |s|
  {
    if s == "" || !IsNameCharacter(s[0]) then ("", s)
    else var (name, rest) := ReadName(s[1..]); ([s[0]] + name, rest)
  }

  /** Identifiers separated by commas, up to the closing parenthesis. */
  function ReadNames(s: string): Option<(seq<string>, string)>
    decreases |s|
  {
    var (name, t) := ReadName(s);
    if ")" <= t then Some(([name], t[1..]))
    else match Expect(t, ", ") case None => None case Some(u) =>
      match ReadNames(u) case None => None case Some((names, v)) => Some(([name] + names, v))
  }

  function ReadTable(s: string): Option<Table> {
    match Expect(s, "SELECT * FROM (VALUES ") case None => None case Some(t) =>
      match ReadTuples(t) case None => None case Some((rows, u)) =>
        match Expect(u, ") AS ") case None => None case Some(v) =>
          match Expect(ReadName(v).1, "(") case None => None case Some(w) =>
            match ReadNames(w) case None => None case Some((columns, x)) =>
              if x == "" then Some(Table(columns, rows)) else None
  }

  lemma LiteralLast(x: string, rest: string)
    ensures ReadTuple(SqlStr(x) + (")" + rest)) == Some(([x], rest))
  {
    var u := ")" + rest;
    assert SqlStr(x) + u == "'" + (DoubleQuotes(x) + ("'" + u));
    ExpectPrefix("'", SqlStr(x) + u, DoubleQuotes(x) + ("'" + u));
    BodyInverse(x, u);
    assert u[1..] == rest;
  }

  lemma LiteralNext(x: string, more: string, xs: seq<string>, rest: string)
    requires ReadTuple(more) == Some((xs, rest))
    ensures ReadTuple(SqlStr(x) + (", " + more)) == Some(([x] + xs, rest))
  {
    var u := ", " + more;
    assert SqlStr(x) + u == "'" + (DoubleQuotes(x) + ("'" + u));
    ExpectPrefix("'", SqlStr(x) + u, DoubleQuotes(x) + ("'" + u));
    BodyInverse(x, u);
    assert u[0] != ')';
    ExpectPrefix(", ", u, more);
  }

  /** A row in front of any text, as a parenthesis and its literals. */
  lemma RowLiterals(f: CertField, rest: string)
    ensures RowText(f) + rest
            == "(" + (SqlStr(f.field) + (", " + (SqlStr(f.scalar) + (", " + (SqlStr(f.resultType) + (", "
                      + (SqlStr(f.desc) + (")" + rest))))))))
  {
    RowParts(f, rest);
    var s4 := ")" + rest;
    var s3 := ", " + (SqlStr(f.desc) + s4);
    var s2 := ", " + (SqlStr(f.resultType) + s3);
    var s1 := ", " + (SqlStr(f.scalar) + s2);
    ConcatAssoc(", ", SqlStr(f.desc), s4);
    ConcatAssoc(", ", SqlStr(f.resultType), s3);
    ConcatAssoc(", ", SqlStr(f.scalar), s2);
    ConcatAssoc("(", SqlStr(f.field), s1);
  }

  function CellsOf(f: CertField): seq<string> {
    [f.field, f.scalar, f.resultType, f.desc]
  }

  lemma TwoLast(c: string, d: string, rest: string)
    ensures ReadTuple(SqlStr(c) + (", " + (SqlStr(d) + (")" + rest)))) == Some(([c, d], rest))
  {
    LiteralLast(d, rest);
    LiteralNext(c, SqlStr(d) + (")" + rest), [d], rest);
    assert [c] + [d] == [c, d];
  }

  lemma TwoNext(a: string, b: string, more: string, xs: seq<string>, rest: string)
    requires ReadTuple(more) == Some((xs, rest))
    ensures ReadTuple(SqlStr(a) + (", " + (SqlStr(b) + (", " + more)))) == Some(([a, b] + xs, rest))
  {
    LiteralNext(b, more, xs, rest);
    LiteralNext(a, SqlStr(b) + (", " + more), [b] + xs, rest);
    assert [a] + ([b] + xs) == [a, b] + xs;
  }

  lemma LiteralsRead(a: string, b: string, c: string, d: string, rest: string)
    ensures ReadTuple(SqlStr(a) + (", " + (SqlStr(b) + (", " + (SqlStr(c) + (", " + (SqlStr(d) + (")" + rest))))))))
            == Some(([a, b, c, d], rest))
  {
    TwoLast(c, d, rest);
    TwoNext(a, b, SqlStr(c) + (", " + (SqlStr(d) + (")" + rest))), [c, d], rest);
    assert [a, b] + [c, d] == [a, b, c, d];
  }

  lemma RowIsTuple(f: CertField, rest: string)
    ensures Expect(RowText(f) + rest, "(").Some?
    ensures ReadTuple(Expect(RowText(f) + rest, "(").value) == Some((CellsOf(f), rest))
  {
    RowLiterals(f, rest);
    LiteralsRead(f.field, f.scalar, f.resultType, f.desc, rest);
    ConcatParts("(", SqlStr(f.field) + (", " + (SqlStr(f.scalar) + (", " + (SqlStr(f.resultType)
                       + (", " + (SqlStr(f.desc) + (")" + rest))))))));
  }

  function Cells(rows: seq<CertField>): seq<seq<string>> {
    seq(|rows|, i requires 0 <= i < |rows| => CellsOf(rows[i]))
  }

  lemma TupleLast(f: CertField, rest: string)
    requires Expect(rest, ", ").None?
    ensures ReadTuples(RowText(f) + rest) == Some(([CellsOf(f)], rest))
  {
    RowIsTuple(f, rest);
  }

  lemma TupleNext(f: CertField, more: string, rows: seq<seq<string>>, rest: string)
    requires ReadTuples(more) == Some((rows, rest))
    ensures ReadTuples(RowText(f) + ", " + more) == Some(([CellsOf(f)] + rows, rest))
  {
    ConcatAssoc(RowText(f), ", ", more);
    RowIsTuple(f, ", " + more);
    ExpectPrefix(", ", ", " + more, more);
  }

  lemma MoreTuples(rows: seq<CertField>, rest: string)
    requires |rows| > 1 && ReadTuples(RowsText(rows[1..]) + rest) == Some((Cells(rows[1..]), rest))
    ensures ReadTuples(RowsText(rows) + rest) == Some((Cells(rows), rest))
  {
    FirstRowText(rows, rest);
    TupleNext(rows[0], RowsText(rows[1..]) + rest, Cells(rows[1..]), rest);
    CellsCons(rows);
  }

  lemma CellsCons(rows: seq<CertField>)
    requires rows != []
    ensures Cells(rows) == [CellsOf(rows[0])] + Cells(rows[1..])
  {
  }

  lemma {:induction false} RowsAreTuples(rows: seq<CertField>, rest: string)
    requires rows != [] && Expect(rest, ", ").None?
    ensures ReadTuples(RowsText(rows) + rest) == Some((Cells(rows), rest))
  {
    if |rows| == 1 {
      TupleLast(rows[0], rest);
      assert Cells(rows) == [CellsOf(rows[0])];
    } else {
      RowsAreTuples(rows[1..], rest);
      MoreTuples(rows, rest);
    }
  }

  lemma {:induction false} NameRead(name: string, rest: string)
    requires forall c <- name :: IsNameCharacter(c)
    requires rest == "" || !IsNameCharacter(rest[0])
    ensures ReadName(name + rest) == (name, rest)
  {
    if name == "" {
      assert name + rest == rest;
    } else {
      assert (name + rest)[1..] == name[1..] + rest;
      NameRead(name[1..], rest);
      assert name == [name[0]] + name[1..];
    }
  }

  lemma NameLast(name: string)
    requires forall c <- name :: IsNameCharacter(c)
    ensures ReadNames(name + ")") == Some(([name], ""))
  {
    NameRead(name, ")");
    assert ")"[1..] == "";
  }

  lemma NameNext(name: string, more: string, names: seq<string>)
    requires forall c <- name :: IsNameCharacter(c)
    requires ReadNames(more) == Some((names, ""))
    ensures ReadNames(name + (", " + more)) == Some(([name] + names, ""))
  {
    var u := ", " + more;
    assert u[0] == ',';
    NameRead(name, u);
    ExpectPrefix(", ", u, more);
  }

  lemma NamesRead(a: string, b: string, c: string, d: string)
    requires (forall x <- a :: IsNameCharacter(x)) && (forall x <- b :: IsNameCharacter(x))
    requires (forall x <- c :: IsNameCharacter(x)) && (forall x <- d :: IsNameCharacter(x))
    ensures ReadNames(a + (", " + (b + (", " + (c + (", " + (d + ")"))))))) == Some(([a, b, c, d], ""))
  {
    var s4 := d + ")";
    var s3 := c + (", " + s4);
    var s2 := b + (", " + s3);
    NameLast(d);
    NameNext(c, s4, [d]);
    NameNext(b, s3, [c] + [d]);
    NameNext(a, s2, [b] + ([c] + [d]));
    assert [a] + ([b] + ([c] + [d])) == [a, b, c, d];
  }

  lemma ColumnsRead()
    ensures ReadNames("field" + (", " + ("scalar_function"
                        + (", " + ("result_type" + (", " + ("description" + ")")))))))
            == Some((["field", "scalar_function", "result_type", "description"], ""))
  {
    NamesRead("field", "scalar_function", "result_type", "description");
  }

  lemma TailParts(names: string)
    ensures Expect(") AS t(" + names, ") AS ") == Some("t(" + names)
    ensures ReadName("t(" + names) == ("t", "(" + names)
    ensures Expect("(" + names, "(") == Some(names)
  {
    ExpectPrefix(") AS ", ") AS t(" + names, "t(" + names);
    assert ") AS t(" == ") AS " + "t(";
    ConcatAssoc(") AS ", "t(", names);
    ConcatAssoc("t", "(", names);
    assert "t" + "(" == "t(";
    NameRead("t", "(" + names);
    ExpectPrefix("(", "(" + names, names);
  }

  lemma RowsInView(registry: seq<CertField>)
    requires registry != []
    ensures Expect(HEAD + RowsText(registry) + TAIL, "SELECT * FROM (VALUES ") == Some(RowsText(registry) + TAIL)
    ensures ReadTuples(RowsText(registry) + TAIL) == Some((Cells(registry), TAIL))
  {
    ConcatAssoc(HEAD, RowsText(registry), TAIL);
    ExpectPrefix(HEAD, HEAD + RowsText(registry) + TAIL, RowsText(registry) + TAIL);
    assert TAIL[0] == ')';
    RowsAreTuples(registry, TAIL);
  }

  lemma TableRead(s: string, t: string, rows: seq<seq<string>>, names: string, columns: seq<string>)
    requires Expect(s, "SELECT * FROM (VALUES ") == Some(t)
    requires ReadTuples(t) == Some((rows, ") AS t(" + names)) && ReadNames(names) == Some((columns, ""))
    ensures ReadTable(s) == Some(Table(columns, rows))
  {
    TailParts(names);
  }

  lemma CellsAre(rows: seq<CertField>)
    ensures Cells(rows) == seq(|rows|, i requires 0 <= i < |rows| =>
              [rows[i].field, rows[i].scalar, rows[i].resultType, rows[i].desc])
  {
  }

  /** Read as a table, the view of a non-empty registry has the four columns of its documentation, and
      under each the attribute of that name. */
  lemma ViewIsTable(registry: seq<CertField>)
    requires registry != []
    ensures ReadTable(HEAD + RowsText(registry) + TAIL)
            == Some(Table(["field", "scalar_function", "result_type", "description"],
                 seq(|registry|, i requires 0 <= i < |registry| =>
                   [registry[i].field, registry[i].scalar, registry[i].resultType, registry[i].desc])))
  {
    RowsInView(registry);
    ColumnsRead();
    TableRead(HEAD + RowsText(registry) + TAIL, RowsText(registry) + TAIL, Cells(registry),
              "field" + (", " + ("scalar_function" + (", " + ("result_type" + (", " + ("description" + ")")))))),
              ["field", "scalar_function", "result_type", "description"]);
    CellsAre(registry);
  }
}
