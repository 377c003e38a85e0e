/** internal/x509worker/cert.go and info.go: choosing the DER bytes of an input, the accessors, and
    the long-format dump. ASN.1 parsing, SHA-256 and IP formatting are unknown functions. */
module Certificates {
  import opened GoStrings
  import opened Base64
  import opened Time
  import Pem
  import Rfc3339

  /** The attributes the worker reads; names are already rendered as text. */
  datatype Certificate = Certificate(
    raw: GoString, subject: GoString, issuer: GoString, serial: GoString,
    notBefore: Time, notAfter: Time,
    keyAlgorithm: GoString, signatureAlgorithm: GoString, isCA: bool,
    dnsNames: seq<GoString>, ipAddresses: seq<GoString>)

  /** What the Go standard library computes, left open. */
  datatype Library = Library(
    laterBlock: Pem.BlockFinder,
    parseDer: GoString -> Result<Certificate, GoString>,
    fingerprint: GoString -> GoString,
    ipText: GoString -> GoString)

  datatype ParseError = EmptyInput | NoPemBlock | WrongBlockType(kind: GoString) | BadDer(reason: GoString)

  const CERTIFICATE := Ascii("CERTIFICATE")
  const SPACES: set<byte> := {SPACE, TAB, CR, LF}

  /** PEM armor opens the input, after any white space. */
  predicate IsArmored(raw: GoString) {
    Pem.ARMOR <= TrimLeft(raw, SPACES)
  }

  predicate IsBare(raw: GoString) {
    raw != [] && !IsArmored(raw)
  }

  /** The DER bytes an input stands for. */
  function SelectDer(lib: Library, raw: GoString): Result<GoString, ParseError> {
    if raw == [] then Err(EmptyInput)
    else if !IsArmored(raw) then Ok(raw)
    else match Pem.Decode(lib.laterBlock, TrimLeft(raw, SPACES))
      case None => Err(NoPemBlock)
      case Some(block) => if block.kind == CERTIFICATE then Ok(block.bytes) else Err(WrongBlockType(block.kind))
  }

  function FromDer(lib: Library, der: GoString): Result<Certificate, ParseError> {
    match lib.parseDer(der)
    case Ok(c) => Ok(c)
    case Err(reason) => Err(BadDer(reason))
  }

  function Parsed(lib: Library, raw: GoString): Result<Certificate, ParseError> {
    match SelectDer(lib, raw)
    case Ok(der) => FromDer(lib, der)
    case Err(e) => Err(e)
  }

  method ParseCertificate(lib: Library, raw: GoString) returns (r: Result<Certificate, ParseError>)
    ensures r == Parsed(lib, raw)
    ensures r == Err(EmptyInput) <==> raw == []
    ensures IsBare(raw) ==> r == FromDer(lib, raw)
    ensures r == Err(NoPemBlock) <==> IsArmored(raw) && Pem.Decode(lib.laterBlock, TrimLeft(raw, SPACES)) == None
    ensures IsArmored(raw) ==> match Pem.Decode(lib.laterBlock, TrimLeft(raw, SPACES))
      case None => true
      case Some(block) =>
        r == if block.kind == CERTIFICATE then FromDer(lib, block.bytes) else Err(WrongBlockType(block.kind))
  {
    if |raw| == 0 {
      return Err(EmptyInput);
    }
    var der := raw;
    var trimmed := TrimLeft(raw, SPACES);
    if Pem.ARMOR <= trimmed {
      var block := Pem.Decode(lib.laterBlock, trimmed);
      if block.None? {
        return Err(NoPemBlock);
      }
      if block.value.kind != CERTIFICATE {
        return Err(WrongBlockType(block.value.kind));
      }
      der := block.value.bytes;
    }
    var cert := lib.parseDer(der);
    if cert.Err? {
      return Err(BadDer(cert.error));
    }
    return Ok(cert.value);
  }

  /** text is white space and then d in PEM armor of the given type: any line breaks and blanks in
      the base64, LF or CRLF after BEGIN, and any further lines after END. */
  ghost predicate Armors(text: GoString, kind: GoString, d: GoString) {
    exists ws: GoString, eol: GoString, body: GoString, tail: GoString ::
      && (forall c <- ws :: c in SPACES)
      && (eol == [LF] || eol == [CR, LF])
      && Pem.LaysOut(body, d) && !Pem.EndsAsHeader(kind, body)
      && Pem.GetLine(tail).0 == []
      && text == ws + Pem.Text(kind, eol, body, tail)
  }

  lemma ArmorsBy(ws: GoString, kind: GoString, eol: GoString, body: GoString, tail: GoString, d: GoString)
    requires forall c <- ws :: c in SPACES
    requires eol == [LF] || eol == [CR, LF]
    requires Pem.LaysOut(body, d) && !Pem.EndsAsHeader(kind, body) && Pem.GetLine(tail).0 == []
    ensures Armors(ws + Pem.Text(kind, eol, body, tail), kind, d)
  {
  }

  /** What pem.EncodeToMemory prints is such a text. */
  lemma EncodedArmors(ws: GoString, kind: GoString, d: GoString)
    requires forall c <- ws :: c in SPACES
    requires d == [] ==> COLON !in kind
    ensures Armors(ws + Pem.EncodeToMemory(kind, d), kind, d)
  {
    Pem.EncodedLaysOut(d);
    Pem.LineFeedIsBlank();
    ArmorsBy(ws, kind, [LF], Pem.Wrap(Encode(d)), [LF], d);
  }

  lemma TextIsSniffed(kind: GoString, eol: GoString, body: GoString, tail: GoString)
    ensures var pem := Pem.Text(kind, eol, body, tail);
            Pem.ARMOR <= pem && TrimLeft(pem, SPACES) == pem
  {
    var pem := Pem.Text(kind, eol, body, tail);
    assert pem[0] == Pem.ARMOR[0] == DASH;
    assert Pem.ARMOR <= Pem.BEGIN <= pem;
  }

  /** Armor of any type around any bytes: a CERTIFICATE block selects those bytes, whatever they are,
      and every other type is refused under its own name. */
  lemma ArmorSelects(lib: Library, text: GoString, kind: GoString, d: GoString)
    requires Pem.IsKind(kind) && Armors(text, kind, d)
    ensures SelectDer(lib, text) == if kind == CERTIFICATE then Ok(d) else Err(WrongBlockType(kind))
  {
    var ws: GoString, eol: GoString, body: GoString, tail: GoString :|
      && (forall c <- ws :: c in SPACES)
      && (eol == [LF] || eol == [CR, LF])
      && Pem.LaysOut(body, d) && !Pem.EndsAsHeader(kind, body)
      && Pem.GetLine(tail).0 == []
      && text == ws + Pem.Text(kind, eol, body, tail);
    var pem := Pem.Text(kind, eol, body, tail);
    TrimLeftSkips(ws, pem, SPACES);
    TextIsSniffed(kind, eol, body, tail);
    Pem.DecodeText(lib.laterBlock, kind, eol, body, tail, d);
  }

  /** What the encoder prints, behind any white space: a CERTIFICATE block selects exactly the bytes
      that were encoded. Only an empty block whose type holds a colon is no block at all. */
  lemma EncodedSelects(lib: Library, ws: GoString, kind: GoString, d: GoString)
    requires Pem.IsKind(kind) && forall c <- ws :: c in SPACES
    ensures SelectDer(lib, ws + Pem.EncodeToMemory(kind, d)) ==
            if d == [] && COLON in kind then Err(NoPemBlock)
            else if kind == Ascii("CERTIFICATE") then Ok(d)
            else Err(WrongBlockType(kind))
  {
    var pem := Pem.EncodeToMemory(kind, d);
    if d == [] && COLON in kind {
      TrimLeftSkips(ws, pem, SPACES);
      TextIsSniffed(kind, [LF], Pem.Wrap(Encode(d)), [LF]);
      Pem.EncodeDecode(lib.laterBlock, kind, d);
    } else {
      EncodedArmors(ws, kind, d);
      ArmorSelects(lib, ws + pem, kind, d);
    }
  }

  /** An input is its own DER bytes exactly when no armor opens it. DER never looks like armor: it
      starts with the SEQUENCE tag, which is neither white space nor a dash. */
  lemma DerSelectsItself(lib: Library, d: GoString)
    ensures SelectDer(lib, d) == Ok(d) <==> IsBare(d)
    ensures d != [] && d[0] == 0x30 ==> IsBare(d)
  {
    assert Pem.ARMOR[0] == DASH;
    if IsArmored(d) {
      Pem.BlockIsShorter(lib.laterBlock, TrimLeft(d, SPACES));
      TrimLeftIsSuffix(d, SPACES);
    }
  }

  lemma CertificateIsKind()
    ensures Pem.IsKind(CERTIFICATE)
  {
    Pem.PlainKind(CERTIFICATE);
  }

  lemma SelectedParses(lib: Library, raw: GoString, der: GoString)
    requires SelectDer(lib, raw) == Ok(der)
    ensures Parsed(lib, raw) == FromDer(lib, der)
  {
  }

  /** Every function of the worker sees the same certificate in PEM text and in DER bytes. */
  lemma PemAndDerAgree(lib: Library, text: GoString, d: GoString)
    requires IsBare(d)
    requires Armors(text, CERTIFICATE, d)
    ensures Parsed(lib, text) == Parsed(lib, d) == FromDer(lib, d)
  {
    CertificateIsKind();
    ArmorSelects(lib, text, CERTIFICATE, d);
    SelectedParses(lib, text, d);
    SelectedParses(lib, d, d);
  }

  /** Leading white space is ignored in front of armor only; in front of anything else it stays part
      of the DER bytes. */
  lemma LeadingSpace(lib: Library, ws: GoString, t: GoString)
    requires ws != [] && forall c <- ws :: c in SPACES
    ensures Parsed(lib, ws + t) ==
            if IsArmored(t) then Parsed(lib, t) else FromDer(lib, ws + t)
  {
    TrimLeftSkips(ws, t, SPACES);
  }

  /** -----BEGIN stands at position k, behind spaces, tabs, carriage returns and line feeds only. */
  predicate ArmorAt(raw: GoString, k: int) {
    && 0 <= k <= |raw| && Ascii("-----BEGIN") <= raw[k..]
    && forall i | 0 <= i < k :: raw[i] == 32 || raw[i] == 9 || raw[i] == 13 || raw[i] == 10
  }

  lemma SpaceBytes(c: byte)
    ensures c in SPACES <==> c == 32 || c == 9 || c == 13 || c == 10
  {
  }

  lemma SniffedAt(raw: GoString)
    requires IsArmored(raw)
    ensures ArmorAt(raw, |raw| - |TrimLeft(raw, SPACES)|)
  {
    var k := |raw| - |TrimLeft(raw, SPACES)|;
    TrimLeftIsSuffix(raw, SPACES);
    TrimLeftRemoves(raw, SPACES);
    forall i | 0 <= i < k
      ensures raw[i] == 32 || raw[i] == 9 || raw[i] == 13 || raw[i] == 10
    {
      SpaceBytes(raw[i]);
    }
  }

  lemma ArmorIsSniffed(raw: GoString, k: int)
    requires ArmorAt(raw, k)
    ensures IsArmored(raw)
  {
    forall c | c in raw[..k]
      ensures c in SPACES
    {
      SpaceBytes(c);
    }
    TrimLeftSkips(raw[..k], raw[k..], SPACES);
    assert raw == raw[..k] + raw[k..];
    assert raw[k..][0] == Pem.ARMOR[0] == DASH;
  }

  lemma ArmorSniffed(raw: GoString)
    ensures IsArmored(raw) <==> exists k :: ArmorAt(raw, k)
  {
    if IsArmored(raw) {
      SniffedAt(raw);
    }
    if k :| ArmorAt(raw, k) {
      ArmorIsSniffed(raw, k);
    }
  }

  /** Blank bytes in front of armor do not matter: a certificate embedded with a leading line feed is
      the same certificate. An input that starts with any other byte but a dash is DER. */
  lemma LeadingBytes(lib: Library, ws: GoString, t: GoString)
    requires forall c <- ws :: c == 32 || c == 9 || c == 13 || c == 10
    ensures Ascii("-----BEGIN") <= t ==> Parsed(lib, ws + t) == Parsed(lib, t)
    ensures t != [] && t[0] != 32 && t[0] != 9 && t[0] != 13 && t[0] != 10 && t[0] != 45 ==>
              Parsed(lib, t) == match lib.parseDer(t) case Ok(c) => Ok(c) case Err(reason) => Err(BadDer(reason))
  {
    forall c | c in ws
      ensures c in SPACES
    {
      SpaceBytes(c);
    }
    assert Pem.ARMOR[0] == 45;
    if Ascii("-----BEGIN") <= t {
      TrimLeftSkips(ws, t, SPACES);
      assert TrimLeft(t, SPACES) == t;
      if ws == [] {
        assert ws + t == t;
      }
    } else if t != [] {
      SpaceBytes(t[0]);
    }
  }

  /** DNS names first, then the IP addresses as text. */
  function SansOf(lib: Library, c: Certificate): seq<GoString> {
    c.dnsNames + seq(|c.ipAddresses|, i requires 0 <= i < |c.ipAddresses| => lib.ipText(c.ipAddresses[i]))
  }

  method SANs(lib: Library, c: Certificate) returns (out: seq<GoString>)
    ensures out == SansOf(lib, c)
    ensures |out| == |c.dnsNames| + |c.ipAddresses|
    ensures forall i | 0 <= i < |c.dnsNames| :: out[i] == c.dnsNames[i]
    ensures forall i | 0 <= i < |c.ipAddresses| :: out[|c.dnsNames| + i] == lib.ipText(c.ipAddresses[i])
  {
    out := [];
    out := out + c.dnsNames;
    for k := 0 to |c.ipAddresses|
      invariant out == c.dnsNames + seq(k, i requires 0 <= i < k => lib.ipText(c.ipAddresses[i]))
    {
      out := out + [lib.ipText(c.ipAddresses[k])];
    }
  }

  predicate IsExpired(c: Certificate, now: Time) {
    Before(now, c.notBefore) || Before(c.notAfter, now)
  }

  function Fingerprint(lib: Library, c: Certificate): GoString {
    lib.fingerprint(c.raw)
  }

  function FormatBool(b: bool): GoString {
    if b then Ascii("true") else Ascii("false")
  }

  /** Field names are ASCII literals. */
  datatype InfoField = InfoField(field: string, value: GoString)

  function CertInfo(lib: Library, c: Certificate, now: Time): seq<InfoField> {
    NamedFields(InfoTexts(lib, c, now))
  }

  function InfoTexts(lib: Library, c: Certificate, now: Time): (texts: seq<GoString>)
    ensures |texts| == 11
  {
    [ c.subject, c.issuer, c.serial,
      Rfc3339.Format(c.notBefore), Rfc3339.Format(c.notAfter), FormatBool(IsExpired(c, now)),
      c.keyAlgorithm, c.signatureAlgorithm, Fingerprint(lib, c),
      FormatBool(c.isCA), Join(SansOf(lib, c), COMMA) ]
  }

  function NamedFields(texts: seq<GoString>): (rows: seq<InfoField>)
    requires |texts| == 11
    ensures |rows| == 11
  {
    [ InfoField("subject", texts[0]), InfoField("issuer", texts[1]), InfoField("serial", texts[2]),
      InfoField("not_before", texts[3]), InfoField("not_after", texts[4]), InfoField("is_expired", texts[5]),
      InfoField("key_algorithm", texts[6]), InfoField("signature_algorithm", texts[7]),
      InfoField("fingerprint_sha256", texts[8]), InfoField("is_ca", texts[9]), InfoField("sans", texts[10]) ]
  }

  /** The value a query WHERE field = name returns; every field occurs once. */
  function Lookup(rows: seq<InfoField>, name: string): Option<GoString> {
    if rows == [] then None
    else if rows[0].field == name then Some(rows[0].value)
    else Lookup(rows[1..], name)
  }

  lemma {:induction false} LookupAt(rows: seq<InfoField>, k: nat)
    requires k < |rows|
    requires forall j | 0 <= j < k :: rows[j].field != rows[k].field
    ensures Lookup(rows, rows[k].field) == Some(rows[k].value)
  {
    if k > 0 {
      LookupAt(rows[1..], k - 1);
    }
  }

  const NAME_LENGTHS := [7, 6, 6, 10, 9, 10, 13, 19, 18, 5, 4]

  /** Length and first letter already tell the eleven field names apart. */
  ghost predicate NamesDiffer(rows: seq<InfoField>) {
    && |rows| == 11
    && |rows[0].field| == 7 && |rows[1].field| == 6 && |rows[2].field| == 6 && |rows[3].field| == 10
    && |rows[4].field| == 9 && |rows[5].field| == 10 && |rows[6].field| == 13 && |rows[7].field| == 19
    && |rows[8].field| == 18 && |rows[9].field| == 5 && |rows[10].field| == 4
    && rows[1].field[0] != rows[2].field[0] && rows[3].field[0] != rows[5].field[0]
  }

  lemma FieldNamesDiffer(texts: seq<GoString>)
    requires |texts| == 11
    ensures NamesDiffer(NamedFields(texts))
  {
  }

  lemma NameLengths(rows: seq<InfoField>, k: nat)
    requires NamesDiffer(rows) && k < 11
    ensures |rows[k].field| == NAME_LENGTHS[k]
  {
  }

  lemma NamesUnequal(rows: seq<InfoField>, j: nat, k: nat)
    requires NamesDiffer(rows) && j < k < 11
    ensures rows[j].field != rows[k].field
  {
    NameLengths(rows, j);
    NameLengths(rows, k);
    if NAME_LENGTHS[j] == NAME_LENGTHS[k] {
      assert (j == 1 && k == 2) || (j == 3 && k == 5);
    }
  }

  /** Every row is found under its own name. */
  lemma RowFound(rows: seq<InfoField>, k: nat)
    requires NamesDiffer(rows) && k < |rows|
    ensures Lookup(rows, rows[k].field) == Some(rows[k].value)
  {
    forall j | 0 <= j < k
      ensures rows[j].field != rows[k].field
    {
      NamesUnequal(rows, j, k);
    }
    LookupAt(rows, k);
  }

  lemma FieldFound(lib: Library, c: Certificate, now: Time, k: nat, name: string)
    requires k < 11 && NamedFields(InfoTexts(lib, c, now))[k] == InfoField(name, InfoTexts(lib, c, now)[k])
    ensures Lookup(CertInfo(lib, c, now), name) == Some(InfoTexts(lib, c, now)[k])
  {
    FieldNamesDiffer(InfoTexts(lib, c, now));
    RowFound(CertInfo(lib, c, now), k);
  }

  /** The text rows hold what the VARCHAR scalars of the same names return. */
  lemma InfoNames(lib: Library, c: Certificate, now: Time)
    ensures var rows := CertInfo(lib, c, now);
      && Lookup(rows, "subject") == Some(c.subject) && Lookup(rows, "issuer") == Some(c.issuer)
      && Lookup(rows, "serial") == Some(c.serial) && Lookup(rows, "key_algorithm") == Some(c.keyAlgorithm)
      && Lookup(rows, "signature_algorithm") == Some(c.signatureAlgorithm)
      && Lookup(rows, "fingerprint_sha256") == Some(lib.fingerprint(c.raw))
  {
    FieldFound(lib, c, now, 0, "subject");
    FieldFound(lib, c, now, 1, "issuer");
    FieldFound(lib, c, now, 2, "serial");
    FieldFound(lib, c, now, 6, "key_algorithm");
    FieldFound(lib, c, now, 7, "signature_algorithm");
    FieldFound(lib, c, now, 8, "fingerprint_sha256");
  }

  /** A certificate is expired exactly outside its validity window, both ends of which are inside. */
  lemma ExpiredOutsideWindow(c: Certificate, now: Time)
    ensures IsExpired(c, now) <==>
      !(c.notBefore.sec * 1_000_000_000 + c.notBefore.nsec
        <= now.sec * 1_000_000_000 + now.nsec
        <= c.notAfter.sec * 1_000_000_000 + c.notAfter.nsec)
  {
  }

  /** A certificate time: whole seconds, years 0000 to 9999 (section 4.1.2.5 of RFC 5280). */
  predicate IsCertTime(t: Time) {
    t.nsec == 0 && Rfc3339.HasFourDigitYear(t.sec)
  }

  /** The dates of the dump read back to the instants that cert_not_before and cert_not_after emit
      in microseconds. */
  lemma InfoDates(lib: Library, c: Certificate, now: Time)
    requires IsCertTime(c.notBefore) && IsCertTime(c.notAfter)
    ensures match (Lookup(CertInfo(lib, c, now), "not_before"), Lookup(CertInfo(lib, c, now), "not_after"))
      case (Some(from), Some(to)) =>
        && Rfc3339.Read(from).Some? && Rfc3339.Read(from).value * 1_000_000 == UnixMicro(c.notBefore)
        && Rfc3339.Read(to).Some? && Rfc3339.Read(to).value * 1_000_000 == UnixMicro(c.notAfter)
      case _ => false
  {
    FieldFound(lib, c, now, 3, "not_before");
    FieldFound(lib, c, now, 4, "not_after");
    Rfc3339.TextAndTimestampAgree(c.notBefore);
    Rfc3339.TextAndTimestampAgree(c.notAfter);
  }

  lemma BoolText(b: bool)
    ensures FormatBool(b) == Ascii("true") <==> b
    ensures FormatBool(b) == Ascii("false") <==> !b
  {
    assert |Ascii("true")| != |Ascii("false")|;
  }

  /** The flags of the dump are the values of cert_is_expired and cert_is_ca at the same time now. */
  lemma InfoFlags(lib: Library, c: Certificate, now: Time)
    ensures Lookup(CertInfo(lib, c, now), "is_expired")
            == Some(if IsExpired(c, now) then Ascii("true") else Ascii("false"))
    ensures Lookup(CertInfo(lib, c, now), "is_ca") == Some(Ascii("true")) <==> c.isCA
  {
    FieldFound(lib, c, now, 5, "is_expired");
    FieldFound(lib, c, now, 9, "is_ca");
    BoolText(c.isCA);
  }

  /** Splitting the sans row at commas gives the list cert_sans returns, in order, exactly when there
      is at least one name and no name holds a comma. */
  lemma InfoSans(lib: Library, c: Certificate, now: Time)
    ensures var sans := Lookup(CertInfo(lib, c, now), "sans");
      sans.Some? && (Split(sans.value, 44) == SansOf(lib, c)
                     <==> SansOf(lib, c) != [] && forall name <- SansOf(lib, c) :: 44 !in name)
  {
    FieldFound(lib, c, now, 10, "sans");
    SplitJoin(SansOf(lib, c), COMMA);
  }

  lemma NamesWrittenOut(texts: seq<GoString>)
    requires |texts| == 11
    ensures var rows := NamedFields(texts);
      && rows[0].field == "subject" && rows[1].field == "issuer" && rows[2].field == "serial"
      && rows[3].field == "not_before" && rows[4].field == "not_after" && rows[5].field == "is_expired"
      && rows[6].field == "key_algorithm" && rows[7].field == "signature_algorithm"
      && rows[8].field == "fingerprint_sha256" && rows[9].field == "is_ca" && rows[10].field == "sans"
      && forall k | 0 <= k < 11 :: rows[k].value == texts[k]
  {
  }

  lemma ElevenTexts<T>(texts: seq<T>, s: T, i: T, n: T, from: T, to: T, e: T, k: T, g: T, f: T, a: T, l: T)
    requires texts == [s, i, n, from, to, e, k, g, f, a, l]
    ensures texts[0] == s && texts[1] == i && texts[2] == n && texts[3] == from && texts[4] == to && texts[5] == e
    ensures texts[6] == k && texts[7] == g && texts[8] == f && texts[9] == a && texts[10] == l
  {
  }

  /** The values of the dump in order: what each row holds, written out. */
  lemma TextsWrittenOut(lib: Library, c: Certificate, now: Time)
    ensures var t := InfoTexts(lib, c, now);
      && t[0] == c.subject && t[1] == c.issuer && t[2] == c.serial
      && t[3] == Rfc3339.Format(c.notBefore) && t[4] == Rfc3339.Format(c.notAfter)
      && t[5] == (if IsExpired(c, now) then Ascii("true") else Ascii("false"))
      && t[6] == c.keyAlgorithm && t[7] == c.signatureAlgorithm && t[8] == lib.fingerprint(c.raw)
      && t[9] == (if c.isCA then Ascii("true") else Ascii("false"))
      && t[10] == Join(SansOf(lib, c), 44)
  {
    ElevenTexts(InfoTexts(lib, c, now), c.subject, c.issuer, c.serial,
                Rfc3339.Format(c.notBefore), Rfc3339.Format(c.notAfter), FormatBool(IsExpired(c, now)),
                c.keyAlgorithm, c.signatureAlgorithm, Fingerprint(lib, c), FormatBool(c.isCA),
                Join(SansOf(lib, c), COMMA));
  }

  /** A CERTIFICATE block with a byte in its body that is neither base64 nor blank is no certificate,
      unless the search finds another block behind it. */
  lemma BadBodyRefused(lib: Library, ws: GoString, body: GoString, trailer: GoString, i: nat)
    requires forall c <- ws :: c == 32 || c == 9 || c == 13 || c == 10
    requires body != [] && body[|body| - 1] == 10 && DASH !in body && COLON !in body
    requires i < |body| && !IsSymbol(body[i])
    requires body[i] != '=' as int && body[i] != 32 && body[i] != 9 && body[i] != 10 && body[i] != 13
    ensures var text := Ascii("-----BEGIN ") + (Ascii("CERTIFICATE") + Ascii("-----") + [10]
                        + (body + Ascii("-----END ") + trailer));
      lib.laterBlock(text) == None ==> Parsed(lib, ws + text) == Err(NoPemBlock)
  {
    var text := Ascii("-----BEGIN ") + (Ascii("CERTIFICATE") + Ascii("-----") + [10]
                + (body + Ascii("-----END ") + trailer));
    CertificateIsKind();
    Pem.ReadsExactly(Ascii("CERTIFICATE"), [10], body, trailer);
    Pem.BadByte(body, i);
    BeginIsSniffed(text);
    LeadingBytes(lib, ws, text);
    assert TrimLeft(text, SPACES) == text;
  }

  lemma BeginIsSniffed(text: GoString)
    requires Ascii("-----BEGIN ") <= text
    ensures Ascii("-----BEGIN") <= text && text[0] == 45
  {
    assert Ascii("-----BEGIN") <= Ascii("-----BEGIN ");
  }
}
