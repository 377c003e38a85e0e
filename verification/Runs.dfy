/** Whole scans: tick after tick in memory (stdio and unix transports), and over HTTP, where any tick
    may be followed by a trip of the state through its token. */
module Runs {
  import opened GoStrings
  import opened GoInts
  import opened Certificates
  import Rfc3339
  import opened Kernels
  import opened Time
  import opened Scans
  import opened Gob
  import opened Tokens

  /** The responses of k ticks on live state. */
  function MemRun(st: ScanState, k: nat): (responses: seq<Response>)
    requires InRange(st)
    ensures |responses| == k
    decreases k
  {
    if k == 0 then [] else
      var (next, response) := Tick(st);
      [response] + MemRun(next, k - 1)
  }

  lemma MemRunStep(st: ScanState, k: nat)
    requires InRange(st) && k > 0
    ensures MemRun(st, k) == [Tick(st).1] + MemRun(Tick(st).0, k - 1)
  {
  }

  ghost predicate IsResumable(st: ScanState) {
    InRange(st) && IsGoState(st)
  }

  /** The same ticks where cross[i] says whether the state after tick i is carried by a token; None
      if a token cannot be resumed. */
  ghost function HttpRun(st: ScanState, cross: seq<bool>): Option<seq<Response>>
    requires IsResumable(st)
    decreases cross
  {
    if cross == [] then Some([]) else
      var (live, response) := Tick(st);
      TickKeepsGoState(st);
      var next := if cross[0] then DecodeToken(EncodeToken(live)) else Some(live);
      if next.None? || !IsResumable(next.value) then None
      else match HttpRun(next.value, cross[1..])
        case None => None
        case Some(more) => Some([response] + more)
  }

  /** Refinement: wherever the boundaries fall, HTTP gives the responses of the in-memory scan. */
  lemma {:induction false} HttpRefinesMemory(st: ScanState, cross: seq<bool>)
    requires IsResumable(st)
    ensures HttpRun(st, cross) == Some(MemRun(st, |cross|))
    decreases cross
  {
    if cross != [] {
      var live := Tick(st).0;
      TickKeepsGoState(st);
      TokenInverse(live);
      HttpRefinesMemory(live, cross[1..]);
    }
  }

  /** The state after k ticks. */
  function After(st: ScanState, k: nat): (r: ScanState)
    requires InRange(st)
    ensures InRange(r)
  {
    st.(offset := Min(st.offset + ROWS_PER_TICK * k, Size(st)))
  }

  /** Response k of a scan that starts at st. */
  function Page(st: ScanState, k: nat): Response
    requires InRange(st)
  {
    Tick(After(st, k)).1
  }

  /** The cursor in closed form: after k ticks the offset is min(offset + 256 k, n). */
  lemma {:induction false} RunIsPages(st: ScanState, k: nat, i: nat)
    requires InRange(st) && i < k
    ensures MemRun(st, k)[i] == Page(st, i)
    decreases k
  {
    if i > 0 {
      AfterNext(st, i);
      RunIsPages(Tick(st).0, k - 1, i - 1);
    } else {
      assert After(st, 0) == st;
    }
  }

  /** How many ticks emit when n rows are left: n / ROWS_PER_TICK rounded up. */
  function EmittingTicks(n: nat): nat {
    (n + ROWS_PER_TICK - 1) / ROWS_PER_TICK
  }

  /** Exactly the first ceil(n / 256) ticks emit; every batch has between 1 and 256 rows and all but
      the last are full; every later tick finishes. */
  lemma ExactTicks(st: ScanState, k: nat, i: nat)
    requires InRange(st) && i < k
    ensures var left := Size(st) - st.offset; var r := MemRun(st, k)[i];
      && (r.Emit? <==> 256 * i < left) && (r.Emit? <==> i < EmittingTicks(left))
      && (r.Emit? ==> 1 <= BatchSize(r.batch) == if left - 256 * i < 256 then left - 256 * i else 256)
      && (i + 1 < EmittingTicks(left) ==> BatchSize(r.batch) == 256)
  {
    RunIsPages(st, k, i);
    var at := After(st, i);
    if at.offset < Size(st) {
      ColumnsAreRows(at, at.offset, Tick(at).0.offset);
    }
  }

  ghost predicate IsReadable(responses: seq<Response>) {
    forall r <- responses :: r.Emit? ==> IsRectangular(r.batch)
  }

  function RowsIn(r: Response): seq<Row>
    requires r.Emit? ==> IsRectangular(r.batch)
  {
    match r case Emit(b) => BatchRows(b) case Finish => []
  }

  /** The rows a client collects from responses. */
  ghost function Delivered(responses: seq<Response>): seq<Row>
    requires IsReadable(responses)
  {
    if responses == [] then []
    else
      assert responses[0] in responses;
      RowsIn(responses[0]) + Delivered(responses[1..])
  }

  /** One tick hands out exactly the rows its cursor moves over. */
  lemma TickDelivers(st: ScanState)
    requires InRange(st)
    ensures var (next, r) := Tick(st);
      (r.Emit? ==> IsRectangular(r.batch)) && RowsIn(r) == RowsOf(st)[st.offset..next.offset]
  {
    if st.offset < Size(st) {
      ColumnsAreRows(st, st.offset, Tick(st).0.offset);
    }
  }

  lemma RowsIgnoreOffset(st: ScanState, offset: nat)
    requires Sliceable(st)
    ensures RowsOf(st.(offset := offset)) == RowsOf(st) && Size(st.(offset := offset)) == Size(st)
  {
  }

  lemma DeliveredCons(r: Response, more: seq<Response>)
    requires (r.Emit? ==> IsRectangular(r.batch)) && IsReadable(more)
    ensures IsReadable([r] + more) && Delivered([r] + more) == RowsIn(r) + Delivered(more)
  {
    assert ([r] + more)[1..] == more;
  }

  /** A first response that hands out rows[a..b], and then rows[b..c]. */
  lemma DeliveredStep(rows: seq<Row>, r: Response, more: seq<Response>, a: nat, b: nat, c: nat)
    requires a <= b <= c <= |rows|
    requires (r.Emit? ==> IsRectangular(r.batch)) && RowsIn(r) == rows[a..b]
    requires IsReadable(more) && Delivered(more) == rows[b..c]
    ensures IsReadable([r] + more) && Delivered([r] + more) == rows[a..c]
  {
    DeliveredCons(r, more);
    SliceConcat(rows, a, b, c);
  }

  lemma AfterNext(st: ScanState, k: nat)
    requires InRange(st) && k > 0
    ensures InRange(Tick(st).0) && After(Tick(st).0, k - 1) == After(st, k)
  {
  }

  /** Finish is absorbing, and until then each tick strictly lowers the number of rows left. */
  lemma TickProgress(st: ScanState)
    requires InRange(st)
    ensures Tick(st).1.Finish? ==> Tick(st).0 == st
    ensures Tick(st).1.Emit? ==> Size(Tick(st).0) - Tick(st).0.offset < Size(st) - st.offset
    ensures InRange(Tick(st).0) && RowsOf(Tick(st).0) == RowsOf(st)
  {
  }

  /** One tick in front of a run that delivers its rows. */
  lemma RunStep(st: ScanState, more: seq<Response>, end: nat)
    requires InRange(st) && Tick(st).0.offset <= end <= Size(st)
    requires IsReadable(more) && Delivered(more) == RowsOf(Tick(st).0)[Tick(st).0.offset..end]
    ensures IsReadable([Tick(st).1] + more) && Delivered([Tick(st).1] + more) == RowsOf(st)[st.offset..end]
  {
    TickDelivers(st);
    TickProgress(st);
    DeliveredStep(RowsOf(st), Tick(st).1, more, st.offset, Tick(st).0.offset, end);
  }

  /** Column batches put back together are the rows from the offset on, each once and in order: k
      ticks deliver the first min(256 k, left) of them. */
  lemma RunDelivers(st: ScanState, k: nat)
    requires InRange(st)
    ensures IsReadable(MemRun(st, k))
    ensures Delivered(MemRun(st, k))
            == RowsOf(st)[st.offset..if Size(st) - st.offset < 256 * k then Size(st) else st.offset + 256 * k]
  {
    RunPasses(st, k);
  }

  lemma {:induction false} RunPasses(st: ScanState, k: nat)
    requires InRange(st)
    ensures IsReadable(MemRun(st, k))
    ensures Delivered(MemRun(st, k)) == RowsOf(st)[st.offset..After(st, k).offset]
    decreases k
  {
    if k > 0 {
      var next := Tick(st).0;
      var more := MemRun(next, k - 1);
      AfterNext(st, k);
      RunPasses(next, k - 1);
      RunStep(st, more, After(st, k).offset);
      MemRunStep(st, k);
    }
  }

  /** Enough ticks reach the end, and the next one finishes. */
  lemma EndReached(st: ScanState, k: nat)
    requires InRange(st) && k >= EmittingTicks(Size(st) - st.offset)
    ensures After(st, k).offset == Size(st)
    ensures Page(st, k) == Finish
  {
  }

  /** Enough ticks deliver everything that was left. */
  lemma RunDeliversAll(st: ScanState, k: nat)
    requires InRange(st) && k >= EmittingTicks(Size(st) - st.offset)
    ensures IsReadable(MemRun(st, k)) && Delivered(MemRun(st, k)) == RowsOf(st)[st.offset..]
  {
    RunPasses(st, k);
    EndReached(st, k);
    SliceToEnd(RowsOf(st), st.offset);
  }

  lemma LastFinishes(st: ScanState, k: nat)
    requires InRange(st) && k > EmittingTicks(Size(st) - st.offset)
    ensures MemRun(st, k)[k - 1] == Finish
  {
    RunIsPages(st, k, k - 1);
    EndReached(st, k - 1);
  }

  lemma WholeRunDelivers(st: ScanState, k: nat)
    requires InRange(st) && st.offset == 0 && k >= EmittingTicks(Size(st))
    ensures IsReadable(MemRun(st, k)) && Delivered(MemRun(st, k)) == RowsOf(st)
  {
    RunDeliversAll(st, k);
    SliceToEnd(RowsOf(st), 0);
  }

  /** A scan over HTTP with enough exchanges ends, and has then delivered every row exactly once,
      whichever ticks crossed a boundary. */
  lemma HttpScanComplete(st: ScanState, cross: seq<bool>)
    requires IsResumable(st) && st.offset == 0 && |cross| > EmittingTicks(Size(st))
    ensures match HttpRun(st, cross)
      case None => false
      case Some(responses) =>
        && |responses| == |cross| && responses[|cross| - 1] == Finish
        && IsReadable(responses) && Delivered(responses) == RowsOf(st)
  {
    HttpRefinesMemory(st, cross);
    WholeRunDelivers(st, |cross|);
    LastFinishes(st, |cross|);
  }

  function DumpRows(dump: seq<InfoField>): seq<Row> {
    seq(|dump|, i requires 0 <= i < |dump| => InfoRow(Ascii(dump[i].field), dump[i].value))
  }

  lemma StartRows(dump: seq<InfoField>)
    ensures RowsOf(InfoStart(dump)) == DumpRows(dump)
  {
  }

  /** cert_info over HTTP delivers the (field, value) rows of its dump; the eleven rows of CertInfo
      need two exchanges. */
  lemma InfoOverHttp(dump: seq<InfoField>, cross: seq<bool>)
    requires IsResumable(InfoStart(dump)) && |cross| > EmittingTicks(|dump|)
    ensures match HttpRun(InfoStart(dump), cross)
      case None => false
      case Some(responses) => IsReadable(responses) && Delivered(responses) == DumpRows(dump)
    ensures EmittingTicks(11) == 1
  {
    HttpScanComplete(InfoStart(dump), cross);
    StartRows(dump);
  }

  lemma DumpNamesFit(texts: seq<GoString>)
    requires |texts| == 11
    ensures forall f <- NamedFields(texts) :: |f.field| < MAX_INT
  {
    FieldNamesDiffer(texts);
    forall k | 0 <= k < 11
      ensures |NamedFields(texts)[k].field| < MAX_INT
    {
      NameLengths(NamedFields(texts), k);
    }
  }

  /** A cert_info scan can be resumed exactly when its texts are no longer than an int can count. */
  lemma DumpIsResumable(lib: Library, c: Certificate, now: Time)
    ensures IsResumable(InfoStart(CertInfo(lib, c, now)))
            <==> forall text <- InfoTexts(lib, c, now) :: |text| < MAX_INT
  {
    var texts := InfoTexts(lib, c, now);
    var rows := NamedFields(texts);
    DumpNamesFit(texts);
    DumpStartFits(rows);
    forall k | 0 <= k < 11
      ensures rows[k].value == texts[k]
    {
      NamedTexts(texts, k);
    }
    ValuesOfRows(rows, texts);
  }

  lemma ValuesOfRows(rows: seq<InfoField>, texts: seq<GoString>)
    requires |rows| == |texts| && forall k | 0 <= k < |rows| :: rows[k].value == texts[k]
    ensures (forall f <- rows :: |f.value| < MAX_INT) <==> forall text <- texts :: |text| < MAX_INT
  {
    if forall f <- rows :: |f.value| < MAX_INT {
      forall k | 0 <= k < |texts|
        ensures |texts[k]| < MAX_INT
      {
        assert rows[k] in rows;
      }
    }
  }

  lemma DumpStartFits(rows: seq<InfoField>)
    requires |rows| < MAX_INT && forall f <- rows :: |f.field| < MAX_INT
    ensures IsResumable(InfoStart(rows)) <==> forall f <- rows :: |f.value| < MAX_INT
  {
    var st := InfoStart(rows);
    InfoFits(st.fields, st.values);
    forall k | 0 <= k < |rows|
      ensures |st.fields[k]| < MAX_INT && st.values[k] == rows[k].value
    {
      assert rows[k] in rows;
    }
    if forall s <- st.values :: |s| < MAX_INT {
      forall k | 0 <= k < |rows|
        ensures |rows[k].value| < MAX_INT
      {
        assert st.values[k] in st.values;
      }
    }
  }

  /** The eleven rows of the dump, written out. */
  lemma DumpWrittenOut(lib: Library, c: Certificate, now: Time)
    ensures var rows := DumpRows(CertInfo(lib, c, now));
      && |rows| == 11
      && rows[0] == InfoRow(Ascii("subject"), c.subject)
      && rows[1] == InfoRow(Ascii("issuer"), c.issuer)
      && rows[2] == InfoRow(Ascii("serial"), c.serial)
      && rows[3] == InfoRow(Ascii("not_before"), Rfc3339.Format(c.notBefore))
      && rows[4] == InfoRow(Ascii("not_after"), Rfc3339.Format(c.notAfter))
      && rows[5] == InfoRow(Ascii("is_expired"), if IsExpired(c, now) then Ascii("true") else Ascii("false"))
      && rows[6] == InfoRow(Ascii("key_algorithm"), c.keyAlgorithm)
      && rows[7] == InfoRow(Ascii("signature_algorithm"), c.signatureAlgorithm)
      && rows[8] == InfoRow(Ascii("fingerprint_sha256"), lib.fingerprint(c.raw))
      && rows[9] == InfoRow(Ascii("is_ca"), if c.isCA then Ascii("true") else Ascii("false"))
      && rows[10] == InfoRow(Ascii("sans"), Join(SansOf(lib, c), 44))
  {
    NamesWrittenOut(InfoTexts(lib, c, now));
    TextsWrittenOut(lib, c, now);
  }

  /** cert_info on a certificate, whether it arrives as PEM text or as DER bytes: two exchanges over
      HTTP deliver the rows of its dump. */
  lemma CertInfoOverHttp(lib: Library, pem: Column, der: Column, c: Certificate, now: Time, cross: seq<bool>)
    requires SameCertificates(pem, der) && |pem.cells| > 0 && pem.cells[0].Some?
    requires Handle(lib, pem.kind, pem.cells[0].value) == Ok(c)
    requires (forall text <- InfoTexts(lib, c, now) :: |text| < MAX_INT) && |cross| >= 2
    ensures NewInfo(lib, Ok(pem), now) == NewInfo(lib, Ok(der), now) == Ok(InfoStart(CertInfo(lib, c, now)))
    ensures IsResumable(InfoStart(CertInfo(lib, c, now)))
    ensures match HttpRun(InfoStart(CertInfo(lib, c, now)), cross)
      case None => false
      case Some(responses) => IsReadable(responses) && Delivered(responses) == DumpRows(CertInfo(lib, c, now))
  {
    InfoIgnoresEncoding(lib, pem, der, now);
    DumpIsResumable(lib, c, now);
    InfoOverHttp(CertInfo(lib, c, now), cross);
  }

  /** The seq column over a whole tls_inspect scan. */
  function Positions(rows: seq<Row>): seq<int> {
    seq(|rows|, i requires 0 <= i < |rows| => match rows[i] case TlsRow(r) => r.position case InfoRow(_, _) => -1)
  }

  /** It counts 0, 1, ..., n-1 with no gap or repeat at any batch border exactly while the chain has at
      most 2^31 certificates. */
  lemma TlsSequence(lib: Library, chain: seq<Certificate>, k: nat)
    requires k >= EmittingTicks(|chain|)
    ensures var responses := MemRun(TlsStart(lib, chain), k);
      && IsReadable(responses)
      && (Positions(Delivered(responses)) == seq(|chain|, i => i) <==> |chain| <= 0x8000_0000)
  {
    var st := TlsStart(lib, chain);
    WholeRunDelivers(st, k);
    var ps := Positions(RowsOf(st));
    forall i | 0 <= i < |chain|
      ensures ps[i] == Int32(i)
    {
    }
    if |chain| <= TWO_31 {
      forall i | 0 <= i < |chain|
        ensures ps[i] == i
      {
        Int32Exact(i);
      }
    } else {
      Int32Exact(TWO_31);
      assert ps[TWO_31] != TWO_31;
    }
  }

  /** The texts of a chain row as Go holds them. */
  predicate HasGoNames(lib: Library, c: Certificate) {
    |c.subject| < MAX_INT && |c.issuer| < MAX_INT && |Fingerprint(lib, c)| < MAX_INT
  }

  lemma ChainRowFits(lib: Library, i: int, c: Certificate)
    ensures IsGoRow(ChainRowOf(lib, i, c)) <==> HasGoNames(lib, c)
  {
  }

  /** A tls_inspect scan can be resumed exactly when neither the chain nor a text in it is longer than an
      int can count; its numbers always fit. */
  lemma ChainIsResumable(lib: Library, chain: seq<Certificate>)
    ensures IsResumable(TlsStart(lib, chain)) <==> |chain| < MAX_INT && forall c <- chain :: HasGoNames(lib, c)
  {
    var rows := TlsStart(lib, chain).rows;
    TlsFits(rows);
    forall i | 0 <= i < |chain|
      ensures IsGoRow(rows[i]) <==> HasGoNames(lib, chain[i])
    {
      ChainRowFits(lib, i, chain[i]);
    }
    if forall r <- rows :: IsGoRow(r) {
      forall i | 0 <= i < |chain|
        ensures HasGoNames(lib, chain[i])
      {
        assert rows[i] in rows;
      }
    }
  }

  /** The seq column over HTTP, whichever ticks cross a boundary. */
  lemma TlsOverHttp(lib: Library, chain: seq<Certificate>, cross: seq<bool>)
    requires |chain| < MAX_INT && forall c <- chain :: HasGoNames(lib, c)
    requires |cross| >= EmittingTicks(|chain|)
    ensures IsResumable(TlsStart(lib, chain))
    ensures match HttpRun(TlsStart(lib, chain), cross)
      case None => false
      case Some(responses) =>
        && IsReadable(responses)
        && (Positions(Delivered(responses)) == seq(|chain|, i => i) <==> |chain| <= 0x8000_0000)
  {
    ChainIsResumable(lib, chain);
    HttpRefinesMemory(TlsStart(lib, chain), cross);
    TlsSequence(lib, chain, |cross|);
  }

  lemma ChainRowsOf(lib: Library, chain: seq<Certificate>, i: nat)
    requires i < |chain|
    ensures var rows := RowsOf(TlsStart(lib, chain));
      |rows| == |chain| && rows[i] == TlsRow(TlsStart(lib, chain).rows[i])
  {
  }

  /** tls_inspect over HTTP delivers one row per certificate, in presentation order, each column showing
      its attribute of that certificate. */
  lemma ChainDelivered(lib: Library, chain: seq<Certificate>, cross: seq<bool>)
    requires |chain| < MAX_INT && forall c <- chain :: HasGoNames(lib, c)
    requires 256 * |cross| >= |chain|
    ensures IsResumable(TlsStart(lib, chain))
    ensures match HttpRun(TlsStart(lib, chain), cross)
      case None => false
      case Some(responses) =>
        && IsReadable(responses) && |Delivered(responses)| == |chain|
        && forall i | 0 <= i < |chain| ::
             var row := Delivered(responses)[i];
             && row.TlsRow?
             && row.row.subject == chain[i].subject && row.row.issuer == chain[i].issuer
             && row.row.notBeforeUS == UnixMicro(chain[i].notBefore)
             && row.row.notAfterUS == UnixMicro(chain[i].notAfter)
             && row.row.isCA == chain[i].isCA && row.row.fingerprint == lib.fingerprint(chain[i].raw)
             && (i < 0x8000_0000 ==> row.row.position == i)
  {
    var st := TlsStart(lib, chain);
    ChainIsResumable(lib, chain);
    HttpRefinesMemory(st, cross);
    WholeRunDelivers(st, |cross|);
    forall i | 0 <= i < |chain|
      ensures RowsOf(st)[i] == TlsRow(st.rows[i])
    {
      ChainRowsOf(lib, chain, i);
    }
    forall i | 0 <= i < |chain|
      ensures
        var r := st.rows[i];
        && r.subject == chain[i].subject && r.issuer == chain[i].issuer
        && r.notBeforeUS == UnixMicro(chain[i].notBefore) && r.notAfterUS == UnixMicro(chain[i].notAfter)
        && r.isCA == chain[i].isCA && r.fingerprint == lib.fingerprint(chain[i].raw)
        && (i < 0x8000_0000 ==> r.position == i)
    {
      ChainRows(lib, chain, i);
    }
  }
}
