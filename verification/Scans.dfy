/** The two table functions of internal/x509worker/functions.go: the state of a scan, its cursor, one
    Process tick, and the states NewState builds. */
module Scans {
  import opened GoStrings
  import opened GoInts
  import opened Time
  import opened Certificates
  import opened Kernels
  import Rfc3339

  const ROWS_PER_TICK := 256

  /** tlsChainRow. */
  datatype ChainRow = ChainRow(
    position: int, subject: GoString, issuer: GoString,
    notBeforeUS: int, notAfterUS: int, isCA: bool, fingerprint: GoString)

  /** certInfoState and tlsInspectState as values. */
  datatype ScanState =
    | InfoScan(fields: seq<GoString>, values: seq<GoString>, offset: int)
    | TlsScan(rows: seq<ChainRow>, offset: int)

  /** A record batch: one sequence per column of certInfoSchema or tlsInspectSchema. */
  datatype Batch =
    | InfoBatch(field: seq<GoString>, value: seq<GoString>)
    | TlsBatch(position: seq<int>, subject: seq<GoString>, issuer: seq<GoString>,
               notBefore: seq<int>, notAfter: seq<int>, isCA: seq<bool>, fingerprint: seq<GoString>)

  datatype Response = Emit(batch: Batch) | Finish

  function Size(st: ScanState): nat {
    match st case InfoScan(fields, _, _) => |fields| case TlsScan(rows, _) => |rows|
  }

  /** The slices of Process are in bounds. */
  predicate Sliceable(st: ScanState) {
    0 <= st.offset && (st.InfoScan? ==> |st.fields| == |st.values|)
  }

  /** What every state of a scan keeps. */
  predicate InRange(st: ScanState) {
    Sliceable(st) && st.offset <= Size(st)
  }

  function Min(a: int, b: int): int {
    if a < b then a else b
  }

  /** The columns of rows start up to end. */
  function Columns(st: ScanState, start: nat, end: nat): Batch
    requires Sliceable(st) && start <= end <= Size(st)
  {
    match st
    case InfoScan(fields, values, _) => InfoBatch(fields[start..end], values[start..end])
    case TlsScan(rows, _) =>
      var r := rows[start..end];
      TlsBatch(seq(|r|, i requires 0 <= i < |r| => r[i].position),
               seq(|r|, i requires 0 <= i < |r| => r[i].subject),
               seq(|r|, i requires 0 <= i < |r| => r[i].issuer),
               seq(|r|, i requires 0 <= i < |r| => r[i].notBeforeUS),
               seq(|r|, i requires 0 <= i < |r| => r[i].notAfterUS),
               seq(|r|, i requires 0 <= i < |r| => r[i].isCA),
               seq(|r|, i requires 0 <= i < |r| => r[i].fingerprint))
  }

  /** One Process call on the state as a value. */
  function Tick(st: ScanState): (ScanState, Response)
    requires Sliceable(st)
  {
    if st.offset >= Size(st) then (st, Finish)
    else
      var end := Min(st.offset + ROWS_PER_TICK, Size(st));
      (st.(offset := end), Emit(Columns(st, st.offset, end)))
  }

  // Rows, as a reader of the batches sees them.

  datatype Row = InfoRow(field: GoString, value: GoString) | TlsRow(row: ChainRow)

  function RowsOf(st: ScanState): (rows: seq<Row>)
    requires Sliceable(st)
    ensures |rows| == Size(st)
  {
    match st
    case InfoScan(fields, values, _) => seq(|fields|, i requires 0 <= i < |fields| => InfoRow(fields[i], values[i]))
    case TlsScan(rows, _) => seq(|rows|, i requires 0 <= i < |rows| => TlsRow(rows[i]))
  }

  predicate IsRectangular(b: Batch) {
    match b
    case InfoBatch(field, value) => |field| == |value|
    case TlsBatch(position, subject, issuer, notBefore, notAfter, isCA, fingerprint) =>
      |position| == |subject| == |issuer| == |notBefore| == |notAfter| == |isCA| == |fingerprint|
  }

  function BatchSize(b: Batch): nat {
    match b case InfoBatch(field, _) => |field| case TlsBatch(position, _, _, _, _, _, _) => |position|
  }

  /** Row i takes element i of every column. */
  function BatchRows(b: Batch): (rows: seq<Row>)
    requires IsRectangular(b)
    ensures |rows| == BatchSize(b)
  {
    match b
    case InfoBatch(field, value) => seq(|field|, i requires 0 <= i < |field| => InfoRow(field[i], value[i]))
    case TlsBatch(position, subject, issuer, notBefore, notAfter, isCA, fingerprint) =>
      seq(|position|, i requires 0 <= i < |position| =>
        TlsRow(ChainRow(position[i], subject[i], issuer[i], notBefore[i], notAfter[i], isCA[i], fingerprint[i])))
  }

  /** Zipping the columns of a batch gives back exactly the rows it was cut from. */
  lemma ColumnsAreRows(st: ScanState, start: nat, end: nat)
    requires Sliceable(st) && start <= end <= Size(st)
    ensures var b := Columns(st, start, end);
            IsRectangular(b) && BatchSize(b) == end - start && BatchRows(b) == RowsOf(st)[start..end]
  {
    var b := Columns(st, start, end);
    assert IsRectangular(b) && BatchSize(b) == end - start;
    forall i | 0 <= i < end - start
      ensures BatchRows(b)[i] == RowsOf(st)[start..end][i]
    {
      assert RowsOf(st)[start..end][i] == RowsOf(st)[start + i];
    }
  }

  /** Column by column, the batch has the rows r. */
  predicate HoldsRows(b: Batch, r: seq<ChainRow>) {
    && b.TlsBatch?
    && |b.position| == |b.subject| == |b.issuer| == |b.notBefore| == |b.notAfter| == |b.isCA| == |b.fingerprint| == |r|
    && forall i | 0 <= i < |r| ::
         && b.position[i] == r[i].position && b.subject[i] == r[i].subject && b.issuer[i] == r[i].issuer
         && b.notBefore[i] == r[i].notBeforeUS && b.notAfter[i] == r[i].notAfterUS
         && b.isCA[i] == r[i].isCA && b.fingerprint[i] == r[i].fingerprint
  }

  // The methods of the source on mutable state.

  /** What a *int points to. */
  class IntRef {
    var value: int

    constructor (v: int)
      ensures value == v
    {
      value := v;
    }
  }

  /** cursorBounds: the next window over n rows; the cursor moves past it before anything is emitted. */
  method CursorBounds(n: int, offset: IntRef) returns (start: int, end: int, done: bool)
    modifies offset
    ensures done <==> old(offset.value) >= n
    ensures done ==> start == end == 0 && offset.value == old(offset.value)
    ensures !done ==> start == old(offset.value) < end == offset.value == Min(start + ROWS_PER_TICK, n)
    ensures !done ==> end == if n - start < 256 then n else start + 256
  {
    if offset.value >= n {
      return 0, 0, true;
    }
    start := offset.value;
    end := start + ROWS_PER_TICK;
    if end > n {
      end := n;
    }
    offset.value := end;
    return start, end, false;
  }

  /** vgirpc.OutputCollector: a Process call yields one batch or finishes. */
  class OutputCollector {
    var response: Option<Response>

    constructor ()
      ensures response == None
    {
      response := None;
    }

    method Emit(batch: Batch)
      requires response == None
      modifies this
      ensures response == Some(Response.Emit(batch))
    {
      response := Some(Response.Emit(batch));
    }

    method Finish()
      requires response == None
      modifies this
      ensures response == Some(Response.Finish)
    {
      response := Some(Response.Finish);
    }
  }

  class CertInfoState {
    var fields: seq<GoString>
    var values: seq<GoString>
    const offset: IntRef

    constructor ()
      ensures fresh(offset) && State() == InfoScan([], [], 0)
    {
      fields, values := [], [];
      offset := new IntRef(0);
    }

    ghost function State(): ScanState
      reads this, offset
    {
      InfoScan(fields, values, offset.value)
    }

    /** The loop of certInfoFunc.NewState. */
    method Fill(rows: seq<InfoField>)
      requires State() == InfoScan([], [], 0)
      modifies this
      ensures State() == InfoStart(rows)
    {
      for i := 0 to |rows|
        invariant offset.value == 0
        invariant fields == seq(i, k requires 0 <= k < i => Ascii(rows[k].field))
        invariant values == seq(i, k requires 0 <= k < i => rows[k].value)
      {
        fields := fields + [Ascii(rows[i].field)];
        values := values + [rows[i].value];
      }
    }

    /** certInfoFunc.Process. */
    method Process(out: OutputCollector)
      requires Sliceable(State()) && out.response == None
      modifies offset, out
      ensures out.response.Some? && (State(), out.response.value) == Tick(old(State()))
      ensures var at, n := old(offset.value), |fields|;
        if at >= n then out.response == Some(Response.Finish) && offset.value == at
        else
          && offset.value == (if n - at < 256 then n else at + 256)
          && out.response == Some(Response.Emit(InfoBatch(fields[at..offset.value], values[at..offset.value])))
    {
      var start, end, done := CursorBounds(|fields|, offset);
      if done {
        out.Finish();
        return;
      }
      out.Emit(InfoBatch(fields[start..end], values[start..end]));
    }
  }

  class TlsInspectState {
    var rows: seq<ChainRow>
    const offset: IntRef

    constructor ()
      ensures fresh(offset) && State() == TlsScan([], 0)
    {
      rows := [];
      offset := new IntRef(0);
    }

    ghost function State(): ScanState
      reads this, offset
    {
      TlsScan(rows, offset.value)
    }

    /** tlsInspectFunc.Process: four columns go through builders filled in one loop. */
    method Process(out: OutputCollector)
      requires Sliceable(State()) && out.response == None
      modifies offset, out
      ensures out.response.Some? && (State(), out.response.value) == Tick(old(State()))
      ensures var at, n := old(offset.value), |rows|;
        if at >= n then out.response == Some(Response.Finish) && offset.value == at
        else
          && offset.value == (if n - at < 256 then n else at + 256)
          && out.response.value.Emit? && HoldsRows(out.response.value.batch, rows[at..offset.value])
    {
      var start, end, done := CursorBounds(|rows|, offset);
      if done {
        out.Finish();
        return;
      }
      var r := rows[start..end];
      var seqB, nbB, naB, caB: seq<bool> := [], [], [], [];
      for i := 0 to |r|
        invariant seqB == seq(i, k requires 0 <= k < i => r[k].position)
        invariant nbB == seq(i, k requires 0 <= k < i => r[k].notBeforeUS)
        invariant naB == seq(i, k requires 0 <= k < i => r[k].notAfterUS)
        invariant caB == seq(i, k requires 0 <= k < i => r[k].isCA)
      {
        seqB := seqB + [r[i].position];
        nbB := nbB + [r[i].notBeforeUS];
        naB := naB + [r[i].notAfterUS];
        caB := caB + [r[i].isCA];
      }
      out.Emit(TlsBatch(
        seqB,
        seq(|r|, i requires 0 <= i < |r| => r[i].subject),
        seq(|r|, i requires 0 <= i < |r| => r[i].issuer),
        nbB, naB, caB,
        seq(|r|, i requires 0 <= i < |r| => r[i].fingerprint)));
    }
  }

  // The states a scan starts from.

  datatype StateError = BadArgument(reason: GoString) | BadRow(error: RowError)

  function InfoStart(rows: seq<InfoField>): ScanState {
    InfoScan(seq(|rows|, i requires 0 <= i < |rows| => Ascii(rows[i].field)),
             seq(|rows|, i requires 0 <= i < |rows| => rows[i].value), 0)
  }

  /** An absent or NULL certificate gives no rows, a bad one an error, any other its dump. */
  function NewInfo(lib: Library, arg: Result<Column, GoString>, now: Time): Result<ScanState, StateError> {
    match arg
    case Err(reason) => Err(BadArgument(reason))
    case Ok(col) =>
      if |col.cells| == 0 || col.cells[0].None? then Ok(InfoScan([], [], 0))
      else match Handle(lib, col.kind, col.cells[0].value)
        case Err(e) => Err(BadRow(e))
        case Ok(c) => Ok(InfoStart(CertInfo(lib, c, now)))
  }

  /** A scan of the PEM column starts in the same state, or with the same error, as one of the DER column. */
  lemma InfoIgnoresEncoding(lib: Library, pem: Column, der: Column, now: Time)
    requires SameCertificates(pem, der)
    ensures NewInfo(lib, Ok(pem), now) == NewInfo(lib, Ok(der), now)
  {
    if |pem.cells| > 0 {
      SameHandles(lib, pem, der, 0);
    }
  }

  /** cert_info and the scalar with result r on the same column of one row: cert_info fails with the
      error of the scalar, is empty where the scalar is null, and otherwise shows in row k the text of
      the value the scalar returns. */
  ghost predicate ShowsScalar<T>(info: Result<ScanState, StateError>, k: nat, text: T -> GoString,
                                 r: Result<seq<Option<T>>, RowError>)
    requires k < 11
  {
    match info
    case Err(e) => e.BadRow? && r == Err(e.error)
    case Ok(st) =>
      && r.Ok? && |r.value| == 1 && Sliceable(st)
      && match r.value[0]
         case None => Size(st) == 0
         case Some(v) => Size(st) == 11 && st.InfoScan? && st.values[k] == text(v)
  }

  /** The certificate in the row, if there is one, has property p. */
  ghost predicate InRow(lib: Library, col: Column, p: Certificate -> bool)
    requires |col.cells| == 1
  {
    match col.cells[0]
    case None => true
    case Some(raw) => match Handle(lib, col.kind, raw) case Ok(c) => p(c) case Err(_) => true
  }

  lemma DumpText(lib: Library, c: Certificate, now: Time, k: nat)
    requires k < 11
    ensures var st := InfoStart(CertInfo(lib, c, now));
      Sliceable(st) && Size(st) == 11 && st.values[k] == InfoTexts(lib, c, now)[k]
  {
    NamedTexts(InfoTexts(lib, c, now), k);
  }

  lemma ShowsDump<T>(lib: Library, c: Certificate, now: Time, k: nat, text: T -> GoString, v: T)
    requires k < 11
    ensures ShowsScalar(Ok(InfoStart(CertInfo(lib, c, now))), k, text, Ok([Some(v)]))
            <==> text(v) == InfoTexts(lib, c, now)[k]
  {
    DumpText(lib, c, now, k);
  }

  /** The dump against the scalars: row k shows the scalar that reads f exactly when, for the
      certificate at hand, text prints what f reads as the dump prints it. */
  lemma DumpShowsScalar<T>(lib: Library, col: Column, now: Time, f: Certificate -> T, text: T -> GoString, k: nat,
                           r: Result<seq<Option<T>>, RowError>)
    requires |col.cells| == 1 && k < 11
    requires MapsRows(lib, f, col, r)
    ensures ShowsScalar(NewInfo(lib, Ok(col), now), k, text, r)
            <==> InRow(lib, col, (c: Certificate) => text(f(c)) == InfoTexts(lib, c, now)[k])
  {
    OneRow(lib, f, col, r);
    if col.cells[0].Some? {
      match Handle(lib, col.kind, col.cells[0].value)
      case Ok(c) => ShowsDump(lib, c, now, k, text, f(c));
      case Err(_) =>
    }
  }

  /** The dates: each shows the timestamp of its scalar, printed in the layout of the dump, exactly when
      the microseconds of that date fit an int64. */
  lemma DumpShowsDate(lib: Library, col: Column, now: Time, f: Certificate -> Time, k: nat,
                      r: Result<seq<Option<int>>, RowError>)
    requires |col.cells| == 1 && (k == 3 || k == 4)
    requires forall c: Certificate :: f(c) == if k == 3 then c.notBefore else c.notAfter
    requires MapsRows(lib, (c: Certificate) => UnixMicro(f(c)), col, r)
    ensures ShowsScalar(NewInfo(lib, Ok(col), now), k, Rfc3339.MicrosText, r)
            <==> InRow(lib, col, (c: Certificate) => FitsMicros(f(c)))
  {
    OneRow(lib, (c: Certificate) => UnixMicro(f(c)), col, r);
    if col.cells[0].Some? {
      match Handle(lib, col.kind, col.cells[0].value)
      case Ok(c) =>
        ShowsDump(lib, c, now, k, Rfc3339.MicrosText, UnixMicro(f(c)));
        TextsWrittenOut(lib, c, now);
        Rfc3339.MicrosTextExact(f(c), InfoTexts(lib, c, now)[k]);
      case Err(_) =>
    }
  }

  lemma NamedTexts(texts: seq<GoString>, k: nat)
    requires |texts| == 11 && k < 11
    ensures NamedFields(texts)[k].value == texts[k]
  {
  }

  /** certInfoFunc.NewState; arg is what GetColumn(0) returned. */
  method NewCertInfoState(lib: Library, arg: Result<Column, GoString>, now: Time)
    returns (r: Result<CertInfoState, StateError>)
    ensures match r
      case Ok(st) => fresh(st) && fresh(st.offset) && NewInfo(lib, arg, now) == Ok(st.State()) && InRange(st.State())
      case Err(e) => NewInfo(lib, arg, now) == Err(e)
    ensures r.Err? && r.error.BadArgument? <==> arg.Err?
    ensures r.Err? && r.error.BadRow? <==> arg.Ok? && |arg.value.cells| > 0 && Fails(lib, arg.value, 0)
    ensures r.Ok? ==> (Size(r.value.State()) == 0 <==> |arg.value.cells| == 0 || arg.value.cells[0] == None)
  {
    if arg.Err? {
      return Err(BadArgument(arg.error));
    }
    var col := arg.value;
    var st := new CertInfoState();
    if |col.cells| == 0 || col.cells[0].None? {
      return Ok(st);
    }
    var h := ParseHandle(lib, col, 0);
    if h.Err? {
      return Err(BadRow(h.error));
    }
    var rows := CertInfo(lib, h.value, now);
    st.Fill(rows);
    return Ok(st);
  }

  function ChainRowOf(lib: Library, i: int, c: Certificate): ChainRow {
    ChainRow(Int32(i), c.subject, c.issuer, UnixMicro(c.notBefore), UnixMicro(c.notAfter), c.isCA, Fingerprint(lib, c))
  }

  function TlsStart(lib: Library, chain: seq<Certificate>): ScanState {
    TlsScan(seq(|chain|, i requires 0 <= i < |chain| => ChainRowOf(lib, i, chain[i])), 0)
  }

  /** Row i of the chain holds the attributes of certificate i, each in its own column. */
  lemma ChainRows(lib: Library, chain: seq<Certificate>, i: nat)
    requires i < |chain|
    ensures |TlsStart(lib, chain).rows| == |chain| && TlsStart(lib, chain).offset == 0
    ensures var r, c := TlsStart(lib, chain).rows[i], chain[i];
      && r.subject == c.subject && r.issuer == c.issuer
      && r.notBeforeUS == UnixMicro(c.notBefore) && r.notAfterUS == UnixMicro(c.notAfter)
      && r.isCA == c.isCA && r.fingerprint == lib.fingerprint(c.raw)
      && (i < 0x8000_0000 ==> r.position == i)
  {
    Int32Exact(i);
  }

  /** tlsInspectFunc.NewState; endpoint is what InspectTLS returned, None for a NULL host_port. */
  method NewTlsInspectState(lib: Library, endpoint: Option<Result<seq<Certificate>, GoString>>)
    returns (r: Result<TlsInspectState, StateError>)
    ensures match r
      case Ok(st) =>
        && fresh(st) && fresh(st.offset) && InRange(st.State())
        && (match endpoint case None => st.State() == TlsScan([], 0) case Some(chain) =>
             chain.Ok? && st.State() == TlsStart(lib, chain.value))
      case Err(e) => endpoint.Some? && endpoint.value.Err? && e == BadArgument(endpoint.value.error)
  {
    var st := new TlsInspectState();
    if endpoint.None? {
      return Ok(st);
    }
    if endpoint.value.Err? {
      return Err(BadArgument(endpoint.value.error));
    }
    var chain := endpoint.value.value;
    for i := 0 to |chain|
      invariant fresh(st) && fresh(st.offset)
      invariant st.offset.value == 0
      invariant st.rows == seq(i, k requires 0 <= k < i => ChainRowOf(lib, k, chain[k]))
    {
      var c := chain[i];
      st.rows := st.rows + [ChainRow(Int32(i), c.subject, c.issuer, UnixMicro(c.notBefore), UnixMicro(c.notAfter),
                                     c.isCA, Fingerprint(lib, c))];
    }
    return Ok(st);
  }
}
