/** The Process loops of the scalar functions (internal/x509worker/functions.go): one row at a time,
    NULL in gives NULL out, and the first row that fails to parse fails the whole batch. */
module Kernels {
  import opened GoStrings
  import opened Time
  import opened Certificates
  import Pem
  import opened Arrow

  datatype ColumnType = String | LargeString | Binary | LargeBinary | Unsupported

  datatype Column = Column(kind: ColumnType, cells: seq<Option<GoString>>)

  datatype RowError = UnsupportedColumn | BadInput(error: ParseError)

  /** parseHandle on the bytes of a non-null cell. */
  function Handle(lib: Library, kind: ColumnType, raw: GoString): Result<Certificate, RowError> {
    if kind == Unsupported then Err(UnsupportedColumn)
    else match Parsed(lib, raw)
      case Ok(c) => Ok(c)
      case Err(e) => Err(BadInput(e))
  }

  method ParseHandle(lib: Library, col: Column, i: nat) returns (r: Result<Certificate, RowError>)
    requires i < |col.cells| && col.cells[i].Some?
    ensures r == Handle(lib, col.kind, col.cells[i].value)
  {
    if col.kind == Unsupported {
      return Err(UnsupportedColumn);
    }
    var cert := ParseCertificate(lib, col.cells[i].value);
    return match cert case Ok(c) => Ok(c) case Err(e) => Err(BadInput(e));
  }

  /** The certificate or the error of a cell, case by case. */
  lemma HandleCases(lib: Library, kind: ColumnType, raw: GoString)
    ensures var r := Handle(lib, kind, raw);
      if kind == Unsupported then r == Err(UnsupportedColumn)
      else if raw == [] then r == Err(BadInput(EmptyInput))
      else if exists k :: ArmorAt(raw, k) then
        match Pem.Decode(lib.laterBlock, TrimLeft(raw, {32, 9, 13, 10}))
        case None => r == Err(BadInput(NoPemBlock))
        case Some(block) =>
          if block.kind != Ascii("CERTIFICATE") then r == Err(BadInput(WrongBlockType(block.kind)))
          else
            match lib.parseDer(block.bytes)
            case Ok(c) => r == Ok(c)
            case Err(reason) => r == Err(BadInput(BadDer(reason)))
      else
        match lib.parseDer(raw)
        case Ok(c) => r == Ok(c)
        case Err(reason) => r == Err(BadInput(BadDer(reason)))
  {
    ArmorSniffed(raw);
    assert SPACES == {32, 9, 13, 10};
  }

  /** Row i is not null and does not parse. */
  predicate Fails(lib: Library, col: Column, i: nat)
    requires i < |col.cells|
  {
    col.cells[i].Some? && Handle(lib, col.kind, col.cells[i].value).Err?
  }

  /** Output row i when row i does not fail. */
  function Output<T>(lib: Library, f: Certificate -> T, col: Column, i: nat): Option<T>
    requires i < |col.cells| && !Fails(lib, col, i)
  {
    match col.cells[i]
    case None => None
    case Some(raw) => Some(f(Handle(lib, col.kind, raw).value))
  }

  /** The per-row specification all kernels share: either every row comes out as its own output, or
      the batch fails with the error of the smallest failing row. */
  ghost predicate MapsRows<T>(lib: Library, f: Certificate -> T, col: Column, r: Result<seq<Option<T>>, RowError>) {
    match r
    case Ok(out) =>
      && |out| == |col.cells|
      && forall i | 0 <= i < |out| :: !Fails(lib, col, i) && out[i] == Output(lib, f, col, i)
    case Err(e) =>
      exists i :: 0 <= i < |col.cells| && FailsFirst(lib, col, i, e)
  }

  ghost predicate FailsFirst(lib: Library, col: Column, i: nat, e: RowError)
    requires i < |col.cells|
  {
    && Fails(lib, col, i) && e == Handle(lib, col.kind, col.cells[i].value).error
    && forall j | 0 <= j < i :: !Fails(lib, col, j)
  }

  /** What firstErr holds after the first n rows. */
  ghost predicate FirstError(lib: Library, col: Column, n: nat, firstErr: Option<RowError>)
    requires n <= |col.cells|
  {
    match firstErr
    case None => forall j | 0 <= j < n :: !Fails(lib, col, j)
    case Some(e) => exists i :: 0 <= i < n && FailsFirst(lib, col, i, e)
  }

  /** What the builder holds after the first n rows, as long as none failed. */
  ghost predicate BuiltSoFar<T>(lib: Library, f: Certificate -> T, col: Column, n: nat, cells: seq<Option<T>>)
    requires n <= |col.cells|
  {
    |cells| == n && forall i | 0 <= i < n :: !Fails(lib, col, i) ==> cells[i] == Output(lib, f, col, i)
  }

  /** One more row: the first error and the builder keep their meaning. */
  lemma OneMoreRow<T>(lib: Library, f: Certificate -> T, col: Column, n: nat, firstErr: Option<RowError>,
                      cells: seq<Option<T>>, cell: Option<T>)
    requires n < |col.cells| && FirstError(lib, col, n, firstErr) && BuiltSoFar(lib, f, col, n, cells)
    requires !Fails(lib, col, n) ==> cell == Output(lib, f, col, n)
    ensures BuiltSoFar(lib, f, col, n + 1, cells + [cell])
    ensures !Fails(lib, col, n) || firstErr.Some? ==> FirstError(lib, col, n + 1, firstErr)
    ensures Fails(lib, col, n) && firstErr.None? ==>
            FirstError(lib, col, n + 1, Some(Handle(lib, col.kind, col.cells[n].value).error))
  {
    if Fails(lib, col, n) && firstErr.None? {
      assert FailsFirst(lib, col, n, Handle(lib, col.kind, col.cells[n].value).error);
    }
  }

  /** After the last row the two give the result. */
  lemma AllRows<T>(lib: Library, f: Certificate -> T, col: Column, firstErr: Option<RowError>, cells: seq<Option<T>>)
    requires FirstError(lib, col, |col.cells|, firstErr) && BuiltSoFar(lib, f, col, |col.cells|, cells)
    ensures MapsRows(lib, f, col, match firstErr case Some(e) => Err(e) case None => Ok(cells))
  {
  }

  /** certStringScalar.Process and certBoolScalar.Process: vgi.MapColumn calls back for every row
      that is not null; the callback remembers the first error and goes on with a zero value. */
  method ProcessMapped<T>(lib: Library, f: Certificate -> T, zero: T, col: Column)
    returns (r: Result<seq<Option<T>>, RowError>)
    ensures MapsRows(lib, f, col, r)
  {
    var firstErr: Option<RowError> := None;
    var b := new Builder<T>();
    for i := 0 to |col.cells|
      invariant fresh(b)
      invariant FirstError(lib, col, i, firstErr)
      invariant BuiltSoFar(lib, f, col, i, b.cells)
    {
      if col.cells[i].None? {
        OneMoreRow(lib, f, col, i, firstErr, b.cells, None);
        b.AppendNull();
        continue;
      }
      var h := ParseHandle(lib, col, i);
      OneMoreRow(lib, f, col, i, firstErr, b.cells, Some(if h.Ok? then f(h.value) else zero));
      if h.Err? {
        if firstErr.None? {
          firstErr := Some(h.error);
        }
        b.Append(zero);
      } else {
        b.Append(f(h.value));
      }
    }
    AllRows(lib, f, col, firstErr, b.cells);
    if firstErr.Some? {
      return Err(firstErr.value);
    }
    return Ok(b.cells);
  }

  /** certTimestampScalar.Process: microseconds of the time f reads; a failing row is a null. */
  method ProcessTimestamp(lib: Library, f: Certificate -> Time, col: Column)
    returns (r: Result<seq<Option<int>>, RowError>)
    ensures MapsRows(lib, (c: Certificate) => UnixMicro(f(c)), col, r)
  {
    ghost var micros := (c: Certificate) => UnixMicro(f(c));
    var firstErr: Option<RowError> := None;
    var b := new Builder<int>();
    for i := 0 to |col.cells|
      invariant fresh(b)
      invariant FirstError(lib, col, i, firstErr)
      invariant BuiltSoFar(lib, micros, col, i, b.cells)
    {
      if col.cells[i].None? {
        OneMoreRow(lib, micros, col, i, firstErr, b.cells, None);
        b.AppendNull();
        continue;
      }
      var h := ParseHandle(lib, col, i);
      OneMoreRow(lib, micros, col, i, firstErr, b.cells, if h.Ok? then Some(UnixMicro(f(h.value))) else None);
      if h.Err? {
        if firstErr.None? {
          firstErr := Some(h.error);
        }
        b.AppendNull();
        continue;
      }
      b.Append(UnixMicro(f(h.value)));
    }
    AllRows(lib, micros, col, firstErr, b.cells);
    if firstErr.Some? {
      return Err(firstErr.value);
    }
    return Ok(b.cells);
  }

  lemma LastExtended<T>(before: seq<Option<seq<T>>>, names: seq<T>, k: nat)
    requires k < |names|
    ensures var was := before + [Some(names[..k])]; var n := |was| - 1;
      was[..n] + [Some(was[n].value + [names[k]])] == before + [Some(names[..k + 1])]
  {
    assert names[..k + 1] == names[..k] + [names[k]];
  }

  /** Opens a list row and appends its values one by one. */
  method AppendList(lb: ListBuilder<GoString>, names: seq<GoString>)
    requires lb.Valid()
    modifies lb
    ensures lb.Valid() && lb.Contents() == old(lb.Contents()) + [Some(names)]
  {
    ghost var before := lb.Contents();
    lb.Append();
    for k := 0 to |names|
      invariant lb.Valid()
      invariant lb.Contents() == before + [Some(names[..k])]
    {
      lb.AppendValue(names[k]);
      LastExtended(before, names, k);
    }
    assert names[..|names|] == names;
  }

  /** certSANsScalar.Process: a list row per certificate, null for a null or failing row. */
  method ProcessSans(lib: Library, col: Column) returns (r: Result<ListArray<GoString>, RowError>)
    ensures r.Ok? ==> IsListArray(r.value)
    ensures MapsRows(lib, (c: Certificate) => SansOf(lib, c), col,
                     match r case Ok(a) => Ok(Rows(a)) case Err(e) => Err(e))
  {
    ghost var sans := (c: Certificate) => SansOf(lib, c);
    ghost var rows: seq<Option<seq<GoString>>> := [];
    var firstErr: Option<RowError> := None;
    var lb := new ListBuilder<GoString>();
    for i := 0 to |col.cells|
      invariant fresh(lb) && lb.Valid() && lb.Contents() == rows
      invariant FirstError(lib, col, i, firstErr)
      invariant BuiltSoFar(lib, sans, col, i, rows)
    {
      if col.cells[i].None? {
        OneMoreRow(lib, sans, col, i, firstErr, rows, None);
        lb.AppendNull();
        rows := rows + [None];
        continue;
      }
      var h := ParseHandle(lib, col, i);
      OneMoreRow(lib, sans, col, i, firstErr, rows, if h.Ok? then Some(SansOf(lib, h.value)) else None);
      if h.Err? {
        if firstErr.None? {
          firstErr := Some(h.error);
        }
        lb.AppendNull();
        rows := rows + [None];
        continue;
      }
      var names := SANs(lib, h.value);
      AppendList(lb, names);
      rows := rows + [Some(names)];
    }
    AllRows(lib, sans, col, firstErr, rows);
    if firstErr.Some? {
      return Err(firstErr.value);
    }
    var arr := lb.NewArray();
    return Ok(arr);
  }

  /** The specification leaves no choice: whatever loop computes it, the result is the same. */
  lemma MapsRowsUnique<T>(lib: Library, f: Certificate -> T, col: Column,
                          r: Result<seq<Option<T>>, RowError>, s: Result<seq<Option<T>>, RowError>)
    requires MapsRows(lib, f, col, r) && MapsRows(lib, f, col, s)
    ensures r == s
  {
    if r.Err? && s.Err? {
      var i :| 0 <= i < |col.cells| && FailsFirst(lib, col, i, r.error);
      var j :| 0 <= j < |col.cells| && FailsFirst(lib, col, j, s.error);
      assert i == j;
    } else if r.Ok? && s.Ok? {
      assert r.value == s.value;
    }
  }

  /** A batch fails exactly when some row that is not null fails. */
  lemma FailsIffSomeRowFails<T>(lib: Library, f: Certificate -> T, col: Column, r: Result<seq<Option<T>>, RowError>)
    requires MapsRows(lib, f, col, r)
    ensures r.Err? <==> exists i :: 0 <= i < |col.cells| && Fails(lib, col, i)
  {
    if r.Err? {
      var i :| 0 <= i < |col.cells| && FailsFirst(lib, col, i, r.error);
      assert Fails(lib, col, i);
    }
  }

  /** The specification row by row: a batch that succeeds has as many rows as the column, a null for
      each null, and the attribute of its certificate for each other cell; a failing cell with none
      before it fails the batch with its own error. */
  lemma RowByRow<T>(lib: Library, f: Certificate -> T, col: Column, r: Result<seq<Option<T>>, RowError>, i: nat)
    requires MapsRows(lib, f, col, r) && i < |col.cells|
    ensures r.Ok? ==> |r.value| == |col.cells|
    ensures r.Ok? ==>
      match col.cells[i]
      case None => r.value[i] == None
      case Some(raw) => Handle(lib, col.kind, raw).Ok? && r.value[i] == Some(f(Handle(lib, col.kind, raw).value))
    ensures (forall j | 0 <= j < i && col.cells[j].Some? :: Handle(lib, col.kind, col.cells[j].value).Ok?) ==>
      match col.cells[i]
      case None => true
      case Some(raw) => Handle(lib, col.kind, raw).Err? ==> r == Err(Handle(lib, col.kind, raw).error)
  {
    if r.Ok? {
      assert !Fails(lib, col, i) && r.value[i] == Output(lib, f, col, i);
    } else {
      var k :| 0 <= k < |col.cells| && FailsFirst(lib, col, k, r.error);
      if Fails(lib, col, i)
         && forall j | 0 <= j < i && col.cells[j].Some? :: Handle(lib, col.kind, col.cells[j].value).Ok? {
        assert Fails(lib, col, k);
        assert k == i;
      }
    }
  }

  /** Where cert_sans cuts its array: row i is null for a null cell, and otherwise holds the DNS names of
      its certificate followed by its IP addresses as text. */
  lemma SansCut(lib: Library, col: Column, a: ListArray<GoString>, i: nat)
    requires IsListArray(a) && i < |col.cells|
    requires MapsRows(lib, (c: Certificate) => SansOf(lib, c), col, Ok(Rows(a)))
    ensures |a.valid| == |col.cells| && (a.valid[i] <==> col.cells[i].Some?)
    ensures match col.cells[i]
      case None => a.offsets[i + 1] == a.offsets[i]
      case Some(raw) =>
        Handle(lib, col.kind, raw).Ok? &&
        var c, at := Handle(lib, col.kind, raw).value, a.offsets[i];
        && 0 <= at && at + |c.dnsNames| + |c.ipAddresses| == a.offsets[i + 1] <= |a.values|
        && (forall k | 0 <= k < |c.dnsNames| :: a.values[at + k] == c.dnsNames[k])
        && (forall k | 0 <= k < |c.ipAddresses| :: a.values[at + |c.dnsNames| + k] == lib.ipText(c.ipAddresses[k]))
  {
    RowByRow(lib, (c: Certificate) => SansOf(lib, c), col, Ok(Rows(a)), i);
    assert Rows(a)[i] == Row(a, i);
    assert a.offsets[i] <= a.offsets[i + 1] <= a.offsets[|a.valid|];
    if col.cells[i].Some? {
      SansSlice(lib, Handle(lib, col.kind, col.cells[i].value).value, a.values, a.offsets[i], a.offsets[i + 1]);
    }
  }

  lemma SliceHolds<T>(values: seq<T>, at: int, end: int, names: seq<T>)
    requires 0 <= at <= end <= |values| && values[at..end] == names
    ensures end == at + |names| && forall k | 0 <= k < |names| :: values[at + k] == names[k]
  {
  }

  lemma SansSlice(lib: Library, c: Certificate, values: seq<GoString>, at: int, end: int)
    requires 0 <= at <= end <= |values| && values[at..end] == SansOf(lib, c)
    ensures at + |c.dnsNames| + |c.ipAddresses| == end
    ensures forall k | 0 <= k < |c.dnsNames| :: values[at + k] == c.dnsNames[k]
    ensures forall k | 0 <= k < |c.ipAddresses| :: values[at + |c.dnsNames| + k] == lib.ipText(c.ipAddresses[k])
  {
    SansHolds(lib, c);
    SliceHolds(values, at, end, SansOf(lib, c));
    forall k | 0 <= k < |c.ipAddresses|
      ensures values[at + |c.dnsNames| + k] == lib.ipText(c.ipAddresses[k])
    {
      assert values[at + (|c.dnsNames| + k)] == SansOf(lib, c)[|c.dnsNames| + k];
    }
  }

  lemma SansHolds(lib: Library, c: Certificate)
    ensures var names := SansOf(lib, c);
      && |names| == |c.dnsNames| + |c.ipAddresses|
      && (forall k | 0 <= k < |c.dnsNames| :: names[k] == c.dnsNames[k])
      && (forall k | 0 <= k < |c.ipAddresses| :: names[|c.dnsNames| + k] == lib.ipText(c.ipAddresses[k]))
  {
  }

  /** A VARCHAR column of armored certificates and a BLOB column of the same DER bytes. */
  ghost predicate SameCertificates(pem: Column, der: Column) {
    && pem.kind in {String, LargeString} && der.kind in {Binary, LargeBinary}
    && |pem.cells| == |der.cells|
    && forall i | 0 <= i < |pem.cells| ::
         match (pem.cells[i], der.cells[i])
         case (None, None) => true
         case (Some(text), Some(d)) => IsBare(d) && Armors(text, CERTIFICATE, d)
         case _ => false
  }

  /** Both columns hold a certificate in the same rows, and the same one. */
  lemma SameHandles(lib: Library, pem: Column, der: Column, i: nat)
    requires SameCertificates(pem, der) && i < |pem.cells|
    ensures pem.cells[i].Some? <==> der.cells[i].Some?
    ensures pem.cells[i].Some? ==>
            Handle(lib, pem.kind, pem.cells[i].value) == Handle(lib, der.kind, der.cells[i].value)
  {
    if pem.cells[i].Some? {
      PemAndDerAgree(lib, pem.cells[i].value, der.cells[i].value);
    }
  }

  lemma SameRow<T>(lib: Library, f: Certificate -> T, pem: Column, der: Column, i: nat)
    requires SameCertificates(pem, der) && i < |pem.cells|
    ensures Fails(lib, pem, i) <==> Fails(lib, der, i)
    ensures !Fails(lib, pem, i) ==> Output(lib, f, pem, i) == Output(lib, f, der, i)
  {
    SameHandles(lib, pem, der, i);
  }

  lemma SameFirstFailure(lib: Library, pem: Column, der: Column, i: nat, e: RowError)
    requires SameCertificates(pem, der) && i < |pem.cells| && FailsFirst(lib, pem, i, e)
    ensures FailsFirst(lib, der, i, e)
  {
    SameHandles(lib, pem, der, i);
    forall j | 0 <= j < i
      ensures !Fails(lib, der, j)
    {
      assert !Fails(lib, pem, j);
      SameRow(lib, c => c, pem, der, j);
    }
  }

  lemma SameMapping<T>(lib: Library, f: Certificate -> T, pem: Column, der: Column, r: Result<seq<Option<T>>, RowError>)
    requires SameCertificates(pem, der) && MapsRows(lib, f, pem, r)
    ensures MapsRows(lib, f, der, r)
  {
    if r.Err? {
      var i :| 0 <= i < |pem.cells| && FailsFirst(lib, pem, i, r.error);
      SameFirstFailure(lib, pem, der, i, r.error);
    } else {
      forall i | 0 <= i < |der.cells|
        ensures !Fails(lib, der, i) && r.value[i] == Output(lib, f, der, i)
      {
        SameRow(lib, f, pem, der, i);
        assert !Fails(lib, pem, i) && r.value[i] == Output(lib, f, pem, i);
      }
    }
  }

  /** Every kernel gives the same result, batch errors included, on both columns. */
  lemma KernelsIgnoreEncoding<T>(lib: Library, f: Certificate -> T, pem: Column, der: Column,
                                 r: Result<seq<Option<T>>, RowError>, s: Result<seq<Option<T>>, RowError>)
    requires SameCertificates(pem, der)
    requires MapsRows(lib, f, pem, r) && MapsRows(lib, f, der, s)
    ensures r == s
  {
    SameMapping(lib, f, pem, der, r);
    MapsRowsUnique(lib, f, der, r, s);
  }

  /** What the specification says of a column of one row. */
  lemma OneRow<T>(lib: Library, f: Certificate -> T, col: Column, r: Result<seq<Option<T>>, RowError>)
    requires |col.cells| == 1 && MapsRows(lib, f, col, r)
    ensures match col.cells[0]
      case None => r == Ok([None])
      case Some(raw) =>
        match Handle(lib, col.kind, raw)
        case Err(e) => r == Err(e)
        case Ok(c) => r == Ok([Some(f(c))])
  {
    if r.Err? {
      var i :| 0 <= i < |col.cells| && FailsFirst(lib, col, i, r.error);
      assert i == 0;
    } else {
      assert !Fails(lib, col, 0) && r.value == [Output(lib, f, col, 0)];
    }
  }
}
