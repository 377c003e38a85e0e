/** The continuation token of a scan: its state through encoding/gob. */
module Tokens {
  import opened GoStrings
  import opened Gob
  import opened Scans

  /** The payload, under the name of the table function it belongs to. */
  datatype Token = InfoToken(payload: seq<byte>) | TlsToken(payload: seq<byte>)

  const INFO_KIND := KStruct([KSlice(KString), KSlice(KString), KInt])
  const ROW_KIND := KStruct([KInt, KString, KString, KInt, KInt, KBool, KString])
  const TLS_KIND := KStruct([KSlice(ROW_KIND), KInt])

  function StringValues(ss: seq<GoString>): Value {
    VSlice(seq(|ss|, i requires 0 <= i < |ss| => VString(ss[i])))
  }

  function RowValue(r: ChainRow): Value {
    VStruct([VInt(r.position), VString(r.subject), VString(r.issuer), VInt(r.notBeforeUS), VInt(r.notAfterUS),
             VBool(r.isCA), VString(r.fingerprint)])
  }

  function StateValue(st: ScanState): Value {
    match st
    case InfoScan(fields, values, offset) => VStruct([StringValues(fields), StringValues(values), VInt(offset)])
    case TlsScan(rows, offset) =>
      VStruct([VSlice(RowValues(rows)), VInt(offset)])
  }

  function RowValues(rows: seq<ChainRow>): seq<Value> {
    seq(|rows|, i requires 0 <= i < |rows| => RowValue(rows[i]))
  }

  function StateKind(st: ScanState): Kind {
    if st.InfoScan? then INFO_KIND else TLS_KIND
  }

  /** Strings and integers are as Go holds them. */
  ghost predicate IsGoState(st: ScanState) {
    HasKind(StateValue(st), StateKind(st))
  }

  function StringsOf(v: Value): Option<seq<GoString>> {
    if v.VSlice? && forall e <- v.elems :: e.VString? then
      Some(seq(|v.elems|, i requires 0 <= i < |v.elems| => assert v.elems[i] in v.elems; v.elems[i].s))
    else None
  }

  function RowOf(v: Value): Option<ChainRow> {
    match v
    case VStruct(f) =>
      if && |f| == 7 && f[0].VInt? && f[1].VString? && f[2].VString?
         && f[3].VInt? && f[4].VInt? && f[5].VBool? && f[6].VString?
      then Some(ChainRow(f[0].i, f[1].s, f[2].s, f[3].i, f[4].i, f[5].b, f[6].s))
      else None
    case _ => None
  }

  function RowList(vs: seq<Value>): Option<seq<ChainRow>> {
    if forall v <- vs :: RowOf(v).Some? then
      Some(seq(|vs|, i requires 0 <= i < |vs| => assert vs[i] in vs; RowOf(vs[i]).value))
    else None
  }

  function InfoOf(v: Value): Option<ScanState> {
    if v.VStruct? && |v.fields| == 3 && v.fields[2].VInt? then
      match (StringsOf(v.fields[0]), StringsOf(v.fields[1]))
      case (Some(fields), Some(values)) => Some(InfoScan(fields, values, v.fields[2].i))
      case _ => None
    else None
  }

  function TlsOf(v: Value): Option<ScanState> {
    if v.VStruct? && |v.fields| == 2 && v.fields[0].VSlice? && v.fields[1].VInt? then
      match RowList(v.fields[0].elems)
      case Some(rows) => Some(TlsScan(rows, v.fields[1].i))
      case None => None
    else None
  }

  /** The state is encoded into the token after a tick. */
  function EncodeToken(st: ScanState): Token
    requires IsGoState(st)
  {
    var payload := Encode(StateValue(st), StateKind(st));
    if st.InfoScan? then InfoToken(payload) else TlsToken(payload)
  }

  /** The next exchange decodes the token into a fresh state. */
  function DecodeToken(token: Token): Option<ScanState> {
    match token
    case InfoToken(payload) =>
      (match Decode(INFO_KIND, payload)
       case Some((v, rest)) => if rest == [] then InfoOf(v) else None
       case None => None)
    case TlsToken(payload) =>
      (match Decode(TLS_KIND, payload)
       case Some((v, rest)) => if rest == [] then TlsOf(v) else None
       case None => None)
  }

  lemma StringsInverse(ss: seq<GoString>)
    ensures StringsOf(StringValues(ss)) == Some(ss)
  {
    assert forall e <- StringValues(ss).elems :: e.VString?;
    assert StringsOf(StringValues(ss)).value == ss;
  }

  lemma RowInverse(r: ChainRow)
    ensures RowOf(RowValue(r)) == Some(r)
  {
  }

  lemma RowsInverse(rows: seq<ChainRow>)
    ensures RowList(RowValues(rows)) == Some(rows)
  {
    var vs := RowValues(rows);
    forall i | 0 <= i < |rows|
      ensures RowOf(vs[i]) == Some(rows[i])
    {
      RowInverse(rows[i]);
    }
    assert RowList(vs).value == rows;
  }

  lemma StateInverse(st: ScanState)
    ensures st.InfoScan? ==> InfoOf(StateValue(st)) == Some(st)
    ensures st.TlsScan? ==> TlsOf(StateValue(st)) == Some(st)
  {
    match st
    case InfoScan(fields, values, _) =>
      StringsInverse(fields);
      StringsInverse(values);
    case TlsScan(rows, _) =>
      RowsInverse(rows);
  }

  /** Nothing is lost at a continuation boundary: offset 0 and empty fields are not sent and come back
      as the zero values of the fresh state. */
  lemma TokenInverse(st: ScanState)
    requires IsGoState(st)
    ensures DecodeToken(EncodeToken(st)) == Some(st)
  {
    var payload := Encode(StateValue(st), StateKind(st));
    ValueInverse(StateValue(st), StateKind(st), []);
    assert payload + [] == payload;
    StateInverse(st);
  }

  /** Distinct states have distinct tokens. */
  lemma TokenInjective(s: ScanState, t: ScanState)
    requires IsGoState(s) && IsGoState(t) && EncodeToken(s) == EncodeToken(t)
    ensures s == t
  {
    TokenInverse(s);
    TokenInverse(t);
  }

  /** A tick only moves the offset, within the rows, so its state can be encoded again. */
  lemma TickKeepsGoState(st: ScanState)
    requires InRange(st) && IsGoState(st)
    ensures InRange(Tick(st).0) && IsGoState(Tick(st).0)
  {
    MovedKeepsGoState(st, Tick(st).0.offset);
  }

  lemma MovedKeepsGoState(st: ScanState, offset: int)
    requires InRange(st) && IsGoState(st) && 0 <= offset <= Size(st)
    ensures InRange(st.(offset := offset)) && IsGoState(st.(offset := offset))
  {
    var fields, kinds := StateValue(st).fields, StateKind(st).fields;
    assert HasKind(fields[0], kinds[0]);
    var moved := StateValue(st.(offset := offset)).fields;
    assert st.InfoScan? ==> HasKind(fields[1], kinds[1]);
    assert forall n | 0 <= n < |moved| :: HasKind(moved[n], kinds[n]);
  }

  // Which states Go can hold: no string or list is longer than an int can count.

  lemma StringsFit(ss: seq<GoString>)
    ensures HasKind(StringValues(ss), KSlice(KString)) <==> |ss| < MAX_INT && forall s <- ss :: |s| < MAX_INT
  {
    var elems := StringValues(ss).elems;
    forall i | 0 <= i < |ss|
      ensures HasKind(elems[i], KString) <==> |ss[i]| < MAX_INT
    {
    }
    if HasKind(StringValues(ss), KSlice(KString)) {
      forall i | 0 <= i < |ss|
        ensures |ss[i]| < MAX_INT
      {
        assert elems[i] in elems;
      }
    }
  }

  lemma TwoKinds(fields: seq<Value>, kinds: seq<Kind>)
    requires |fields| == |kinds| == 2
    ensures HasKind(VStruct(fields), KStruct(kinds)) <==> HasKind(fields[0], kinds[0]) && HasKind(fields[1], kinds[1])
  {
  }

  lemma ThreeKinds(fields: seq<Value>, kinds: seq<Kind>)
    requires |fields| == |kinds| == 3
    ensures HasKind(VStruct(fields), KStruct(kinds)) <==>
      HasKind(fields[0], kinds[0]) && HasKind(fields[1], kinds[1]) && HasKind(fields[2], kinds[2])
  {
  }

  lemma SevenKinds(fields: seq<Value>, kinds: seq<Kind>)
    requires |fields| == |kinds| == 7
    ensures HasKind(VStruct(fields), KStruct(kinds)) <==>
      && HasKind(fields[0], kinds[0]) && HasKind(fields[1], kinds[1]) && HasKind(fields[2], kinds[2])
      && HasKind(fields[3], kinds[3]) && HasKind(fields[4], kinds[4]) && HasKind(fields[5], kinds[5])
      && HasKind(fields[6], kinds[6])
  {
  }

  lemma InfoFits(fields: seq<GoString>, values: seq<GoString>)
    ensures IsGoState(InfoScan(fields, values, 0)) <==>
      && |fields| < MAX_INT && (forall s <- fields :: |s| < MAX_INT)
      && |values| < MAX_INT && (forall s <- values :: |s| < MAX_INT)
  {
    StringsFit(fields);
    StringsFit(values);
    ThreeKinds(StateValue(InfoScan(fields, values, 0)).fields, INFO_KIND.fields);
  }

  /** A chain row as Go holds it. */
  predicate IsGoRow(r: ChainRow) {
    && -MAX_INT <= r.position < MAX_INT && -MAX_INT <= r.notBeforeUS < MAX_INT && -MAX_INT <= r.notAfterUS < MAX_INT
    && |r.subject| < MAX_INT && |r.issuer| < MAX_INT && |r.fingerprint| < MAX_INT
  }

  lemma RowFits(r: ChainRow)
    ensures HasKind(RowValue(r), ROW_KIND) <==> IsGoRow(r)
  {
    SevenKinds(RowValue(r).fields, ROW_KIND.fields);
  }

  lemma TlsFits(rows: seq<ChainRow>)
    ensures IsGoState(TlsScan(rows, 0)) <==> |rows| < MAX_INT && forall r <- rows :: IsGoRow(r)
  {
    var elems := RowValues(rows);
    forall i | 0 <= i < |rows|
      ensures HasKind(elems[i], ROW_KIND) <==> IsGoRow(rows[i])
    {
      RowFits(rows[i]);
    }
    if HasKind(VSlice(elems), KSlice(ROW_KIND)) {
      forall i | 0 <= i < |rows|
        ensures IsGoRow(rows[i])
      {
        assert elems[i] in elems;
      }
    }
    TwoKinds(StateValue(TlsScan(rows, 0)).fields, TLS_KIND.fields);
  }

  // Why the state an exchange decodes into must be a fresh one.

  function StringCells(ss: seq<GoString>): seq<Cell> {
    seq(|ss|, i requires 0 <= i < |ss| => CString(ss[i]))
  }

  function RowCell(r: ChainRow): Cell {
    CStruct([CInt(r.position), CString(r.subject), CString(r.issuer), CInt(r.notBeforeUS), CInt(r.notAfterUS),
             CBool(r.isCA), CString(r.fingerprint)])
  }

  function RowCells(rows: seq<ChainRow>): seq<Cell> {
    seq(|rows|, i requires 0 <= i < |rows| => RowCell(rows[i]))
  }

  /** A state that has been in use: what it shows, and what its arrays still hold behind that. */
  datatype UsedState = UsedState(shown: ScanState, spare: ScanState)

  function Memory(used: UsedState): Cell
    requires used.shown.InfoScan? <==> used.spare.InfoScan?
  {
    match used.shown
    case InfoScan(fields, values, offset) =>
      CStruct([CSlice(StringCells(fields), StringCells(used.spare.fields)),
               CSlice(StringCells(values), StringCells(used.spare.values)), CInt(offset)])
    case TlsScan(rows, offset) =>
      CStruct([CSlice(RowCells(rows), RowCells(used.spare.rows)), CInt(offset)])
  }

  /** Every zero field of the new row is already zero in the old one. */
  predicate ZeroesMatch(was: ChainRow, row: ChainRow) {
    && (row.position == 0 ==> was.position == 0)
    && (row.subject == [] ==> was.subject == []) && (row.issuer == [] ==> was.issuer == [])
    && (row.notBeforeUS == 0 ==> was.notBeforeUS == 0) && (row.notAfterUS == 0 ==> was.notAfterUS == 0)
    && (!row.isCA ==> !was.isCA) && (row.fingerprint == [] ==> was.fingerprint == [])
  }

  /** The used state is zero wherever st is: in the offset, in empty lists, and, when the old array is
      long enough to be reused, in the zero fields of every row it is overwritten with. */
  predicate ResumesRight(st: ScanState, used: UsedState)
    requires st.InfoScan? == used.shown.InfoScan? == used.spare.InfoScan?
  {
    && (st.offset == 0 ==> used.shown.offset == 0)
    && match st
       case InfoScan(fields, values, _) =>
         (fields == [] ==> used.shown.fields == []) && (values == [] ==> used.shown.values == [])
       case TlsScan(rows, _) =>
         var held := used.shown.rows + used.spare.rows;
         && (rows == [] ==> used.shown.rows == [])
         && (|held| >= |rows| ==> forall i | 0 <= i < |rows| :: ZeroesMatch(held[i], rows[i]))
  }

  predicate KeepsZero(c: Cell, v: Value) {
    IsOmitted(v) ==> View(c) == v
  }

  /** A scalar field is right unless it is zero and its memory is not. */
  lemma ScalarAgrees(c: Cell, v: Value, k: Kind)
    requires HasKind(v, k) && (k == KBool || k == KInt || k == KString)
    ensures FieldAgrees(c, v, k) <==> KeepsZero(c, v)
  {
  }

  lemma ScalarsAgree(into: seq<Cell>, fields: seq<Value>, kinds: seq<Kind>)
    requires HasKind(VStruct(fields), KStruct(kinds)) && |into| == |fields|
    requires forall k <- kinds :: k == KBool || k == KInt || k == KString
    ensures Agrees(CStruct(into), VStruct(fields), KStruct(kinds))
            <==> forall j | 0 <= j < |fields| :: KeepsZero(into[j], fields[j])
  {
    forall j | 0 <= j < |fields|
      ensures FieldAgrees(into[j], fields[j], kinds[j]) <==> KeepsZero(into[j], fields[j])
    {
      assert kinds[j] in kinds;
      ScalarAgrees(into[j], fields[j], kinds[j]);
    }
  }

  lemma SevenFields(into: seq<Cell>, fields: seq<Value>)
    requires |into| == |fields| == 7
    ensures (forall j | 0 <= j < |fields| :: KeepsZero(into[j], fields[j])) <==>
      && KeepsZero(into[0], fields[0]) && KeepsZero(into[1], fields[1]) && KeepsZero(into[2], fields[2])
      && KeepsZero(into[3], fields[3]) && KeepsZero(into[4], fields[4]) && KeepsZero(into[5], fields[5])
      && KeepsZero(into[6], fields[6])
  {
  }

  lemma ZeroesByField(was: ChainRow, row: ChainRow)
    ensures var into, fields := RowCell(was).fields, RowValue(row).fields;
      ZeroesMatch(was, row) <==> forall j | 0 <= j < |fields| :: KeepsZero(into[j], fields[j])
  {
    SevenFields(RowCell(was).fields, RowValue(row).fields);
  }

  lemma RowAgrees(was: ChainRow, row: ChainRow)
    requires HasKind(RowValue(row), ROW_KIND)
    ensures Agrees(RowCell(was), RowValue(row), ROW_KIND) <==> ZeroesMatch(was, row)
  {
    ScalarsAgree(RowCell(was).fields, RowValue(row).fields, ROW_KIND.fields);
    ZeroesByField(was, row);
  }

  /** Strings are overwritten whole, so a list of them never keeps anything old. */
  lemma StringsAgree(c: Cell, ss: seq<GoString>)
    requires HasKind(StringValues(ss), KSlice(KString))
    ensures Agrees(c, StringValues(ss), KSlice(KString))
  {
  }

  lemma InfoAgrees(st: ScanState, used: UsedState)
    requires IsGoState(st) && st.InfoScan? && used.shown.InfoScan? && used.spare.InfoScan?
    ensures Agrees(Memory(used), StateValue(st), INFO_KIND) <==> ResumesRight(st, used)
  {
    var into, fields, kinds := Memory(used).fields, StateValue(st).fields, INFO_KIND.fields;
    assert forall j | 0 <= j < 3 :: HasKind(fields[j], kinds[j]);
    assert fields[0] == StringValues(st.fields) && kinds[0] == KSlice(KString);
    assert fields[1] == StringValues(st.values) && kinds[1] == KSlice(KString);
    StringsAgree(into[0], st.fields);
    StringsAgree(into[1], st.values);
    assert |View(into[0]).elems| == |used.shown.fields| && |View(into[1]).elems| == |used.shown.values|;
    assert FieldAgrees(into[0], fields[0], kinds[0]) <==> (st.fields == [] ==> used.shown.fields == []);
    assert FieldAgrees(into[1], fields[1], kinds[1]) <==> (st.values == [] ==> used.shown.values == []);
    assert FieldAgrees(into[2], fields[2], kinds[2]) <==> (st.offset == 0 ==> used.shown.offset == 0);
  }

  lemma RowsAgree(rows: seq<ChainRow>, shown: seq<ChainRow>, spare: seq<ChainRow>)
    requires HasKind(VSlice(RowValues(rows)), KSlice(ROW_KIND))
    ensures Agrees(CSlice(RowCells(shown), RowCells(spare)), VSlice(RowValues(rows)), KSlice(ROW_KIND))
            <==> (|shown + spare| >= |rows| ==> forall i | 0 <= i < |rows| :: ZeroesMatch((shown + spare)[i], rows[i]))
  {
    var c, elems := CSlice(RowCells(shown), RowCells(spare)), RowValues(rows);
    var cells := ArrayFor(c, ROW_KIND, |rows|).0;
    forall i | 0 <= i < |rows|
      ensures HasKind(elems[i], ROW_KIND)
      ensures Agrees(cells[i], elems[i], ROW_KIND)
              <==> (|shown + spare| >= |rows| ==> ZeroesMatch((shown + spare)[i], rows[i]))
    {
      assert elems[i] in elems;
      if |shown + spare| >= |rows| {
        assert cells[i] == RowCell((shown + spare)[i]);
        RowAgrees((shown + spare)[i], rows[i]);
      } else {
        FreshAgrees(elems[i], ROW_KIND);
      }
    }
  }

  lemma TlsAgrees(st: ScanState, used: UsedState)
    requires IsGoState(st) && st.TlsScan? && used.shown.TlsScan? && used.spare.TlsScan?
    ensures Agrees(Memory(used), StateValue(st), TLS_KIND) <==> ResumesRight(st, used)
  {
    var into, fields, kinds := Memory(used).fields, StateValue(st).fields, TLS_KIND.fields;
    assert forall j | 0 <= j < 2 :: HasKind(fields[j], kinds[j]);
    assert fields[0] == VSlice(RowValues(st.rows)) && kinds[0] == KSlice(ROW_KIND);
    RowsAgree(st.rows, used.shown.rows, used.spare.rows);
    assert |View(into[0]).elems| == |used.shown.rows|;
    assert FieldAgrees(into[1], fields[1], kinds[1]) <==> (st.offset == 0 ==> used.shown.offset == 0);
  }

  /** Decoding a token over a state in use resumes the scan it was made for exactly when that state is
      already zero wherever the token's is. So a token at offset 0 keeps the old offset, and a chain
      decoded over an older one keeps, say, the CA flag of a reused row. */
  lemma UsedStateMisleads(st: ScanState, used: UsedState)
    requires IsGoState(st) && st.InfoScan? == used.shown.InfoScan? == used.spare.InfoScan?
    ensures var r := DecodeInto(StateKind(st), Memory(used), EncodeToken(st).payload);
      r.Some? && r.value.1 == [] && (View(r.value.0) == StateValue(st) <==> ResumesRight(st, used))
  {
    var payload := EncodeToken(st).payload;
    DecodeIntoUsed(StateValue(st), StateKind(st), Memory(used), []);
    assert payload + [] == payload;
    if st.InfoScan? {
      InfoAgrees(st, used);
    } else {
      TlsAgrees(st, used);
    }
  }

  // The payload written out.

  lemma OneString(c: byte)
    requires c < 256
    ensures HasKind(StringValues([[c]]), KSlice(KString))
    ensures Encode(StringValues([[c]]), KSlice(KString)) == [1, 1, c]
  {
    var elems := StringValues([[c]]).elems;
    assert elems == [VString([c])];
    assert elems[1..] == [];
    assert EncodeElems([], KString) == [];
    assert EncodeElems(elems, KString) == Encode(elems[0], KString) + [];
    assert Encode(elems[0], KString) == [1] + [c];
  }

  lemma LastFields(fields: seq<Value>, kinds: seq<Kind>, k: int)
    requires |fields| == |kinds| == 3 && fields[2] == VInt(k) && kinds[2] == KInt && 0 < k < 64
    requires forall j | 0 <= j < 3 :: HasKind(fields[j], kinds[j])
    ensures EncodeFields(fields, kinds, 2, 1) == [1, 2 * k, 0]
    ensures EncodeFields(fields, kinds, 2, -1) == [3, 2 * k, 0]
  {
    IntBytes(k);
    assert EncodeFields(fields, kinds, 3, 2) == [0];
    assert Uint(1) == [1] && Uint(3) == [3];
    assert Encode(fields[2], kinds[2]) == [2 * k];
  }

  /** The token of a scan of one row: each field behind the distance to the field before it, the list of
      fields first, then the list of values, then the offset, and a zero. */
  lemma PayloadBytes(a: byte, b: byte, k: int)
    requires 0 < k < 64
    ensures var st := InfoScan([[a]], [[b]], k);
      IsGoState(st) && EncodeToken(st) == InfoToken([1, 1, 1, a, 1, 1, 1, b, 1, 2 * k, 0])
  {
    var st := InfoScan([[a]], [[b]], k);
    OneString(a);
    OneString(b);
    var fields, kinds := StateValue(st).fields, INFO_KIND.fields;
    ThreeKinds(fields, kinds);
    ThreeFields(fields, kinds);
    LastFields(fields, kinds, k);
    assert Uint(1) == [1];
    assert EncodeFields(fields, kinds, 1, 0) == [1] + [1, 1, b] + [1, 2 * k, 0];
    assert EncodeFields(fields, kinds, 0, -1) == [1] + [1, 1, a] + EncodeFields(fields, kinds, 1, 0);
  }

  lemma ThreeFields(fields: seq<Value>, kinds: seq<Kind>)
    requires |fields| == |kinds| == 3
    requires HasKind(fields[0], kinds[0]) && HasKind(fields[1], kinds[1]) && HasKind(fields[2], kinds[2])
    ensures forall j | 0 <= j < 3 :: HasKind(fields[j], kinds[j])
  {
  }
}
