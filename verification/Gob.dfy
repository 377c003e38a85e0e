/** encoding/gob for the table-function states: a struct is sent as (field delta, value) pairs, fields
    holding their zero value are left out, and decoding writes the fields it finds into the
    destination. Type descriptors and message lengths are not modelled. */
module Gob {
  import opened GoStrings

  const MAX_UINT := 0x1_0000_0000_0000_0000
  const MAX_INT := 0x8000_0000_0000_0000

  datatype Kind = KBool | KInt | KString | KSlice(elem: Kind) | KStruct(fields: seq<Kind>)

  datatype Value =
    | VBool(b: bool)
    | VInt(i: int)
    | VString(s: GoString)
    | VSlice(elems: seq<Value>)
    | VStruct(fields: seq<Value>)

  /** v is a Go value of kind k: integers and lengths fit in an int. */
  ghost predicate HasKind(v: Value, k: Kind) {
    match (v, k)
    case (VBool(_), KBool) => true
    case (VInt(i), KInt) => -MAX_INT <= i < MAX_INT
    case (VString(s), KString) => |s| < MAX_INT
    case (VSlice(elems), KSlice(elem)) => |elems| < MAX_INT && forall e <- elems :: HasKind(e, elem)
    case (VStruct(fields), KStruct(kinds)) =>
      |fields| == |kinds| < MAX_INT && forall n | 0 <= n < |fields| :: HasKind(fields[n], kinds[n])
    case _ => false
  }

  /** The memory a value is decoded into. A slice has the elements it shows and the spare ones its
      backing array holds behind them; both keep whatever was there. */
  datatype Cell =
    | CBool(b: bool)
    | CInt(i: int)
    | CString(s: GoString)
    | CSlice(elems: seq<Cell>, spare: seq<Cell>)
    | CStruct(fields: seq<Cell>)

  /** The value a program reads from the memory. */
  function View(c: Cell): Value {
    match c
    case CBool(b) => VBool(b)
    case CInt(i) => VInt(i)
    case CString(s) => VString(s)
    case CSlice(elems, _) => VSlice(seq(|elems|, n requires 0 <= n < |elems| => View(elems[n])))
    case CStruct(fields) => VStruct(seq(|fields|, n requires 0 <= n < |fields| => View(fields[n])))
  }

  /** Memory just allocated. */
  function Fresh(k: Kind): Cell {
    match k
    case KBool => CBool(false)
    case KInt => CInt(0)
    case KString => CString([])
    case KSlice(_) => CSlice([], [])
    case KStruct(kinds) => CStruct(seq(|kinds|, n requires 0 <= n < |kinds| => Fresh(kinds[n])))
  }

  /** The n elements a slice of n is decoded into, and the spare ones left behind them: the old array
      if it is long enough, else a new one. */
  function ArrayFor(c: Cell, elem: Kind, n: nat): (r: (seq<Cell>, seq<Cell>))
    ensures |r.0| == n
  {
    var held := if c.CSlice? then c.elems + c.spare else [];
    if |held| >= n then (held[..n], held[n..]) else (seq(n, i => Fresh(elem)), [])
  }

  /** The fields a struct is decoded into. */
  function FieldsFor(c: Cell, kinds: seq<Kind>): (r: seq<Cell>)
    ensures |r| == |kinds|
  {
    if c.CStruct? && |c.fields| == |kinds| then c.fields
    else seq(|kinds|, n requires 0 <= n < |kinds| => Fresh(kinds[n]))
  }

  /** A field value that is not sent; a struct is always sent. */
  predicate IsOmitted(v: Value) {
    match v
    case VBool(b) => !b
    case VInt(i) => i == 0
    case VString(s) => s == []
    case VSlice(elems) => elems == []
    case VStruct(_) => false
  }

  // Unsigned integers: one byte below 128, else the negated byte count and the bytes, high first.

  function BigEndian(n: nat): seq<byte> {
    if n < 256 then [n] else BigEndian(n / 256) + [n % 256]
  }

  function FromBigEndian(bytes: seq<byte>): nat {
    if bytes == [] then 0 else FromBigEndian(bytes[..|bytes| - 1]) * 256 + bytes[|bytes| - 1]
  }

  function Uint(n: nat): seq<byte>
    requires n < MAX_UINT
  {
    if n < 128 then [n] else
      AtMostEightBytes(n);
      [256 - |BigEndian(n)|] + BigEndian(n)
  }

  function ReadUint(s: seq<byte>): (r: Option<(nat, seq<byte>)>)
    ensures r.Some? ==> |r.value.1| < |s|
  {
    if s == [] then None
    else if s[0] < 128 then Some((s[0], s[1..]))
    else
      var count := 256 - s[0];
      if count > 8 || count >= |s| then None
      else Some((FromBigEndian(s[1..1 + count]), s[1 + count..]))
  }

  lemma {:induction false} BigEndianSize(n: nat, size: nat, bound: nat)
    requires size > 0 && n < bound && bound == Pow256(size)
    ensures 0 < |BigEndian(n)| <= size
  {
    if n >= 256 {
      assert size > 1;
      BigEndianSize(n / 256, size - 1, Pow256(size - 1));
    }
  }

  function Pow256(size: nat): nat {
    if size == 0 then 1 else 256 * Pow256(size - 1)
  }

  lemma AtMostEightBytes(n: nat)
    requires n < MAX_UINT
    ensures 0 < |BigEndian(n)| <= 8
  {
    assert Pow256(4) == 0x1_0000_0000;
    assert Pow256(8) == MAX_UINT;
    BigEndianSize(n, 8, MAX_UINT);
  }

  lemma {:induction false} BigEndianInverse(n: nat)
    ensures FromBigEndian(BigEndian(n)) == n
  {
    if n >= 256 {
      BigEndianInverse(n / 256);
      assert BigEndian(n)[..|BigEndian(n)| - 1] == BigEndian(n / 256);
    } else {
      assert FromBigEndian([]) == 0;
      assert [n][..0] == [];
    }
  }

  lemma UintInverse(n: nat, rest: seq<byte>)
    requires n < MAX_UINT
    ensures Uint(n) != [] && ReadUint(Uint(n) + rest) == Some((n, rest))
  {
    var s := Uint(n) + rest;
    if n < 128 {
      assert s[1..] == rest;
    } else {
      AtMostEightBytes(n);
      BigEndianInverse(n);
      var count := |BigEndian(n)|;
      assert s[1..1 + count] == BigEndian(n);
      assert s[1 + count..] == rest;
    }
  }

  // Signed integers: shifted left, the low bit set for the complement of a negative number.

  function Zigzag(i: int): (n: nat) {
    if i < 0 then (-i - 1) * 2 + 1 else i * 2
  }

  function Unzigzag(n: nat): int {
    if n % 2 == 1 then -(n / 2) - 1 else n / 2
  }

  // Values and structs.

  function Encode(v: Value, k: Kind): seq<byte>
    requires HasKind(v, k)
    decreases v, 0
  {
    match (v, k)
    case (VBool(b), KBool) => Uint(if b then 1 else 0)
    case (VInt(i), KInt) => Uint(Zigzag(i))
    case (VString(s), KString) => Uint(|s|) + s
    case (VSlice(elems), KSlice(elem)) => Uint(|elems|) + EncodeElems(elems, elem)
    case (VStruct(fields), KStruct(kinds)) => EncodeFields(fields, kinds, 0, -1)
  }

  function EncodeElems(elems: seq<Value>, elem: Kind): seq<byte>
    requires forall e <- elems :: HasKind(e, elem)
    decreases elems, 1
  {
    if elems == [] then [] else Encode(elems[0], elem) + EncodeElems(elems[1..], elem)
  }

  /** Fields n and up of a struct whose last sent field is last; a zero delta ends the struct. */
  function EncodeFields(fields: seq<Value>, kinds: seq<Kind>, n: nat, last: int): seq<byte>
    requires |fields| == |kinds| < MAX_INT && n <= |fields| && -1 <= last < n
    requires forall j | 0 <= j < |fields| :: HasKind(fields[j], kinds[j])
    decreases fields, |fields| - n
  {
    if n == |fields| then [0]
    else if IsOmitted(fields[n]) then EncodeFields(fields, kinds, n + 1, last)
    else Uint(n - last) + Encode(fields[n], kinds[n]) + EncodeFields(fields, kinds, n + 1, n)
  }

  /** Reads a value into memory: scalars are overwritten, a slice reuses its array when it can, and a
      struct changes only in the fields that are sent. */
  function DecodeInto(k: Kind, c: Cell, s: seq<byte>): (r: Option<(Cell, seq<byte>)>)
    ensures r.Some? ==> |r.value.1| < |s|
    decreases |s|, 1
  {
    match k
    case KBool =>
      (match ReadUint(s) case None => None case Some((n, t)) => Some((CBool(n != 0), t)))
    case KInt =>
      (match ReadUint(s) case None => None case Some((n, t)) => Some((CInt(Unzigzag(n)), t)))
    case KString =>
      (match ReadUint(s) case None => None case Some((n, t)) =>
        if n > |t| then None else Some((CString(t[..n]), t[n..])))
    case KSlice(elem) =>
      (match ReadUint(s) case None => None case Some((n, t)) =>
        var (cells, spare) := ArrayFor(c, elem, n);
        match DecodeElems(elem, cells, t) case None => None case Some((elems, u)) => Some((CSlice(elems, spare), u)))
    case KStruct(kinds) =>
      match DecodeFields(kinds, FieldsFor(c, kinds), -1, s)
      case None => None
      case Some((fields, t)) => Some((CStruct(fields), t))
  }

  function DecodeElems(elem: Kind, cells: seq<Cell>, s: seq<byte>): (r: Option<(seq<Cell>, seq<byte>)>)
    ensures r.Some? ==> |r.value.1| <= |s|
    decreases |s|, 2
  {
    if cells == [] then Some(([], s))
    else match DecodeInto(elem, cells[0], s)
      case None => None
      case Some((v, t)) =>
        match DecodeElems(elem, cells[1..], t) case None => None case Some((vs, u)) => Some(([v] + vs, u))
  }

  /** Reads pairs up to the zero delta; each value is decoded into its field. */
  function DecodeFields(kinds: seq<Kind>, into: seq<Cell>, last: int, s: seq<byte>): (r: Option<(seq<Cell>, seq<byte>)>)
    requires |into| == |kinds| && -1 <= last
    ensures r.Some? ==> |r.value.1| < |s|
    decreases |s|, 0
  {
    match ReadUint(s)
    case None => None
    case Some((delta, t)) =>
      if delta == 0 then Some((into, t))
      else if last + delta >= |kinds| then None
      else match DecodeInto(kinds[last + delta], into[last + delta], t)
        case None => None
        case Some((v, u)) => DecodeFields(kinds, into[last + delta := v], last + delta, u)
  }

  /** Decoding into fresh memory, as each exchange does. */
  function Decode(k: Kind, s: seq<byte>): Option<(Value, seq<byte>)> {
    match DecodeInto(k, Fresh(k), s)
    case None => None
    case Some((c, rest)) => Some((View(c), rest))
  }

  // What decoding the encoding of v over old memory leaves there.

  function Merged(c: Cell, v: Value, k: Kind): Cell
    requires HasKind(v, k)
    decreases v, 0
  {
    match (v, k)
    case (VBool(b), KBool) => CBool(b)
    case (VInt(i), KInt) => CInt(i)
    case (VString(s), KString) => CString(s)
    case (VSlice(elems), KSlice(elem)) =>
      var (cells, spare) := ArrayFor(c, elem, |elems|);
      CSlice(MergedElems(cells, elems, elem), spare)
    case (VStruct(fields), KStruct(kinds)) => CStruct(MergedFields(FieldsFor(c, kinds), fields, kinds, 0))
  }

  function MergedElems(cells: seq<Cell>, elems: seq<Value>, elem: Kind): seq<Cell>
    requires |cells| == |elems| && forall e <- elems :: HasKind(e, elem)
    decreases elems, 1
  {
    seq(|elems|, i requires 0 <= i < |elems| => assert elems[i] in elems; Merged(cells[i], elems[i], elem))
  }

  /** The fields from n on; those before n are as they were. */
  function MergedFields(into: seq<Cell>, fields: seq<Value>, kinds: seq<Kind>, n: nat): seq<Cell>
    requires |into| == |fields| == |kinds|
    requires forall j | 0 <= j < |fields| :: HasKind(fields[j], kinds[j])
    decreases fields, 1
  {
    seq(|into|, j requires 0 <= j < |into| =>
      if j >= n && !IsOmitted(fields[j]) then Merged(into[j], fields[j], kinds[j]) else into[j])
  }

  lemma ZigzagInverse(i: int)
    requires -MAX_INT <= i < MAX_INT
    ensures Zigzag(i) < MAX_UINT && Unzigzag(Zigzag(i)) == i
  {
  }

  /** The decoder reads back every encoding, whatever follows it and whatever memory it reads into. */
  lemma {:induction false} DecodesToMerged(v: Value, k: Kind, c: Cell, rest: seq<byte>)
    requires HasKind(v, k)
    ensures DecodeInto(k, c, Encode(v, k) + rest) == Some((Merged(c, v, k), rest))
    decreases v, 0
  {
    match (v, k)
    case (VBool(b), KBool) => UintInverse(if b then 1 else 0, rest);
    case (VInt(i), KInt) =>
      ZigzagInverse(i);
      UintInverse(Zigzag(i), rest);
    case (VString(s), KString) =>
      ConcatAssoc(Uint(|s|), s, rest);
      UintInverse(|s|, s + rest);
    case (VSlice(elems), KSlice(elem)) =>
      ConcatAssoc(Uint(|elems|), EncodeElems(elems, elem), rest);
      UintInverse(|elems|, EncodeElems(elems, elem) + rest);
      ElemsToMerged(elems, elem, ArrayFor(c, elem, |elems|).0, rest);
    case (VStruct(fields), KStruct(kinds)) =>
      FieldsToMerged(fields, kinds, 0, -1, FieldsFor(c, kinds), rest);
  }

  lemma {:induction false} ElemsToMerged(elems: seq<Value>, elem: Kind, cells: seq<Cell>, rest: seq<byte>)
    requires |cells| == |elems| && forall e <- elems :: HasKind(e, elem)
    ensures DecodeElems(elem, cells, EncodeElems(elems, elem) + rest) == Some((MergedElems(cells, elems, elem), rest))
    decreases elems, 1
  {
    if elems == [] {
      assert EncodeElems(elems, elem) + rest == rest;
      assert MergedElems(cells, elems, elem) == [];
    } else {
      var more := EncodeElems(elems[1..], elem) + rest;
      ConcatAssoc(Encode(elems[0], elem), EncodeElems(elems[1..], elem), rest);
      DecodesToMerged(elems[0], elem, cells[0], more);
      ElemsToMerged(elems[1..], elem, cells[1..], rest);
      MergedElemsStep(cells, elems, elem);
    }
  }

  lemma MergedElemsStep(cells: seq<Cell>, elems: seq<Value>, elem: Kind)
    requires |cells| == |elems| > 0 && forall e <- elems :: HasKind(e, elem)
    ensures MergedElems(cells, elems, elem)
            == [Merged(cells[0], elems[0], elem)] + MergedElems(cells[1..], elems[1..], elem)
  {
  }

  lemma {:induction false} FieldsToMerged(fields: seq<Value>, kinds: seq<Kind>, n: nat, last: int,
                                          into: seq<Cell>, rest: seq<byte>)
    requires |into| == |fields| == |kinds| < MAX_INT && n <= |fields| && -1 <= last < n
    requires forall j | 0 <= j < |fields| :: HasKind(fields[j], kinds[j])
    ensures DecodeFields(kinds, into, last, EncodeFields(fields, kinds, n, last) + rest)
            == Some((MergedFields(into, fields, kinds, n), rest))
    decreases fields, |fields| - n
  {
    if n == |fields| {
      NoMoreFields(fields, kinds, last, into, rest);
    } else if IsOmitted(fields[n]) {
      FieldsToMerged(fields, kinds, n + 1, last, into, rest);
      OmittedField(fields, kinds, n, last, into);
    } else {
      var cell, more := SentField(fields, kinds, n, last, into, rest);
      FieldsToMerged(fields, kinds, n + 1, n, into[n := cell], rest);
    }
  }

  /** Reading one (delta, value) pair of an encoding leaves the rest of it, and its field merged. */
  lemma {:induction false} SentField(fields: seq<Value>, kinds: seq<Kind>, n: nat, last: int, into: seq<Cell>,
                                     rest: seq<byte>) returns (cell: Cell, more: seq<byte>)
    requires |into| == |fields| == |kinds| < MAX_INT && n < |fields| && -1 <= last < n
    requires forall j | 0 <= j < |fields| :: HasKind(fields[j], kinds[j])
    requires !IsOmitted(fields[n])
    ensures more == EncodeFields(fields, kinds, n + 1, n) + rest
    ensures DecodeFields(kinds, into, last, EncodeFields(fields, kinds, n, last) + rest)
            == DecodeFields(kinds, into[n := cell], n, more)
    ensures MergedFields(into, fields, kinds, n) == MergedFields(into[n := cell], fields, kinds, n + 1)
    decreases fields, 0
  {
    cell, more := Merged(into[n], fields[n], kinds[n]), EncodeFields(fields, kinds, n + 1, n) + rest;
    DecodesToMerged(fields[n], kinds[n], into[n], more);
    ReadPair(kinds, into, last, n, cell, Encode(fields[n], kinds[n]), more);
    SentBytes(fields, kinds, n, last, rest);
    SentCell(fields, kinds, n, into);
  }

  lemma OmittedField(fields: seq<Value>, kinds: seq<Kind>, n: nat, last: int, into: seq<Cell>)
    requires |into| == |fields| == |kinds| < MAX_INT && n < |fields| && -1 <= last < n
    requires forall j | 0 <= j < |fields| :: HasKind(fields[j], kinds[j])
    requires IsOmitted(fields[n])
    ensures EncodeFields(fields, kinds, n, last) == EncodeFields(fields, kinds, n + 1, last)
    ensures MergedFields(into, fields, kinds, n) == MergedFields(into, fields, kinds, n + 1)
  {
  }

  lemma NoMoreFields(fields: seq<Value>, kinds: seq<Kind>, last: int, into: seq<Cell>, rest: seq<byte>)
    requires |into| == |fields| == |kinds| < MAX_INT && -1 <= last < |fields|
    requires forall j | 0 <= j < |fields| :: HasKind(fields[j], kinds[j])
    ensures DecodeFields(kinds, into, last, EncodeFields(fields, kinds, |fields|, last) + rest)
            == Some((MergedFields(into, fields, kinds, |fields|), rest))
  {
    UintInverse(0, rest);
    assert MergedFields(into, fields, kinds, |fields|) == into;
  }

  lemma SentBytes(fields: seq<Value>, kinds: seq<Kind>, n: nat, last: int, rest: seq<byte>)
    requires |fields| == |kinds| < MAX_INT && n < |fields| && -1 <= last < n
    requires forall j | 0 <= j < |fields| :: HasKind(fields[j], kinds[j])
    requires !IsOmitted(fields[n])
    ensures EncodeFields(fields, kinds, n, last) + rest
            == Uint(n - last) + (Encode(fields[n], kinds[n]) + (EncodeFields(fields, kinds, n + 1, n) + rest))
  {
    var body, tail := Encode(fields[n], kinds[n]), EncodeFields(fields, kinds, n + 1, n);
    ConcatAssoc(Uint(n - last) + body, tail, rest);
    ConcatAssoc(Uint(n - last), body, tail + rest);
  }

  lemma SentCell(fields: seq<Value>, kinds: seq<Kind>, n: nat, into: seq<Cell>)
    requires |into| == |fields| == |kinds| && n < |fields| && !IsOmitted(fields[n])
    requires forall j | 0 <= j < |fields| :: HasKind(fields[j], kinds[j])
    ensures MergedFields(into, fields, kinds, n)
            == MergedFields(into[n := Merged(into[n], fields[n], kinds[n])], fields, kinds, n + 1)
  {
  }

  lemma ReadField(kinds: seq<Kind>, into: seq<Cell>, last: int, n: nat, c: Cell,
                  s: seq<byte>, t: seq<byte>, rest: seq<byte>)
    requires |into| == |kinds| && -1 <= last < n < |kinds|
    requires ReadUint(s) == Some((n - last, t)) && DecodeInto(kinds[n], into[n], t) == Some((c, rest))
    ensures DecodeFields(kinds, into, last, s) == DecodeFields(kinds, into[n := c], n, rest)
  {
  }

  /** Reading one (delta, value) pair changes its field. */
  lemma ReadPair(kinds: seq<Kind>, into: seq<Cell>, last: int, n: nat, cell: Cell, body: seq<byte>, more: seq<byte>)
    requires |into| == |kinds| < MAX_INT && -1 <= last < n < |kinds|
    requires DecodeInto(kinds[n], into[n], body + more) == Some((cell, more))
    ensures DecodeFields(kinds, into, last, Uint(n - last) + (body + more))
            == DecodeFields(kinds, into[n := cell], n, more)
  {
    UintInverse(n - last, body + more);
    ReadField(kinds, into, last, n, cell, Uint(n - last) + (body + more), body + more, more);
  }

  // When that is the value that was encoded.

  /** Wherever the encoding of v leaves something out, the old memory already holds it: in every field
      that is not sent, and, field by field, in every old element that is decoded over. */
  ghost predicate Agrees(c: Cell, v: Value, k: Kind)
    requires HasKind(v, k)
    decreases v, 0
  {
    match (v, k)
    case (VSlice(elems), KSlice(elem)) =>
      var cells := ArrayFor(c, elem, |elems|).0;
      forall i | 0 <= i < |elems| :: assert elems[i] in elems; Agrees(cells[i], elems[i], elem)
    case (VStruct(fields), KStruct(kinds)) =>
      var into := FieldsFor(c, kinds);
      forall j | 0 <= j < |fields| :: FieldAgrees(into[j], fields[j], kinds[j])
    case _ => true
  }

  ghost predicate FieldAgrees(c: Cell, v: Value, k: Kind)
    requires HasKind(v, k)
    decreases v, 1
  {
    if IsOmitted(v) then View(c) == v else Agrees(c, v, k)
  }

  lemma {:induction false} MergedIffAgrees(c: Cell, v: Value, k: Kind)
    requires HasKind(v, k)
    ensures View(Merged(c, v, k)) == v <==> Agrees(c, v, k)
    decreases v
  {
    match (v, k)
    case (VSlice(elems), KSlice(elem)) =>
      var (cells, spare) := ArrayFor(c, elem, |elems|);
      var merged := MergedElems(cells, elems, elem);
      assert Merged(c, v, k) == CSlice(merged, spare);
      var got := View(CSlice(merged, spare)).elems;
      assert |got| == |merged| == |elems|;
      forall i | 0 <= i < |elems|
        ensures got[i] == elems[i] <==> Agrees(cells[i], elems[i], elem)
      {
        MergedIffAgrees(cells[i], elems[i], elem);
      }
      assert got == elems <==> forall i | 0 <= i < |elems| :: got[i] == elems[i];
    case (VStruct(fields), KStruct(kinds)) =>
      var into := FieldsFor(c, kinds);
      var merged := MergedFields(into, fields, kinds, 0);
      assert Merged(c, v, k) == CStruct(merged);
      var got := View(CStruct(merged)).fields;
      assert |got| == |merged| == |fields|;
      forall j | 0 <= j < |fields|
        ensures got[j] == fields[j] <==> FieldAgrees(into[j], fields[j], kinds[j])
      {
        if !IsOmitted(fields[j]) {
          MergedIffAgrees(into[j], fields[j], kinds[j]);
        }
      }
      assert got == fields <==> forall j | 0 <= j < |fields| :: got[j] == fields[j];
    case _ =>
  }

  /** Decoding over memory in use always succeeds, and gives back the value that was encoded exactly
      when the old memory agrees with it on everything that is not sent, at every depth. */
  lemma DecodeIntoUsed(v: Value, k: Kind, c: Cell, rest: seq<byte>)
    requires HasKind(v, k)
    ensures var r := DecodeInto(k, c, Encode(v, k) + rest);
      r.Some? && r.value.1 == rest && (View(r.value.0) == v <==> Agrees(c, v, k))
  {
    DecodesToMerged(v, k, c, rest);
    MergedIffAgrees(c, v, k);
  }

  lemma {:induction false} FreshAgrees(v: Value, k: Kind)
    requires HasKind(v, k)
    ensures Agrees(Fresh(k), v, k)
    decreases v
  {
    match (v, k)
    case (VSlice(elems), KSlice(elem)) =>
      forall i | 0 <= i < |elems|
        ensures Agrees(ArrayFor(Fresh(k), elem, |elems|).0[i], elems[i], elem)
      {
        FreshAgrees(elems[i], elem);
      }
    case (VStruct(fields), KStruct(kinds)) =>
      forall j | 0 <= j < |fields|
        ensures FieldAgrees(Fresh(kinds[j]), fields[j], kinds[j])
      {
        FreshAgrees(fields[j], kinds[j]);
      }
    case _ =>
  }

  /** Decoding undoes encoding: fresh memory agrees with every value. */
  lemma ValueInverse(v: Value, k: Kind, rest: seq<byte>)
    requires HasKind(v, k)
    ensures Decode(k, Encode(v, k) + rest) == Some((v, rest))
  {
    DecodeIntoUsed(v, k, Fresh(k), rest);
    FreshAgrees(v, k);
  }

  // The bytes written out, after the wire format in the documentation of encoding/gob.

  lemma UintBytes(n: nat)
    requires n < MAX_UINT
    ensures n < 128 ==> Uint(n) == [n]
    ensures 128 <= n < 0x100 ==> Uint(n) == [0xFF, n]
    ensures 0x100 <= n < 0x10000 ==> Uint(n) == [0xFE, n / 0x100, n % 0x100]
    ensures n >= 128 ==> |Uint(n)| <= 9 && Uint(n)[0] == 0x100 - (|Uint(n)| - 1) && Uint(n)[|Uint(n)| - 1] == n % 0x100
  {
    if n >= 128 {
      AtMostEightBytes(n);
    }
  }

  lemma IntBytes(i: int)
    requires -64 <= i < 64
    ensures Uint(Zigzag(i)) == [if i >= 0 then 2 * i else -2 * i - 1]
  {
  }
}
