/** Standard base64 with padding, section 4 of RFC 4648, as encoding/base64.StdEncoding writes and
    reads it: line breaks inside the text are skipped, anything else outside the alphabet fails. */
module Base64 {
  import opened GoStrings

  const PAD: byte := 61

  type sextet = x: int | 0 <= x < 64

  /** Table 1 of RFC 4648: A-Z, a-z, 0-9, '+', '/'. */
  function Symbol(x: sextet): (c: byte)
  {
    if x < 26 then 65 + x
    else if x < 52 then 71 + x
    else if x < 62 then x - 4
    else if x == 62 then 43
    else 47
  }

  function SextetOf(c: byte): (r: Option<sextet>)
  {
    if 65 <= c <= 90 then Some(c - 65)
    else if 97 <= c <= 122 then Some(c - 71)
    else if 48 <= c <= 57 then Some(c + 4)
    else if c == 43 then Some(62)
    else if c == 47 then Some(63)
    else None
  }

  /** The four sextets of three bytes, and back. */
  function Sextets(x: byte, y: byte, z: byte): (sextet, sextet, sextet, sextet) {
    (x / 4, x % 4 * 16 + y / 16, y % 16 * 4 + z / 64, z % 64)
  }

  function Octets(a: sextet, b: sextet, c: sextet, e: sextet): (byte, byte, byte) {
    (a * 4 + b / 16, b % 16 * 16 + c / 4, c % 4 * 64 + e)
  }

  /** A final group of one or two bytes is filled up with zero bits and padded. */
  function Encode(d: seq<byte>): (s: GoString)
  {
    if d == [] then []
    else if |d| == 1 then
      var q := Sextets(d[0], 0, 0);
      [Symbol(q.0), Symbol(q.1), PAD, PAD]
    else if |d| == 2 then
      var q := Sextets(d[0], d[1], 0);
      [Symbol(q.0), Symbol(q.1), Symbol(q.2), PAD]
    else
      var q := Sextets(d[0], d[1], d[2]);
      [Symbol(q.0), Symbol(q.1), Symbol(q.2), Symbol(q.3)] + Encode(d[3..])
  }

  function DropNewlines(s: GoString): GoString {
    if s == [] then []
    else if s[0] == LF || s[0] == CR then DropNewlines(s[1..])
    else [s[0]] + DropNewlines(s[1..])
  }

  function Decode(s: GoString): Option<seq<byte>> {
    DecodeQuads(DropNewlines(s))
  }

  /** Reads groups of four; padding may only close the last group. */
  function DecodeQuads(s: GoString): Option<seq<byte>> {
    if s == [] then Some([])
    else if |s| < 4 then None
    else
      match (SextetOf(s[0]), SextetOf(s[1]), SextetOf(s[2]), SextetOf(s[3]))
      case (Some(a), Some(b), None, None) =>
        if s[2..] == [PAD, PAD] then Some([Octets(a, b, 0, 0).0]) else None
      case (Some(a), Some(b), Some(c), None) =>
        if s[3..] == [PAD] then Some([Octets(a, b, c, 0).0, Octets(a, b, c, 0).1]) else None
      case (Some(a), Some(b), Some(c), Some(e)) =>
        (match DecodeQuads(s[4..])
         case Some(rest) => Some([Octets(a, b, c, e).0, Octets(a, b, c, e).1, Octets(a, b, c, e).2] + rest)
         case None => None)
      case _ => None
  }

  /** A byte the encoder can print. */
  predicate IsPrinted(c: byte) {
    SextetOf(c).Some? || c == PAD
  }

  lemma SymbolInverse(x: sextet)
    ensures SextetOf(Symbol(x)) == Some(x)
  {
  }

  lemma GroupPrints(a: sextet, b: sextet, c: sextet, e: sextet)
    ensures forall x <- [Symbol(a), Symbol(b), Symbol(c), Symbol(e), PAD] :: IsPrinted(x)
  {
    SymbolInverse(a);
    SymbolInverse(b);
    SymbolInverse(c);
    SymbolInverse(e);
  }

  lemma {:induction false} EncodePrints(d: seq<byte>)
    ensures forall c <- Encode(d) :: IsPrinted(c)
  {
    if d != [] {
      var q := Sextets(d[0], if |d| > 1 then d[1] else 0, if |d| > 2 then d[2] else 0);
      GroupPrints(q.0, q.1, q.2, q.3);
      if |d| > 2 {
        EncodePrints(d[3..]);
      }
    }
  }

  lemma OctetsInverse(x: byte, y: byte, z: byte)
    ensures var q := Sextets(x, y, z); Octets(q.0, q.1, q.2, q.3) == (x, y, z)
  {
    assert x == x / 4 * 4 + x % 4;
    assert y == y / 16 * 16 + y % 16;
    assert z == z / 64 * 64 + z % 64;
    assert (x % 4 * 16 + y / 16) / 16 == x % 4 && (x % 4 * 16 + y / 16) % 16 == y / 16;
    assert (y % 16 * 4 + z / 64) / 4 == y % 16 && (y % 16 * 4 + z / 64) % 4 == z / 64;
  }

  /** One full group in front of any text decodes to its three bytes. */
  lemma GroupInverse(x: byte, y: byte, z: byte, s: GoString, t: GoString, rest: seq<byte>)
    requires var q := Sextets(x, y, z); s == [Symbol(q.0), Symbol(q.1), Symbol(q.2), Symbol(q.3)] + t
    requires DecodeQuads(t) == Some(rest)
    ensures DecodeQuads(s) == Some([x, y, z] + rest)
  {
    var q := Sextets(x, y, z);
    SymbolInverse(q.0);
    SymbolInverse(q.1);
    SymbolInverse(q.2);
    SymbolInverse(q.3);
    OctetsInverse(x, y, z);
    assert s[4..] == t;
  }

  lemma LastByteInverse(x: byte)
    ensures DecodeQuads(Encode([x])) == Some([x])
  {
    var q := Sextets(x, 0, 0);
    SymbolInverse(q.0);
    SymbolInverse(q.1);
    OctetsInverse(x, 0, 0);
    assert Encode([x])[2..] == [PAD, PAD];
  }

  lemma LastPairInverse(x: byte, y: byte)
    ensures DecodeQuads(Encode([x, y])) == Some([x, y])
  {
    var q := Sextets(x, y, 0);
    SymbolInverse(q.0);
    SymbolInverse(q.1);
    SymbolInverse(q.2);
    OctetsInverse(x, y, 0);
    assert Encode([x, y])[3..] == [PAD];
  }

  /** Decoding undoes encoding for every byte string, whatever its length modulo three. */
  lemma {:induction false} QuadsInverse(d: seq<byte>)
    ensures DecodeQuads(Encode(d)) == Some(d)
  {
    if |d| == 1 {
      LastByteInverse(d[0]);
      assert d == [d[0]];
    } else if |d| == 2 {
      LastPairInverse(d[0], d[1]);
      assert d == [d[0], d[1]];
    } else if |d| > 2 {
      QuadsInverse(d[3..]);
      GroupInverse(d[0], d[1], d[2], Encode(d), Encode(d[3..]), d[3..]);
      assert d == [d[0], d[1], d[2]] + d[3..];
    }
  }

  lemma {:induction false} DecodeShrinks(s: GoString)
    ensures DecodeQuads(s).Some? ==> |DecodeQuads(s).value| <= |s|
  {
    if |s| >= 4 {
      DecodeShrinks(s[4..]);
    }
  }

  lemma {:induction false} DropNewlinesShrinks(s: GoString)
    ensures |DropNewlines(s)| <= |s|
  {
    if s != [] {
      DropNewlinesShrinks(s[1..]);
    }
  }

  // The alphabet and the grammar written out.

  /** A-Z, a-z, 0-9, + and /, in that order. */
  lemma Alphabet(x: sextet)
    ensures x < 26 ==> Symbol(x) == 'A' as int + x
    ensures 26 <= x < 52 ==> Symbol(x) == 'a' as int + (x - 26)
    ensures 52 <= x < 62 ==> Symbol(x) == '0' as int + (x - 52)
    ensures x == 62 ==> Symbol(x) == '+' as int
    ensures x == 63 ==> Symbol(x) == '/' as int
    ensures PAD == '=' as int
  {
  }

  /** Four sextets and three bytes are the same 24-bit number, high bits first. */
  lemma SameNumber(x: byte, y: byte, z: byte)
    ensures var q := Sextets(x, y, z);
      q.0 * 0x40000 + q.1 * 0x1000 + q.2 * 0x40 + q.3 == x * 0x10000 + y * 0x100 + z
  {
    assert x == x / 4 * 4 + x % 4 && y == y / 16 * 16 + y % 16 && z == z / 64 * 64 + z % 64;
  }

  /** A short last group is the full group of its bytes and zeros, its last characters replaced by
      padding. */
  lemma Padded(x: byte, y: byte)
    ensures Encode([x]) == Encode([x, 0, 0])[..2] + ['=' as int, '=' as int]
    ensures Encode([x, y]) == Encode([x, y, 0])[..3] + ['=' as int]
  {
    assert [x, 0, 0][3..] == [] && [x, y, 0][3..] == [];
  }

  predicate IsSymbol(c: byte) {
    || 'A' as int <= c <= 'Z' as int || 'a' as int <= c <= 'z' as int || '0' as int <= c <= '9' as int
    || c == '+' as int || c == '/' as int
  }

  /** How many padding characters close the text: none, one or two. */
  function Padding(s: GoString): nat {
    if s == [] || s[|s| - 1] != '=' as int then 0
    else if |s| == 1 || s[|s| - 2] != '=' as int then 1
    else 2
  }

  /** Groups of four characters of the alphabet, of which the last may be padded. */
  predicate IsBase64(s: GoString) {
    |s| % 4 == 0 && forall i | 0 <= i < |s| - Padding(s) :: IsSymbol(s[i])
  }

  lemma SymbolRead(c: byte)
    ensures SextetOf(c).Some? <==> IsSymbol(c)
  {
  }

  lemma FourRead(s: GoString)
    requires |s| == 4
    ensures DecodeQuads(s).Some? <==> IsBase64(s)
  {
    SymbolRead(s[0]);
    SymbolRead(s[1]);
    SymbolRead(s[2]);
    SymbolRead(s[3]);
    assert s[4..] == [];
    assert s[2..] == [s[2], s[3]] && s[3..] == [s[3]];
    assert IsBase64(s) <==>
      && IsSymbol(s[0]) && IsSymbol(s[1])
      && (IsSymbol(s[2]) || (s[2] == '=' as int && s[3] == '=' as int)) && (IsSymbol(s[3]) || s[3] == '=' as int);
  }

  lemma GroupRead(s: GoString)
    requires |s| > 4
    ensures DecodeQuads(s).Some? <==>
      IsSymbol(s[0]) && IsSymbol(s[1]) && IsSymbol(s[2]) && IsSymbol(s[3]) && DecodeQuads(s[4..]).Some?
  {
    SymbolRead(s[0]);
    SymbolRead(s[1]);
    SymbolRead(s[2]);
    SymbolRead(s[3]);
    assert |s[2..]| > 2 && |s[3..]| > 1;
  }

  lemma GroupIsBase64(s: GoString)
    requires |s| >= 8
    ensures IsBase64(s) <==>
      IsSymbol(s[0]) && IsSymbol(s[1]) && IsSymbol(s[2]) && IsSymbol(s[3]) && IsBase64(s[4..])
  {
    var t := s[4..];
    assert Padding(t) == Padding(s);
    if IsSymbol(s[0]) && IsSymbol(s[1]) && IsSymbol(s[2]) && IsSymbol(s[3]) && IsBase64(t) {
      forall i | 0 <= i < |s| - Padding(s)
        ensures IsSymbol(s[i])
      {
        assert i >= 4 ==> s[i] == t[i - 4];
      }
    }
    if IsBase64(s) {
      forall i | 0 <= i < |t| - Padding(t)
        ensures IsSymbol(t[i])
      {
        assert t[i] == s[i + 4];
      }
    }
  }

  /** A text decodes exactly when it follows the grammar: a short group, a character outside the alphabet
      or padding in the middle makes it fail. */
  lemma {:induction false} DecodesIffBase64(s: GoString)
    ensures DecodeQuads(s).Some? <==> IsBase64(s)
  {
    if |s| == 4 {
      FourRead(s);
    } else if |s| > 4 {
      DecodesIffBase64(s[4..]);
      GroupRead(s);
      if |s| >= 8 {
        GroupIsBase64(s);
      }
    }
  }
}
