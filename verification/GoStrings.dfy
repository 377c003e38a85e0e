/** Go's string model and the few functions of package strings that the worker uses.
    A Go string is a sequence of bytes; where only single ASCII characters are inspected the
    functions below are generic in the element type, so text modules can use Dafny strings. */
module GoStrings {

  type byte = b: int | 0 <= b < 256

  type GoString = seq<byte>

  const TAB: byte := 9
  const LF: byte := 10
  const CR: byte := 13
  const SPACE: byte := 32
  const COMMA: byte := 44
  const DASH: byte := 45
  const COLON: byte := 58
  const LETTER_T: byte := 84
  const LETTER_Z: byte := 90

  datatype Option<+T> = None | Some(value: T)

  datatype Result<+T, +E> = Ok(value: T) | Err(error: E)

  /** The bytes of an ASCII literal. */
  function Ascii(s: string): (r: GoString)
    ensures |r| == |s|
  {
    seq(|s|, i requires 0 <= i < |s| => (s[i] as int) % 256)
  }

  lemma ConcatAssoc<T>(a: seq<T>, b: seq<T>, c: seq<T>)
    ensures (a + b) + c == a + (b + c)
  {
  }

  lemma ConcatParts<T>(a: seq<T>, b: seq<T>)
    ensures a <= a + b && (a + b)[..|a|] == a && (a + b)[|a|..] == b
  {
  }

  lemma DropConcat<T>(a: seq<T>, b: seq<T>, n: nat)
    requires n <= |a|
    ensures (a + b)[n..] == a[n..] + b
  {
  }

  lemma SliceConcat<T>(s: seq<T>, a: nat, b: nat, c: nat)
    requires a <= b <= c <= |s|
    ensures s[a..c] == s[a..b] + s[b..c]
  {
  }

  lemma SliceToEnd<T>(s: seq<T>, a: nat)
    requires a <= |s|
    ensures s[a..|s|] == s[a..] && s[0..] == s
  {
  }

  /** strings.TrimLeft(s, cutset). */
  function TrimLeft<T(==)>(s: seq<T>, cutset: set<T>): (r: seq<T>)
    ensures r != [] ==> r[0] !in cutset
  {
    if s != [] && s[0] in cutset then TrimLeft(s[1..], cutset) else s
  }

  /** strings.TrimRight(s, cutset). */
  function TrimRight<T(==)>(s: seq<T>, cutset: set<T>): (r: seq<T>)
    ensures r <= s
    ensures r != [] ==> r[|r| - 1] !in cutset
  {
    if s != [] && s[|s| - 1] in cutset then TrimRight(s[..|s| - 1], cutset) else s
  }

  /** strings.Trim(s, cutset). */
  function Trim<T(==)>(s: seq<T>, cutset: set<T>): seq<T> {
    TrimRight(TrimLeft(s, cutset), cutset)
  }

  /** strings.Split(s, sep) for a one-element separator: one piece more than there are separators. */
  function Split<T(==)>(s: seq<T>, sep: T): (parts: seq<seq<T>>)
    ensures parts != []
  {
    if s == [] then [[]]
    else
      var rest := Split(s[1..], sep);
      if s[0] == sep then [[]] + rest else [[s[0]] + rest[0]] + rest[1..]
  }

  /** strings.Join(parts, sep). */
  function Join<T>(parts: seq<seq<T>>, sep: T): seq<T>
  {
    if parts == [] then []
    else if |parts| == 1 then parts[0]
    else parts[0] + [sep] + Join(parts[1..], sep)
  }

  lemma {:induction false} TrimLeftIsSuffix<T>(s: seq<T>, cutset: set<T>)
    ensures var r := TrimLeft(s, cutset); |r| <= |s| && r == s[|s| - |r|..]
  {
    if s != [] && s[0] in cutset {
      TrimLeftIsSuffix(s[1..], cutset);
    }
  }

  lemma {:induction false} TrimLeftSkips<T>(ws: seq<T>, t: seq<T>, cutset: set<T>)
    requires forall c <- ws :: c in cutset
    ensures TrimLeft(ws + t, cutset) == TrimLeft(t, cutset)
  {
    if ws == [] {
      assert ws + t == t;
    } else {
      assert (ws + t)[1..] == ws[1..] + t;
      TrimLeftSkips(ws[1..], t, cutset);
    }
  }

  /** What TrimLeft removes is of the cutset. */
  lemma {:induction false} TrimLeftRemoves<T>(s: seq<T>, cutset: set<T>)
    ensures |TrimLeft(s, cutset)| <= |s|
    ensures forall i | 0 <= i < |s| - |TrimLeft(s, cutset)| :: s[i] in cutset
  {
    if s != [] && s[0] in cutset {
      TrimLeftRemoves(s[1..], cutset);
      forall i | 0 <= i < |s| - |TrimLeft(s, cutset)|
        ensures s[i] in cutset
      {
        assert i > 0 ==> s[i] == s[1..][i - 1];
      }
    }
  }

  /** No cutset element at either end. */
  predicate IsTrimmed<T(==)>(s: seq<T>, cutset: set<T>) {
    s != [] ==> s[0] !in cutset && s[|s| - 1] !in cutset
  }

  /** Trimming gives a run of the original with clean ends. */
  lemma TrimTrims<T>(s: seq<T>, cutset: set<T>)
    ensures IsTrimmed(Trim(s, cutset), cutset)
    ensures forall c <- Trim(s, cutset) :: c in s
  {
    var l := TrimLeft(s, cutset);
    var t := TrimRight(l, cutset);
    TrimLeftIsSuffix(s, cutset);
    if t != [] {
      assert t[0] == l[0];
    }
    forall i | 0 <= i < |t|
      ensures t[i] in s
    {
      assert t[i] == l[i] == s[|s| - |l| + i];
    }
  }

  lemma {:induction false} TrimRightSkips<T>(t: seq<T>, ws: seq<T>, cutset: set<T>)
    requires (forall c <- ws :: c in cutset) && t != [] && t[|t| - 1] !in cutset
    ensures TrimRight(t + ws, cutset) == t
  {
    var s := t + ws;
    if ws == [] {
      assert s == t;
    } else {
      assert s[..|s| - 1] == t + ws[..|ws| - 1];
      TrimRightSkips(t, ws[..|ws| - 1], cutset);
    }
  }

  /** Padding on both sides is trimmed off, and no more. */
  lemma TrimPadded<T>(before: seq<T>, t: seq<T>, behind: seq<T>, cutset: set<T>)
    requires (forall c <- before :: c in cutset) && (forall c <- behind :: c in cutset)
    requires t != [] && t[0] !in cutset && t[|t| - 1] !in cutset
    ensures Trim(before + t + behind, cutset) == t
  {
    ConcatAssoc(before, t, behind);
    TrimLeftSkips(before, t + behind, cutset);
    assert TrimLeft(t + behind, cutset) == t + behind;
    TrimRightSkips(t, behind, cutset);
  }

  /** Trimming leaves exactly the trimmed texts alone. */
  lemma TrimFixed<T>(s: seq<T>, cutset: set<T>)
    ensures Trim(s, cutset) == s <==> IsTrimmed(s, cutset)
  {
    if IsTrimmed(s, cutset) {
      assert TrimLeft(s, cutset) == s;
    } else {
      TrimTrims(s, cutset);
    }
  }

  lemma {:induction false} PiecesHoldNoSeparator<T>(s: seq<T>, sep: T)
    ensures forall p <- Split(s, sep) :: sep !in p
  {
    if s != [] {
      PiecesHoldNoSeparator(s[1..], sep);
      assert sep !in Split(s[1..], sep)[0];
    }
  }

  lemma {:induction false} SplitPiece<T>(p: seq<T>, sep: T)
    requires sep !in p
    ensures Split(p, sep) == [p]
  {
    if p != [] {
      SplitPiece(p[1..], sep);
      assert [p[0]] + p[1..] == p;
    }
  }

  /** Splitting is a homomorphism: a separator in the text is a border between the piece lists. */
  lemma {:induction false} SplitConcat<T>(a: seq<T>, b: seq<T>, sep: T)
    ensures Split(a + [sep] + b, sep) == Split(a, sep) + Split(b, sep)
  {
    var s := a + [sep] + b;
    if a == [] {
      assert s[0] == sep && s[1..] == b;
    } else {
      assert s[0] == a[0] && s[1..] == a[1..] + [sep] + b;
      SplitConcat(a[1..], b, sep);
      var l, r := Split(a[1..], sep), Split(b, sep);
      assert (l + r)[0] == l[0] && (l + r)[1..] == l[1..] + r;
      if a[0] == sep {
        ConcatAssoc([[]], l, r);
      } else {
        ConcatAssoc([[a[0]] + l[0]], l[1..], r);
      }
    }
  }

  /** Split undoes Join exactly on the non-empty lists whose pieces hold no separator. */
  lemma {:induction false} SplitJoin<T>(parts: seq<seq<T>>, sep: T)
    ensures Split(Join(parts, sep), sep) == parts <==> parts != [] && forall p <- parts :: sep !in p
  {
    PiecesHoldNoSeparator(Join(parts, sep), sep);
    if parts != [] && forall p <- parts :: sep !in p {
      SplitPiece(parts[0], sep);
      if |parts| == 1 {
        assert parts == [parts[0]];
      } else {
        SplitConcat(parts[0], Join(parts[1..], sep), sep);
        SplitJoin(parts[1..], sep);
        assert parts == [parts[0]] + parts[1..];
      }
    }
  }
}
