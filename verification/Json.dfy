/** json.Marshal for the string lists and records of internal/x509worker/meta.go, and a reader for
    compact JSON arrays whose strings follow section 7 of RFC 8259. */
module Json {
  import opened GoStrings

  /** A lowercase hexadecimal digit. */
  function HexDigit(n: nat): char
    requires n < 16
  {
    if n < 10 then (48 + n) as char else (87 + n) as char
  }

  function HexValue(c: char): (n: Option<nat>)
    ensures n.Some? ==> n.value < 16
  {
    if '0' <= c <= '9' then Some(c as int - 48)
    else if 'a' <= c <= 'f' then Some(c as int - 87)
    else if 'A' <= c <= 'F' then Some(c as int - 55)
    else None
  }

  /** One character inside a string: short escapes, \u00xx for other controls and for < > &, and
      \u202x for the two line separators. */
  function Escape(c: char): string {
    if c == '\"' || c == '\\' then ['\\', c]
    else if c as int == 8 then "\\b"
    else if c as int == 12 then "\\f"
    else if c as int == 10 then "\\n"
    else if c as int == 13 then "\\r"
    else if c as int == 9 then "\\t"
    else if c as int < 32 || c == '<' || c == '>' || c == '&' then
      ['\\', 'u', '0', '0', HexDigit(c as int / 16), HexDigit(c as int % 16)]
    else if c as int == 0x2028 || c as int == 0x2029 then ['\\', 'u', '2', '0', '2', HexDigit(c as int % 16)]
    else [c]
  }

  function EscapeAll(s: string): string {
    if s == "" then "" else Escape(s[0]) + EscapeAll(s[1..])
  }

  function StringText(s: string): string {
    ['\"'] + EscapeAll(s) + ['\"']
  }

  function ArrayText<T>(print_: T -> string, xs: seq<T>): string {
    ['['] + ItemsText(print_, xs) + [']']
  }

  function ItemsText<T>(print_: T -> string, xs: seq<T>): string {
    if xs == [] then ""
    else if |xs| == 1 then print_(xs[0])
    else print_(xs[0]) + [','] + ItemsText(print_, xs[1..])
  }

  // The reader. Each function returns what it read and the text after it.

  function ReadShort(c: char): Option<char> {
    match c
    case '\"' => Some('\"')
    case '\\' => Some('\\')
    case '/' => Some('/')
    case 'b' => Some(8 as char)
    case 'f' => Some(12 as char)
    case 'n' => Some(10 as char)
    case 'r' => Some(13 as char)
    case 't' => Some(9 as char)
    case _ => None
  }

  /** The scalar value of four hexadecimal digits; a surrogate is no scalar value. */
  function ReadHex(s: string): Option<char>
    requires |s| == 4
  {
    match (HexValue(s[0]), HexValue(s[1]), HexValue(s[2]), HexValue(s[3]))
    case (Some(a), Some(b), Some(c), Some(d)) =>
      var v := a * 4096 + b * 256 + c * 16 + d;
      if 0xD800 <= v < 0xE000 then None else Some(v as char)
    case _ => None
  }

  /** One character of a string body. */
  function ReadChar(s: string): (r: Option<(char, string)>)
    ensures r.Some? ==> |r.value.1| < |s|
  {
    if s == "" || s[0] == '\"' || s[0] as int < 32 then None
    else if s[0] != '\\' then Some((s[0], s[1..]))
    else if |s| >= 6 && s[1] == 'u' then
      (match ReadHex(s[2..6]) case Some(c) => Some((c, s[6..])) case None => None)
    else if |s| >= 2 then
      (match ReadShort(s[1]) case Some(c) => Some((c, s[2..])) case None => None)
    else None
  }

  /** A string body up to its closing quote. */
  function ReadBody(s: string): (r: Option<(string, string)>)
    ensures r.Some? ==> |r.value.1| < |s|
  {
    if s != "" && s[0] == '\"' then Some(("", s[1..]))
    else match ReadChar(s)
      case None => None
      case Some((c, t)) =>
        match ReadBody(t)
        case None => None
        case Some((x, rest)) => Some(([c] + x, rest))
  }

  function ReadString(s: string): Option<(string, string)> {
    if s != "" && s[0] == '\"' then ReadBody(s[1..]) else None
  }

  /** Items separated by commas up to the closing bracket. */
  function ReadItems<T>(read: string -> Option<(T, string)>, s: string): Option<(seq<T>, string)>
    decreases |s|
  {
    match read(s)
    case None => None
    case Some((x, t)) =>
      if t != "" && t[0] == ']' then Some(([x], t[1..]))
      else if t != "" && t[0] == ',' && |t| <= |s| then
        match ReadItems(read, t[1..])
        case None => None
        case Some((xs, rest)) => Some(([x] + xs, rest))
      else None
  }

  /** A whole text that is one array. */
  function ReadArray<T>(read: string -> Option<(T, string)>, s: string): Option<seq<T>> {
    if |s| < 2 || s[0] != '[' then None
    else if s[1] == ']' then if |s| == 2 then Some([]) else None
    else match ReadItems(read, s[1..])
      case None => None
      case Some((xs, rest)) => if rest == "" then Some(xs) else None
  }

  // Reading undoes printing.

  lemma HexInverse(n: nat)
    requires n < 16
    ensures HexValue(HexDigit(n)) == Some(n)
  {
  }

  /** The two long escapes give back their character. */
  lemma HexEscapes(c: char)
    ensures c as int < 256 ==> ReadHex(['0', '0', HexDigit(c as int / 16), HexDigit(c as int % 16)]) == Some(c)
    ensures 0x2020 <= c as int < 0x2030 ==> ReadHex(['2', '0', '2', HexDigit(c as int % 16)]) == Some(c)
  {
    var v := c as int;
    if v < 256 {
      HexInverse(v / 16);
    }
    HexInverse(v % 16);
    HexInverse(2);
    HexInverse(0);
  }

  lemma CharInverse(c: char, rest: string)
    ensures ReadChar(Escape(c) + rest) == Some((c, rest))
    ensures Escape(c)[0] != '\"'
  {
    var s := Escape(c) + rest;
    ConcatParts(Escape(c), rest);
    HexEscapes(c);
    if |Escape(c)| == 6 {
      assert s[2..6] == Escape(c)[2..];
    }
  }

  lemma BodyNext(c: char, t: string, x: string, rest: string)
    requires ReadBody(t) == Some((x, rest))
    ensures ReadBody(Escape(c) + t) == Some(([c] + x, rest))
  {
    CharInverse(c, t);
    assert (Escape(c) + t)[0] == Escape(c)[0];
  }

  lemma {:induction false} BodyInverse(x: string, rest: string)
    ensures ReadBody(EscapeAll(x) + (['\"'] + rest)) == Some((x, rest))
  {
    var close := ['\"'] + rest;
    if x == "" {
      assert EscapeAll(x) + close == close;
      assert close[1..] == rest;
    } else {
      BodyInverse(x[1..], rest);
      ConcatAssoc(Escape(x[0]), EscapeAll(x[1..]), close);
      BodyNext(x[0], EscapeAll(x[1..]) + close, x[1..], rest);
      assert [x[0]] + x[1..] == x;
    }
  }

  /** Every string reads back from its literal, whatever follows. */
  lemma StringInverse(x: string, rest: string)
    ensures ReadString(StringText(x) + rest) == Some((x, rest))
  {
    var s := StringText(x) + rest;
    assert s[1..] == EscapeAll(x) + (['\"'] + rest);
    BodyInverse(x, rest);
  }

  /** read undoes print_ in front of any text, and no item looks like the end of the array. */
  ghost predicate Inverts<T(!new)>(print_: T -> string, read: string -> Option<(T, string)>) {
    && (forall x, rest :: read(print_(x) + rest) == Some((x, rest)))
    && (forall x :: print_(x) != "" && print_(x)[0] != ']')
  }

  lemma LastItem<T(!new)>(print_: T -> string, read: string -> Option<(T, string)>, x: T, rest: string)
    requires Inverts(print_, read)
    ensures ReadItems(read, print_(x) + ([']'] + rest)) == Some(([x], rest))
  {
    assert read(print_(x) + ([']'] + rest)) == Some((x, [']'] + rest));
    ConcatParts([']'], rest);
  }

  lemma NextItem<T(!new)>(print_: T -> string, read: string -> Option<(T, string)>, x: T, more: string,
                          xs: seq<T>, rest: string)
    requires Inverts(print_, read) && ReadItems(read, more) == Some((xs, rest))
    ensures ReadItems(read, print_(x) + ([','] + more)) == Some(([x] + xs, rest))
  {
    assert read(print_(x) + ([','] + more)) == Some((x, [','] + more));
    ConcatParts([','], more);
  }

  lemma MoreItems<T(!new)>(print_: T -> string, read: string -> Option<(T, string)>, xs: seq<T>, text: string,
                           more: string, rest: string)
    requires Inverts(print_, read) && xs != [] && text == print_(xs[0]) + ([','] + more)
    requires ReadItems(read, more) == Some((xs[1..], rest))
    ensures ReadItems(read, text) == Some((xs, rest))
  {
    NextItem(print_, read, xs[0], more, xs[1..], rest);
    assert xs == [xs[0]] + xs[1..];
  }

  lemma FirstItemText<T>(print_: T -> string, xs: seq<T>, close: string)
    requires |xs| > 1
    ensures ItemsText(print_, xs) + close == print_(xs[0]) + ([','] + (ItemsText(print_, xs[1..]) + close))
  {
    ConcatAssoc(print_(xs[0]) + [','], ItemsText(print_, xs[1..]), close);
    ConcatAssoc(print_(xs[0]), [','], ItemsText(print_, xs[1..]) + close);
  }

  lemma {:induction false} ItemsInverse<T(!new)>(print_: T -> string, read: string -> Option<(T, string)>,
                                                 xs: seq<T>, rest: string)
    requires Inverts(print_, read) && xs != []
    ensures ReadItems(read, ItemsText(print_, xs) + ([']'] + rest)) == Some((xs, rest))
  {
    if |xs| == 1 {
      LastItem(print_, read, xs[0], rest);
      assert xs == [xs[0]];
    } else {
      ItemsInverse(print_, read, xs[1..], rest);
      FirstItemText(print_, xs, [']'] + rest);
      MoreItems(print_, read, xs, ItemsText(print_, xs) + ([']'] + rest),
                ItemsText(print_, xs[1..]) + ([']'] + rest), rest);
    }
  }

  lemma ArrayInverse<T(!new)>(print_: T -> string, read: string -> Option<(T, string)>, xs: seq<T>)
    requires Inverts(print_, read)
    ensures ReadArray(read, ArrayText(print_, xs)) == Some(xs)
  {
    var s := ArrayText(print_, xs);
    var close := [']'] + "";
    assert s[1..] == ItemsText(print_, xs) + close;
    if xs != [] {
      ItemsInverse(print_, read, xs, "");
      assert s[1] == print_(xs[0])[0];
    }
  }

  /** A character that may stand unescaped in a tag. */
  predicate IsSafe(c: char) {
    c as int >= 32 && c != '<' && c != '>' && c != '&' && c as int != 0x2028 && c as int != 0x2029
  }

  /** A character that is printed as itself. */
  predicate IsPlain(c: char) {
    IsSafe(c) && c != '\"' && c != '\\'
  }

  /** Go's escaping: no control, markup or line separator character reaches the text. */
  lemma {:induction false} EscapedIsSafe(s: string)
    ensures forall c <- EscapeAll(s) :: IsSafe(c)
  {
    if s != "" {
      EscapeOne(s[0]);
      EscapedIsSafe(s[1..]);
    }
  }

  /** Exactly the texts without quote, backslash and those characters are printed as they are. */
  lemma {:induction false} PlainUnchanged(s: string)
    ensures EscapeAll(s) == s <==> forall c <- s :: IsPlain(c)
    ensures EscapeAll(s) == s <==> forall c <- s ::
      c as int >= 0x20 && c != '<' && c != '>' && c != '&' && c as int != 0x2028 && c as int != 0x2029
      && c != '\"' && c != '\\'
  {
    if s != "" {
      EscapeOne(s[0]);
      PlainUnchanged(s[1..]);
      EscapedIsLonger(s[1..]);
      assert s == [s[0]] + s[1..];
      assert (forall c <- s :: IsPlain(c)) <==> IsPlain(s[0]) && forall c <- s[1..] :: IsPlain(c);
      if IsPlain(s[0]) {
        assert EscapeAll(s)[1..] == EscapeAll(s[1..]);
      } else {
        assert |EscapeAll(s)| > |s|;
      }
    }
  }

  lemma EscapeOne(c: char)
    ensures forall d <- Escape(c) :: IsSafe(d)
    ensures if IsPlain(c) then Escape(c) == [c] else |Escape(c)| > 1
  {
  }

  lemma {:induction false} EscapedIsLonger(s: string)
    ensures |EscapeAll(s)| >= |s|
  {
    if s != "" {
      EscapeOne(s[0]);
      EscapedIsLonger(s[1..]);
    }
  }

  /** []string through json.Marshal. */
  function StringsText(xs: seq<string>): string {
    ArrayText(StringText, xs)
  }

  lemma {:induction false} ItemsAreSafe(xs: seq<string>)
    ensures forall c <- ItemsText(StringText, xs) :: IsSafe(c)
  {
    if xs != [] {
      EscapedIsSafe(xs[0]);
      ItemsAreSafe(xs[1..]);
    }
  }

  /** No control, markup or line separator character reaches a tag. */
  lemma TagIsSafe(xs: seq<string>)
    ensures forall c <- StringsText(xs) ::
      c as int >= 0x20 && c != '<' && c != '>' && c != '&' && c as int != 0x2028 && c as int != 0x2029
  {
    ItemsAreSafe(xs);
  }

  lemma StringsInverse(xs: seq<string>)
    ensures ReadArray(ReadString, StringsText(xs)) == Some(xs)
  {
    forall x, rest
      ensures ReadString(StringText(x) + rest) == Some((x, rest))
    {
      StringInverse(x, rest);
    }
    ArrayInverse(StringText, ReadString, xs);
  }

  /** A struct of strings through json.Marshal: its members in declaration order under their tags. */
  function ObjectText(members: seq<(string, string)>): string {
    ['{'] + MembersText(members) + ['}']
  }

  function MemberText(m: (string, string)): string {
    StringText(m.0) + [':'] + StringText(m.1)
  }

  function MembersText(members: seq<(string, string)>): string {
    if members == [] then ""
    else if |members| == 1 then MemberText(members[0])
    else MemberText(members[0]) + [','] + MembersText(members[1..])
  }

  function ReadMember(s: string): Option<((string, string), string)> {
    match ReadString(s)
    case None => None
    case Some((key, t)) =>
      if t == "" || t[0] != ':' then None
      else match ReadString(t[1..]) case None => None case Some((value, u)) => Some(((key, value), u))
  }

  /** Members separated by commas up to the closing brace. */
  function ReadMembers(s: string): Option<(seq<(string, string)>, string)>
    decreases |s|
  {
    match ReadMember(s)
    case None => None
    case Some((m, t)) =>
      if t != "" && t[0] == '}' then Some(([m], t[1..]))
      else if t != "" && t[0] == ',' && |t| <= |s| then
        match ReadMembers(t[1..])
        case None => None
        case Some((ms, rest)) => Some(([m] + ms, rest))
      else None
  }

  function ReadObject(s: string): Option<(seq<(string, string)>, string)> {
    if |s| < 2 || s[0] != '{' then None
    else if s[1] == '}' then Some(([], s[2..]))
    else ReadMembers(s[1..])
  }

  lemma MemberInverse(m: (string, string), rest: string)
    ensures ReadMember(MemberText(m) + rest) == Some((m, rest))
  {
    var t := [':'] + (StringText(m.1) + rest);
    assert MemberText(m) + rest == StringText(m.0) + t;
    StringInverse(m.0, t);
    assert t[1..] == StringText(m.1) + rest;
    StringInverse(m.1, rest);
  }

  lemma LastMember(m: (string, string), rest: string)
    ensures ReadMembers(MemberText(m) + (['}'] + rest)) == Some(([m], rest))
  {
    var close := ['}'] + rest;
    MemberInverse(m, close);
    ConcatParts(['}'], rest);
  }

  lemma NextMember(m: (string, string), more: string, ms: seq<(string, string)>, rest: string)
    requires ReadMembers(more) == Some((ms, rest))
    ensures ReadMembers(MemberText(m) + ([','] + more)) == Some(([m] + ms, rest))
  {
    var t := [','] + more;
    MemberInverse(m, t);
    ConcatParts([','], more);
  }

  lemma FirstMemberText(members: seq<(string, string)>, close: string)
    requires |members| > 1
    ensures MembersText(members) + close == MemberText(members[0]) + ([','] + (MembersText(members[1..]) + close))
  {
    ConcatAssoc(MemberText(members[0]) + [','], MembersText(members[1..]), close);
    ConcatAssoc(MemberText(members[0]), [','], MembersText(members[1..]) + close);
  }

  lemma MoreMembers(members: seq<(string, string)>, text: string, more: string, rest: string)
    requires members != [] && text == MemberText(members[0]) + ([','] + more)
    requires ReadMembers(more) == Some((members[1..], rest))
    ensures ReadMembers(text) == Some((members, rest))
  {
    NextMember(members[0], more, members[1..], rest);
    assert members == [members[0]] + members[1..];
  }

  lemma {:induction false} MembersInverse(members: seq<(string, string)>, rest: string)
    requires members != []
    ensures ReadMembers(MembersText(members) + (['}'] + rest)) == Some((members, rest))
  {
    var close := ['}'] + rest;
    if |members| == 1 {
      LastMember(members[0], rest);
      assert members == [members[0]];
    } else {
      MembersInverse(members[1..], rest);
      FirstMemberText(members, close);
      MoreMembers(members, MembersText(members) + close, MembersText(members[1..]) + close, rest);
    }
  }

  lemma MembersOpen(members: seq<(string, string)>)
    requires members != []
    ensures MembersText(members) != "" && MembersText(members)[0] == '\"'
  {
    assert MemberText(members[0])[0] == '\"';
  }

  lemma OpenedObject(body: string, members: seq<(string, string)>, rest: string)
    requires body != "" && body[0] != '}' && ReadMembers(body) == Some((members, rest))
    ensures ReadObject(['{'] + body) == Some((members, rest))
  {
    ConcatParts(['{'], body);
  }

  lemma ObjectInverse(members: seq<(string, string)>, rest: string)
    ensures ReadObject(ObjectText(members) + rest) == Some((members, rest))
  {
    if members == [] {
      var s := ObjectText(members) + rest;
      assert s[0] == '{' && s[1] == '}' && s[2..] == rest;
    } else {
      var body := MembersText(members) + (['}'] + rest);
      ConcatAssoc(['{'] + MembersText(members), ['}'], rest);
      ConcatAssoc(['{'], MembersText(members), ['}'] + rest);
      MembersOpen(members);
      MembersInverse(members, rest);
      OpenedObject(body, members, rest);
    }
  }

  lemma ObjectsInverse(objects: seq<seq<(string, string)>>)
    ensures ReadArray(ReadObject, ArrayText(ObjectText, objects)) == Some(objects)
  {
    forall members, rest
      ensures ReadObject(ObjectText(members) + rest) == Some((members, rest))
    {
      ObjectInverse(members, rest);
    }
    ArrayInverse(ObjectText, ReadObject, objects);
  }

  /** The escapes as Go writes them, in lowercase hexadecimal. */
  lemma EscapesWrittenOut()
    ensures Escape('<') == "\\u003c" && Escape('>') == "\\u003e" && Escape('&') == "\\u0026"
    ensures Escape(0x2028 as char) == "\\u2028" && Escape(0x2029 as char) == "\\u2029"
    ensures Escape(0x1F as char) == "\\u001f" && Escape('\n') == "\\n" && Escape('\"') == "\\\""
  {
  }
}
