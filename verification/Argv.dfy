/** filterKnownFlags (cmd/vgi-x509-worker/main.go) and the parser it feeds, Go's flag.Parse. */
module Argv {
  import opened GoStrings

  /** The flags of a command line. accepts(name, value) is whether the flag's Value.Set takes the text. */
  datatype FlagSet = FlagSet(defined: set<string>, boolean: set<string>, accepts: (string, string) -> bool)

  datatype ParseError =
    | BadSyntax(token: string)
    | HelpRequested
    | NotDefined(name: string)
    | InvalidValue(name: string, value: string)
    | NeedsArgument(name: string)

  datatype Assignment = Assignment(name: string, value: string)

  /** What parsing did: the values set before it ended, then either the arguments left over or the
      error that stopped it. */
  datatype Outcome = Outcome(values: seq<Assignment>, rest: Result<seq<string>, ParseError>)

  // The filter.

  /** The flag name of a token: dashes stripped, inline value cut off. */
  function NameOf(token: string): string {
    BeforeEquals(TrimLeft(token, {'-'}))
  }

  function BeforeEquals(s: string): (r: string)
    ensures r <= s && '=' !in r
  {
    if s == "" || s[0] == '=' then "" else [s[0]] + BeforeEquals(s[1..])
  }

  /** A token this binary keeps when it stands where a flag is expected. */
  predicate Keeps(defined: set<string>, token: string) {
    "-" <= token && NameOf(token) in defined
  }

  /** A kept token that takes the next token as its value. */
  predicate Waits(defined: set<string>, valueFlags: set<string>, token: string) {
    Keeps(defined, token) && NameOf(token) in valueFlags && '=' !in token
  }

  /** The tokens that filterKnownFlags returns. */
  function Filter(defined: set<string>, valueFlags: set<string>, args: seq<string>): (out: seq<string>)
  {
    if args == [] then []
    else if !Keeps(defined, args[0]) then Filter(defined, valueFlags, args[1..])
    else if Waits(defined, valueFlags, args[0]) && |args| > 1 then
      args[..2] + Filter(defined, valueFlags, args[2..])
    else [args[0]] + Filter(defined, valueFlags, args[1..])
  }

  method FilterKnownFlags(defined: set<string>, valueFlags: set<string>, args: seq<string>) returns (out: seq<string>)
    ensures out == Filter(defined, valueFlags, args)
  {
    out := [];
    var i := 0;
    while i < |args|
      invariant 0 <= i <= |args|
      invariant Filter(defined, valueFlags, args) == out + Filter(defined, valueFlags, args[i..])
    {
      var a := args[i];
      InlineValueAfterDashes(a);
      FilterAt(defined, valueFlags, args, i);
      if !("-" <= a) {
        i := i + 1;
        continue;
      }
      var name := TrimLeft(a, {'-'});
      var hasInlineValue := '=' in name;
      name := BeforeEquals(name);
      if name !in defined {
        i := i + 1;
        continue;
      }
      Appended(out, a, Filter(defined, valueFlags, args[i + 1..]));
      out := out + [a];
      if name in valueFlags && !hasInlineValue && i + 1 < |args| {
        i := i + 1;
        AppendedTwo(out[..|out| - 1], a, args[i], Filter(defined, valueFlags, args[i + 1..]));
        out := out + [args[i]];
      }
      i := i + 1;
    }
    assert args[|args|..] == [];
  }

  lemma Appended<T>(out: seq<T>, a: T, rest: seq<T>)
    ensures out + ([a] + rest) == (out + [a]) + rest
  {
  }

  lemma AppendedTwo<T>(out: seq<T>, a: T, b: T, rest: seq<T>)
    ensures out + ([a] + [b] + rest) == (out + [a] + [b]) + rest
  {
  }

  /** One round of the loop: what the filter makes of the arguments from i on. */
  lemma FilterAt(defined: set<string>, valueFlags: set<string>, args: seq<string>, i: nat)
    requires i < |args|
    ensures Filter(defined, valueFlags, args[i..]) ==
            if !Keeps(defined, args[i]) then Filter(defined, valueFlags, args[i + 1..])
            else if Waits(defined, valueFlags, args[i]) && i + 1 < |args| then
              [args[i]] + [args[i + 1]] + Filter(defined, valueFlags, args[i + 2..])
            else [args[i]] + Filter(defined, valueFlags, args[i + 1..])
  {
    var s := args[i..];
    assert s[1..] == args[i + 1..];
    if |s| > 1 {
      assert s[..2] == [args[i]] + [args[i + 1]] && s[2..] == args[i + 2..];
    }
  }

  lemma {:induction false} InlineValueAfterDashes(token: string)
    ensures '=' in TrimLeft(token, {'-'}) <==> '=' in token
  {
    if token != "" && token[0] == '-' {
      InlineValueAfterDashes(token[1..]);
      assert token == [token[0]] + token[1..];
    }
  }

  // Laws of the filter.

  /** After args, the filter has just kept a flag that waits for its value. */
  predicate EndsWaiting(defined: set<string>, valueFlags: set<string>, args: seq<string>) {
    if args == [] then false
    else if !Waits(defined, valueFlags, args[0]) then EndsWaiting(defined, valueFlags, args[1..])
    else |args| == 1 || EndsWaiting(defined, valueFlags, args[2..])
  }

  lemma FilterPair(defined: set<string>, valueFlags: set<string>, s: seq<string>, rest: seq<string>)
    requires |s| > 1 && Waits(defined, valueFlags, s[0]) && rest == s[2..]
    ensures Filter(defined, valueFlags, s) == [s[0], s[1]] + Filter(defined, valueFlags, rest)
  {
    assert s[..2] == [s[0], s[1]];
  }

  lemma FilterOne(defined: set<string>, valueFlags: set<string>, s: seq<string>, rest: seq<string>)
    requires s != [] && !Waits(defined, valueFlags, s[0]) && rest == s[1..]
    ensures Filter(defined, valueFlags, s)
            == (if Keeps(defined, s[0]) then [s[0]] else []) + Filter(defined, valueFlags, rest)
  {
  }

  /** What the filter makes of b after having filtered a. */
  function FilterAfter(defined: set<string>, valueFlags: set<string>, a: seq<string>, b: seq<string>): seq<string> {
    if EndsWaiting(defined, valueFlags, a) && b != [] then [b[0]] + Filter(defined, valueFlags, b[1..])
    else Filter(defined, valueFlags, b)
  }

  lemma FilterConcatOne(defined: set<string>, valueFlags: set<string>, a: seq<string>, b: seq<string>)
    requires a != [] && !Waits(defined, valueFlags, a[0])
    requires Filter(defined, valueFlags, a[1..] + b)
             == Filter(defined, valueFlags, a[1..]) + FilterAfter(defined, valueFlags, a[1..], b)
    ensures Filter(defined, valueFlags, a + b)
            == Filter(defined, valueFlags, a) + FilterAfter(defined, valueFlags, a, b)
  {
    DropConcat(a, b, 1);
    FilterOne(defined, valueFlags, a + b, a[1..] + b);
    FilterOne(defined, valueFlags, a, a[1..]);
    assert FilterAfter(defined, valueFlags, a, b) == FilterAfter(defined, valueFlags, a[1..], b);
    var head := if Keeps(defined, a[0]) then [a[0]] else [];
    ConcatAssoc(head, Filter(defined, valueFlags, a[1..]), FilterAfter(defined, valueFlags, a, b));
  }

  lemma FilterConcatPair(defined: set<string>, valueFlags: set<string>, a: seq<string>, b: seq<string>)
    requires |a| > 1 && Waits(defined, valueFlags, a[0])
    requires Filter(defined, valueFlags, a[2..] + b)
             == Filter(defined, valueFlags, a[2..]) + FilterAfter(defined, valueFlags, a[2..], b)
    ensures Filter(defined, valueFlags, a + b)
            == Filter(defined, valueFlags, a) + FilterAfter(defined, valueFlags, a, b)
  {
    DropConcat(a, b, 2);
    FilterPair(defined, valueFlags, a + b, a[2..] + b);
    FilterPair(defined, valueFlags, a, a[2..]);
    ConcatAssoc([a[0], a[1]], Filter(defined, valueFlags, a[2..]), FilterAfter(defined, valueFlags, a, b));
  }

  lemma FilterConcatLast(defined: set<string>, valueFlags: set<string>, a: seq<string>, b: seq<string>)
    requires |a| == 1 && Waits(defined, valueFlags, a[0])
    ensures Filter(defined, valueFlags, a + b)
            == Filter(defined, valueFlags, a) + FilterAfter(defined, valueFlags, a, b)
  {
    if b == [] {
      assert a + b == a;
    } else {
      FilterPair(defined, valueFlags, a + b, b[1..]);
    }
  }

  /** Filtering distributes over concatenation unless the left part ends in a waiting flag; then the
      first token of the right part is its value, and is kept whatever it is. */
  lemma {:induction false} FilterConcat(defined: set<string>, valueFlags: set<string>, a: seq<string>, b: seq<string>)
    ensures Filter(defined, valueFlags, a + b)
            == Filter(defined, valueFlags, a) + FilterAfter(defined, valueFlags, a, b)
  {
    if a == [] {
      assert a + b == b;
    } else if !Waits(defined, valueFlags, a[0]) {
      FilterConcat(defined, valueFlags, a[1..], b);
      FilterConcatOne(defined, valueFlags, a, b);
    } else if |a| > 1 {
      FilterConcat(defined, valueFlags, a[2..], b);
      FilterConcatPair(defined, valueFlags, a, b);
    } else {
      FilterConcatLast(defined, valueFlags, a, b);
    }
  }

  /** A launcher may insert any token the binary does not define, wherever no flag waits. */
  lemma InsertedTokenDropped(defined: set<string>, valueFlags: set<string>, a: seq<string>, token: string,
                             b: seq<string>)
    requires !EndsWaiting(defined, valueFlags, a) && !Keeps(defined, token)
    ensures Filter(defined, valueFlags, a + [token] + b) == Filter(defined, valueFlags, a + b)
  {
    FilterConcat(defined, valueFlags, a, [token] + b);
    FilterConcat(defined, valueFlags, a, b);
    assert a + [token] + b == a + ([token] + b);
    FilterOne(defined, valueFlags, [token] + b, b);
  }

  lemma {:induction false} FilterIdempotent(defined: set<string>, valueFlags: set<string>, args: seq<string>)
    ensures Filter(defined, valueFlags, Filter(defined, valueFlags, args)) == Filter(defined, valueFlags, args)
  {
    if args != [] {
      var out := Filter(defined, valueFlags, args);
      if !Keeps(defined, args[0]) {
        FilterIdempotent(defined, valueFlags, args[1..]);
      } else if Waits(defined, valueFlags, args[0]) && |args| > 1 {
        FilterIdempotent(defined, valueFlags, args[2..]);
        assert out[0] == args[0] && out[..2] == args[..2] && out[2..] == Filter(defined, valueFlags, args[2..]);
      } else {
        FilterIdempotent(defined, valueFlags, args[1..]);
        assert out[0] == args[0] && out[1..] == Filter(defined, valueFlags, args[1..]);
      }
    }
  }

  /** sub can be obtained from s by leaving tokens out. */
  ghost predicate IsSubsequence(sub: seq<string>, s: seq<string>) {
    sub == [] || (s != [] && ((sub[0] == s[0] && IsSubsequence(sub[1..], s[1..])) || IsSubsequence(sub, s[1..])))
  }

  lemma {:induction false} FilterIsSubsequence(defined: set<string>, valueFlags: set<string>, args: seq<string>)
    ensures IsSubsequence(Filter(defined, valueFlags, args), args)
  {
    if args != [] {
      var out := Filter(defined, valueFlags, args);
      if !Keeps(defined, args[0]) {
        FilterIsSubsequence(defined, valueFlags, args[1..]);
      } else if Waits(defined, valueFlags, args[0]) && |args| > 1 {
        FilterIsSubsequence(defined, valueFlags, args[2..]);
        assert out[1..][0] == args[1] && out[1..][1..] == Filter(defined, valueFlags, args[2..]);
        assert args[1..][1..] == args[2..];
        assert IsSubsequence(out[1..], args[1..]);
      } else {
        FilterIsSubsequence(defined, valueFlags, args[1..]);
        assert out[1..] == Filter(defined, valueFlags, args[1..]);
      }
    }
  }

  // The parser behind the filter.

  /** A flag name: flag.Var refuses a leading dash and an equals sign. The empty name is left out
      too: no command line can set it, since -- ends the flags, and no flag of the worker has it. */
  predicate IsFlagName(name: string) {
    name != "" && name[0] != '-' && '=' !in name
  }

  /** Flags as package flag registers them; a boolean flag takes the text true. */
  ghost predicate IsFlagSet(fs: FlagSet) {
    && fs.boolean <= fs.defined
    && (forall name <- fs.defined :: IsFlagName(name))
    && (forall name <- fs.boolean :: fs.accepts(name, "true"))
  }

  function Prepend(a: Assignment, o: Outcome): Outcome {
    Outcome([a] + o.values, o.rest)
  }

  /** flag.FlagSet.Parse: flags until the first token that is none; -- ends them too. */
  function Parse(fs: FlagSet, args: seq<string>): Outcome
    decreases |args|
  {
    if args == [] || |args[0]| < 2 || args[0][0] != '-' then Outcome([], Ok(args))
    else if args[0] == "--" then Outcome([], Ok(args[1..]))
    else
      var text := args[0][if args[0][1] == '-' then 2 else 1..];
      if text[0] == '-' || text[0] == '=' then Outcome([], Err(BadSyntax(args[0])))
      else if BeforeEquals(text) !in fs.defined then
        Outcome([], Err(if BeforeEquals(text) in {"help", "h"} then HelpRequested else NotDefined(BeforeEquals(text))))
      else match ReadFlag(fs, text, args[1..])
        case Err(e) => Outcome([], Err(e))
        case Ok((a, n)) => Prepend(a, Parse(fs, args[1 + n..]))
  }

  /** The value of a defined flag, and how many of the following tokens it uses up. */
  function ReadFlag(fs: FlagSet, text: string, next: seq<string>): (r: Result<(Assignment, nat), ParseError>)
    ensures r.Ok? ==> r.value.1 <= |next|
  {
    var name := BeforeEquals(text);
    if '=' in text then
      EqualsEndsName(text);
      CheckValue(fs, name, text[|name| + 1..], 0)
    else if name in fs.boolean then CheckValue(fs, name, "true", 0)
    else if next == [] then Err(NeedsArgument(name))
    else CheckValue(fs, name, next[0], 1)
  }

  function CheckValue(fs: FlagSet, name: string, value: string, used: nat): Result<(Assignment, nat), ParseError> {
    if fs.accepts(name, value) then Ok((Assignment(name, value), used)) else Err(InvalidValue(name, value))
  }

  lemma {:induction false} EqualsEndsName(s: string)
    requires '=' in s
    ensures |BeforeEquals(s)| < |s| && s[|BeforeEquals(s)|] == '='
  {
    if s[0] != '=' {
      EqualsEndsName(s[1..]);
    }
  }

  /** The reading the launcher contract asks for, on the raw argv: skip every token that is no flag
      of ours, take any number of dashes, give each value flag its inline value or its next token. */
  function Tolerant(fs: FlagSet, args: seq<string>): Outcome
    decreases |args|
  {
    if args == [] then Outcome([], Ok([]))
    else if !Keeps(fs.defined, args[0]) then Tolerant(fs, args[1..])
    else match ReadFlag(fs, TrimLeft(args[0], {'-'}), args[1..])
      case Err(e) => Outcome([], Err(e))
      case Ok((a, n)) => Prepend(a, Tolerant(fs, args[1 + n..]))
  }

  predicate TripleDash(token: string) {
    |token| >= 3 && token[0] == token[1] == token[2] == '-'
  }

  /** A flag of ours is written with three or more dashes, and no flag before it is in error. */
  predicate Overdashed(fs: FlagSet, args: seq<string>)
    decreases |args|
  {
    if args == [] then false
    else if !Keeps(fs.defined, args[0]) then Overdashed(fs, args[1..])
    else if TripleDash(args[0]) then true
    else match ReadFlag(fs, TrimLeft(args[0], {'-'}), args[1..])
      case Err(_) => false
      case Ok((_, n)) => Overdashed(fs, args[1 + n..])
  }

  /** valueFlags lists exactly the defined flags that are not boolean. */
  ghost predicate TablesAgree(fs: FlagSet, valueFlags: set<string>) {
    forall name <- fs.defined :: name in valueFlags <==> name !in fs.boolean
  }

  /** Tolerant reading leaves no token over and never complains about syntax. */
  lemma {:induction false} TolerantOutcome(fs: FlagSet, args: seq<string>)
    ensures match Tolerant(fs, args).rest case Ok(left) => left == [] case Err(e) => e.InvalidValue? || e.NeedsArgument?
    decreases |args|
  {
    if args != [] {
      if !Keeps(fs.defined, args[0]) {
        TolerantOutcome(fs, args[1..]);
      } else {
        match ReadFlag(fs, TrimLeft(args[0], {'-'}), args[1..])
        case Err(_) =>
        case Ok((_, n)) => TolerantOutcome(fs, args[1 + n..]);
      }
    }
  }

  lemma DashesStripped(token: string)
    requires "-" <= token && !(TripleDash(token)) && TrimLeft(token, {'-'}) != ""
    ensures |token| > 1
    ensures var k := if token[1] == '-' then 2 else 1;
            |token| > k && token[k..] == TrimLeft(token, {'-'}) && token[k] != '-'
  {
    TrimStep(token);
    TrimStep(token[1..]);
    if token[1..] != "" && token[1] == '-' {
      TrimStep(token[2..]);
      assert token[1..][1..] == token[2..];
    }
  }

  lemma TrimStep(s: string)
    ensures TrimLeft(s, {'-'}) == if s != "" && s[0] == '-' then TrimLeft(s[1..], {'-'}) else s
  {
  }

  lemma ParseFlag(fs: FlagSet, args: seq<string>, text: string)
    requires args != [] && |args[0]| >= 2 && args[0][0] == '-' && text != ""
    requires text == args[0][if args[0][1] == '-' then 2 else 1..]
    requires text[0] != '-' && text[0] != '=' && BeforeEquals(text) in fs.defined
    ensures Parse(fs, args) == match ReadFlag(fs, text, args[1..])
      case Err(e) => Outcome([], Err(e))
      case Ok((a, n)) => Prepend(a, Parse(fs, args[1 + n..]))
  {
  }

  /** One or two dashes: the parser sees the name and the inline value that the filter saw. */
  lemma ParseKept(fs: FlagSet, args: seq<string>)
    requires IsFlagSet(fs) && args != [] && Keeps(fs.defined, args[0]) && !(TripleDash(args[0]))
    ensures Parse(fs, args) == match ReadFlag(fs, TrimLeft(args[0], {'-'}), args[1..])
      case Err(e) => Outcome([], Err(e))
      case Ok((a, n)) => Prepend(a, Parse(fs, args[1 + n..]))
  {
    KeptText(fs, args[0]);
    ParseFlag(fs, args, TrimLeft(args[0], {'-'}));
  }

  lemma KeptText(fs: FlagSet, token: string)
    requires IsFlagSet(fs) && Keeps(fs.defined, token) && !TripleDash(token)
    ensures var text := TrimLeft(token, {'-'});
      && |token| >= 2 && token[0] == '-' && text != "" && text[0] != '-' && text[0] != '='
      && text == token[if token[1] == '-' then 2 else 1..] && BeforeEquals(text) in fs.defined
  {
    var text := TrimLeft(token, {'-'});
    assert IsFlagName(BeforeEquals(text));
    DashesStripped(token);
  }

  lemma ParseOverdashed(fs: FlagSet, args: seq<string>)
    requires args != [] && TripleDash(args[0])
    ensures Parse(fs, args) == Outcome([], Err(BadSyntax(args[0])))
  {
    assert args[0][0] == args[0][1] == args[0][2] == '-';
  }

  /** The value of a flag depends on no more than the next token. */
  lemma SameReading(fs: FlagSet, text: string, s: seq<string>, t: seq<string>)
    requires (s != [] && t != [] && s[0] == t[0]) || (s == [] && t == []) || '=' in text
             || BeforeEquals(text) in fs.boolean
    ensures ReadFlag(fs, text, s) == ReadFlag(fs, text, t)
  {
  }

  lemma ReadingUses(fs: FlagSet, text: string, next: seq<string>)
    ensures match ReadFlag(fs, text, next)
      case Ok((_, n)) => n == if '=' in text || BeforeEquals(text) in fs.boolean then 0 else 1
      case Err(e) => e.InvalidValue? || e.NeedsArgument?
  {
  }

  /** A kept flag is read alike in the raw and the filtered argv, and the same tokens follow it. */
  lemma KeptReadAlike(fs: FlagSet, valueFlags: set<string>, args: seq<string>)
    requires IsFlagSet(fs) && TablesAgree(fs, valueFlags)
    requires args != [] && Keeps(fs.defined, args[0])
    ensures var out := Filter(fs.defined, valueFlags, args);
            var text := TrimLeft(args[0], {'-'});
            && out != [] && out[0] == args[0]
            && ReadFlag(fs, text, out[1..]) == ReadFlag(fs, text, args[1..])
            && (ReadFlag(fs, text, args[1..]).Ok? ==> var n := ReadFlag(fs, text, args[1..]).value.1;
                out[1 + n..] == Filter(fs.defined, valueFlags, args[1 + n..]))
  {
    var out := Filter(fs.defined, valueFlags, args);
    var text := TrimLeft(args[0], {'-'});
    InlineValueAfterDashes(args[0]);
    ReadingUses(fs, text, args[1..]);
    if Waits(fs.defined, valueFlags, args[0]) && |args| > 1 {
      FilterPair(fs.defined, valueFlags, args, args[2..]);
      SameReading(fs, text, out[1..], args[1..]);
    } else {
      assert out == [args[0]] + Filter(fs.defined, valueFlags, args[1..]);
      SameReading(fs, text, out[1..], args[1..]);
    }
  }

  lemma PrependInjective(a: Assignment, o: Outcome, p: Outcome)
    ensures Prepend(a, o) == Prepend(a, p) <==> o == p
  {
    assert Prepend(a, o).values[1..] == o.values;
    assert Prepend(a, p).values[1..] == p.values;
  }

  lemma OverdashedDiffers(fs: FlagSet, valueFlags: set<string>, args: seq<string>)
    requires IsFlagSet(fs) && TablesAgree(fs, valueFlags)
    requires args != [] && Keeps(fs.defined, args[0]) && TripleDash(args[0])
    ensures Parse(fs, Filter(fs.defined, valueFlags, args)) != Tolerant(fs, args)
  {
    KeptReadAlike(fs, valueFlags, args);
    ParseOverdashed(fs, Filter(fs.defined, valueFlags, args));
    TolerantOutcome(fs, args);
  }

  /** What the parser makes of a kept flag behind the filter. */
  lemma FilteredParse(fs: FlagSet, valueFlags: set<string>, args: seq<string>)
    requires IsFlagSet(fs) && TablesAgree(fs, valueFlags)
    requires args != [] && Keeps(fs.defined, args[0]) && !TripleDash(args[0])
    ensures Parse(fs, Filter(fs.defined, valueFlags, args)) == match ReadFlag(fs, TrimLeft(args[0], {'-'}), args[1..])
      case Err(e) => Outcome([], Err(e))
      case Ok((a, n)) => Prepend(a, Parse(fs, Filter(fs.defined, valueFlags, args[1 + n..])))
  {
    var out := Filter(fs.defined, valueFlags, args);
    KeptReadAlike(fs, valueFlags, args);
    ParseKept(fs, out);
    match ReadFlag(fs, TrimLeft(args[0], {'-'}), args[1..])
    case Err(_) =>
    case Ok((a, n)) => assert out[1 + n..] == Filter(fs.defined, valueFlags, args[1 + n..]);
  }

  /** One kept flag: both sides fail alike, or agree exactly if they agree on what follows. */
  lemma KeptStep(fs: FlagSet, valueFlags: set<string>, args: seq<string>)
    requires IsFlagSet(fs) && TablesAgree(fs, valueFlags)
    requires args != [] && Keeps(fs.defined, args[0]) && !TripleDash(args[0])
    ensures var agree := Parse(fs, Filter(fs.defined, valueFlags, args)) == Tolerant(fs, args);
      match ReadFlag(fs, TrimLeft(args[0], {'-'}), args[1..])
      case Err(_) => agree
      case Ok((_, n)) =>
        agree <==> Parse(fs, Filter(fs.defined, valueFlags, args[1 + n..])) == Tolerant(fs, args[1 + n..])
  {
    FilteredParse(fs, valueFlags, args);
    match ReadFlag(fs, TrimLeft(args[0], {'-'}), args[1..])
    case Err(_) =>
    case Ok((a, n)) =>
      PrependInjective(a, Parse(fs, Filter(fs.defined, valueFlags, args[1 + n..])), Tolerant(fs, args[1 + n..]));
  }

  /** With matching tables, parsing the filtered argv is the tolerant reading of the raw argv -
      values, leftovers and errors alike - exactly when no flag of ours is reached that is written
      with three or more dashes: those the filter keeps and the parser refuses. */
  lemma {:induction false} FilterThenParse(fs: FlagSet, valueFlags: set<string>, args: seq<string>)
    requires IsFlagSet(fs) && TablesAgree(fs, valueFlags)
    ensures Parse(fs, Filter(fs.defined, valueFlags, args)) == Tolerant(fs, args) <==> !Overdashed(fs, args)
    decreases |args|
  {
    if args == [] {
    } else if !Keeps(fs.defined, args[0]) {
      FilterThenParse(fs, valueFlags, args[1..]);
    } else if TripleDash(args[0]) {
      OverdashedDiffers(fs, valueFlags, args);
    } else {
      KeptStep(fs, valueFlags, args);
      match ReadFlag(fs, TrimLeft(args[0], {'-'}), args[1..])
      case Err(_) =>
      case Ok((_, n)) => FilterThenParse(fs, valueFlags, args[1 + n..]);
    }
  }

  /** A boolean flag listed as a value flag swallows a foreign token, which ends the parse. */
  lemma BooleanListed(fs: FlagSet, valueFlags: set<string>, name: string)
    requires IsFlagSet(fs) && name in fs.boolean && name in valueFlags
    ensures var args := ["-" + name, "x"];
            !Overdashed(fs, args) && Parse(fs, Filter(fs.defined, valueFlags, args)).rest == Ok(["x"])
  {
    var args := ["-" + name, "x"];
    PlainToken(name);
    FilterPair(fs.defined, valueFlags, args, []);
    assert Filter(fs.defined, valueFlags, args) == args;
    ParseKept(fs, args);
    assert args[1..] == ["x"];
    assert Parse(fs, ["x"]) == Outcome([], Ok(["x"]));
    assert Overdashed(fs, args) == Overdashed(fs, ["x"]);
    ForeignToken(fs);
  }

  lemma ForeignToken(fs: FlagSet)
    ensures !Keeps(fs.defined, "x") && !Overdashed(fs, ["x"])
  {
    assert "x"[0] != '-';
    assert ["x"][1..] == [];
  }

  /** A value flag that is not listed loses its value to the filter. */
  lemma ValueUnlisted(fs: FlagSet, valueFlags: set<string>, name: string)
    requires IsFlagSet(fs) && name in fs.defined && name !in fs.boolean && name !in valueFlags
    ensures var args := ["-" + name, "x"];
            !Overdashed(fs, args) && Parse(fs, Filter(fs.defined, valueFlags, args)).rest == Err(NeedsArgument(name))
            && Tolerant(fs, args).rest != Err(NeedsArgument(name))
  {
    var args := ["-" + name, "x"];
    PlainToken(name);
    ForeignToken(fs);
    assert args[1..] == ["x"] && args[2..] == [];
    FilterOne(fs.defined, valueFlags, args, ["x"]);
    FilterOne(fs.defined, valueFlags, ["x"], []);
    var out := Filter(fs.defined, valueFlags, args);
    assert out == [args[0]];
    ParseKept(fs, out);
  }

  /** The agreement needs the tables to match: otherwise a two-token argv already tells them apart. */
  lemma MismatchShows(fs: FlagSet, valueFlags: set<string>, name: string)
    requires IsFlagSet(fs) && name in fs.defined && !(name in valueFlags <==> name !in fs.boolean)
    ensures var args := ["-" + name, "x"];
            !Overdashed(fs, args) && Parse(fs, Filter(fs.defined, valueFlags, args)) != Tolerant(fs, args)
  {
    TolerantOutcome(fs, ["-" + name, "x"]);
    if name in fs.boolean {
      BooleanListed(fs, valueFlags, name);
    } else {
      ValueUnlisted(fs, valueFlags, name);
    }
  }

  lemma {:induction false} PlainName(name: string)
    requires '=' !in name
    ensures BeforeEquals(name) == name
  {
    if name != "" {
      PlainName(name[1..]);
    }
  }

  lemma PlainToken(name: string)
    requires IsFlagName(name)
    ensures var token := "-" + name;
            && "-" <= token && TrimLeft(token, {'-'}) == name && NameOf(token) == name
            && !(TripleDash(token)) && '=' !in token
  {
    var token := "-" + name;
    assert token[1..] == name;
    PlainName(name);
    assert token[1] != '-';
  }

  /** The tables match exactly when filter and parser stay in step on every argv whose flags have
      one or two dashes. */
  lemma InStepIffTablesAgree(fs: FlagSet, valueFlags: set<string>)
    requires IsFlagSet(fs)
    ensures TablesAgree(fs, valueFlags) <==>
            forall args :: !Overdashed(fs, args) ==>
              Parse(fs, Filter(fs.defined, valueFlags, args)) == Tolerant(fs, args)
  {
    if TablesAgree(fs, valueFlags) {
      forall args | !Overdashed(fs, args)
        ensures Parse(fs, Filter(fs.defined, valueFlags, args)) == Tolerant(fs, args)
      {
        FilterThenParse(fs, valueFlags, args);
      }
    } else {
      var name :| name in fs.defined && !(name in valueFlags <==> name !in fs.boolean);
      MismatchShows(fs, valueFlags, name);
    }
  }

  // The filter against flag.Parse alone.

  /** A flag that the parser reads is one the filter keeps. */
  lemma ReadIsKept(fs: FlagSet, token: string)
    requires |token| >= 2 && token[0] == '-'
    requires var text := token[if token[1] == '-' then 2 else 1..];
      text != "" && text[0] != '-' && BeforeEquals(text) in fs.defined
    ensures Keeps(fs.defined, token) && !TripleDash(token)
  {
    TrimStep(token);
    TrimStep(token[1..]);
    if token[1] == '-' {
      TrimStep(token[2..]);
      assert token[1..][1..] == token[2..];
    }
  }

  /** An argv that flag.Parse reads to the end means the same after filtering: the filter takes nothing
      away that the parser would have understood. */
  lemma {:induction false} ReadableUnchanged(fs: FlagSet, valueFlags: set<string>, args: seq<string>)
    requires IsFlagSet(fs) && TablesAgree(fs, valueFlags)
    requires Parse(fs, args).rest == Ok([])
    ensures Parse(fs, Filter(fs.defined, valueFlags, args)) == Parse(fs, args)
    decreases |args|
  {
    if args == [] {
    } else if args[0] == "--" {
      DoubleDash(fs, valueFlags, args);
    } else {
      var n := ReadableStep(fs, valueFlags, args);
      ReadableUnchanged(fs, valueFlags, args[1 + n..]);
    }
  }

  /** The first flag of a readable argv is read alike before and after filtering. */
  lemma ReadableStep(fs: FlagSet, valueFlags: set<string>, args: seq<string>) returns (n: nat)
    requires IsFlagSet(fs) && TablesAgree(fs, valueFlags)
    requires args != [] && args[0] != "--" && Parse(fs, args).rest == Ok([])
    ensures 1 + n <= |args| && Parse(fs, args[1 + n..]).rest == Ok([])
    ensures Parse(fs, Filter(fs.defined, valueFlags, args[1 + n..])) == Parse(fs, args[1 + n..]) ==>
              Parse(fs, Filter(fs.defined, valueFlags, args)) == Parse(fs, args)
  {
    ReadIsKept(fs, args[0]);
    ParseKept(fs, args);
    FilteredParse(fs, valueFlags, args);
    n := ReadFlag(fs, TrimLeft(args[0], {'-'}), args[1..]).value.1;
  }

  lemma DoubleDash(fs: FlagSet, valueFlags: set<string>, args: seq<string>)
    requires IsFlagSet(fs) && args != [] && args[0] == "--" && Parse(fs, args).rest == Ok([])
    ensures Parse(fs, Filter(fs.defined, valueFlags, args)) == Parse(fs, args) == Outcome([], Ok([]))
  {
    assert args[1..] == [];
    TrimStep("--");
    TrimStep("-");
    TrimStep("");
    assert "--"[1..] == "-" && "-"[1..] == "";
    FilterOne(fs.defined, valueFlags, args, []);
  }

  // What a command line means.

  /** dash dash... name, alone or with =value behind it. */
  predicate Spells(token: string, k: int, name: string) {
    && 1 <= k <= |token| && (forall i | 0 <= i < k :: token[i] == '-')
    && (token[k..] == name || name + "=" <= token[k..])
  }

  /** The token is no flag of ours, whatever its dashes. */
  ghost predicate IsForeign(defined: set<string>, token: string) {
    forall name <- defined, k: int :: !Spells(token, k, name)
  }

  lemma {:induction false} DashesOf(token: string)
    ensures var text := TrimLeft(token, {'-'}); var k := |token| - |text|;
      0 <= k <= |token| && token[k..] == text && forall i | 0 <= i < k :: token[i] == '-'
  {
    TrimLeftIsSuffix(token, {'-'});
    TrimLeftRemoves(token, {'-'});
  }

  lemma {:induction false} NameEnds(text: string)
    ensures var name := BeforeEquals(text); text == name || name + "=" <= text
  {
    if text != "" && text[0] != '=' {
      NameEnds(text[1..]);
      assert text == [text[0]] + text[1..];
    }
  }

  lemma {:induction false} NameBefore(name: string, more: string)
    requires '=' !in name
    ensures BeforeEquals(name) == name && BeforeEquals(name + "=" + more) == name
  {
    var s := name + "=" + more;
    if name == "" {
      assert s[0] == '=';
    } else {
      assert s[1..] == name[1..] + "=" + more;
      NameBefore(name[1..], more);
      assert name == [name[0]] + name[1..];
    }
  }

  lemma SpelledName(token: string, k: int, name: string)
    requires IsFlagName(name) && Spells(token, k, name)
    ensures "-" <= token && TrimLeft(token, {'-'}) == token[k..] && NameOf(token) == name
  {
    var text := token[k..];
    assert token == token[..k] + text;
    TrimLeftSkips(token[..k], text, {'-'});
    TrimStep(text);
    if text == name {
      NameBefore(name, "");
    } else {
      assert text == name + "=" + text[|name| + 1..];
      NameBefore(name, text[|name| + 1..]);
    }
  }

  /** A flag of ours is kept with any number of dashes, and nothing else is. */
  lemma KeepsSpelled(defined: set<string>, token: string)
    requires forall name <- defined :: IsFlagName(name)
    ensures Keeps(defined, token) <==> !IsForeign(defined, token)
  {
    if Keeps(defined, token) {
      DashesOf(token);
      NameEnds(TrimLeft(token, {'-'}));
      TrimStep(token);
      assert Spells(token, |token| - |TrimLeft(token, {'-'})|, NameOf(token));
    }
    if !IsForeign(defined, token) {
      var name, k :| name in defined && Spells(token, k, name);
      SpelledName(token, k, name);
    }
  }

  /** One token on its own. */
  lemma SingleToken(defined: set<string>, valueFlags: set<string>, token: string)
    requires forall name <- defined :: IsFlagName(name)
    ensures Filter(defined, valueFlags, [token]) == if IsForeign(defined, token) then [] else [token]
  {
    KeepsSpelled(defined, token);
    assert [token][1..] == [];
  }

  /** A part of a command line: a boolean flag, a flag with its value behind = or in the next token, or a
      token meant for somebody else. */
  datatype Item =
    | Bare(dash: string, name: string)
    | Inline(dash: string, name: string, value: string)
    | Next(dash: string, name: string, value: string)
    | Foreign(token: string)

  function Spelling(x: Item): seq<string> {
    match x
    case Bare(dash, name) => [dash + name]
    case Inline(dash, name, value) => [dash + (name + "=" + value)]
    case Next(dash, name, value) => [dash + name, value]
    case Foreign(token) => [token]
  }

  ghost predicate Fits(fs: FlagSet, x: Item) {
    match x
    case Bare(dash, name) => (dash == "-" || dash == "--") && name in fs.boolean
    case Inline(dash, name, value) => (dash == "-" || dash == "--") && name in fs.defined && fs.accepts(name, value)
    case Next(dash, name, value) =>
      (dash == "-" || dash == "--") && name in fs.defined - fs.boolean && fs.accepts(name, value)
    case Foreign(token) => IsForeign(fs.defined, token)
  }

  function Argv(items: seq<Item>): seq<string> {
    if items == [] then [] else Spelling(items[0]) + Argv(items[1..])
  }

  function Setting(x: Item): seq<Assignment> {
    match x
    case Bare(_, name) => [Assignment(name, "true")]
    case Inline(_, name, value) => [Assignment(name, value)]
    case Next(_, name, value) => [Assignment(name, value)]
    case Foreign(_) => []
  }

  function Settings(items: seq<Item>): seq<Assignment> {
    if items == [] then [] else Setting(items[0]) + Settings(items[1..])
  }

  lemma DashedName(dash: string, text: string, name: string)
    requires (dash == "-" || dash == "--") && IsFlagName(name) && (text == name || name + "=" <= text)
    ensures var token := dash + text;
      && "-" <= token && TrimLeft(token, {'-'}) == text && NameOf(token) == name && BeforeEquals(text) == name
      && !TripleDash(token)
  {
    var token := dash + text;
    assert token[|dash|..] == text;
    assert forall i | 0 <= i < |dash| :: token[i] == '-';
    SpelledName(token, |dash|, name);
    assert text[0] == name[0] != '-';
  }

  /** The reading of one flag: its assignment, then whatever the rest means. */
  lemma ItemStep(fs: FlagSet, valueFlags: set<string>, x: Item, more: seq<string>)
    requires IsFlagSet(fs) && TablesAgree(fs, valueFlags) && Fits(fs, x)
    ensures var rest := Parse(fs, Filter(fs.defined, valueFlags, more));
      Parse(fs, Filter(fs.defined, valueFlags, Spelling(x) + more)) == Outcome(Setting(x) + rest.values, rest.rest)
  {
    match x
    case Bare(dash, name) => BareStep(fs, valueFlags, dash, name, more);
    case Inline(dash, name, value) => InlineStep(fs, valueFlags, dash, name, value, more);
    case Next(dash, name, value) => NextStep(fs, valueFlags, dash, name, value, more);
    case Foreign(token) => ForeignStep(fs, valueFlags, token, more);
  }

  lemma ForeignStep(fs: FlagSet, valueFlags: set<string>, token: string, more: seq<string>)
    requires IsFlagSet(fs) && IsForeign(fs.defined, token)
    ensures Filter(fs.defined, valueFlags, [token] + more) == Filter(fs.defined, valueFlags, more)
  {
    KeepsSpelled(fs.defined, token);
    FilterOne(fs.defined, valueFlags, [token] + more, more);
  }

  lemma BareStep(fs: FlagSet, valueFlags: set<string>, dash: string, name: string, more: seq<string>)
    requires IsFlagSet(fs) && TablesAgree(fs, valueFlags) && Fits(fs, Bare(dash, name))
    ensures Parse(fs, Filter(fs.defined, valueFlags, [dash + name] + more))
            == Prepend(Assignment(name, "true"), Parse(fs, Filter(fs.defined, valueFlags, more)))
  {
    var token := dash + name;
    var out := Filter(fs.defined, valueFlags, more);
    DashedName(dash, name, name);
    FilterOne(fs.defined, valueFlags, [token] + more, more);
    ConcatParts([token], out);
    ParseKept(fs, [token] + out);
  }

  lemma InlineStep(fs: FlagSet, valueFlags: set<string>, dash: string, name: string, value: string, more: seq<string>)
    requires IsFlagSet(fs) && TablesAgree(fs, valueFlags) && Fits(fs, Inline(dash, name, value))
    ensures Parse(fs, Filter(fs.defined, valueFlags, [dash + (name + "=" + value)] + more))
            == Prepend(Assignment(name, value), Parse(fs, Filter(fs.defined, valueFlags, more)))
  {
    var text := name + "=" + value;
    var token := dash + text;
    var out := Filter(fs.defined, valueFlags, more);
    assert name + "=" <= text && text[|name| + 1..] == value && text[|name|] == '=';
    DashedName(dash, text, name);
    InlineValueAfterDashes(token);
    FilterOne(fs.defined, valueFlags, [token] + more, more);
    ConcatParts([token], out);
    ParseKept(fs, [token] + out);
  }

  lemma NextStep(fs: FlagSet, valueFlags: set<string>, dash: string, name: string, value: string, more: seq<string>)
    requires IsFlagSet(fs) && TablesAgree(fs, valueFlags) && Fits(fs, Next(dash, name, value))
    ensures Parse(fs, Filter(fs.defined, valueFlags, [dash + name, value] + more))
            == Prepend(Assignment(name, value), Parse(fs, Filter(fs.defined, valueFlags, more)))
  {
    var token := dash + name;
    var out := Filter(fs.defined, valueFlags, more);
    DashedName(dash, name, name);
    InlineValueAfterDashes(token);
    FilterPair(fs.defined, valueFlags, [token, value] + more, more);
    assert ([token, value] + out)[1..] == [value] + out && ([token, value] + out)[2..] == out;
    ParseKept(fs, [token, value] + out);
  }

  /** The launcher contract: a command line of our flags, in any of their spellings, with any foreign
      tokens between them, sets exactly what it says and leaves nothing over. */
  lemma {:induction false} CommandLine(fs: FlagSet, valueFlags: set<string>, items: seq<Item>)
    requires IsFlagSet(fs) && TablesAgree(fs, valueFlags) && forall x <- items :: Fits(fs, x)
    ensures Parse(fs, Filter(fs.defined, valueFlags, Argv(items))) == Outcome(Settings(items), Ok([]))
  {
    if items != [] {
      CommandLine(fs, valueFlags, items[1..]);
      ItemStep(fs, valueFlags, items[0], Argv(items[1..]));
    }
  }
}
