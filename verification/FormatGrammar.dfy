/** What the formats of `redisvFormatCommand` print, part by part: a format is arguments behind spaces, an argument
    is a sequence of literal characters and directives, and it denotes the texts of its parts, one behind another. */
module FormatGrammar {
  import opened Bytes
  import opened Command

  /** A part of an argument. `beyond` is the memory behind a text and its NUL, or behind the bytes counted. */
  datatype Part =
    | Literal(c: byte)
    | Str(text: seq<byte>, beyond: seq<byte>)
    | Bin(data: seq<byte>, beyond: seq<byte>)
    | Percent

  /** An argument behind `gap` spaces. */
  datatype Argument = Argument(gap: nat, parts: seq<Part>)

  function Directive(p: Part): (r: seq<byte>)
    ensures r != []
  {
    match p
    case Literal(c) => [c]
    case Str(_, _) => [PERCENT, S_CHAR]
    case Bin(_, _) => [PERCENT, B_CHAR]
    case Percent => [PERCENT, PERCENT]
  }

  function Passed(p: Part): seq<VarArg> {
    match p
    case Str(text, beyond) => [CString(text + [NUL] + beyond)]
    case Bin(data, beyond) => [Binary(data + beyond, |data|)]
    case _ => []
  }

  function Meaning(p: Part): seq<byte> {
    match p
    case Literal(c) => [c]
    case Str(text, _) => text
    case Bin(data, _) => data
    case Percent => [PERCENT]
  }

  function Directives(parts: seq<Part>): seq<byte> {
    if parts == [] then [] else Directive(parts[0]) + Directives(parts[1..])
  }

  function PassedAll(parts: seq<Part>): seq<VarArg> {
    if parts == [] then [] else Passed(parts[0]) + PassedAll(parts[1..])
  }

  function Meanings(parts: seq<Part>): seq<byte> {
    if parts == [] then [] else Meaning(parts[0]) + Meanings(parts[1..])
  }

  function Spaces(n: nat): (s: seq<byte>)
    ensures |s| == n && forall i :: 0 <= i < n ==> s[i] == SPACE
  {
    if n == 0 then [] else [SPACE] + Spaces(n - 1)
  }

  /** The format of some arguments, with `after` spaces behind them, and what is passed with it. */
  function FormatOf(arguments: seq<Argument>, after: nat): seq<byte> {
    if arguments == [] then Spaces(after)
    else Spaces(arguments[0].gap) + Directives(arguments[0].parts) + FormatOf(arguments[1..], after)
  }

  function PassedWith(arguments: seq<Argument>): seq<VarArg> {
    if arguments == [] then [] else PassedAll(arguments[0].parts) + PassedWith(arguments[1..])
  }

  function Texts(arguments: seq<Argument>): seq<seq<byte>> {
    seq(|arguments|, i requires 0 <= i < |arguments| => Meanings(arguments[i].parts))
  }

  /** A percent sign stands for itself only at the end of the format. */
  predicate PartOk(p: Part, end: bool) {
    match p
    case Literal(c) => c != SPACE && c != NUL && (c == PERCENT ==> end)
    case Str(text, _) => NUL !in text
    case _ => true
  }

  predicate PartsOk(parts: seq<Part>, end: bool) {
    forall i :: 0 <= i < |parts| ==> PartOk(parts[i], end && i == |parts| - 1)
  }

  predicate ArgumentsOk(arguments: seq<Argument>, after: nat) {
    && (forall i :: 0 < i < |arguments| ==> arguments[i].gap > 0)
    && forall i :: 0 <= i < |arguments| ==>
         arguments[i].parts != [] && PartsOk(arguments[i].parts, after == 0 && i == |arguments| - 1)
  }

  function Pieces(parts: seq<Part>): seq<Item> {
    if parts == [] then [] else [Piece(Meaning(parts[0]))] + Pieces(parts[1..])
  }

  function Gaps(n: nat): seq<Item> {
    if n == 0 then [] else [Gap] + Gaps(n - 1)
  }

  lemma PartReads(p: Part, rest: seq<byte>, more: seq<VarArg>)
    requires PartOk(p, rest == []) && FormatOk(rest, more)
    ensures FormatOk(Directive(p) + rest, Passed(p) + more)
    ensures Items(Directive(p) + rest, Passed(p) + more) == [Piece(Meaning(p))] + Items(rest, more)
  {
    var fmt, args := Directive(p) + rest, Passed(p) + more;
    match p
    case Literal(_) => assert fmt[1..] == rest && args == more;
    case Str(text, beyond) =>
      StrLenIs(text, beyond);
      assert fmt[2..] == rest && args[1..] == more;
      assert args[0].mem[..|text|] == text;
    case Bin(data, beyond) =>
      assert fmt[2..] == rest && args[1..] == more;
      assert args[0].mem[..|data|] == data;
    case Percent => assert fmt[2..] == rest && args == more;
  }

  lemma {:induction false} PartsRead(parts: seq<Part>, rest: seq<byte>, more: seq<VarArg>)
    requires PartsOk(parts, rest == []) && FormatOk(rest, more)
    ensures FormatOk(Directives(parts) + rest, PassedAll(parts) + more)
    ensures Items(Directives(parts) + rest, PassedAll(parts) + more) == Pieces(parts) + Items(rest, more)
  {
    hide FormatOk, Items, Directive, Passed, Meaning, PartOk, PartsOk, Directives, PassedAll, Pieces;
    PartsUnfold(parts);
    if parts == [] {
      assert [] + rest == rest && [] + more == more;
    } else {
      var p, tail := parts[0], parts[1..];
      FirstPart(parts, rest);
      PartsRead(tail, rest, more);
      PartReads(p, Directives(tail) + rest, PassedAll(tail) + more);
      assert Directives(parts) + rest == Directive(p) + (Directives(tail) + rest);
      assert PassedAll(parts) + more == Passed(p) + (PassedAll(tail) + more);
      assert Pieces(parts) + Items(rest, more) == [Piece(Meaning(p))] + (Pieces(tail) + Items(rest, more));
    }
  }

  lemma PartsUnfold(parts: seq<Part>)
    ensures parts == [] ==> Directives(parts) == [] && PassedAll(parts) == [] && Pieces(parts) == []
    ensures parts != [] ==>
      && Directives(parts) == Directive(parts[0]) + Directives(parts[1..])
      && PassedAll(parts) == Passed(parts[0]) + PassedAll(parts[1..])
      && Pieces(parts) == [Piece(Meaning(parts[0]))] + Pieces(parts[1..])
  {
  }

  lemma FirstPart(parts: seq<Part>, rest: seq<byte>)
    requires parts != [] && PartsOk(parts, rest == [])
    ensures PartOk(parts[0], Directives(parts[1..]) + rest == []) && PartsOk(parts[1..], rest == [])
  {
    hide PartOk, Directive;
  }

  lemma {:induction false} SpacesRead(n: nat, rest: seq<byte>, more: seq<VarArg>)
    requires FormatOk(rest, more)
    ensures FormatOk(Spaces(n) + rest, more) && Items(Spaces(n) + rest, more) == Gaps(n) + Items(rest, more)
  {
    hide FormatOk, Items;
    if n == 0 {
      assert [] + rest == rest && [] + Items(rest, more) == Items(rest, more);
    } else {
      SpacesRead(n - 1, rest, more);
      SpaceReads(Spaces(n - 1) + rest, more);
      assert Spaces(n) + rest == [SPACE] + (Spaces(n - 1) + rest);
    }
  }

  lemma SpaceReads(rest: seq<byte>, more: seq<VarArg>)
    requires FormatOk(rest, more)
    ensures FormatOk([SPACE] + rest, more) && Items([SPACE] + rest, more) == [Gap] + Items(rest, more)
  {
    assert ([SPACE] + rest)[1..] == rest;
  }

  lemma {:induction false} GapsSkipped(n: nat, items: seq<Item>)
    ensures Words(Gaps(n) + items) == Words(items)
  {
    if n == 0 {
      assert [] + items == items;
    } else {
      GapsSkipped(n - 1, items);
      assert (Gaps(n) + items)[1..] == Gaps(n - 1) + items;
    }
  }

  lemma {:induction false} PiecesJoin(parts: seq<Part>, items: seq<Item>)
    requires items == [] || items[0].Gap?
    ensures HeadText(Pieces(parts) + items) == Meanings(parts) && AfterHead(Pieces(parts) + items) == items
  {
    hide Meaning, HeadText, AfterHead;
    if parts == [] {
      assert [] + items == items;
      NoHead(items);
    } else {
      PiecesJoin(parts[1..], items);
      OneMore(Meaning(parts[0]), Pieces(parts[1..]) + items);
      assert Pieces(parts) + items == [Piece(Meaning(parts[0]))] + (Pieces(parts[1..]) + items);
    }
  }

  lemma NoHead(items: seq<Item>)
    requires items == [] || items[0].Gap?
    ensures HeadText(items) == [] && AfterHead(items) == items
  {
  }

  lemma OneMore(text: seq<byte>, items: seq<Item>)
    ensures HeadText([Piece(text)] + items) == text + HeadText(items)
    ensures AfterHead([Piece(text)] + items) == AfterHead(items)
  {
    assert ([Piece(text)] + items)[1..] == items;
  }

  lemma PiecesAreOneWord(parts: seq<Part>, items: seq<Item>)
    requires parts != [] && (items == [] || items[0].Gap?)
    ensures Words(Pieces(parts) + items) == [Meanings(parts)] + Words(items)
  {
    hide Meaning, Words;
    PiecesJoin(parts[1..], items);
    WordFromPiece(Meaning(parts[0]), Pieces(parts[1..]) + items);
    assert Pieces(parts) + items == [Piece(Meaning(parts[0]))] + (Pieces(parts[1..]) + items);
  }

  lemma WordFromPiece(text: seq<byte>, items: seq<Item>)
    ensures Words([Piece(text)] + items) == [text + HeadText(items)] + Words(AfterHead(items))
  {
    assert ([Piece(text)] + items)[1..] == items;
  }

  /** A format denotes its arguments: in each of them literals, %s, %b and %% contribute their texts in order, and any
      number of spaces separates it from the next. */
  lemma {:induction false} FormatDenotes(arguments: seq<Argument>, after: nat)
    requires ArgumentsOk(arguments, after)
    ensures var fmt, args := FormatOf(arguments, after), PassedWith(arguments);
      FormatOk(fmt, args) && Words(Items(fmt, args)) == Texts(arguments)
    decreases |arguments|
  {
    hide FormatOk, Items, Words, PartsOk, Directives, PassedAll, Meanings, ArgumentsOk, Spaces;
    if arguments == [] {
      EmptyFormat();
      SpacesRead(after, [], []);
      GapsSkipped(after, []);
      assert Spaces(after) + [] == Spaces(after) && Gaps(after) + [] == Gaps(after);
    } else {
      var a, tail := arguments[0], arguments[1..];
      var rest, more := FormatOf(tail, after), PassedWith(tail);
      TailFormat(arguments, after);
      FormatDenotes(tail, after);
      OneArgument(a, rest, more);
      assert FormatOf(arguments, after) == Spaces(a.gap) + (Directives(a.parts) + rest);
      assert Texts(arguments) == [Meanings(a.parts)] + Texts(tail);
    }
  }

  lemma TailFormat(arguments: seq<Argument>, after: nat)
    requires arguments != [] && ArgumentsOk(arguments, after)
    ensures ArgumentsOk(arguments[1..], after) && arguments[0].parts != []
    ensures var rest := FormatOf(arguments[1..], after);
      PartsOk(arguments[0].parts, rest == []) && (rest != [] ==> rest[0] == SPACE)
  {
    hide PartsOk, Directives;
    var tail := arguments[1..];
    assert forall i :: 0 <= i < |tail| ==> tail[i] == arguments[i + 1];
  }

  lemma EmptyFormat()
    ensures FormatOk([], []) && Items([], []) == [] && Words([]) == []
  {
  }

  lemma OneArgument(a: Argument, rest: seq<byte>, more: seq<VarArg>)
    requires a.parts != [] && PartsOk(a.parts, rest == []) && FormatOk(rest, more) && (rest != [] ==> rest[0] == SPACE)
    ensures var fmt, args := Spaces(a.gap) + (Directives(a.parts) + rest), PassedAll(a.parts) + more;
      && FormatOk(fmt, args)
      && Words(Items(fmt, args)) == [Meanings(a.parts)] + Words(Items(rest, more))
  {
    hide PassedAll, Meanings, Pieces, Words, Passed;
    PartsRead(a.parts, rest, more);
    SpacesRead(a.gap, Directives(a.parts) + rest, PassedAll(a.parts) + more);
    GapsSkipped(a.gap, Pieces(a.parts) + Items(rest, more));
    PiecesAreOneWord(a.parts, Items(rest, more));
  }

  /** Arguments that consist of a single part, or of literals, behind single spaces. */
  lemma {:induction false} SpacedFormat(arguments: seq<Argument>, list: seq<seq<byte>>)
    requires |arguments| == |list| && forall i :: 0 <= i < |list| ==> list[i] == Directives(arguments[i].parts)
    ensures (forall i :: 0 <= i < |arguments| ==> arguments[i].gap == 1) ==> FormatOf(arguments, 0) == Behind(list)
    ensures (forall i :: 0 <= i < |arguments| ==> arguments[i].gap == if i == 0 then 0 else 1) ==>
      FormatOf(arguments, 0) == Joined(list)
    decreases |arguments|
  {
    hide Directives;
    assert Spaces(0) == [] && Spaces(1) == [SPACE] + Spaces(0) && [SPACE] + [] == [SPACE];
    if arguments != [] {
      SpacedFormat(arguments[1..], list[1..]);
      assert [] + list[0] == list[0];
    }
  }

  lemma {:induction false} SinglesPassed(arguments: seq<Argument>, args: seq<VarArg>)
    requires |arguments| == |args| && forall i :: 0 <= i < |args| ==> PassedAll(arguments[i].parts) == [args[i]]
    ensures PassedWith(arguments) == args
    decreases |arguments|
  {
    hide PassedAll;
    if arguments != [] {
      SinglesPassed(arguments[1..], args[1..]);
      assert [args[0]] + args[1..] == args;
    }
  }

  lemma {:induction false} NothingPassed(arguments: seq<Argument>)
    requires forall i :: 0 <= i < |arguments| ==> PassedAll(arguments[i].parts) == []
    ensures PassedWith(arguments) == []
    decreases |arguments|
  {
    hide PassedAll;
    if arguments != [] {
      NothingPassed(arguments[1..]);
    }
  }

  /** `%b` or `%s`, and what is passed for an argument with it. */
  function DirectiveFor(binary: bool): seq<byte> {
    [PERCENT, if binary then B_CHAR else S_CHAR]
  }

  function PassedFor(arg: seq<byte>, binary: bool): VarArg {
    if binary then Binary(arg, |arg|) else CString(arg + [NUL])
  }

  lemma SinglePart(arg: seq<byte>, binary: bool) returns (parts: seq<Part>)
    requires binary || NUL !in arg
    ensures parts != [] && PartsOk(parts, false) && PartsOk(parts, true) && Meanings(parts) == arg
    ensures Directives(parts) == DirectiveFor(binary) && PassedAll(parts) == [PassedFor(arg, binary)]
  {
    var p := if binary then Bin(arg, []) else Str(arg, []);
    parts := [p];
    assert parts[1..] == [] && Directives([]) == [] && PassedAll([]) == [] && Meanings([]) == [];
    assert arg + [] == arg && arg + [NUL] + [] == arg + [NUL];
  }

  /** One directive for each argument of a list, separated by spaces: `%b`, or `%s` where the argument holds no NUL.
      The format prints the list, whatever else its bytes are. */
  lemma DirectivesPrintTheirArguments(argv: seq<seq<byte>>, binary: seq<bool>)
    requires |binary| == |argv| && forall i :: 0 <= i < |argv| ==> binary[i] || NUL !in argv[i]
    ensures var fmt := Joined(seq(|argv|, i requires 0 <= i < |argv| => DirectiveFor(binary[i])));
      var args := seq(|argv|, i requires 0 <= i < |argv| => PassedFor(argv[i], binary[i]));
      FormatOk(fmt, args) && Words(Items(fmt, args)) == argv
  {
    hide FormatOk, Items, Words, DirectiveFor, PassedFor, Directives, PassedAll, Meanings, PartsOk, FormatOf;
    hide PassedWith;
    var list := seq(|argv|, i requires 0 <= i < |argv| => DirectiveFor(binary[i]));
    var args := seq(|argv|, i requires 0 <= i < |argv| => PassedFor(argv[i], binary[i]));
    var arguments: seq<Argument> := [];
    for n := 0 to |argv|
      invariant |arguments| == n
      invariant forall i :: 0 <= i < n ==>
        var a := arguments[i];
        && a.gap == (if i == 0 then 0 else 1) && a.parts != []
        && PartsOk(a.parts, false) && PartsOk(a.parts, true)
        && Meanings(a.parts) == argv[i] && Directives(a.parts) == list[i] && PassedAll(a.parts) == [args[i]]
    {
      var parts := SinglePart(argv[n], binary[n]);
      arguments := arguments + [Argument(if n == 0 then 0 else 1, parts)];
    }
    SpacedFormat(arguments, list);
    SinglesPassed(arguments, args);
    FormatDenotes(arguments, 0);
    assert Texts(arguments) == argv;
  }

  function Literals(text: seq<byte>): (parts: seq<Part>)
    ensures |parts| == |text| && forall i :: 0 <= i < |text| ==> parts[i] == Literal(text[i])
    ensures Directives(parts) == Meanings(parts) == text && PassedAll(parts) == []
  {
    if text == [] then [] else [Literal(text[0])] + Literals(text[1..])
  }

  /** A format without directives prints its words. */
  lemma LiteralsPrintThemselves(list: seq<seq<byte>>)
    requires forall i :: 0 <= i < |list| ==> list[i] != []
    requires forall i, k :: 0 <= i < |list| && 0 <= k < |list[i]| ==> list[i][k] !in [PERCENT, SPACE, NUL]
    ensures FormatOk(Joined(list), []) && Words(Items(Joined(list), [])) == list
  {
    hide FormatOk, Items, Words, Literals, Directives, Meanings, PassedAll, Joined, Behind, FormatOf, PassedWith;
    var arguments := seq(|list|, i requires 0 <= i < |list| => Argument(if i == 0 then 0 else 1, Literals(list[i])));
    SpacedFormat(arguments, list);
    NothingPassed(arguments);
    FormatDenotes(arguments, 0);
    assert Texts(arguments) == list;
  }
}
