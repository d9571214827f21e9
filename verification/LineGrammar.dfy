/** What `sdssplitargs` accepts and refuses, as a grammar of lines: arguments are plain characters with perhaps a
    quoted part behind them, and the scanner of SdsRepr reads every line of that form as the texts it spells. */
module LineGrammar {
  import opened Bytes
  import opened SdsRepr

  /** A byte inside double quotes: as itself, after a backslash, or in hexadecimal. */
  datatype Piece = Raw(c: byte) | Short(letter: byte, value: byte) | Hex(high: byte, low: byte)

  predicate PieceOk(e: Piece) {
    match e
    case Raw(c) => c != QUOTE && c != BACKSLASH && c != NUL
    case Short(letter, value) =>
      || [letter, value] in [[110, 10], [114, 13], [116, 9], [98, 8], [97, 7]]
      || (letter == value && letter !in [NUL, X_CHAR, 110, 114, 116, 98, 97])
    case Hex(high, low) => IsHexDigit(high) && IsHexDigit(low)
  }

  function Spelling(e: Piece): (r: seq<byte>)
    ensures r != []
  {
    match e
    case Raw(c) => [c]
    case Short(letter, _) => [BACKSLASH, letter]
    case Hex(high, low) => [BACKSLASH, X_CHAR, high, low]
  }

  function Meaning(e: Piece): byte {
    match e
    case Raw(c) => c
    case Short(_, value) => value
    case Hex(high, low) => HexValue(high) * 16 + HexValue(low)
  }

  function Spellings(body: seq<Piece>): seq<byte> {
    if body == [] then [] else Spelling(body[0]) + Spellings(body[1..])
  }

  function Meanings(body: seq<Piece>): seq<byte> {
    if body == [] then [] else [Meaning(body[0])] + Meanings(body[1..])
  }

  /** A text inside single quotes: an apostrophe takes a backslash, and nothing else does. */
  function Apostrophed(s: seq<byte>): seq<byte> {
    if s == [] then [] else (if s[0] == APOSTROPHE then [BACKSLASH, APOSTROPHE] else [s[0]]) + Apostrophed(s[1..])
  }

  datatype Quote = Bare | Doubled(body: seq<Piece>) | Singled(text: seq<byte>)

  /** One argument of a line: blanks before it, plain characters, and perhaps a quoted part. */
  datatype Word = Word(blanks: seq<byte>, plain: seq<byte>, quote: Quote)

  /** The blanks that end an unquoted argument; a vertical tab or form feed does not. */
  predicate Ends(c: byte) {
    c == 32 || c == 10 || c == 13 || c == 9
  }

  /** The bytes that may stand behind an argument: a quoted one takes any blank, or the end of the line. */
  predicate Follows(w: Word, c: byte) {
    c == NUL || Ends(c) || (!w.quote.Bare? && IsSpace(c))
  }

  /** Blanks that separate what comes next from these arguments. */
  predicate Separates(words: seq<Word>, blanks: seq<byte>) {
    words != [] && blanks != [] ==> Follows(words[|words| - 1], blanks[0])
  }

  predicate PlainChars(s: seq<byte>) {
    forall i :: 0 <= i < |s| ==> !Ends(s[i]) && s[i] != NUL && s[i] != QUOTE && s[i] != APOSTROPHE
  }

  predicate Blanks(s: seq<byte>) {
    forall i :: 0 <= i < |s| ==> IsSpace(s[i])
  }

  /** The quoted part as far as its closing quote, without it. */
  function Opened(q: Quote): seq<byte> {
    match q
    case Bare => []
    case Doubled(body) => [QUOTE] + Spellings(body)
    case Singled(text) => [APOSTROPHE] + Apostrophed(text)
  }

  function Closing(q: Quote): seq<byte> {
    match q
    case Bare => []
    case Doubled(_) => [QUOTE]
    case Singled(_) => [APOSTROPHE]
  }

  function QuoteText(q: Quote): seq<byte> {
    match q
    case Bare => []
    case Doubled(body) => Meanings(body)
    case Singled(text) => text
  }

  predicate EndsInBackslash(s: seq<byte>) {
    s != [] && s[|s| - 1] == BACKSLASH
  }

  /** A quoted part that can be read up to its closing quote. */
  predicate QuoteOk(q: Quote) {
    match q
    case Bare => true
    case Doubled(body) => forall i :: 0 <= i < |body| ==> PieceOk(body[i])
    case Singled(text) => NUL !in text
  }

  predicate WordOk(w: Word) {
    && Blanks(w.blanks) && PlainChars(w.plain) && QuoteOk(w.quote)
    && (w.quote.Bare? ==> w.plain != []) && (w.plain != [] ==> !IsSpace(w.plain[0]))
  }

  function Argument(w: Word): seq<byte> {
    w.plain + QuoteText(w.quote)
  }

  function Arguments(words: seq<Word>): seq<seq<byte>> {
    seq(|words|, i requires 0 <= i < |words| => Argument(words[i]))
  }

  /** The argument as written, without the blanks. */
  function Spelled(w: Word): seq<byte> {
    w.plain + Opened(w.quote) + Closing(w.quote)
  }

  function Line(words: seq<Word>): seq<byte> {
    if words == [] then [] else words[0].blanks + Spelled(words[0]) + Line(words[1..])
  }

  /** Arguments after the first stand behind blanks; a single-quoted text does not end in a backslash, which would
      escape the closing quote. */
  predicate LineOk(words: seq<Word>) {
    && (forall i :: 0 <= i < |words| ==> WordOk(words[i]))
    && (forall i :: 0 <= i < |words| && words[i].quote.Singled? ==> !EndsInBackslash(words[i].quote.text))
    && (forall i :: 0 < i < |words| ==> words[i].blanks != [] && Follows(words[i - 1], words[i].blanks[0]))
  }

  lemma {:induction false} PlainReads(mem: seq<byte>, p: nat, s: seq<byte>, cur: seq<byte>)
    requires CLine(mem) && p + |s| < |mem| && mem[p..p + |s|] == s && PlainChars(s)
    ensures ReadToken(mem, p, Plain, cur) == ReadToken(mem, p + |s|, Plain, cur + s)
    decreases |s|
  {
    hide ReadToken;
    if s == [] {
      assert cur + s == cur;
    } else {
      ReadTokenUnfolds(mem, p, Plain, cur);
      assert s == [s[0]] + s[1..] && mem[p] == mem[p..p + |s|][0];
      SlicePair(mem, p, [s[0]], s[1..]);
      PlainReads(mem, p + 1, s[1..], cur + [s[0]]);
      assert cur + s == (cur + [s[0]]) + s[1..];
    }
  }

  lemma PieceReads(mem: seq<byte>, p: nat, e: Piece, cur: seq<byte>)
    requires CLine(mem) && PieceOk(e) && p + |Spelling(e)| < |mem| && mem[p..p + |Spelling(e)|] == Spelling(e)
    ensures TokenRound(mem, p, Double, cur) == Goes(Double, cur + [Meaning(e)], p + |Spelling(e)|)
  {
    var s := Spelling(e);
    var slice := mem[p..p + |s|];
    assert mem[p] == slice[0];
    assert |s| > 1 ==> mem[p + 1] == slice[1];
    assert |s| > 2 ==> mem[p + 2] == slice[2] && mem[p + 3] == slice[3];
  }

  /** Inside double quotes every piece reads as its byte. */
  lemma {:induction false} DoubleReads(mem: seq<byte>, p: nat, body: seq<Piece>, cur: seq<byte>)
    requires CLine(mem) && QuoteOk(Doubled(body))
    requires p + |Spellings(body)| < |mem| && mem[p..p + |Spellings(body)|] == Spellings(body)
    ensures ReadToken(mem, p, Double, cur) == ReadToken(mem, p + |Spellings(body)|, Double, cur + Meanings(body))
    decreases |body|
  {
    hide ReadToken, Spelling, Meaning, PieceOk, TokenRound, CLine, Spellings, Meanings;
    PiecesUnfold(body);
    if body == [] {
      assert cur + Meanings(body) == cur;
    } else {
      ReadTokenUnfolds(mem, p, Double, cur);
      var e, tail := Spelling(body[0]), body[1..];
      SlicePair(mem, p, e, Spellings(tail));
      PieceReads(mem, p, body[0], cur);
      DoubleReads(mem, p + |e|, tail, cur + [Meaning(body[0])]);
      assert cur + Meanings(body) == (cur + [Meaning(body[0])]) + Meanings(tail);
    }
  }

  lemma PiecesUnfold(body: seq<Piece>)
    ensures body == [] ==> Spellings(body) == Meanings(body) == []
    ensures body != [] ==> Spellings(body) == Spelling(body[0]) + Spellings(body[1..])
    ensures body != [] ==> Meanings(body) == [Meaning(body[0])] + Meanings(body[1..])
  {
  }

  /** Inside single quotes a text reads as itself, but a backslash at its end must not stand before the quote. */
  lemma {:induction false} SingleReads(mem: seq<byte>, p: nat, s: seq<byte>, cur: seq<byte>)
    requires CLine(mem) && NUL !in s
    requires p + |Apostrophed(s)| < |mem| && mem[p..p + |Apostrophed(s)|] == Apostrophed(s)
    requires EndsInBackslash(s) ==> mem[p + |Apostrophed(s)|] != APOSTROPHE
    ensures ReadToken(mem, p, Single, cur) == ReadToken(mem, p + |Apostrophed(s)|, Single, cur + s)
    decreases |s|
  {
    hide ReadToken;
    if s == [] {
      assert cur + s == cur;
    } else {
      ReadTokenUnfolds(mem, p, Single, cur);
      var e, rest := if s[0] == APOSTROPHE then [BACKSLASH, APOSTROPHE] else [s[0]], Apostrophed(s[1..]);
      assert Apostrophed(s) == e + rest;
      SlicePair(mem, p, e, rest);
      assert mem[p] == mem[p..p + |e|][0] && (|e| == 2 ==> mem[p + 1] == mem[p..p + |e|][1]);
      assert |s| > 1 ==> rest != [] && rest[0] != APOSTROPHE && mem[p + |e|] == mem[p + |e|..p + |e| + |rest|][0];
      SingleReads(mem, p + |e|, s[1..], cur + [s[0]]);
      assert cur + s == (cur + [s[0]]) + s[1..];
    }
  }

  function QuoteMode(q: Quote): Mode {
    match q
    case Bare => Plain
    case Doubled(_) => Double
    case Singled(_) => Single
  }

  /** A quoted part up to its closing quote. */
  lemma QuoteReads(mem: seq<byte>, p: nat, quote: Quote, cur: seq<byte>)
    requires CLine(mem) && QuoteOk(quote) && p + |Opened(quote)| < |mem|
    requires mem[p..p + |Opened(quote)|] == Opened(quote)
    requires quote.Singled? && EndsInBackslash(quote.text) ==> mem[p + |Opened(quote)|] != APOSTROPHE
    ensures ReadToken(mem, p, Plain, cur) ==
      ReadToken(mem, p + |Opened(quote)|, QuoteMode(quote), cur + QuoteText(quote))
  {
    hide ReadToken, Apostrophed, Spellings, Meanings, CLine, PieceOk;
    if quote.Bare? {
      assert cur + [] == cur;
    } else {
      ReadTokenUnfolds(mem, p, Plain, cur);
      var open := Opened(quote);
      assert mem[p] == mem[p..p + |open|][0];
      assert open == open[..1] + open[1..];
      SlicePair(mem, p, open[..1], open[1..]);
      match quote {
        case Doubled(body) => DoubleReads(mem, p + 1, body, cur);
        case Singled(text) => SingleReads(mem, p + 1, text, cur);
      }
    }
  }

  /** An argument up to its closing quote. */
  lemma OpenedReads(mem: seq<byte>, p: nat, plain: seq<byte>, quote: Quote)
    requires CLine(mem) && PlainChars(plain) && QuoteOk(quote)
    requires p + |plain + Opened(quote)| < |mem| && mem[p..p + |plain + Opened(quote)|] == plain + Opened(quote)
    requires quote.Singled? && EndsInBackslash(quote.text) ==> mem[p + |plain + Opened(quote)|] != APOSTROPHE
    ensures ReadToken(mem, p, Plain, []) ==
      ReadToken(mem, p + |plain + Opened(quote)|, QuoteMode(quote), plain + QuoteText(quote))
  {
    hide ReadToken, CLine, PlainChars, QuoteOk, Opened, QuoteText, QuoteMode;
    SlicePair(mem, p, plain, Opened(quote));
    PlainReads(mem, p, plain, []);
    assert [] + plain == plain;
    QuoteReads(mem, p + |plain|, quote, plain);
  }

  /** A whole argument. An unquoted one takes the blank behind it. */
  lemma WordReads(mem: seq<byte>, p: nat, w: Word)
    requires CLine(mem) && WordOk(w) && (w.quote.Singled? ==> !EndsInBackslash(w.quote.text))
    requires p + |Spelled(w)| < |mem| && mem[p..p + |Spelled(w)|] == Spelled(w)
    requires Follows(w, mem[p + |Spelled(w)|])
    ensures var q := p + |Spelled(w)|;
      ReadToken(mem, p, Plain, []) == Token(Argument(w), if w.quote.Bare? && mem[q] != NUL then q + 1 else q)
  {
    hide ReadToken, Opened, QuoteText;
    var open, close := w.plain + Opened(w.quote), Closing(w.quote);
    SlicePair(mem, p, open, close);
    assert close != [] ==> mem[p + |open|] == mem[p + |open|..p + |open| + 1][0];
    OpenedReads(mem, p, w.plain, w.quote);
    ReadTokenUnfolds(mem, p + |open|, QuoteMode(w.quote), w.plain + QuoteText(w.quote));
  }

  lemma SplitSkips(mem: seq<byte>, p: nat)
    requires CLine(mem) && p < |mem| && IsSpace(mem[p])
    ensures p + 1 < |mem| && Split(mem, p) == Split(mem, p + 1)
  {
    hide Split, ReadToken;
    SplitUnfolds(mem, p);
    SplitUnfolds(mem, p + 1);
  }

  lemma {:induction false} BlanksSkipped(mem: seq<byte>, p: nat, blanks: seq<byte>)
    requires CLine(mem) && p + |blanks| < |mem| && mem[p..p + |blanks|] == blanks && Blanks(blanks)
    ensures Split(mem, p) == Split(mem, p + |blanks|)
    decreases |blanks|
  {
    hide Split;
    if blanks != [] {
      assert mem[p] == mem[p..p + |blanks|][0] && blanks == blanks[..1] + blanks[1..];
      SlicePair(mem, p, blanks[..1], blanks[1..]);
      SplitSkips(mem, p);
      BlanksSkipped(mem, p + 1, blanks[1..]);
    }
  }

  /** One argument, and the rest of the line. */
  lemma WordSplits(mem: seq<byte>, p: nat, w: Word)
    requires CLine(mem) && WordOk(w) && (w.quote.Singled? ==> !EndsInBackslash(w.quote.text))
    requires p + |Spelled(w)| < |mem| && mem[p..p + |Spelled(w)|] == Spelled(w)
    requires Follows(w, mem[p + |Spelled(w)|])
    ensures var rest := Split(mem, p + |Spelled(w)|);
      Split(mem, p) == if rest.None? then None else Some([Argument(w)] + rest.value)
  {
    hide Split, ReadToken, Opened, Argument;
    SplitUnfolds(mem, p);
    WordReads(mem, p, w);
    StartsWord(w);
    assert mem[p] == mem[p..p + |Spelled(w)|][0];
    var q := p + |Spelled(w)|;
    if mem[q] != NUL {
      SplitSkips(mem, q);
    }
  }

  lemma StartsWord(w: Word)
    requires WordOk(w)
    ensures Spelled(w) != [] && Spelled(w)[0] != NUL && !IsSpace(Spelled(w)[0])
  {
    hide Apostrophed, Spellings;
  }

  /** The same with the blanks before the argument. */
  lemma NextSplits(mem: seq<byte>, p: nat, w: Word)
    requires CLine(mem) && WordOk(w) && (w.quote.Singled? ==> !EndsInBackslash(w.quote.text))
    requires p + |w.blanks + Spelled(w)| < |mem|
    requires mem[p..p + |w.blanks + Spelled(w)|] == w.blanks + Spelled(w)
    requires Follows(w, mem[p + |w.blanks + Spelled(w)|])
    ensures var rest := Split(mem, p + |w.blanks + Spelled(w)|);
      Split(mem, p) == if rest.None? then None else Some([Argument(w)] + rest.value)
  {
    hide Split, CLine, Spelled, Argument;
    SlicePair(mem, p, w.blanks, Spelled(w));
    BlanksSkipped(mem, p, w.blanks);
    WordSplits(mem, p + |w.blanks|, w);
  }

  /** Arguments, and the rest of the line. */
  lemma {:induction false} WordsSplit(mem: seq<byte>, p: nat, words: seq<Word>)
    requires CLine(mem) && LineOk(words)
    requires p + |Line(words)| < |mem| && mem[p..p + |Line(words)|] == Line(words)
    requires words != [] ==> Follows(words[|words| - 1], mem[p + |Line(words)|])
    ensures var rest := Split(mem, p + |Line(words)|);
      Split(mem, p) == if rest.None? then None else Some(Arguments(words) + rest.value)
    decreases |words|
  {
    hide Split, Spelled, Argument, WordOk, CLine, Follows, LineOk;
    var rest := Split(mem, p + |Line(words)|);
    if words == [] {
      assert rest.Some? ==> Arguments(words) + rest.value == rest.value;
    } else {
      var w, more := words[0], Line(words[1..]);
      var first := w.blanks + Spelled(w);
      var q := p + |first|;
      assert Line(words) == first + more;
      SlicePair(mem, p, first, more);
      LineTail(words);
      assert more != [] ==> mem[q] == mem[q..q + |more|][0];
      NextSplits(mem, p, w);
      WordsSplit(mem, q, words[1..]);
      assert Arguments(words) == [Argument(w)] + Arguments(words[1..]);
      assert rest.Some? ==> [Argument(w)] + (Arguments(words[1..]) + rest.value) == Arguments(words) + rest.value;
    }
  }

  lemma LineTail(words: seq<Word>)
    requires words != [] && LineOk(words)
    ensures WordOk(words[0]) && LineOk(words[1..])
    ensures words[0].quote.Singled? ==> !EndsInBackslash(words[0].quote.text)
    ensures |words| == 1 ==> Line(words[1..]) == []
    ensures |words| > 1 ==> Line(words[1..]) != [] && Follows(words[0], Line(words[1..])[0])
  {
    hide Spelled;
  }

  /** A line of arguments with blanks between, before and behind them splits into exactly these arguments. */
  lemma LineSplits(words: seq<Word>, after: seq<byte>)
    requires LineOk(words) && Blanks(after) && Separates(words, after)
    requires CLine(Line(words) + after + [NUL])
    ensures Split(Line(words) + after + [NUL], 0) == Some(Arguments(words))
  {
    hide Split, Line, LineOk;
    var line := Line(words);
    var mem := line + after + [NUL];
    assert mem[0..|line|] == line && mem[|line|..|line| + |after|] == after;
    WordsSplit(mem, 0, words);
    BlanksSkipped(mem, |line|, after);
    SplitUnfolds(mem, |line| + |after|);
    assert Arguments(words) + [] == Arguments(words);
  }

  /** What goes wrong in a line: a quote that the end of the line leaves open, or a closed one with neither a blank
      nor the end of the line behind it. */
  datatype Fault = Unclosed | Glued(c: byte, rest: seq<byte>)

  predicate FaultOk(quote: Quote, fault: Fault) {
    && QuoteOk(quote) && !quote.Bare?
    && (fault.Glued? ==> fault.c != NUL && !IsSpace(fault.c) && (quote.Singled? ==> !EndsInBackslash(quote.text)))
  }

  function Faulty(quote: Quote, fault: Fault): seq<byte> {
    Opened(quote) + Tail(quote, fault)
  }

  function Tail(quote: Quote, fault: Fault): seq<byte> {
    match fault
    case Unclosed => []
    case Glued(c, rest) => Closing(quote) + [c] + rest
  }

  /** The end of a line, in two pieces. */
  lemma RestOfLine(mem: seq<byte>, p: nat, a: seq<byte>, b: seq<byte>)
    requires CLine(mem) && p < |mem| && mem[p..|mem| - 1] == a + b
    ensures p + |a| < |mem| && mem[p..p + |a|] == a && (a != [] ==> mem[p] == a[0])
    ensures b == [] ==> mem[p + |a|] == NUL
    ensures |b| > 0 ==> mem[p + |a|] == b[0]
    ensures |b| > 1 ==> p + |a| + 1 < |mem| && mem[p + |a| + 1] == b[1]
  {
    SlicePair(mem, p, a, b);
    var q := p + |a|;
    assert a != [] ==> mem[p] == mem[p..q][0];
    assert |b| > 0 ==> mem[q] == mem[q..q + |b|][0];
    assert |b| > 1 ==> mem[q + 1] == mem[q..q + |b|][1];
  }

  lemma FaultReads(mem: seq<byte>, q: nat, quote: Quote, fault: Fault, text: seq<byte>)
    requires CLine(mem) && q < |mem| && FaultOk(quote, fault)
    requires fault.Unclosed? ==> mem[q] == NUL
    requires fault.Glued? ==> q + 1 < |mem| && [mem[q]] == Closing(quote) && mem[q + 1] == fault.c
    ensures ReadToken(mem, q, QuoteMode(quote), text) == Unbalanced
  {
    hide ReadToken, QuoteOk;
    ReadTokenUnfolds(mem, q, QuoteMode(quote), text);
  }

  lemma FaultFails(mem: seq<byte>, p: nat, plain: seq<byte>, quote: Quote, fault: Fault)
    requires CLine(mem) && PlainChars(plain) && (plain != [] ==> !IsSpace(plain[0])) && FaultOk(quote, fault)
    requires p < |mem| && mem[p..|mem| - 1] == plain + Faulty(quote, fault)
    ensures Split(mem, p) == None
  {
    hide Split, ReadToken, Opened, QuoteText, CLine, PlainChars, QuoteOk;
    var open, tail := plain + Opened(quote), Tail(quote, fault);
    assert plain + Faulty(quote, fault) == open + tail;
    RestOfLine(mem, p, open, tail);
    OpensWord(plain, quote);
    OpenedReads(mem, p, plain, quote);
    FaultReads(mem, p + |open|, quote, fault, plain + QuoteText(quote));
    SplitUnfolds(mem, p);
    SkipNone(mem, p);
  }

  lemma SkipNone(mem: seq<byte>, p: nat)
    requires CLine(mem) && p < |mem| && !IsSpace(mem[p])
    ensures SkipBlanks(mem, p) == p
  {
  }

  lemma OpensWord(plain: seq<byte>, quote: Quote)
    requires PlainChars(plain) && !quote.Bare? && (plain != [] ==> !IsSpace(plain[0]))
    ensures var open := plain + Opened(quote); open != [] && open[0] != NUL && !IsSpace(open[0])
  {
    hide Apostrophed, Spellings;
  }

  /** A line with such a fault behind its first arguments is refused as a whole. */
  lemma FaultRefused(words: seq<Word>, blanks: seq<byte>, plain: seq<byte>, quote: Quote, fault: Fault)
    requires LineOk(words) && Blanks(blanks) && (words != [] ==> blanks != []) && Separates(words, blanks)
    requires PlainChars(plain) && (plain != [] ==> !IsSpace(plain[0])) && FaultOk(quote, fault)
    requires CLine(Line(words) + blanks + (plain + Faulty(quote, fault)) + [NUL])
    ensures Split(Line(words) + blanks + (plain + Faulty(quote, fault)) + [NUL], 0) == None
  {
    hide Split, Line, LineOk, Faulty, FaultOk;
    var line, bad := Line(words), plain + Faulty(quote, fault);
    var mem := line + blanks + bad + [NUL];
    assert mem[0..|line|] == line && mem[|line|..|line| + |blanks|] == blanks;
    assert mem[|line| + |blanks|..|mem| - 1] == bad;
    WordsSplit(mem, 0, words);
    BlanksSkipped(mem, |line|, blanks);
    FaultFails(mem, |line| + |blanks|, plain, quote, fault);
  }

  /** A quote that no quote of its kind follows fails, whatever is behind it. */
  lemma {:induction false} OpenQuoteFails(mem: seq<byte>, p: nat, mode: Mode, cur: seq<byte>)
    requires CLine(mem) && p < |mem|
    requires (mode.Double? && QUOTE !in mem[p..]) || (mode.Single? && APOSTROPHE !in mem[p..])
    ensures ReadToken(mem, p, mode, cur) == Unbalanced
    decreases |mem| - p
  {
    hide ReadToken;
    ReadTokenUnfolds(mem, p, mode, cur);
    assert mem[p] == mem[p..][0];
    match TokenRound(mem, p, mode, cur)
    case Goes(mode', cur', q) =>
      assert mem[q..] == mem[p..][q - p..];
      OpenQuoteFails(mem, q, mode', cur');
    case _ =>
  }

  /** Arguments with a single space between them. */
  function Spaced(plain: seq<seq<byte>>, quotes: seq<Quote>): (words: seq<Word>)
    requires |plain| == |quotes|
    ensures |words| == |plain|
  {
    seq(|plain|, i requires 0 <= i < |plain| => Word(if i == 0 then [] else [SPACE], plain[i], quotes[i]))
  }

  lemma {:induction false} SpacedLine(words: seq<Word>, list: seq<seq<byte>>)
    requires |words| == |list| && forall i :: 0 <= i < |list| ==> list[i] == Spelled(words[i])
    ensures (forall i :: 0 <= i < |words| ==> words[i].blanks == [SPACE]) ==> Line(words) == Behind(list)
    ensures (forall i :: 0 <= i < |words| ==> words[i].blanks == if i == 0 then [] else [SPACE]) ==>
      Line(words) == Joined(list)
    decreases |words|
  {
    hide Spelled;
    if words != [] {
      SpacedLine(words[1..], list[1..]);
      assert [] + Spelled(words[0]) == Spelled(words[0]);
    }
  }

  /** A C line holds no NUL before its end. */
  lemma Terminated(line: seq<byte>)
    requires NUL !in line
    ensures CLine(line + [NUL])
  {
    assert (line + [NUL])[..|line|] == line;
  }

  lemma SpacedOk(plain: seq<seq<byte>>, quotes: seq<Quote>, list: seq<seq<byte>>)
    requires |plain| == |quotes| == |list|
    requires forall i :: 0 <= i < |list| ==>
      && WordOk(Word([], plain[i], quotes[i])) && (quotes[i].Singled? ==> !EndsInBackslash(quotes[i].text))
      && list[i] == Spelled(Word([], plain[i], quotes[i]))
    ensures LineOk(Spaced(plain, quotes))
    ensures forall i :: 0 <= i < |list| ==> list[i] == Spelled(Spaced(plain, quotes)[i])
  {
    hide Opened, PlainChars, QuoteOk;
    var words := Spaced(plain, quotes);
    forall i | 0 <= i < |words|
      ensures WordOk(words[i]) && list[i] == Spelled(words[i])
    {
    }
  }

  /** Arguments separated by single spaces split into these arguments. */
  lemma SpacedSplits(plain: seq<seq<byte>>, quotes: seq<Quote>, list: seq<seq<byte>>)
    requires |plain| == |quotes| == |list|
    requires forall i :: 0 <= i < |list| ==>
      && WordOk(Word([], plain[i], quotes[i])) && (quotes[i].Singled? ==> !EndsInBackslash(quotes[i].text))
      && list[i] == Spelled(Word([], plain[i], quotes[i])) && NUL !in list[i]
    ensures CLine(Joined(list) + [NUL])
    ensures Split(Joined(list) + [NUL], 0) == Some(Arguments(Spaced(plain, quotes)))
  {
    hide Split, LineOk, Spelled, WordOk, Line, Joined, CLine;
    var words := Spaced(plain, quotes);
    SpacedOk(plain, quotes, list);
    SpacedLine(words, list);
    JoinedNoNul(list);
    Terminated(Joined(list));
    assert Line(words) + [] == Joined(list);
    LineSplits(words, []);
  }

  /** Unquoted words joined by spaces split into these words. */
  lemma WordsReadBack(list: seq<seq<byte>>)
    requires forall i :: 0 <= i < |list| ==> list[i] != []
    requires forall i, k :: 0 <= i < |list| && 0 <= k < |list[i]| ==>
      !IsSpace(list[i][k]) && list[i][k] !in [NUL, QUOTE, APOSTROPHE]
    ensures CLine(Joined(list) + [NUL]) && Split(Joined(list) + [NUL], 0) == Some(list)
  {
    hide Split, Joined;
    var quotes := seq(|list|, i requires 0 <= i < |list| => Bare);
    forall i | 0 <= i < |list|
      ensures WordOk(Word([], list[i], Bare)) && list[i] == Spelled(Word([], list[i], Bare)) && NUL !in list[i]
      ensures list[i] + QuoteText(quotes[i]) == list[i]
    {
      assert list[i] + [] + [] == list[i];
    }
    SpacedSplits(list, quotes, list);
    assert Arguments(Spaced(list, quotes)) == list;
  }

  function SingleQuoted(s: seq<byte>): seq<byte> {
    [APOSTROPHE] + Apostrophed(s) + [APOSTROPHE]
  }

  /** A single-quoted text reads back exactly if it does not end in a backslash; otherwise the line is refused. */
  lemma SingleQuotedReadsBack(s: seq<byte>)
    requires NUL !in s
    ensures CLine(SingleQuoted(s) + [NUL])
    ensures Split(SingleQuoted(s) + [NUL], 0) == if EndsInBackslash(s) then None else Some([s])
  {
    hide Split, Apostrophed, CLine;
    ApostrophedNoNul(s);
    Terminated(SingleQuoted(s));
    if EndsInBackslash(s) {
      BackslashRefused(s);
    } else {
      SingleQuotedReads(s);
    }
  }

  lemma SingleQuotedReads(s: seq<byte>)
    requires NUL !in s && !EndsInBackslash(s) && CLine(SingleQuoted(s) + [NUL])
    ensures Split(SingleQuoted(s) + [NUL], 0) == Some([s])
  {
    hide Split, Apostrophed, CLine;
    var w := Word([], [], Singled(s));
    assert SingleQuoted(s) == Spelled(w) && Argument(w) == s;
    assert Line([w]) == [] + Spelled(w) + Line([]) && Line([]) == [];
    hide Line;
    assert Line([w]) + [] == SingleQuoted(s);
    LineSplits([w], []);
    assert Arguments([w]) == [s];
  }

  lemma BackslashRefused(s: seq<byte>)
    requires NUL !in s && EndsInBackslash(s) && CLine(SingleQuoted(s) + [NUL])
    ensures Split(SingleQuoted(s) + [NUL], 0) == None
  {
    hide Split, Apostrophed, CLine, SingleQuoted;
    var t := s[..|s| - 1] + [APOSTROPHE];
    UnclosedForm(s, t);
    assert Line([]) + [] + ([] + Faulty(Singled(t), Unclosed)) == SingleQuoted(s);
    hide Faulty;
    FaultRefused([], [], [], Singled(t), Unclosed);
  }

  lemma UnclosedForm(s: seq<byte>, t: seq<byte>)
    requires EndsInBackslash(s) && t == s[..|s| - 1] + [APOSTROPHE]
    ensures SingleQuoted(s) == Faulty(Singled(t), Unclosed)
  {
    hide Apostrophed;
    EscapedQuote(s);
    assert [APOSTROPHE] + Apostrophed(s) + [APOSTROPHE] == [APOSTROPHE] + Apostrophed(t) + [];
  }

  lemma {:induction false} ApostrophedNoNul(s: seq<byte>)
    requires NUL !in s
    ensures NUL !in Apostrophed(s)
  {
    if s != [] {
      ApostrophedNoNul(s[1..]);
    }
  }

  /** A backslash before the closing quote makes it part of the text. */
  lemma {:induction false} EscapedQuote(s: seq<byte>)
    requires EndsInBackslash(s)
    ensures Apostrophed(s[..|s| - 1] + [APOSTROPHE]) == Apostrophed(s) + [APOSTROPHE]
  {
    var t := s[..|s| - 1] + [APOSTROPHE];
    if |s| > 1 {
      assert s[1..][..|s[1..]| - 1] + [APOSTROPHE] == t[1..];
      EscapedQuote(s[1..]);
    }
  }

  // ---------- quoting and splitting are inverse ----------

  /** How `Escape` writes a byte. */
  function PieceOf(b: byte): (e: Piece)
    ensures PieceOk(e) && Spelling(e) == Escape(b) && Meaning(e) == b
  {
    if ShortEscape(b).Some? then Short(ShortEscape(b).value, b)
    else if IsPrint(b) then Raw(b)
    else Hex(HexDigit(b / 16), HexDigit(b % 16))
  }

  function PiecesOf(s: seq<byte>): (body: seq<Piece>)
    ensures Spellings(body) == EscapeAll(s) && Meanings(body) == s
    ensures forall i :: 0 <= i < |body| ==> PieceOk(body[i])
  {
    if s == [] then [] else [PieceOf(s[0])] + PiecesOf(s[1..])
  }

  /** The quoted forms, separated by single spaces. */
  function Quoted(list: seq<seq<byte>>): seq<byte> {
    Joined(seq(|list|, i requires 0 <= i < |list| => Repr(list[i])))
  }

  /** Quoting then splitting returns exactly the list, whatever bytes it holds. */
  lemma QuoteSplitRoundTrip(list: seq<seq<byte>>)
    ensures CLine(Quoted(list) + [NUL])
    ensures Split(Quoted(list) + [NUL], 0) == Some(list)
  {
    hide Split, Joined, EscapeAll, Spellings, Meanings, PiecesOf;
    var forms := seq(|list|, i requires 0 <= i < |list| => Repr(list[i]));
    var none := seq(|list|, i requires 0 <= i < |list| => []);
    var quotes := seq(|list|, i requires 0 <= i < |list| => Doubled(PiecesOf(list[i])));
    forall i | 0 <= i < |list|
      ensures WordOk(Word([], none[i], quotes[i])) && forms[i] == Spelled(Word([], none[i], quotes[i]))
      ensures none[i] + QuoteText(quotes[i]) == list[i]
    {
      assert [] + ([QUOTE] + EscapeAll(list[i])) == [QUOTE] + EscapeAll(list[i]);
    }
    SpacedSplits(none, quotes, forms);
    assert Arguments(Spaced(none, quotes)) == list;
  }
}
