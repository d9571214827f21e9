/** The three command printers of hiredis.c, and the argument scanner of async.c. */
module Command {
  import opened Bytes
  import opened Numbers
  import opened Resp
  import S = Sds

  // ---------- the reference: a command on the wire ----------

  function HeaderLine(tag: byte, n: nat): seq<byte> {
    [tag] + Digits(n) + CRLF
  }

  function FormatArg(arg: seq<byte>): seq<byte> {
    HeaderLine(DOLLAR, |arg|) + arg + CRLF
  }

  function FormatArgs(argv: seq<seq<byte>>): seq<byte> {
    if argv == [] then [] else FormatArg(argv[0]) + FormatArgs(argv[1..])
  }

  /** An array of bulk strings, as the protocol spells it. */
  function Format(argv: seq<seq<byte>>): seq<byte> {
    HeaderLine(STAR, |argv|) + FormatArgs(argv)
  }

  function Bulks(argv: seq<seq<byte>>): (r: seq<Reply>)
    ensures |r| == |argv| && forall i :: 0 <= i < |argv| ==> r[i] == Bulk(argv[i])
  {
    seq(|argv|, i requires 0 <= i < |argv| => Bulk(argv[i]))
  }

  // ---------- the reader parses commands back ----------

  lemma {:induction false} FormatArgsIsEncoding(argv: seq<seq<byte>>)
    ensures FormatArgs(argv) == EncodeAll(Bulks(argv))
  {
    if argv != [] {
      FormatArgsIsEncoding(argv[1..]);
      assert Bulks(argv)[1..] == Bulks(argv[1..]);
      assert FormatArg(argv[0]) == Encode(Bulk(argv[0]));
    }
  }

  lemma FormatIsEncoding(argv: seq<seq<byte>>)
    ensures Format(argv) == Encode(Array(Bulks(argv)))
    ensures Encodable(Array(Bulks(argv))) && Fits(Array(Bulks(argv)), MAX_DEPTH)
  {
    FormatArgsIsEncoding(argv);
  }

  function Commands(argvs: seq<seq<seq<byte>>>): (r: seq<Reply>)
    ensures |r| == |argvs| && forall i :: 0 <= i < |argvs| ==> r[i] == Array(Bulks(argvs[i]))
  {
    seq(|argvs|, i requires 0 <= i < |argvs| => Array(Bulks(argvs[i])))
  }

  function FormatAll(argvs: seq<seq<seq<byte>>>): seq<byte> {
    if argvs == [] then [] else Format(argvs[0]) + FormatAll(argvs[1..])
  }

  lemma {:induction false} FormatAllIsEncoding(argvs: seq<seq<seq<byte>>>)
    ensures FormatAll(argvs) == EncodeAll(Commands(argvs))
    ensures forall i :: 0 <= i < |argvs| ==> Encodable(Commands(argvs)[i]) && Fits(Commands(argvs)[i], MAX_DEPTH)
  {
    hide Format, Encode, Encodable, Fits;
    if argvs != [] {
      FormatIsEncoding(argvs[0]);
      FormatAllIsEncoding(argvs[1..]);
      assert Commands(argvs)[1..] == Commands(argvs[1..]);
      forall i | 0 <= i < |argvs|
        ensures Encodable(Commands(argvs)[i]) && Fits(Commands(argvs)[i], MAX_DEPTH)
      {
        if i > 0 {
          assert Commands(argvs)[i] == Commands(argvs[1..])[i - 1];
        }
      }
    }
  }

  lemma {:induction false} FormatAllAppend(a: seq<seq<seq<byte>>>, b: seq<seq<seq<byte>>>)
    ensures FormatAll(a + b) == FormatAll(a) + FormatAll(b)
  {
    hide Format;
    if a == [] {
      assert a + b == b;
    } else {
      assert (a + b)[1..] == a[1..] + b;
      FormatAllAppend(a[1..], b);
      assert Format(a[0]) + (FormatAll(a[1..]) + FormatAll(b)) == (Format(a[0]) + FormatAll(a[1..])) + FormatAll(b);
    }
  }

  /** Print then parse: a stream of printed commands reads back as exactly those argument lists. */
  lemma CommandsParseBack(argvs: seq<seq<seq<byte>>>, rest: seq<byte>)
    ensures ParseStream(FormatAll(argvs) + rest).replies == Commands(argvs) + ParseStream(rest).replies
    ensures ParseStream(FormatAll(argvs) + rest).tail == ParseStream(rest).tail
  {
    FormatAllIsEncoding(argvs);
    StreamRoundTrip(Commands(argvs), rest);
  }

  // ---------- C arguments ----------

  /** The length of the C string at the start of `mem`. */
  function StrLen(mem: seq<byte>): (n: nat)
    requires NUL in mem
    ensures n < |mem| && mem[n] == NUL && NUL !in mem[..n]
  {
    if mem[0] == NUL then 0
    else
      var n := 1 + StrLen(mem[1..]);
      assert forall i :: 0 < i < n ==> mem[i] == mem[1..][i - 1];
      n
  }

  /** `argvlen`, when given, says how long each argument is; otherwise arguments are C strings. */
  predicate ArgsOk(argv: seq<seq<byte>>, argvlen: Option<seq<nat>>) {
    match argvlen
    case Some(lens) => |lens| == |argv| && forall j :: 0 <= j < |argv| ==> lens[j] <= |argv[j]|
    case None => forall j :: 0 <= j < |argv| ==> NUL in argv[j]
  }

  function ArgLen(argv: seq<seq<byte>>, argvlen: Option<seq<nat>>, j: nat): (n: nat)
    requires ArgsOk(argv, argvlen) && j < |argv|
    ensures n <= |argv[j]|
  {
    if argvlen.Some? then argvlen.value[j] else StrLen(argv[j])
  }

  /** The argument list the C arguments denote. */
  function Tokens(argv: seq<seq<byte>>, argvlen: Option<seq<nat>>): (r: seq<seq<byte>>)
    requires ArgsOk(argv, argvlen)
    ensures |r| == |argv| && forall j :: 0 <= j < |argv| ==> r[j] == argv[j][..ArgLen(argv, argvlen, j)]
  {
    seq(|argv|, j requires 0 <= j < |argv| => argv[j][..ArgLen(argv, argvlen, j)])
  }

  lemma StrLenIs(text: seq<byte>, beyond: seq<byte>)
    requires NUL !in text
    ensures StrLen(text + [NUL] + beyond) == |text| && NUL in text + [NUL] + beyond
  {
    assert (text + [NUL] + beyond)[|text|] == NUL;
  }

  /** Texts with their lengths are these arguments, and so are C strings, whatever memory is behind them. */
  lemma TokensAreTheTexts(texts: seq<seq<byte>>, beyond: seq<seq<byte>>)
    requires |texts| == |beyond|
    ensures var argv := seq(|texts|, j requires 0 <= j < |texts| => texts[j] + beyond[j]);
      var lens := Some(seq(|texts|, j requires 0 <= j < |texts| => |texts[j]|));
      ArgsOk(argv, lens) && Tokens(argv, lens) == texts
    ensures (forall j :: 0 <= j < |texts| ==> NUL !in texts[j]) ==>
      var argv := seq(|texts|, j requires 0 <= j < |texts| => texts[j] + [NUL] + beyond[j]);
      ArgsOk(argv, None) && Tokens(argv, None) == texts
  {
    hide StrLen;
    if forall j :: 0 <= j < |texts| ==> NUL !in texts[j] {
      var argv := seq(|texts|, j requires 0 <= j < |texts| => texts[j] + [NUL] + beyond[j]);
      forall j | 0 <= j < |texts|
        ensures NUL in argv[j] && StrLen(argv[j]) == |texts[j]| && argv[j][..|texts[j]|] == texts[j]
      {
        StrLenIs(texts[j], beyond[j]);
      }
      assert Tokens(argv, None) == texts;
    }
  }

  // ---------- sizes ----------

  /** `bulklen`. */
  method BulkLen(n: nat) returns (r: nat)
    ensures forall arg: seq<byte> :: |arg| == n ==> r == |FormatArg(arg)|
  {
    var d := CountDigits(n);
    r := 1 + d + 2 + n + 2;
  }

  lemma {:induction false} FormatArgsSnoc(argv: seq<seq<byte>>, arg: seq<byte>)
    ensures FormatArgs(argv + [arg]) == FormatArgs(argv) + FormatArg(arg)
  {
    hide FormatArg;
    if argv == [] {
      assert argv + [arg] == [arg] && [arg][1..] == [];
    } else {
      assert (argv + [arg])[1..] == argv[1..] + [arg];
      FormatArgsSnoc(argv[1..], arg);
      assert FormatArg(argv[0]) + (FormatArgs(argv[1..]) + FormatArg(arg))
          == (FormatArg(argv[0]) + FormatArgs(argv[1..])) + FormatArg(arg);
    }
  }

  lemma FormatArgsPrefix(argv: seq<seq<byte>>, j: nat)
    requires j < |argv|
    ensures FormatArgs(argv[..j + 1]) == FormatArgs(argv[..j]) + FormatArg(argv[j])
  {
    assert argv[..j + 1] == argv[..j] + [argv[j]];
    FormatArgsSnoc(argv[..j], argv[j]);
  }

  lemma {:induction false} FormatArgsSplit(argv: seq<seq<byte>>, j: nat)
    requires j <= |argv|
    ensures FormatArgs(argv) == FormatArgs(argv[..j]) + FormatArgs(argv[j..])
    decreases |argv| - j
  {
    hide FormatArg;
    if j == |argv| {
      assert argv[..j] == argv;
    } else {
      FormatArgsSplit(argv, j + 1);
      FormatArgsPrefix(argv, j);
      assert argv[j..][1..] == argv[j + 1..];
      assert (FormatArgs(argv[..j]) + FormatArg(argv[j])) + FormatArgs(argv[j + 1..])
          == FormatArgs(argv[..j]) + (FormatArg(argv[j]) + FormatArgs(argv[j + 1..]));
    }
  }

  /** The bytes needed for a command, computed before any of it is written. */
  method TotalLen(argv: seq<seq<byte>>, argvlen: Option<seq<nat>>) returns (totlen: nat)
    requires ArgsOk(argv, argvlen)
    ensures totlen == |Format(Tokens(argv, argvlen))|
  {
    hide FormatArg, FormatArgs, StrLen;
    ghost var ts := Tokens(argv, argvlen);
    var d := CountDigits(|argv|);
    totlen := 1 + d + 2;
    NoArgs(ts);
    for j := 0 to |argv|
      invariant totlen == |HeaderLine(STAR, |argv|)| + |FormatArgs(ts[..j])|
    {
      var n := ArgLen(argv, argvlen, j);
      var b := BulkLen(n);
      FormatArgsPrefix(ts, j);
      assert |ts[j]| == n && b == |FormatArg(ts[j])|;
      totlen := totlen + b;
    }
    assert ts[..|argv|] == ts;
  }

  lemma NoArgs(argv: seq<seq<byte>>)
    ensures FormatArgs(argv[..0]) == []
  {
  }

  // ---------- filling the buffer ----------

  /** `sprintf` of a tag, a number and CRLF at `pos`, with the NUL it appends; it needs room for that too. */
  method PrintHeader(cmd: array<byte>, pos: nat, tag: byte, n: nat) returns (next: nat)
    requires pos + |HeaderLine(tag, n)| < cmd.Length
    modifies cmd
    ensures next == pos + |HeaderLine(tag, n)|
    ensures cmd[..next] == old(cmd[..pos]) + HeaderLine(tag, n)
  {
    var text := HeaderLine(tag, n) + [NUL];
    S.Blit(cmd, pos, text);
    next := pos + |text| - 1;
    assert cmd[..next] == cmd[..pos] + cmd[pos..pos + |text|][..|text| - 1];
  }

  /** One argument: header, bytes, CRLF. */
  method PrintArg(cmd: array<byte>, pos: nat, arg: seq<byte>) returns (next: nat)
    requires pos + |FormatArg(arg)| < cmd.Length
    modifies cmd
    ensures next == pos + |FormatArg(arg)|
    ensures cmd[..next] == old(cmd[..pos]) + FormatArg(arg)
  {
    hide HeaderLine;
    ghost var before := cmd[..pos];
    var p := PrintHeader(cmd, pos, DOLLAR, |arg|);
    S.Blit(cmd, p, arg);
    var q := p + |arg|;
    assert cmd[..q] == cmd[..p] + cmd[p..q];
    cmd[q] := CR;
    cmd[q + 1] := LF;
    next := q + 2;
    assert cmd[..next] == cmd[..q] + CRLF;
    assert cmd[..next] == before + HeaderLine(DOLLAR, |arg|) + arg + CRLF;
  }

  /** The fill pass over a buffer of the precomputed size; it ends exactly at that size. */
  method Fill(argv: seq<seq<byte>>, totlen: nat) returns (cmd: array<byte>)
    requires totlen == |Format(argv)|
    ensures fresh(cmd) && cmd.Length == totlen + 1
    ensures cmd[..totlen] == Format(argv) && cmd[totlen] == NUL
  {
    hide FormatArg, FormatArgs, HeaderLine;
    cmd := new byte[totlen + 1];
    NoArgs(argv);
    var pos: nat := PrintHeader(cmd, 0, STAR, |argv|);
    assert cmd[..pos] == HeaderLine(STAR, |argv|) + FormatArgs(argv[..0]);
    for j := 0 to |argv|
      invariant pos <= totlen && cmd[..pos] == HeaderLine(STAR, |argv|) + FormatArgs(argv[..j])
    {
      FormatArgsPrefix(argv, j);
      FormatArgsSplit(argv, j + 1);
      pos := PrintArg(cmd, pos, argv[j]);
    }
    assert argv[..|argv|] == argv;
    assert pos == totlen;
    cmd[pos] := NUL;
  }

  /** `redisFormatCommandArgv`. */
  method FormatCommandArgv(argv: seq<seq<byte>>, argvlen: Option<seq<nat>>) returns (cmd: array<byte>, totlen: nat)
    requires ArgsOk(argv, argvlen)
    ensures fresh(cmd) && cmd.Length == totlen + 1
    ensures cmd[..totlen] == Format(Tokens(argv, argvlen)) && cmd[totlen] == NUL
  {
    totlen := TotalLen(argv, argvlen);
    cmd := Fill(Tokens(argv, argvlen), totlen);
  }

  // ---------- redisFormatSdsCommandArgv ----------

  const COUNT_FORMAT: seq<byte> := [STAR, PERCENT, 105, CR, LF]  // *%i\r\n
  const LENGTH_FORMAT: seq<byte> := [DOLLAR, PERCENT, 117, CR, LF]  // $%u\r\n

  lemma HeaderFormats(n: nat)
    requires n < 0x8000_0000
    ensures S.FmtOk(COUNT_FORMAT, [S.Signed(n)]) && S.Expand(COUNT_FORMAT, [S.Signed(n)]) == HeaderLine(STAR, n)
    ensures S.FmtOk(LENGTH_FORMAT, [S.Unsigned(n)]) && S.Expand(LENGTH_FORMAT, [S.Unsigned(n)]) == HeaderLine(DOLLAR, n)
  {
    HeaderFormat(STAR, 105, S.Signed(n));
    HeaderFormat(DOLLAR, 117, S.Unsigned(n));
  }

  lemma HeaderFormat(tag: byte, c: byte, arg: S.FmtArg)
    requires tag != PERCENT && S.TakesArg(c) && S.ArgFor(c, arg)
    ensures S.FmtOk([tag, PERCENT, c, CR, LF], [arg])
    ensures S.Expand([tag, PERCENT, c, CR, LF], [arg]) == [tag] + S.TextOf(arg) + CRLF
  {
    hide S.FmtOk, S.Expand;
    var none: seq<S.FmtArg> := [];
    assert none + none == none && none + [arg] == [arg] && [arg] + none == [arg];
    assert [LF] + [] == [LF] && [CR] + [LF] == CRLF;
    S.ExpandNothing();
    S.UnitShows(S.Plain(LF), [], none);
    S.UnitShows(S.Plain(CR), [LF], none);
    S.UnitShows(S.Given(c, arg), CRLF, none);
    S.UnitShows(S.Plain(tag), [PERCENT, c] + CRLF, [arg]);
    assert [tag] + ([PERCENT, c] + CRLF) == [tag, PERCENT, c, CR, LF];
    assert [tag] + (S.TextOf(arg) + CRLF) == [tag] + S.TextOf(arg) + CRLF;
  }

  /** One argument appended to a dynamic string. */
  method AppendArg(cmd: S.SdsString, arg: seq<byte>)
    requires cmd.Valid() && |arg| < 0x8000_0000 && cmd.len + |FormatArg(arg)| < S.MAX_INT
    modifies cmd, cmd.buf
    ensures cmd.Valid() && cmd.Content() == old(cmd.Content()) + FormatArg(arg)
    ensures cmd.buf == old(cmd.buf) || fresh(cmd.buf)
  {
    hide HeaderLine, S.Expand, S.FmtOk;
    HeaderFormats(|arg|);
    cmd.CatFmt(LENGTH_FORMAT, [S.Unsigned(|arg|)]);
    cmd.CatLen(arg);
    cmd.CatLen(CRLF);
  }

  /** `redisFormatSdsCommandArgv`: the same bytes, and the precomputed size is met. */
  method FormatSdsCommandArgv(argv: seq<seq<byte>>, argvlen: Option<seq<nat>>) returns (cmd: S.SdsString, totlen: nat)
    requires ArgsOk(argv, argvlen) && |Format(Tokens(argv, argvlen))| < 0x8000_0000
    ensures cmd.Valid() && cmd.Content() == Format(Tokens(argv, argvlen))
    ensures totlen == cmd.len
  {
    hide FormatArg, FormatArgs, HeaderLine, S.Expand, S.FmtOk, StrLen;
    var ts := Tokens(argv, argvlen);
    totlen := TotalLen(argv, argvlen);
    cmd := new S.SdsString([]);
    cmd.MakeRoomFor(totlen);
    ArgSizes(ts);
    HeaderFormats(|argv|);
    cmd.CatFmt(COUNT_FORMAT, [S.Signed(|argv|)]);
    NoArgs(ts);
    for j := 0 to |argv|
      invariant cmd.Valid() && fresh(cmd) && fresh(cmd.buf)
      invariant cmd.Content() == HeaderLine(STAR, |argv|) + FormatArgs(ts[..j])
    {
      ArgFits(ts, j);
      AppendArg(cmd, ts[j]);
    }
    assert ts[..|argv|] == ts;
    assert cmd.len == totlen;
  }

  /** Up to any argument, the text is no longer than the whole command. */
  lemma ArgFits(argv: seq<seq<byte>>, j: nat)
    requires j < |argv|
    ensures FormatArgs(argv[..j + 1]) == FormatArgs(argv[..j]) + FormatArg(argv[j])
    ensures |FormatArgs(argv[..j])| + |FormatArg(argv[j])| <= |FormatArgs(argv)|
  {
    hide FormatArg, FormatArgs;
    FormatArgsPrefix(argv, j);
    FormatArgsSplit(argv, j + 1);
  }

  /** Counts and lengths never exceed the size of the command. */
  lemma {:induction false} ArgSizes(argv: seq<seq<byte>>)
    ensures |argv| <= |FormatArgs(argv)|
    ensures forall j :: 0 <= j < |argv| ==> |argv[j]| <= |FormatArgs(argv)|
  {
    if argv != [] {
      ArgSizes(argv[1..]);
      forall j | 0 <= j < |argv|
        ensures |argv[j]| <= |FormatArgs(argv)|
      {
        if j > 0 {
          assert argv[j] == argv[1..][j - 1];
        }
      }
    }
  }

  // ---------- redisvFormatCommand ----------

  const S_CHAR: byte := 115
  const B_CHAR: byte := 98

  /** A variadic argument: a C string for %s, a pointer and a size for %b. */
  datatype VarArg = CString(mem: seq<byte>) | Binary(mem: seq<byte>, size: nat)

  /** The formats modelled: literal characters, spaces, %s, %b and %%, each with its argument. */
  predicate FormatOk(fmt: seq<byte>, args: seq<VarArg>)
    decreases |fmt|
  {
    if fmt == [] then true
    else if fmt[0] != PERCENT || |fmt| == 1 then fmt[0] != NUL && FormatOk(fmt[1..], args)
    else if fmt[1] == S_CHAR then
      args != [] && args[0].CString? && NUL in args[0].mem && FormatOk(fmt[2..], args[1..])
    else if fmt[1] == B_CHAR then
      args != [] && args[0].Binary? && args[0].size <= |args[0].mem| && FormatOk(fmt[2..], args[1..])
    else fmt[1] == PERCENT && FormatOk(fmt[2..], args)
  }

  /** What a format is made of: gaps between arguments, and pieces of arguments. */
  datatype Item = Gap | Piece(text: seq<byte>)

  function Items(fmt: seq<byte>, args: seq<VarArg>): seq<Item>
    requires FormatOk(fmt, args)
    decreases |fmt|
  {
    if fmt == [] then []
    else if fmt[0] != PERCENT || |fmt| == 1 then
      [if fmt[0] == SPACE then Gap else Piece([fmt[0]])] + Items(fmt[1..], args)
    else if fmt[1] == S_CHAR then [Piece(args[0].mem[..StrLen(args[0].mem)])] + Items(fmt[2..], args[1..])
    else if fmt[1] == B_CHAR then [Piece(args[0].mem[..args[0].size])] + Items(fmt[2..], args[1..])
    else [Piece([PERCENT])] + Items(fmt[2..], args)
  }

  /** The pieces before the first gap, joined, and the items from that gap on. */
  function HeadText(items: seq<Item>): seq<byte> {
    if items == [] || items[0].Gap? then [] else items[0].text + HeadText(items[1..])
  }

  function AfterHead(items: seq<Item>): (r: seq<Item>)
    ensures |r| <= |items|
  {
    if items == [] || items[0].Gap? then items else AfterHead(items[1..])
  }

  /** The arguments a format denotes: each maximal run of pieces is one, however many gaps separate them. */
  function Words(items: seq<Item>): seq<seq<byte>>
    decreases |items|
  {
    if items == [] then []
    else if items[0].Gap? then Words(items[1..])
    else [HeadText(items)] + Words(AfterHead(items[1..]))
  }

  /** The scan in progress: `cur` has been collected for an argument iff `touched`. */
  function Continue(cur: seq<byte>, touched: bool, items: seq<Item>): seq<seq<byte>> {
    if touched then [cur + HeadText(items)] + Words(AfterHead(items)) else Words(items)
  }

  lemma ContinueGap(cur: seq<byte>, touched: bool, items: seq<Item>)
    requires items != [] && items[0].Gap?
    ensures Continue(cur, touched, items) == (if touched then [cur] else []) + Words(items[1..])
  {
    assert cur + [] == cur;
  }

  lemma ContinuePiece(cur: seq<byte>, touched: bool, items: seq<Item>)
    requires items != [] && items[0].Piece? && (!touched ==> cur == [])
    ensures Continue(cur, touched, items) == Continue(cur + items[0].text, true, items[1..])
  {
    assert cur + (items[0].text + HeadText(items[1..])) == (cur + items[0].text) + HeadText(items[1..]);
    if !touched {
      assert cur + HeadText(items) == HeadText(items);
    }
  }

  lemma ContinueEnd(cur: seq<byte>, touched: bool)
    ensures Continue(cur, touched, []) == if touched then [cur] else []
  {
    assert cur + [] == cur;
  }

  /** The item at a position of the format, and what is left behind it. */
  lemma ItemAt(fmt: seq<byte>, args: seq<VarArg>, c: nat, a: nat)
    requires c < |fmt| && a <= |args| && FormatOk(fmt[c..], args[a..])
    ensures var items := Items(fmt[c..], args[a..]);
      && items != []
      && if fmt[c] != PERCENT || c + 1 == |fmt| then
           && FormatOk(fmt[c + 1..], args[a..]) && items[1..] == Items(fmt[c + 1..], args[a..])
           && items[0] == if fmt[c] == SPACE then Gap else Piece([fmt[c]])
         else if fmt[c + 1] == S_CHAR || fmt[c + 1] == B_CHAR then
           && a < |args| && FormatOk(fmt[c + 2..], args[a + 1..])
           && items[1..] == Items(fmt[c + 2..], args[a + 1..])
           && (fmt[c + 1] == S_CHAR ==> NUL in args[a].mem && items[0] == Piece(args[a].mem[..StrLen(args[a].mem)]))
           && (fmt[c + 1] == B_CHAR ==>
                 args[a].Binary? && args[a].size <= |args[a].mem| && items[0] == Piece(args[a].mem[..args[a].size]))
         else
           && FormatOk(fmt[c + 2..], args[a..]) && items[1..] == Items(fmt[c + 2..], args[a..])
           && items[0] == Piece([PERCENT])
  {
    hide StrLen;
    var f, x := fmt[c..], args[a..];
    assert f[0] == fmt[c] && f[1..] == fmt[c + 1..];
    if |f| > 1 {
      assert f[1] == fmt[c + 1] && f[2..] == fmt[c + 2..];
    }
    if x != [] {
      assert x[0] == args[a] && x[1..] == args[a + 1..];
    }
  }

  /** The scanning loop of `redisvFormatCommand`, with the size summed as arguments are completed. */
  method Scan(fmt: seq<byte>, args: seq<VarArg>) returns (argv: seq<seq<byte>>, argslen: nat)
    requires FormatOk(fmt, args)
    ensures argv == Words(Items(fmt, args)) && argslen == |FormatArgs(argv)|
  {
    hide Continue, Words, FormatArg, StrLen, FormatOk, Items;
    var c, a := 0, 0;
    var curarg: seq<byte>, touched := [], false;
    argv, argslen := [], 0;
    ghost var all := Words(Items(fmt, args));
    assert all == [] + Continue([], false, Items(fmt, args)) by { ContinueStart(Items(fmt, args)); }
    while c < |fmt|
      invariant c <= |fmt| && a <= |args| && FormatOk(fmt[c..], args[a..])
      invariant !touched ==> curarg == []
      invariant all == argv + Continue(curarg, touched, Items(fmt[c..], args[a..]))
      invariant argslen == |FormatArgs(argv)|
    {
      ghost var items := Items(fmt[c..], args[a..]);
      ItemAt(fmt, args, c, a);
      if fmt[c] != PERCENT || c + 1 == |fmt| {
        c := c + 1;
        if fmt[c - 1] == SPACE {
          ContinueGap(curarg, touched, items);
          ContinueStart(items[1..]);
          if touched {
            FormatArgsSnoc(argv, curarg);
            argv := argv + [curarg];
            var b := BulkLen(|curarg|);
            argslen := argslen + b;
            curarg := [];
            touched := false;
          }
        } else {
          ContinuePiece(curarg, touched, items);
          curarg := curarg + [fmt[c - 1]];
          touched := true;
        }
      } else {
        ContinuePiece(curarg, touched, items);
        if fmt[c + 1] == S_CHAR || fmt[c + 1] == B_CHAR {
          var size := if fmt[c + 1] == S_CHAR then StrLen(args[a].mem) else args[a].size;
          curarg := curarg + args[a].mem[..size];
          a := a + 1;
        } else {
          curarg := curarg + [PERCENT];
        }
        touched := true;
        c := c + 2;
      }
    }
    ContinueEnd(curarg, touched);
    assert fmt[c..] == [];
    NoItems(args[a..]);
    if touched {
      FormatArgsSnoc(argv, curarg);
      argv := argv + [curarg];
      var b := BulkLen(|curarg|);
      argslen := argslen + b;
    }
  }

  lemma NoItems(args: seq<VarArg>)
    ensures Items([], args) == []
  {
  }

  lemma ContinueStart(items: seq<Item>)
    ensures Continue([], false, items) == Words(items)
  {
  }

  /** `redisvFormatCommand`: the same bytes as printing the argument list the format denotes. */
  method FormatCommand(fmt: seq<byte>, args: seq<VarArg>) returns (cmd: array<byte>, totlen: nat)
    requires FormatOk(fmt, args)
    ensures fresh(cmd) && cmd.Length == totlen + 1
    ensures cmd[..totlen] == Format(Words(Items(fmt, args))) && cmd[totlen] == NUL
  {
    hide Words, FormatArg;
    var argv, argslen := Scan(fmt, args);
    var d := CountDigits(|argv|);
    totlen := argslen + 1 + d + 2;
    cmd := Fill(argv, totlen);
  }

  /** What is interpolated never splits or removes an argument: their number depends on the format alone. */
  lemma {:induction false} InterpolationNeverSplits(fmt: seq<byte>, a: seq<VarArg>, b: seq<VarArg>)
    requires FormatOk(fmt, a) && FormatOk(fmt, b)
    ensures |Words(Items(fmt, a))| == |Words(Items(fmt, b))|
  {
    hide Words;
    SameShape(fmt, a, b);
    ShapeDecides(Items(fmt, a), Items(fmt, b));
  }

  predicate Alike(a: seq<Item>, b: seq<Item>) {
    |a| == |b| && forall i :: 0 <= i < |a| ==> a[i].Gap? == b[i].Gap?
  }

  lemma {:induction false} SameShape(fmt: seq<byte>, a: seq<VarArg>, b: seq<VarArg>)
    requires FormatOk(fmt, a) && FormatOk(fmt, b)
    ensures Alike(Items(fmt, a), Items(fmt, b))
    decreases |fmt|
  {
    if fmt != [] {
      if fmt[0] != PERCENT || |fmt| == 1 {
        SameShape(fmt[1..], a, b);
      } else if fmt[1] == PERCENT {
        SameShape(fmt[2..], a, b);
      } else {
        SameShape(fmt[2..], a[1..], b[1..]);
      }
    }
  }

  lemma {:induction false} ShapeDecides(a: seq<Item>, b: seq<Item>)
    requires Alike(a, b)
    ensures |Words(a)| == |Words(b)|
    decreases |a|
  {
    if a != [] {
      if a[0].Gap? {
        ShapeDecides(a[1..], b[1..]);
      } else {
        AfterHeadAlike(a[1..], b[1..]);
        ShapeDecides(AfterHead(a[1..]), AfterHead(b[1..]));
      }
    }
  }

  lemma {:induction false} AfterHeadAlike(a: seq<Item>, b: seq<Item>)
    requires Alike(a, b)
    ensures Alike(AfterHead(a), AfterHead(b))
  {
    if a != [] && !a[0].Gap? {
      AfterHeadAlike(a[1..], b[1..]);
    }
  }

  // ---------- nextArgument ----------

  function SkipSpace(mem: seq<byte>, p: nat): (r: nat)
    requires p <= |mem|
    ensures p <= r <= |mem|
    decreases |mem| - p
  {
    if p < |mem| && IsSpace(mem[p]) then SkipSpace(mem, p + 1) else p
  }

  function DigitsAt(mem: seq<byte>, p: nat, v: nat): nat
    requires p <= |mem|
    decreases |mem| - p
  {
    if p < |mem| && IsDigit(mem[p]) then DigitsAt(mem, p + 1, v * 10 + (mem[p] - ZERO)) else v
  }

  /** `strtol` in base ten. */
  function StrToL(mem: seq<byte>, p: nat): int
    requires p <= |mem|
  {
    var q := SkipSpace(mem, p);
    if q < |mem| && mem[q] == MINUS then -1 * DigitsAt(mem, q + 1, 0)
    else if q < |mem| && mem[q] == PLUS then DigitsAt(mem, q + 1, 0)
    else DigitsAt(mem, q, 0)
  }

  /** An argument found at `str`, `len` bytes long, with the scan to go on at `next`; no argument left; or
      text that is no command, on which the scanner's assertion fails. */
  datatype Next = Arg(str: nat, len: int, next: int) | NoMore | Malformed

  /** `nextArgument`. */
  function NextArgument(mem: seq<byte>, start: nat): (r: Next)
    requires start < |mem|
    ensures r.Arg? ==> start < r.str
  {
    var p := if mem[start] == DOLLAR then Some(start) else StrChr(mem, start, DOLLAR);
    if p.None? then NoMore
    else
      var len := StrToL(mem, p.value + 1);
      var cr := StrChr(mem, p.value, CR);
      if cr.None? then Malformed else Arg(cr.value + 2, len, cr.value + 2 + len + 2)
  }

  lemma {:induction false} StrChrFinds(mem: seq<byte>, from: nat, at: nat, c: byte)
    requires from <= at < |mem| && c != NUL && mem[at] == c
    requires forall k :: from <= k < at ==> mem[k] != c && mem[k] != NUL
    ensures StrChr(mem, from, c) == Some(at)
    decreases at - from
  {
    if from < at {
      StrChrFinds(mem, from + 1, at, c);
    }
  }

  lemma {:induction false} DigitsAtReads(mem: seq<byte>, p: nat, ds: seq<byte>, v: nat)
    requires AllDigits(ds) && p + |ds| < |mem| && mem[p..p + |ds|] == ds && !IsDigit(mem[p + |ds|])
    ensures ReadDigits(ds, v).Some? && DigitsAt(mem, p, v) == ReadDigits(ds, v).value
    decreases |ds|
  {
    if ds != [] {
      assert mem[p] == mem[p..p + |ds|][0] == ds[0];
      assert mem[p + 1..p + 1 + |ds[1..]|] == mem[p..p + |ds|][1..];
      DigitsAtReads(mem, p + 1, ds[1..], v * 10 + (ds[0] - ZERO));
    }
  }

  /** A header line in memory: where its CR is, and the number it spells. */
  lemma HeaderInMemory(mem: seq<byte>, p: nat, tag: byte, n: nat)
    requires p + |HeaderLine(tag, n)| <= |mem| && mem[p..p + |HeaderLine(tag, n)|] == HeaderLine(tag, n)
    requires tag != NUL && tag != CR
    ensures mem[p] == tag
    ensures StrToL(mem, p + 1) == n
    ensures StrChr(mem, p, CR) == Some(p + 1 + |Digits(n)|)
    ensures forall k :: p < k < p + |HeaderLine(tag, n)| ==> mem[k] != DOLLAR && mem[k] != NUL
  {
    hide StrToL, StrChr, HeaderLine, Digits;
    var h := HeaderLine(tag, n);
    HeaderBytes(tag, n);
    var slice := mem[p..p + |h|];
    assert forall k :: p <= k < p + |h| ==> mem[k] == slice[k - p];
    NumberInMemory(mem, p + 1, n);
    var cr := p + 1 + |Digits(n)|;
    assert forall k :: p < k < cr ==> IsDigit(mem[k]);
    StrChrFinds(mem, p, cr, CR);
  }

  lemma HeaderBytes(tag: byte, n: nat)
    ensures var h := HeaderLine(tag, n);
      && |h| == |Digits(n)| + 3 && h[0] == tag && h[|h| - 2] == CR && h[|h| - 1] == LF
      && forall k :: 0 < k <= |Digits(n)| ==> h[k] == Digits(n)[k - 1]
  {
  }

  lemma NumberInMemory(mem: seq<byte>, p: nat, n: nat)
    requires p + |Digits(n)| < |mem| && mem[p + |Digits(n)|] == CR
    requires forall k :: p <= k < p + |Digits(n)| ==> mem[k] == Digits(n)[k - p]
    ensures StrToL(mem, p) == n
  {
    var ds := Digits(n);
    assert mem[p..p + |ds|] == ds;
    assert mem[p] == ds[0];
    DigitsAtReads(mem, p, ds, 0);
    ReadDigitsOfDigits(n);
  }

  /** At an argument, the scanner finds exactly it, whatever bytes it holds, and goes on right after it. */
  lemma ArgumentFound(mem: seq<byte>, start: nat, arg: seq<byte>)
    requires start + |FormatArg(arg)| <= |mem| && mem[start..start + |FormatArg(arg)|] == FormatArg(arg)
    ensures var h := |HeaderLine(DOLLAR, |arg|)|;
      && NextArgument(mem, start) == Arg(start + h, |arg|, start + |FormatArg(arg)|)
      && mem[start + h..start + h + |arg|] == arg
  {
    hide StrToL, StrChr;
    var h := HeaderLine(DOLLAR, |arg|);
    assert FormatArg(arg) == h + (arg + CRLF);
    SlicePair(mem, start, h, arg + CRLF);
    SlicePair(mem, start + |h|, arg, CRLF);
    HeaderInMemory(mem, start, DOLLAR, |arg|);
  }

  /** From the start of a command, the scanner skips the count and finds the first argument. */
  lemma FirstArgumentFound(mem: seq<byte>, n: nat)
    requires |HeaderLine(STAR, n)| < |mem| && mem[..|HeaderLine(STAR, n)|] == HeaderLine(STAR, n)
    ensures mem[|HeaderLine(STAR, n)|] == DOLLAR ==> NextArgument(mem, 0) == NextArgument(mem, |HeaderLine(STAR, n)|)
    ensures mem[|HeaderLine(STAR, n)|] == NUL ==> NextArgument(mem, 0) == NoMore
  {
    var h := |HeaderLine(STAR, n)|;
    assert mem[0..h] == mem[..h];
    HeaderInMemory(mem, 0, STAR, n);
    if mem[h] == DOLLAR {
      StrChrFinds(mem, 0, h, DOLLAR);
    } else if mem[h] == NUL {
      assert StrChr(mem, 0, DOLLAR).None? by {
        StrChrStops(mem, 0, h, DOLLAR);
      }
    }
  }

  lemma {:induction false} StrChrStops(mem: seq<byte>, from: nat, at: nat, c: byte)
    requires from <= at < |mem| && c != NUL && mem[at] == NUL
    requires forall k :: from <= k < at ==> mem[k] != c
    ensures StrChr(mem, from, c) == None
    decreases at - from
  {
    if from < at {
      StrChrStops(mem, from + 1, at, c);
    }
  }

  /** The text of a command in memory, NUL-terminated as all three printers leave it. */
  function InMemory(argv: seq<seq<byte>>): seq<byte> {
    Format(argv) + [NUL]
  }

  /** Where the j-th argument starts. */
  function ArgStart(argv: seq<seq<byte>>, j: nat): nat
    requires j <= |argv|
  {
    |HeaderLine(STAR, |argv|)| + |FormatArgs(argv[..j])|
  }

  lemma ArgInMemory(argv: seq<seq<byte>>, j: nat)
    requires j <= |argv|
    ensures ArgStart(argv, j) < |InMemory(argv)|
    ensures j < |argv| ==>
      var p := ArgStart(argv, j);
      && p + |FormatArg(argv[j])| == ArgStart(argv, j + 1)
      && ArgStart(argv, j + 1) < |InMemory(argv)|
      && InMemory(argv)[p..p + |FormatArg(argv[j])|] == FormatArg(argv[j])
      && InMemory(argv)[p] == DOLLAR
    ensures j == |argv| ==> InMemory(argv)[ArgStart(argv, j)] == NUL
  {
    hide HeaderLine, FormatArgs;
    var h := HeaderLine(STAR, |argv|);
    FormatArgsSplit(argv, j);
    if j < |argv| {
      FormatArgsPrefix(argv, j);
      FormatArgsSplit(argv, j + 1);
      var before, arg, after := FormatArgs(argv[..j]), FormatArg(argv[j]), FormatArgs(argv[j + 1..]);
      assert InMemory(argv) == (h + before) + arg + (after + [NUL]);
      DollarFirst(argv[j]);
    } else {
      assert argv[..j] == argv;
    }
  }

  lemma DollarFirst(arg: seq<byte>)
    ensures |FormatArg(arg)| > 0 && FormatArg(arg)[0] == DOLLAR
  {
  }

  /** Iterating `nextArgument` over a printed command: the argument list, whatever bytes it holds. */
  method Arguments(mem: seq<byte>, ghost argv: seq<seq<byte>>) returns (args: seq<seq<byte>>)
    requires mem == InMemory(argv)
    ensures args == argv
  {
    hide HeaderLine, FormatArgs, FormatArg, NextArgument, ArgStart, InMemory;
    args := [];
    FirstNext(argv);
    var r := NextArgument(mem, 0);
    while r.Arg?
      invariant |args| <= |argv| && args == argv[..|args|]
      invariant ArgStart(argv, |args|) < |mem| && r == NextArgument(mem, ArgStart(argv, |args|))
      invariant |args| == |argv| ==> r == NoMore
      decreases |argv| - |args|
    {
      NextFound(argv, |args|);
      args := args + [mem[r.str..r.str + r.len]];
      r := NextArgument(mem, r.next);
    }
    if |args| < |argv| {
      NextFound(argv, |args|);
    }
  }

  lemma NextFound(argv: seq<seq<byte>>, j: nat)
    requires j < |argv|
    ensures ArgStart(argv, j) < |InMemory(argv)| && ArgStart(argv, j + 1) < |InMemory(argv)|
    ensures var r := NextArgument(InMemory(argv), ArgStart(argv, j));
      && r.Arg? && r.next == ArgStart(argv, j + 1) && 0 <= r.len && r.str + r.len <= |InMemory(argv)|
      && InMemory(argv)[r.str..r.str + r.len] == argv[j]
    ensures j + 1 == |argv| ==> NextArgument(InMemory(argv), ArgStart(argv, j + 1)) == NoMore
  {
    hide NextArgument, ArgStart, InMemory;
    ArgInMemory(argv, j);
    ArgInMemory(argv, j + 1);
    ArgumentFound(InMemory(argv), ArgStart(argv, j), argv[j]);
    if j + 1 == |argv| {
      EndFound(InMemory(argv), ArgStart(argv, j + 1));
    }
  }

  lemma EndFound(mem: seq<byte>, p: nat)
    requires p < |mem| && mem[p] == NUL
    ensures NextArgument(mem, p) == NoMore
  {
  }

  lemma FirstNext(argv: seq<seq<byte>>)
    ensures ArgStart(argv, 0) < |InMemory(argv)|
    ensures NextArgument(InMemory(argv), 0) == NextArgument(InMemory(argv), ArgStart(argv, 0))
    ensures argv == [] ==> NextArgument(InMemory(argv), 0) == NoMore
  {
    hide NextArgument, HeaderLine, FormatArg;
    ArgInMemory(argv, 0);
    NoArgs(argv);
    var h := HeaderLine(STAR, |argv|);
    assert InMemory(argv)[..|h|] == h;
    FirstArgumentFound(InMemory(argv), |argv|);
    if argv == [] {
      EndFound(InMemory(argv), ArgStart(argv, 0));
    }
  }

  // ---------- which commands are special ----------

  function Lower(c: byte): byte {
    if 65 <= c <= 90 then c + 32 else c
  }

  /** `strncasecmp(mem + p, word, |word|) == 0` for a lower-case word. */
  predicate MatchesAt(mem: seq<byte>, p: nat, word: seq<byte>) {
    p + |word| <= |mem| && forall i :: 0 <= i < |word| ==> Lower(mem[p + i]) == word[i]
  }

  const SUBSCRIBE: seq<byte> := [115, 117, 98, 115, 99, 114, 105, 98, 101] + CRLF
  const UNSUBSCRIBE: seq<byte> := [117, 110] + SUBSCRIBE
  const MONITOR: seq<byte> := [109, 111, 110, 105, 116, 111, 114] + CRLF

  /** The command is none of (P)SUBSCRIBE, (P)UNSUBSCRIBE and MONITOR as `__redisAsyncCommand` tells them. */
  predicate IsRegular(mem: seq<byte>)
    requires |mem| > 0
  {
    var first := NextArgument(mem, 0);
    first.Arg? && 0 <= first.next < |mem| && first.str < |mem| &&
    var hasnext := mem[first.next] == DOLLAR;
    var cstr := if Lower(mem[first.str]) == 112 then first.str + 1 else first.str;
    && !(hasnext && MatchesAt(mem, cstr, SUBSCRIBE))
    && !MatchesAt(mem, cstr, UNSUBSCRIBE) && !MatchesAt(mem, cstr, MONITOR)
  }

  /** The name of a command, without a leading `p`, is the word, in either case of its letters. A name that goes on
      behind a line end of its own counts too. */
  predicate Named(name: seq<byte>, word: seq<byte>) {
    var s := (if name != [] && Lower(name[0]) == 112 then name[1..] else name) + CRLF;
    |word| <= |s| && forall i :: 0 <= i < |word| ==> Lower(s[i]) == word[i]
  }

  /** A name without CR is a word exactly if it has its letters, but for their case. */
  lemma NamedIff(name: seq<byte>, word: seq<byte>)
    requires CR !in name && CR !in word
    ensures var s := if name != [] && Lower(name[0]) == 112 then name[1..] else name;
      Named(name, word + CRLF) <==> |s| == |word| && forall i :: 0 <= i < |word| ==> Lower(s[i]) == word[i]
  {
    var s := if name != [] && Lower(name[0]) == 112 then name[1..] else name;
    var t, w := s + CRLF, word + CRLF;
    if Named(name, w) {
      assert forall i :: 0 <= i < |word| ==> Lower(t[i]) == w[i] == word[i];
      assert Lower(t[|word|]) == w[|word|] == CR;
    } else if |s| == |word| {
      var i :| 0 <= i < |w| && Lower(t[i]) != w[i];
      assert i < |word|;
    }
  }

  lemma NameInMemory(mem: seq<byte>, name: seq<byte>, str: nat, word: seq<byte>)
    requires str + |name| + 2 <= |mem| && mem[str..str + |name| + 2] == name + CRLF
    requires forall i :: 0 <= i < |word| - 2 ==> word[i] != CR
    ensures MatchesAt(mem, if Lower(mem[str]) == 112 then str + 1 else str, word) == Named(name, word)
  {
    var slice := mem[str..str + |name| + 2];
    assert mem[str] == slice[0];
    var skip := if Lower(mem[str]) == 112 then 1 else 0;
    var x := name[skip..];
    assert slice[skip..] == x + CRLF;
    TextInMemory(mem, str + skip, x, word);
  }

  lemma NamesInMemory(mem: seq<byte>, name: seq<byte>, str: nat)
    requires str + |name| + 2 <= |mem| && mem[str..str + |name| + 2] == name + CRLF
    ensures var p := if Lower(mem[str]) == 112 then str + 1 else str;
      && MatchesAt(mem, p, SUBSCRIBE) == Named(name, SUBSCRIBE)
      && MatchesAt(mem, p, UNSUBSCRIBE) == Named(name, UNSUBSCRIBE)
      && MatchesAt(mem, p, MONITOR) == Named(name, MONITOR)
  {
    hide Named, MatchesAt;
    NameInMemory(mem, name, str, SUBSCRIBE);
    NameInMemory(mem, name, str, UNSUBSCRIBE);
    NameInMemory(mem, name, str, MONITOR);
  }

  lemma TextInMemory(mem: seq<byte>, p: nat, x: seq<byte>, word: seq<byte>)
    requires p + |x| + 2 <= |mem| && mem[p..p + |x| + 2] == x + CRLF
    requires forall i :: 0 <= i < |word| - 2 ==> word[i] != CR
    ensures MatchesAt(mem, p, word) <==>
      |word| <= |x| + 2 && forall i :: 0 <= i < |word| ==> Lower((x + CRLF)[i]) == word[i]
  {
    var s := x + CRLF;
    assert forall i :: 0 <= i < |s| ==> s[i] == mem[p + i];
    if |s| < |word| {
      assert Lower(mem[p + |x|]) == Lower(s[|x|]) == CR && word[|x|] != CR;
    }
  }

  lemma NameBehindHeader(mem: seq<byte>, start: nat, name: seq<byte>)
    requires start + |FormatArg(name)| <= |mem| && mem[start..start + |FormatArg(name)|] == FormatArg(name)
    ensures var str := start + |HeaderLine(DOLLAR, |name|)|;
      str + |name| + 2 == start + |FormatArg(name)| && mem[str..str + |name| + 2] == name + CRLF
  {
    hide HeaderLine;
    var h := HeaderLine(DOLLAR, |name|);
    assert FormatArg(name) == h + (name + CRLF);
    SlicePair(mem, start, h, name + CRLF);
  }

  /** A command is regular exactly if it has a name, the name is neither unsubscribe nor monitor, and it is not
      subscribe with anything to subscribe to. */
  lemma RegularIff(argv: seq<seq<byte>>)
    ensures IsRegular(InMemory(argv)) <==>
      && argv != [] && !Named(argv[0], UNSUBSCRIBE) && !Named(argv[0], MONITOR)
      && !(|argv| > 1 && Named(argv[0], SUBSCRIBE))
  {
    hide NextArgument, ArgStart, InMemory, FormatArg, HeaderLine, Named, MatchesAt;
    FirstNext(argv);
    if argv != [] {
      var mem := InMemory(argv);
      ArgInMemory(argv, 0);
      ArgInMemory(argv, 1);
      ArgumentFound(mem, ArgStart(argv, 0), argv[0]);
      NameBehindHeader(mem, ArgStart(argv, 0), argv[0]);
      var first := NextArgument(mem, 0);
      NamesInMemory(mem, argv[0], first.str);
    }
  }
}
