/** The quoting pair of sds.c: `sdscatrepr` writes a byte string as a quoted literal, `sdssplitargs`
    splits a line into arguments and undoes the quoting. */
module SdsRepr {
  import opened Bytes
  import S = Sds

  const QUOTE: byte := 34
  const APOSTROPHE: byte := 39
  const BACKSLASH: byte := 92
  const X_CHAR: byte := 120

  // ---------- quoting ----------

  predicate IsPrint(b: byte) {
    32 <= b <= 126
  }

  function HexDigit(n: nat): (c: byte)
    requires n < 16
    ensures IsHexDigit(c) && HexValue(c) == n
  {
    if n < 10 then 48 + n else 87 + n
  }

  predicate IsHexDigit(c: byte) {
    48 <= c <= 57 || 97 <= c <= 102 || 65 <= c <= 70
  }

  function HexValue(c: byte): (n: nat)
    ensures n < 16
  {
    if 48 <= c <= 57 then c - 48
    else if 97 <= c <= 102 then c - 87
    else if 65 <= c <= 70 then c - 55
    else 0
  }

  const HEX: seq<byte> := [48, 49, 50, 51, 52, 53, 54, 55, 56, 57, 97, 98, 99, 100, 101, 102]

  /** The digits are written in lower case and read in either. */
  lemma HexDigits(c: byte, n: nat)
    requires n < 16
    ensures HexDigit(n) == HEX[n] && HexValue(HEX[n]) == n && (n >= 10 ==> HexValue(HEX[n] - 32) == n)
    ensures IsHexDigit(c) <==> c in HEX || (65 <= c <= 90 && c + 32 in HEX)
  {
  }

  /** The letter of the one-letter escape for `b`, if it has one. */
  function ShortEscape(b: byte): Option<byte> {
    if b == BACKSLASH || b == QUOTE then Some(b)
    else if b == 10 then Some(110)
    else if b == 13 then Some(114)
    else if b == 9 then Some(116)
    else if b == 7 then Some(97)
    else if b == 8 then Some(98)
    else None
  }

  function Escape(b: byte): (e: seq<byte>)
    ensures |e| >= 1 && NUL !in e
  {
    if ShortEscape(b).Some? then [BACKSLASH, ShortEscape(b).value]
    else if IsPrint(b) then [b]
    else [BACKSLASH, X_CHAR, HexDigit(b / 16), HexDigit(b % 16)]
  }

  function EscapeAll(s: seq<byte>): (e: seq<byte>)
    ensures NUL !in e
  {
    if s == [] then [] else Escape(s[0]) + EscapeAll(s[1..])
  }

  /** The quoted form of `s`. */
  function Repr(s: seq<byte>): (r: seq<byte>)
    ensures |r| >= 2 && NUL !in r
  {
    [QUOTE] + EscapeAll(s) + [QUOTE]
  }

  lemma {:induction false} EscapeAllSnoc(s: seq<byte>, b: byte)
    ensures EscapeAll(s + [b]) == EscapeAll(s) + Escape(b)
  {
    hide Escape;
    if s == [] {
      assert s + [b] == [b] && [b][1..] == [];
    } else {
      assert (s + [b])[1..] == s[1..] + [b];
      EscapeAllSnoc(s[1..], b);
      assert Escape(s[0]) + (EscapeAll(s[1..]) + Escape(b)) == (Escape(s[0]) + EscapeAll(s[1..])) + Escape(b);
    }
  }

  lemma {:induction false} EscapeAllLength(s: seq<byte>)
    ensures |EscapeAll(s)| <= 4 * |s|
  {
    if s != [] {
      EscapeAllLength(s[1..]);
    }
  }

  /** `sdscatrepr`. */
  method CatRepr(s: S.SdsString, p: seq<byte>)
    requires s.Valid() && s.len + 4 * |p| + 2 < S.MAX_LEN
    modifies s, s.buf
    ensures s.Valid() && s.Content() == old(s.Content()) + Repr(p)
  {
    hide Escape, EscapeAll, S.Stored, S.Width;
    ghost var before := s.Content();
    EscapeNil();
    s.CatLen([QUOTE]);
    for i := 0 to |p|
      invariant s.Valid() && (s.buf == old(s.buf) || fresh(s.buf))
      invariant s.Content() == before + ([QUOTE] + EscapeAll(p[..i]))
    {
      assert p[..i + 1] == p[..i] + [p[i]];
      EscapeAllSnoc(p[..i], p[i]);
      EscapeAllLength(p[..i]);
      EscapeAllLength(p[..i + 1]);
      s.CatLen(Escape(p[i]));
    }
    assert p[..|p|] == p;
    EscapeAllLength(p);
    s.CatLen([QUOTE]);
  }

  lemma EscapeNil()
    ensures forall p: seq<byte> {:trigger p[..0]} :: EscapeAll(p[..0]) == []
  {
  }

  // ---------- splitting ----------

  /** A NUL-terminated line. */
  predicate CLine(mem: seq<byte>) {
    |mem| > 0 && mem[|mem| - 1] == NUL && NUL !in mem[..|mem| - 1]
  }

  function SkipBlanks(mem: seq<byte>, p: nat): (q: nat)
    requires CLine(mem) && p < |mem|
    ensures p <= q < |mem|
    ensures !IsSpace(mem[q])
    decreases |mem| - p
  {
    if mem[p] != NUL && IsSpace(mem[p]) then SkipBlanks(mem, p + 1) else p
  }

  datatype Mode = Plain | Double | Single

  /** A token and where the scan goes on, or unbalanced quotes. */
  datatype Token = Token(text: seq<byte>, next: nat) | Unbalanced

  function Unescape(c: byte): byte {
    if c == 110 then 10
    else if c == 114 then 13
    else if c == 116 then 9
    else if c == 98 then 8
    else if c == 97 then 7
    else c
  }

  predicate HexEscapeAt(mem: seq<byte>, p: nat)
    requires CLine(mem) && p < |mem|
  {
    mem[p] == BACKSLASH && mem[p + 1] == X_CHAR && IsHexDigit(mem[p + 2]) && IsHexDigit(mem[p + 3])
  }

  /** A closing quote must be followed by a blank or the end of the line. */
  predicate ClosesAt(mem: seq<byte>, p: nat)
    requires CLine(mem) && p + 1 < |mem|
  {
    mem[p + 1] == NUL || IsSpace(mem[p + 1])
  }

  /** One round of the token loop: either the token goes on, or it is complete, or it is malformed. */
  datatype Round = Goes(mode: Mode, cur: seq<byte>, p: nat) | Done(p: nat) | Fails

  function TokenRound(mem: seq<byte>, p: nat, mode: Mode, cur: seq<byte>): (r: Round)
    requires CLine(mem) && p < |mem|
    ensures r.Goes? ==> p < r.p < |mem|
    ensures r.Done? ==> p <= r.p < |mem| && (mem[p] != NUL ==> p < r.p)
  {
    var c := mem[p];
    match mode
    case Double =>
      if HexEscapeAt(mem, p) then Goes(mode, cur + [HexValue(mem[p + 2]) * 16 + HexValue(mem[p + 3])], p + 4)
      else if c == BACKSLASH && mem[p + 1] != NUL then Goes(mode, cur + [Unescape(mem[p + 1])], p + 2)
      else if c == QUOTE then (if ClosesAt(mem, p) then Done(p + 1) else Fails)
      else if c == NUL then Fails
      else Goes(mode, cur + [c], p + 1)
    case Single =>
      if c == BACKSLASH && mem[p + 1] == APOSTROPHE then Goes(mode, cur + [APOSTROPHE], p + 2)
      else if c == APOSTROPHE then (if ClosesAt(mem, p) then Done(p + 1) else Fails)
      else if c == NUL then Fails
      else Goes(mode, cur + [c], p + 1)
    case Plain =>
      if c == 32 || c == 10 || c == 13 || c == 9 then Done(p + 1)
      else if c == NUL then Done(p)
      else if c == QUOTE then Goes(Double, cur, p + 1)
      else if c == APOSTROPHE then Goes(Single, cur, p + 1)
      else Goes(mode, cur + [c], p + 1)
  }

  function ReadToken(mem: seq<byte>, p: nat, mode: Mode, cur: seq<byte>): (r: Token)
    requires CLine(mem) && p < |mem|
    ensures r.Token? ==> p <= r.next < |mem| && (mem[p] != NUL ==> p < r.next)
    decreases |mem| - p
  {
    match TokenRound(mem, p, mode, cur)
    case Goes(mode', cur', q) => ReadToken(mem, q, mode', cur')
    case Done(q) => Token(cur, q)
    case Fails => Unbalanced
  }

  /** The arguments of the line from `p` on; None when quotes are unbalanced. */
  function Split(mem: seq<byte>, p: nat): Option<seq<seq<byte>>>
    requires CLine(mem) && p < |mem|
    decreases |mem| - p
  {
    var q := SkipBlanks(mem, p);
    if mem[q] == NUL then Some([])
    else
      match ReadToken(mem, q, Plain, [])
      case Unbalanced => None
      case Token(text, next) =>
        var rest := Split(mem, next);
        if rest.None? then None else Some([text] + rest.value)
  }

  /** The token loop of `sdssplitargs`. */
  method ScanToken(mem: seq<byte>, start: nat) returns (ok: bool, current: seq<byte>, p: nat)
    requires CLine(mem) && start < |mem|
    ensures match ReadToken(mem, start, Plain, [])
            case Unbalanced => !ok
            case Token(text, next) => ok && current == text && p == next
  {
    hide ReadToken;
    var inq, insq, done := false, false, false;
    ok, current, p := true, [], start;
    ghost var goal := ReadToken(mem, start, Plain, []);
    while !done
      invariant p < |mem| && !(inq && insq)
      invariant !done ==> ReadToken(mem, p, ModeOf(inq, insq), current) == goal
      invariant done ==> goal == Token(current, p)
      decreases !done, |mem| - p
    {
      ReadTokenUnfolds(mem, p, ModeOf(inq, insq), current);
      if inq {
        if HexEscapeAt(mem, p) {
          current := current + [HexValue(mem[p + 2]) * 16 + HexValue(mem[p + 3])];
          p := p + 3;
        } else if mem[p] == BACKSLASH && mem[p + 1] != NUL {
          p := p + 1;
          current := current + [Unescape(mem[p])];
        } else if mem[p] == QUOTE {
          if mem[p + 1] != NUL && !IsSpace(mem[p + 1]) { return false, [], p; }
          done := true;
        } else if mem[p] == NUL {
          return false, [], p;
        } else {
          current := current + [mem[p]];
        }
      } else if insq {
        if mem[p] == BACKSLASH && mem[p + 1] == APOSTROPHE {
          p := p + 1;
          current := current + [APOSTROPHE];
        } else if mem[p] == APOSTROPHE {
          if mem[p + 1] != NUL && !IsSpace(mem[p + 1]) { return false, [], p; }
          done := true;
        } else if mem[p] == NUL {
          return false, [], p;
        } else {
          current := current + [mem[p]];
        }
      } else {
        if mem[p] in [32, 10, 13, 9, NUL] {
          done := true;
        } else if mem[p] == QUOTE {
          inq := true;
        } else if mem[p] == APOSTROPHE {
          insq := true;
        } else {
          current := current + [mem[p]];
        }
      }
      if mem[p] != NUL {
        p := p + 1;
      }
    }
  }

  function ModeOf(inq: bool, insq: bool): Mode {
    if inq then Double else if insq then Single else Plain
  }

  lemma ReadTokenUnfolds(mem: seq<byte>, p: nat, mode: Mode, cur: seq<byte>)
    requires CLine(mem) && p < |mem|
    ensures match TokenRound(mem, p, mode, cur)
            case Goes(mode', cur', q) => ReadToken(mem, p, mode, cur) == ReadToken(mem, q, mode', cur')
            case Done(q) => ReadToken(mem, p, mode, cur) == Token(cur, q)
            case Fails => ReadToken(mem, p, mode, cur) == Unbalanced
  {
  }

  /** `sdssplitargs`. */
  method SplitArgs(mem: seq<byte>) returns (r: Option<seq<seq<byte>>>)
    requires CLine(mem)
    ensures r == Split(mem, 0)
  {
    hide ReadToken, Split;
    var p: nat := 0;
    var vector: seq<seq<byte>> := [];
    ghost var goal := Split(mem, 0);
    assert goal.Some? ==> [] + goal.value == goal.value;
    while true
      invariant p < |mem|
      invariant match Split(mem, p) case None => goal == None case Some(rest) => goal == Some(vector + rest)
      decreases |mem| - p
    {
      SplitUnfolds(mem, p);
      ghost var q := SkipBlanks(mem, p);
      while mem[p] != NUL && IsSpace(mem[p])
        invariant p < |mem| && SkipBlanks(mem, p) == q
        decreases |mem| - p
      {
        p := p + 1;
      }
      if mem[p] == NUL {
        assert vector + [] == vector;
        return Some(vector);
      }
      var ok, current, next := ScanToken(mem, p);
      if !ok {
        return None;
      }
      ghost var rest := Split(mem, next);
      assert rest.Some? ==> vector + ([current] + rest.value) == (vector + [current]) + rest.value;
      vector := vector + [current];
      p := next;
    }
  }

  lemma SplitUnfolds(mem: seq<byte>, p: nat)
    requires CLine(mem) && p < |mem|
    ensures var q := SkipBlanks(mem, p);
      if mem[q] == NUL then Split(mem, p) == Some([])
      else
        match ReadToken(mem, q, Plain, [])
        case Unbalanced => Split(mem, p) == None
        case Token(text, next) =>
          Split(mem, p) == if Split(mem, next).None? then None else Some([text] + Split(mem, next).value)
  {
  }
}
