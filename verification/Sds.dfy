/** The dynamic strings of sds.c and sds.h: a header of one of five widths in front of a growable,
    NUL-terminated buffer, proved to behave as a byte sequence. */
module Sds {
  import opened Bytes
  import opened Numbers

  const TYPE_5 := 0
  const TYPE_8 := 1
  const TYPE_16 := 2
  const TYPE_32 := 3
  const TYPE_64 := 4
  const MAX_PREALLOC: nat := 1024 * 1024
  /** Lengths the caller may ask for: far enough below 2^64 that size arithmetic does not wrap. */
  const MAX_LEN: int := 0x4000_0000_0000_0000
  /** Where positions are C ints, as in `sdsrange` and `sdscatfmt`, lengths stay below this. */
  const MAX_INT: int := 0x8000_0000

  /** The number of values the len and alloc fields of a header type can hold. */
  function Width(typ: int): int {
    if typ == TYPE_5 then 32
    else if typ == TYPE_8 then 0x100
    else if typ == TYPE_16 then 0x1_0000
    else if typ == TYPE_32 then 0x1_0000_0000
    else TWO_64
  }

  /** What a len or alloc field of a header type keeps of `n`. */
  function Stored(typ: int, n: nat): (r: nat)
    ensures r < Width(typ)
    ensures n < Width(typ) ==> r == n
  {
    n % Width(typ)
  }

  /** `sdsReqType`: a type whose fields hold `size`. */
  function ReqType(size: nat): (t: int)
    ensures TYPE_5 <= t <= TYPE_64
    ensures size < MAX_LEN + MAX_LEN ==> size < Width(t)
    ensures t != TYPE_5 ==> size >= 32
  {
    if size < 32 then TYPE_5
    else if size < 0xff then TYPE_8
    else if size < 0xffff then TYPE_16
    else if size < 0xffff_ffff then TYPE_32
    else TYPE_64
  }

  /** The bytes `sdsrange(s, start, end)` keeps: an inclusive interval, negative ends counted from the back. */
  function RangeOf(c: seq<byte>, start: int, end: int): seq<byte> {
    var n := |c|;
    var s := if start >= 0 then start else if n + start >= 0 then n + start else 0;
    var e := if end >= n then n - 1 else if end >= 0 then end else if n + end >= 0 then n + end else 0;
    if s <= e < n then c[s..e + 1] else []
  }

  /** The interval of `sdsrange`: both ends count, an end past the last byte means the last byte, and negative ends
      are positions from the back, or 0 if they lie before the first byte. */
  lemma RangeIsInterval(c: seq<byte>, start: int, end: int)
    ensures 0 <= start <= end < |c| ==>
      |RangeOf(c, start, end)| == end - start + 1 &&
      forall i :: 0 <= i <= end - start ==> RangeOf(c, start, end)[i] == c[start + i]
    ensures 0 <= start < |c| <= end ==> RangeOf(c, start, end) == c[start..]
    ensures start >= |c| || 0 <= end < start ==> RangeOf(c, start, end) == []
    ensures start < 0 ==> RangeOf(c, start, end) == RangeOf(c, if |c| + start < 0 then 0 else |c| + start, end)
    ensures end < 0 ==> RangeOf(c, start, end) == RangeOf(c, start, if |c| + end < 0 then 0 else |c| + end)
    ensures RangeOf(c, 0, -1) == c
    ensures -|c| <= start < 0 ==> RangeOf(c, start, -1) == c[|c| + start..]
  {
  }

  function Zeros(n: nat): (zeros: seq<byte>)
    ensures |zeros| == n && forall i :: 0 <= i < n ==> zeros[i] == NUL
  {
    seq(n, _ => NUL)
  }

  /** `memcpy(b + at, t, |t|)`. */
  method Blit(b: array<byte>, at: nat, t: seq<byte>)
    requires at + |t| <= b.Length
    modifies b
    ensures b[..at] == old(b[..at])
    ensures b[at..at + |t|] == t
    ensures b[at + |t|..] == old(b[at + |t|..])
  {
    forall i | 0 <= i < |t| {
      b[at + i] := t[i];
    }
  }

  /** `memmove(b, b + from, n)`. */
  method ShiftDown(b: array<byte>, from: nat, n: nat)
    requires from + n <= b.Length
    modifies b
    ensures b[..n] == old(b[from..from + n])
    ensures b[n..] == old(b[n..])
  {
    forall i | 0 <= i < n {
      b[i] := b[from + i];
    }
  }

  /** A new block of `size` bytes that starts with the first `n` bytes of `a`. */
  method Reallocate(a: array<byte>, n: nat, size: nat) returns (b: array<byte>)
    requires n <= a.Length && n <= size
    ensures fresh(b) && b.Length == size && b[..n] == a[..n]
  {
    b := new byte[size];
    Blit(b, 0, a[..n]);
  }

  /** The index arithmetic of `sdsrange`: where the kept bytes start and how many there are. */
  method RangeBounds(n: nat, start: int, end: int, ghost c: seq<byte>) returns (s: nat, newlen: nat)
    requires n > 0 && |c| == n
    ensures newlen > 0 ==> s + newlen <= n
    ensures newlen <= n
    ensures RangeOf(c, start, end) == if newlen > 0 then c[s..s + newlen] else []
  {
    var from, to := start, end;
    if from < 0 {
      from := n + from;
      if from < 0 { from := 0; }
    }
    if to < 0 {
      to := n + to;
      if to < 0 { to := 0; }
    }
    var m: int := if from > to then 0 else to - from + 1;
    if m != 0 {
      if from >= n {
        m := 0;
      } else if to >= n {
        to := n - 1;
        m := if from > to then 0 else to - from + 1;
      }
    } else {
      from := 0;
    }
    s, newlen := from, m;
  }

  lemma PrefixOfPrefix(s: seq<byte>, m: nat, n: nat)
    requires m <= n <= |s|
    ensures s[..n][..m] == s[..m]
  {
  }

  class SdsString {
    /** The header: `len` and `alloc` are stored modulo the width of `typ`; type 5 has no alloc field. */
    var typ: int
    var len: nat
    var alloc: nat
    var buf: array<byte>

    /** `sdsalloc`. */
    function Alloc(): nat
      reads this
    {
      if typ == TYPE_5 then len else alloc
    }

    /** `sdsavail`. */
    function Avail(): int
      reads this
    {
      if typ == TYPE_5 then 0 else alloc - len
    }

    /** The header is consistent with the buffer and no field has been truncated. */
    ghost predicate Sound()
      reads this
    {
      && TYPE_5 <= typ <= TYPE_64
      && len <= Alloc() < Width(typ)
      && Alloc() + 1 <= buf.Length
    }

    ghost predicate Valid()
      reads this, buf
    {
      Sound() && buf[len] == NUL
    }

    ghost function Content(): seq<byte>
      reads this, buf
      requires len <= buf.Length
    {
      buf[..len]
    }

    /** `sdsnewlen` with initial bytes. */
    constructor (init: seq<byte>)
      requires |init| < MAX_LEN
      ensures Valid() && Content() == init && fresh(buf)
    {
      var t := ReqType(|init|);
      if t == TYPE_5 && |init| == 0 {
        t := TYPE_8;
      }
      var b := new byte[|init| + 1](i requires 0 <= i => if i < |init| then init[i] else NUL);
      typ := t;
      len := Stored(t, |init|);
      alloc := Stored(t, |init|);
      buf := b;
      new;
      assert buf[..len] == init;
    }

    /** `sdssetlen`: the field keeps only what its width holds. */
    method SetLen(n: nat)
      requires TYPE_5 <= typ <= TYPE_64
      modifies this`len
      ensures len == Stored(typ, n)
    {
      len := Stored(typ, n);
    }

    /** `sdssetalloc`: type 5 has nowhere to store it. */
    method SetAlloc(n: nat)
      requires TYPE_5 <= typ <= TYPE_64
      modifies this`alloc
      ensures typ != TYPE_5 ==> alloc == Stored(typ, n)
    {
      if typ != TYPE_5 {
        alloc := Stored(typ, n);
      }
    }

    /** The reallocation shared by growing and shrinking: the content and its NUL move to a block of
        `size` + 1 bytes, under a header of type `t`. */
    method Move(t: int, size: nat)
      requires Sound() && TYPE_5 <= t <= TYPE_64 && len <= size < Width(t) && (t == TYPE_5 ==> size == len)
      modifies this
      ensures Sound() && Content() == old(Content()) && fresh(buf) && typ == t && Alloc() == size
      ensures old(Valid()) ==> Valid()
    {
      hide Stored;
      var n := len;
      var b := Reallocate(buf, n + 1, size + 1);
      assert b[n] == b[..n + 1][n] == buf[..n + 1][n];
      PrefixOfPrefix(b[..], n, n + 1);
      PrefixOfPrefix(buf[..], n, n + 1);
      if typ != t {
        typ := t;
        SetLen(n);
      }
      buf := b;
      SetAlloc(size);
    }

    /** `sdsMakeRoomFor`. */
    method MakeRoomFor(addlen: nat)
      requires Sound() && len + addlen < MAX_LEN
      modifies this
      ensures Sound() && Content() == old(Content())
      ensures Avail() >= addlen
      ensures old(Valid()) ==> Valid()
      ensures buf == old(buf) || fresh(buf)
    {
      if Avail() >= addlen {
        return;
      }
      var newlen := len + addlen;
      if newlen < MAX_PREALLOC {
        newlen := newlen * 2;
      } else {
        newlen := newlen + MAX_PREALLOC;
      }
      var t := ReqType(newlen);
      if t == TYPE_5 {
        t := TYPE_8;
      }
      Move(t, newlen);
    }

    /** `sdsRemoveFreeSpace`. */
    method RemoveFreeSpace()
      requires Valid() && len < MAX_LEN
      modifies this
      ensures Valid() && Content() == old(Content()) && Avail() == 0
      ensures fresh(buf)
    {
      Move(ReqType(len), len);
    }

    /** `sdscatlen`. */
    method CatLen(t: seq<byte>)
      requires Valid() && len + |t| < MAX_LEN
      modifies this, buf
      ensures Valid() && Content() == old(Content()) + t
      ensures buf == old(buf) || fresh(buf)
    {
      var curlen := len;
      MakeRoomFor(|t|);
      Put(curlen, t);
    }

    /** Bytes are written at `at`, the string ends after them, and the NUL follows. */
    method Put(at: nat, t: seq<byte>)
      requires Sound() && at <= len && at + |t| < buf.Length && (typ == TYPE_5 ==> at + |t| <= len)
      requires at + |t| <= Alloc()
      modifies this`len, buf
      ensures Valid() && Content() == old(Content())[..at] + t
    {
      hide Stored, Width;
      PrefixOfPrefix(buf[..], at, len);
      Blit(buf, at, t);
      var n := at + |t|;
      SetLen(n);
      assert buf[..n] == buf[..at] + buf[at..n];
      buf[n] := NUL;
      assert buf[..n] == old(buf[..at]) + t;
    }

    /** `sdsgrowzero`. */
    method GrowZero(n: nat)
      requires Valid() && n < MAX_LEN && len < MAX_LEN
      modifies this, buf
      ensures Valid()
      ensures Content() == old(Content()) + Zeros(if n > old(len) then n - old(len) else 0)
      ensures buf == old(buf) || fresh(buf)
    {
      var curlen := len;
      if n <= curlen {
        return;
      }
      MakeRoomFor(n - curlen);
      Put(curlen, Zeros(n - curlen));
    }

    /** `sdscpylen`. */
    method CpyLen(t: seq<byte>)
      requires Valid() && |t| < MAX_LEN
      modifies this, buf
      ensures Valid() && Content() == t
      ensures buf == old(buf) || fresh(buf)
    {
      if Alloc() < |t| {
        MakeRoomFor(|t| - len);
      }
      Put(0, t);
    }

    /** `sdsrange`. */
    method Range(start: int, end: int)
      requires Valid() && len < MAX_INT
      modifies this, buf
      ensures Valid() && Content() == RangeOf(old(Content()), start, end)
      ensures buf == old(buf)
    {
      if len == 0 {
        return;
      }
      var s, newlen := RangeBounds(len, start, end, buf[..len]);
      assert newlen > 0 ==> buf[..len][s..s + newlen] == buf[s..s + newlen];
      if s != 0 && newlen != 0 {
        ShiftDown(buf, s, newlen);
      }
      buf[newlen] := NUL;
      SetLen(newlen);
      assert buf[..newlen] == RangeOf(old(Content()), start, end);
    }

    /** The appending step of `sdscatfmt`: room is made, bytes are copied, `sdsinclen` counts them; the
        NUL is left to the end. */
    method AppendRaw(t: seq<byte>)
      requires Sound() && len + |t| + 1 < MAX_LEN
      modifies this, buf
      ensures Sound() && Content() == old(Content()) + t
      ensures buf == old(buf) || fresh(buf)
    {
      hide Stored, Width;
      if Avail() == 0 {
        MakeRoomFor(1);
      }
      if Avail() < |t| {
        MakeRoomFor(|t|);
      }
      Extend(t);
    }

    method Extend(t: seq<byte>)
      requires Sound() && |t| <= Avail()
      modifies this`len, buf
      ensures Sound() && Content() == old(Content()) + t
    {
      hide Stored, Width;
      var n := len + |t|;
      Blit(buf, len, t);
      assert buf[..n] == buf[..len] + buf[len..n];
      SetLen(n);
    }

    /** `sdscatfmt`. */
    method CatFmt(fmt: seq<byte>, args: seq<FmtArg>)
      requires Valid() && FmtOk(fmt, args) && len + |Expand(fmt, args)| < MAX_INT
      modifies this, buf
      ensures Valid() && Content() == old(Content()) + Expand(fmt, args)
      ensures buf == old(buf) || fresh(buf)
    {
      hide Stored, Width;
      ghost var goal := Content() + Expand(fmt, args);
      var f, a := 0, 0;
      while f < |fmt|
        invariant f <= |fmt| && a <= |args|
        invariant Sound() && (buf == old(buf) || fresh(buf))
        invariant FmtOk(fmt[f..], args[a..]) && Content() + Expand(fmt[f..], args[a..]) == goal
        invariant |goal| < MAX_INT
      {
        var piece: seq<byte>;
        ghost var before := Content();
        piece, f, a := NextPiece(fmt, args, f, a);
        assert before + (piece + Expand(fmt[f..], args[a..])) == (before + piece) + Expand(fmt[f..], args[a..]);
        AppendRaw(piece);
      }
      assert Content() + [] == Content();
      buf[len] := NUL;
      assert buf[..len] == goal;
    }
  }

  /** An argument of `sdscatfmt`: text for %s and %S, numbers for %i %I and %u %U. */
  datatype FmtArg = Text(text: seq<byte>) | Signed(v: int) | Unsigned(n: nat)

  predicate TakesArg(c: byte) {
    c as int in {115, 83, 105, 73, 117, 85}
  }

  /** The argument is of the kind its directive reads, and its number fits 64 bits. */
  predicate ArgFor(c: byte, arg: FmtArg) {
    match arg
    case Text(_) => c == 115 || c == 83
    case Signed(v) => (c == 105 || c == 73) && -TWO_63 < v < TWO_63
    case Unsigned(n) => (c == 117 || c == 85) && n < TWO_64
  }

  /** Every directive has its argument, and the format does not end in a bare percent sign. */
  predicate FmtOk(fmt: seq<byte>, args: seq<FmtArg>)
    decreases |fmt|
  {
    if fmt == [] then true
    else if fmt[0] != PERCENT then FmtOk(fmt[1..], args)
    else |fmt| > 1 &&
         if TakesArg(fmt[1]) then args != [] && ArgFor(fmt[1], args[0]) && FmtOk(fmt[2..], args[1..])
         else FmtOk(fmt[2..], args)
  }

  function TextOf(arg: FmtArg): seq<byte> {
    match arg
    case Text(t) => t
    case Signed(v) => Decimal(v)
    case Unsigned(n) => Digits(n)
  }

  function Expand(fmt: seq<byte>, args: seq<FmtArg>): seq<byte>
    requires FmtOk(fmt, args)
    decreases |fmt|
  {
    if fmt == [] then []
    else if fmt[0] != PERCENT then [fmt[0]] + Expand(fmt[1..], args)
    else if TakesArg(fmt[1]) then TextOf(args[0]) + Expand(fmt[2..], args[1..])
    else [fmt[1]] + Expand(fmt[2..], args)
  }

  /** What a format is made of: plain bytes, percent signs before a byte that takes no argument, and directives. */
  datatype Unit = Plain(c: byte) | Escaped(c: byte) | Given(c: byte, arg: FmtArg)

  predicate UnitOk(u: Unit) {
    match u
    case Plain(c) => c != PERCENT
    case Escaped(c) => !TakesArg(c)
    case Given(c, arg) => TakesArg(c) && ArgFor(c, arg)
  }

  function Spelling(u: Unit): seq<byte> {
    if u.Plain? then [u.c] else [PERCENT, u.c]
  }

  function Shown(u: Unit): seq<byte> {
    match u
    case Given(_, Text(t)) => t
    case Given(_, Signed(v)) => Decimal(v)
    case Given(_, Unsigned(n)) => Digits(n)
    case _ => [u.c]
  }

  function FormatOf(units: seq<Unit>): seq<byte> {
    if units == [] then [] else Spelling(units[0]) + FormatOf(units[1..])
  }

  function ArgsOf(units: seq<Unit>): seq<FmtArg> {
    if units == [] then [] else (if units[0].Given? then [units[0].arg] else []) + ArgsOf(units[1..])
  }

  function AllShown(units: seq<Unit>): seq<byte> {
    if units == [] then [] else Shown(units[0]) + AllShown(units[1..])
  }

  /** Plain bytes, escaped bytes and arguments appear in the order of the format, each exactly once. */
  lemma {:induction false} ExpandShows(units: seq<Unit>)
    requires forall i :: 0 <= i < |units| ==> UnitOk(units[i])
    ensures FmtOk(FormatOf(units), ArgsOf(units)) && Expand(FormatOf(units), ArgsOf(units)) == AllShown(units)
  {
    hide FmtOk, Expand, UnitOk, Shown, Spelling;
    if units == [] {
      ExpandNothing();
    } else {
      ExpandShows(units[1..]);
      UnitShows(units[0], FormatOf(units[1..]), ArgsOf(units[1..]));
    }
  }

  lemma ExpandNothing()
    ensures FmtOk([], []) && Expand([], []) == []
  {
  }

  lemma UnitShows(u: Unit, rest: seq<byte>, more: seq<FmtArg>)
    requires UnitOk(u) && FmtOk(rest, more)
    ensures var fmt, args := Spelling(u) + rest, (if u.Given? then [u.arg] else []) + more;
      FmtOk(fmt, args) && Expand(fmt, args) == Shown(u) + Expand(rest, more)
  {
    var fmt := Spelling(u) + rest;
    assert fmt[|Spelling(u)|..] == rest && [] + more == more;
    assert u.Given? ==> ([u.arg] + more)[1..] == more;
  }

  /** One turn of the loop of `sdscatfmt`. */
  method NextPiece(fmt: seq<byte>, args: seq<FmtArg>, f: nat, a: nat) returns (piece: seq<byte>, f': nat, a': nat)
    requires f < |fmt| && a <= |args| && FmtOk(fmt[f..], args[a..])
    ensures f < f' <= |fmt| && a <= a' <= |args| && FmtOk(fmt[f'..], args[a'..])
    ensures Expand(fmt[f..], args[a..]) == piece + Expand(fmt[f'..], args[a'..])
  {
    assert fmt[f..][0] == fmt[f] && fmt[f..][1..] == fmt[f + 1..];
    f', a' := f + 1, a;
    if fmt[f] == PERCENT {
      assert fmt[f..][1] == fmt[f + 1] && fmt[f..][2..] == fmt[f + 2..];
      f' := f + 2;
      if TakesArg(fmt[f + 1]) {
        assert args[a..][0] == args[a] && args[a..][1..] == args[a + 1..];
        piece := Render(args[a]);
        a' := a + 1;
      } else {
        piece := [fmt[f + 1]];
      }
    } else {
      piece := [fmt[f]];
    }
  }

  /** The number directives go through the fixed 21-byte buffer. */
  method Render(arg: FmtArg) returns (t: seq<byte>)
    requires arg.Signed? ==> -TWO_63 < arg.v < TWO_63
    requires arg.Unsigned? ==> arg.n < TWO_64
    ensures t == TextOf(arg)
  {
    match arg
    case Text(text) => t := text;
    case Signed(v) =>
      var b := new byte[LLSTR_SIZE];
      var l := LongLongToString(b, v);
      t := b[..l];
    case Unsigned(n) =>
      var b := new byte[LLSTR_SIZE];
      var l := UnsignedToString(b, n);
      t := b[..l];
  }

  // ---------- any sequence of operations ----------

  datatype Op =
    | Append(text: seq<byte>)
    | Grow(size: nat)
    | Copy(text: seq<byte>)
    | Slice(start: int, end: int)
    | Reserve(size: nat)
    | Shrink

  function Apply(c: seq<byte>, op: Op): seq<byte> {
    match op
    case Append(t) => c + t
    case Grow(n) => c + Zeros(if n > |c| then n - |c| else 0)
    case Copy(t) => t
    case Slice(start, end) => RangeOf(c, start, end)
    case Reserve(_) => c
    case Shrink => c
  }

  function ApplyAll(c: seq<byte>, ops: seq<Op>): seq<byte>
    decreases |ops|
  {
    if ops == [] then c else ApplyAll(Apply(c, ops[0]), ops[1..])
  }

  /** No operation makes the string longer than the size arithmetic allows. */
  predicate InBounds(c: seq<byte>, ops: seq<Op>)
    decreases |ops|
  {
    |c| < MAX_LEN &&
    (ops != [] ==>
       && (ops[0].Append? || ops[0].Copy? ==> |c| + |ops[0].text| < MAX_LEN)
       && (ops[0].Grow? || ops[0].Reserve? ==> |c| + ops[0].size < MAX_LEN)
       && (ops[0].Slice? ==> |c| < MAX_INT)
       && InBounds(Apply(c, ops[0]), ops[1..]))
  }

  method Perform(s: SdsString, op: Op)
    requires s.Valid() && InBounds(s.Content(), [op])
    modifies s, s.buf
    ensures s.Valid() && s.Content() == Apply(old(s.Content()), op)
    ensures s.buf == old(s.buf) || fresh(s.buf)
  {
    match op
    case Append(t) => s.CatLen(t);
    case Grow(n) => s.GrowZero(n);
    case Copy(t) => s.CpyLen(t);
    case Slice(start, end) => s.Range(start, end);
    case Reserve(n) => s.MakeRoomFor(n);
    case Shrink => s.RemoveFreeSpace();
  }

  /** Under any sequence of operations the string is what the same operations make of a byte sequence,
      its header never truncates a field, and it stays NUL-terminated inside its allocation. */
  method PerformAll(s: SdsString, ops: seq<Op>)
    requires s.Valid() && InBounds(s.Content(), ops)
    modifies s, s.buf
    ensures s.Valid() && s.Content() == ApplyAll(old(s.Content()), ops)
  {
    for i := 0 to |ops|
      invariant s.Valid() && (s.buf == old(s.buf) || fresh(s.buf))
      invariant InBounds(s.Content(), ops[i..])
      invariant ApplyAll(s.Content(), ops[i..]) == ApplyAll(old(s.Content()), ops)
    {
      assert ops[i..][0] == ops[i] && ops[i..][1..] == ops[i + 1..];
      Perform(s, ops[i]);
    }
  }
}
