/** Decimal printing (sds.c, hiredis.c) and reading (read.c). */
module Numbers {
  import opened Bytes

  const LLSTR_SIZE: nat := 21
  const TWO_63: int := 0x8000_0000_0000_0000
  const TWO_64: int := 0x1_0000_0000_0000_0000

  // ---------- the reference: decimal notation ----------

  predicate AllDigits(s: seq<byte>) {
    forall i :: 0 <= i < |s| ==> IsDigit(s[i])
  }

  /** The usual decimal notation, most significant digit first, no leading zeros. */
  function Digits(n: nat): (s: seq<byte>)
    ensures |s| >= 1 && AllDigits(s)
  {
    if n < 10 then [ZERO + n] else Digits(n / 10) + [ZERO + n % 10]
  }

  function Decimal(v: int): (s: seq<byte>)
    ensures |s| >= 1
    ensures forall i :: 0 <= i < |s| ==> s[i] == MINUS || IsDigit(s[i])
  {
    if v < 0 then [MINUS] + Digits(-v) else Digits(v)
  }

  function Pow10(k: nat): nat {
    if k == 0 then 1 else 10 * Pow10(k - 1)
  }

  lemma {:induction false} DigitsLength(n: nat, k: nat)
    requires k >= 1 && n < Pow10(k)
    ensures |Digits(n)| <= k
  {
    if n >= 10 {
      DigitsLength(n / 10, k - 1);
    }
  }

  /** Every 64-bit magnitude prints in at most twenty digits. */
  lemma DigitsFit(n: nat)
    ensures n < TWO_64 ==> |Digits(n)| <= 20
    ensures n < TWO_63 ==> |Digits(n)| <= 19
  {
    assert Pow10(4) == 10000;
    assert Pow10(8) == 1_0000_0000;
    assert Pow10(12) == 1_0000_0000_0000;
    assert Pow10(16) == 1_0000_0000_0000_0000;
    assert Pow10(20) == 1_0000_0000_0000_0000_0000;
    assert Pow10(19) == 1000_0000_0000_0000_0000;
    if n < TWO_64 {
      DigitsLength(n, 20);
    }
    if n < TWO_63 {
      DigitsLength(n, 19);
    }
  }

  // ---------- readLongLong ----------

  /** The digit loop: stops at the first CR, or at the end of the line (whose own CR follows). */
  function ReadDigits(line: seq<byte>, v: nat): Option<nat>
  {
    if line == [] || line[0] == CR then Some(v)
    else if IsDigit(line[0]) then ReadDigits(line[1..], v * 10 + (line[0] - ZERO))
    else None
  }

  function ReadUnsigned(line: seq<byte>, mult: int): int {
    match ReadDigits(line, 0)
    case None => -1
    case Some(v) => mult * v
  }

  /** What `readLongLong` returns for the text of a line; -1 on anything unexpected. */
  function ReadLongLong(line: seq<byte>): int {
    if line != [] && line[0] == MINUS then ReadUnsigned(line[1..], -1)
    else if line != [] && line[0] == PLUS then ReadUnsigned(line[1..], 1)
    else ReadUnsigned(line, 1)
  }

  lemma {:induction false} ReadDigitsSnoc(s: seq<byte>, d: byte, v: nat)
    requires AllDigits(s) && IsDigit(d)
    ensures ReadDigits(s, v).Some?
    ensures ReadDigits(s + [d], v) == Some(ReadDigits(s, v).value * 10 + (d - ZERO))
  {
    if s == [] {
      assert (s + [d])[1..] == [];
    } else {
      assert (s + [d])[1..] == s[1..] + [d];
      ReadDigitsSnoc(s[1..], d, v * 10 + (s[0] - ZERO));
    }
  }

  lemma {:induction false} ReadDigitsOfDigits(n: nat)
    ensures ReadDigits(Digits(n), 0) == Some(n)
  {
    if n < 10 {
      assert Digits(n)[1..] == [];
    } else {
      ReadDigitsOfDigits(n / 10);
      ReadDigitsSnoc(Digits(n / 10), ZERO + n % 10, 0);
    }
  }

  /** Printing then reading gives the number back. */
  lemma DecimalRoundTrip(v: int)
    ensures ReadLongLong(Decimal(v)) == v
  {
    ReadDigitsOfDigits(if v < 0 then -v else v);
    if v < 0 {
      assert Decimal(v)[1..] == Digits(-v);
    }
  }

  lemma {:induction false} ZerosRead(z: nat, rest: seq<byte>)
    ensures ReadDigits(seq(z, _ => ZERO) + rest, 0) == ReadDigits(rest, 0)
  {
    var s := seq(z, _ => ZERO) + rest;
    if z == 0 {
      assert s == rest;
    } else {
      assert s[1..] == seq(z - 1, _ => ZERO) + rest;
      ZerosRead(z - 1, rest);
    }
  }

  /** Leading zeros, and either sign before them, read as in the usual notation. */
  lemma SignedRead(z: nat, n: nat)
    ensures var s := seq(z, _ => ZERO) + Digits(n);
      ReadLongLong(s) == n && ReadLongLong([PLUS] + s) == n && ReadLongLong([MINUS] + s) == -1 * n
  {
    var s := seq(z, _ => ZERO) + Digits(n);
    ReadDigitsOfDigits(n);
    ZerosRead(z, Digits(n));
    assert s[0] == if z > 0 then ZERO else Digits(n)[0];
    assert ([PLUS] + s)[1..] == s && ([MINUS] + s)[1..] == s;
  }

  /** Digits up to the first CR are read, whatever is behind it; any other byte among them gives -1. */
  lemma {:induction false} ReadDigitsIff(s: seq<byte>, rest: seq<byte>, v: nat)
    requires CR !in s
    ensures ReadDigits(s + [CR] + rest, v) == ReadDigits(s, v)
    ensures ReadDigits(s, v).Some? <==> AllDigits(s)
  {
    var t := s + [CR] + rest;
    if s != [] {
      assert t[1..] == s[1..] + [CR] + rest;
      ReadDigitsIff(s[1..], rest, v * 10 + (if IsDigit(s[0]) then s[0] - ZERO else 0));
    }
  }

  /** A line that is not digits behind at most one sign reads as -1. */
  lemma UnexpectedByte(s: seq<byte>)
    requires CR !in s && !AllDigits(if s != [] && (s[0] == MINUS || s[0] == PLUS) then s[1..] else s)
    ensures ReadLongLong(s) == -1
  {
    var body := if s != [] && (s[0] == MINUS || s[0] == PLUS) then s[1..] else s;
    ReadDigitsIff(body, [], 0);
  }

  /** The accumulator never exceeds the number finally read, so it never overflows when that fits. */
  lemma {:induction false} ReadDigitsMonotone(line: seq<byte>, v: nat, k: nat)
    requires k <= |line| && AllDigits(line[..k])
    requires ReadDigits(line, v).Some?
    ensures ReadDigits(line[..k], v).Some?
    ensures v <= ReadDigits(line[..k], v).value <= ReadDigits(line, v).value
  {
    if k == 0 {
      ReadDigitsGrows(line, v);
    } else {
      assert line[..k][0] == line[0];
      assert line[..k][1..] == line[1..][..k - 1];
      ReadDigitsMonotone(line[1..], v * 10 + (line[0] - ZERO), k - 1);
    }
  }

  lemma {:induction false} ReadDigitsGrows(line: seq<byte>, v: nat)
    ensures ReadDigits(line, v).Some? ==> v <= ReadDigits(line, v).value
  {
    if line != [] && line[0] != CR && IsDigit(line[0]) {
      ReadDigitsGrows(line[1..], v * 10 + (line[0] - ZERO));
    }
  }

  /** `readLongLong` on a buffer, from `start`; `end` is where the line's CRLF was found. */
  method ReadLongLongAt(buf: seq<byte>, start: nat, end: nat) returns (r: int)
    requires start <= end < |buf| && buf[end] == CR
    ensures r == ReadLongLong(buf[start..end])
  {
    var s := start;
    var mult := 1;
    ghost var line := buf[start..end];
    assert start < end ==> line[0] == buf[start];
    if buf[s] == MINUS {
      mult := -1;
      s := s + 1;
    } else if buf[s] == PLUS {
      s := s + 1;
    }
    var v: nat := 0;
    ghost var text := buf[s..end];
    assert s == start + 1 ==> text == line[1..];
    while buf[s] != CR
      invariant start <= s <= end
      invariant ReadDigits(buf[s..end], v) == ReadDigits(text, 0)
      decreases end - s
    {
      assert buf[s..end][0] == buf[s] && buf[s..end][1..] == buf[s + 1..end];
      var dec := buf[s] - ZERO;
      if 0 <= dec < 10 {
        v := v * 10 + dec;
        s := s + 1;
      } else {
        return -1;
      }
    }
    assert s < end ==> buf[s..end][0] == CR;
    return mult * v;
  }

  // ---------- countDigits ----------

  lemma DigitsStep4(v: nat)
    requires v >= 10000
    ensures |Digits(v)| == |Digits(v / 10000)| + 4
  {
    assert v / 10 / 10 / 10 / 10 == v / 10000;
    assert |Digits(v)| == |Digits(v / 10)| + 1;
    assert |Digits(v / 10)| == |Digits(v / 10 / 10)| + 1;
    assert |Digits(v / 10 / 10)| == |Digits(v / 10 / 10 / 10)| + 1;
    assert |Digits(v / 10 / 10 / 10)| == |Digits(v / 10 / 10 / 10 / 10)| + 1;
  }

  method CountDigits(value: nat) returns (result: nat)
    ensures result == |Digits(value)|
  {
    var v := value;
    result := 1;
    while true
      invariant result - 1 + |Digits(v)| == |Digits(value)|
      decreases v
    {
      if v < 10 { return; }
      if v < 100 {
        assert |Digits(v)| == |Digits(v / 10)| + 1;
        return result + 1;
      }
      if v < 1000 {
        assert |Digits(v)| == |Digits(v / 10)| + 1 == |Digits(v / 10 / 10)| + 2;
        return result + 2;
      }
      if v < 10000 {
        assert |Digits(v)| == |Digits(v / 10)| + 1 == |Digits(v / 10 / 10)| + 2;
        assert |Digits(v / 10 / 10)| == |Digits(v / 10 / 10 / 10)| + 1;
        return result + 3;
      }
      DigitsStep4(v);
      v := v / 10000;
      result := result + 4;
    }
  }

  // ---------- sdsll2str / sdsull2str ----------

  function Reversed(s: seq<byte>): (r: seq<byte>)
    ensures |r| == |s|
    ensures forall k :: 0 <= k < |s| ==> r[k] == s[|s| - 1 - k]
  {
    seq(|s|, k requires 0 <= k < |s| => s[|s| - 1 - k])
  }

  /** The digit-emitting loop: writes the digits of `value` least significant first. */
  method EmitReversed(s: array<byte>, value: nat) returns (l: nat)
    requires |Digits(value)| < s.Length
    modifies s
    ensures l == |Digits(value)|
    ensures s[..l] == Reversed(Digits(value))
  {
    var v := value;
    l := 0;
    var more := true;
    ghost var all := Digits(value);
    while more
      invariant l <= |all| < s.Length
      invariant more ==> l < |all| && Digits(v) == all[..|all| - l]
      invariant !more ==> l == |all|
      invariant forall k :: 0 <= k < l ==> s[k] == all[|all| - 1 - k]
      decreases more, v
    {
      s[l] := ZERO + v % 10;
      assert Digits(v)[|Digits(v)| - 1] == ZERO + v % 10;
      ghost var before := Digits(v);
      assert v >= 10 ==> before[..|before| - 1] == Digits(v / 10);
      v := v / 10;
      l := l + 1;
      more := v != 0;
    }
    assert s[..l] == Reversed(all);
  }

  /** The in-place reversal of the first `l` bytes. */
  method ReverseInPlace(s: array<byte>, l: nat)
    requires 1 <= l <= s.Length
    modifies s
    ensures s[..l] == Reversed(old(s[..l]))
    ensures forall k :: l <= k < s.Length ==> s[k] == old(s[k])
  {
    var i, p := 0, l - 1;
    while i < p
      invariant 0 <= i <= p + 1 <= l && i + p == l - 1
      invariant forall k :: 0 <= k < i || p < k < l ==> s[k] == old(s[l - 1 - k])
      invariant forall k :: i <= k <= p || l <= k < s.Length ==> s[k] == old(s[k])
    {
      s[i], s[p] := s[p], s[i];
      i := i + 1;
      p := p - 1;
    }
  }

  /** `sdsll2str`: the text, its length and its NUL fit the 21-byte buffer. */
  method LongLongToString(s: array<byte>, value: int) returns (l: nat)
    requires s.Length >= LLSTR_SIZE
    requires -TWO_63 < value < TWO_63
    modifies s
    ensures l == |Decimal(value)| < LLSTR_SIZE
    ensures s[..l] == Decimal(value)
    ensures s[l] == NUL
  {
    var v := if value < 0 then -value else value;
    DigitsFit(v);
    l := EmitReversed(s, v);
    ghost var ds := Digits(v);
    if value < 0 {
      s[l] := MINUS;
      l := l + 1;
      assert s[..l] == Reversed(ds) + [MINUS];
    }
    s[l] := NUL;
    assert s[..l] == Reversed(Decimal(value));
    ReverseInPlace(s, l);
    assert s[..l] == Decimal(value);
  }

  /** `sdsull2str`. */
  method UnsignedToString(s: array<byte>, value: nat) returns (l: nat)
    requires s.Length >= LLSTR_SIZE
    requires value < TWO_64
    modifies s
    ensures l == |Digits(value)| < LLSTR_SIZE
    ensures s[..l] == Digits(value)
    ensures s[l] == NUL
  {
    DigitsFit(value);
    l := EmitReversed(s, value);
    s[l] := NUL;
    assert s[..l] == Reversed(Digits(value));
    ReverseInPlace(s, l);
    assert s[..l] == Digits(value);
  }
}
