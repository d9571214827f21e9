/** Bytes, the character codes the wire format uses, and C-string scanning. */
module Bytes {
  type byte = x: int | 0 <= x < 256

  datatype Option<+T> = None | Some(value: T)

  const NUL: byte := 0
  const LF: byte := 10
  const CR: byte := 13
  const SPACE: byte := 32
  const DOLLAR: byte := 36
  const PERCENT: byte := 37
  const STAR: byte := 42
  const PLUS: byte := 43
  const MINUS: byte := 45
  const ZERO: byte := 48
  const COLON: byte := 58
  const CRLF: seq<byte> := [CR, LF]

  predicate IsDigit(c: byte) {
    48 <= c <= 57
  }

  /** `isspace` in the C locale. */
  predicate IsSpace(c: byte) {
    c == 32 || 9 <= c <= 13
  }

  /** The index of the first `c` at or after `from` in the NUL-terminated text, as `strchr` finds it. */
  function StrChr(mem: seq<byte>, from: nat, c: byte): (r: Option<nat>)
    requires from <= |mem|
    requires c != NUL
    ensures r.Some? ==> from <= r.value < |mem| && mem[r.value] == c
    ensures r.Some? ==> forall k :: from <= k < r.value ==> mem[k] != c && mem[k] != NUL
    ensures r.None? ==> forall k :: from <= k < |mem| && mem[k] == c ==> NUL in mem[from..k]
    decreases |mem| - from
  {
    if from == |mem| || mem[from] == NUL then None
    else if mem[from] == c then Some(from)
    else StrChr(mem, from + 1, c)
  }

  /** Texts joined by single spaces. */
  function Joined(list: seq<seq<byte>>): seq<byte> {
    if list == [] then [] else list[0] + Behind(list[1..])
  }

  function Behind(list: seq<seq<byte>>): seq<byte> {
    if list == [] then [] else [SPACE] + list[0] + Behind(list[1..])
  }

  lemma {:induction false} JoinedNoNul(list: seq<seq<byte>>)
    requires forall i :: 0 <= i < |list| ==> NUL !in list[i]
    ensures NUL !in Joined(list) && NUL !in Behind(list)
    decreases |list|
  {
    if list != [] {
      JoinedNoNul(list[1..]);
    }
  }

  /** Two adjacent pieces of memory. */
  lemma SlicePair(mem: seq<byte>, p: nat, a: seq<byte>, b: seq<byte>)
    requires p + |a| + |b| <= |mem| && mem[p..p + |a| + |b|] == a + b
    ensures mem[p..p + |a|] == a && mem[p + |a|..p + |a| + |b|] == b
  {
    var s := mem[p..p + |a| + |b|];
    assert forall k :: 0 <= k < |a| ==> mem[p..p + |a|][k] == s[k] == a[k];
    assert forall k :: 0 <= k < |b| ==> mem[p + |a|..p + |a| + |b|][k] == s[|a| + k] == b[k];
  }
}
