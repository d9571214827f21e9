/** The RESP2 reply grammar: replies, their encoding, and a recursive-descent reference parser. */
module Resp {
  import opened Bytes
  import opened Numbers

  /** Arrays nest at most this deep: the reader's task stack has MAX_DEPTH + 1 slots. */
  const MAX_DEPTH: nat := 8

  /** `Hollow(n)` is the array reply without element vector that a declared count below -1 produces. */
  datatype Reply =
    | Status(text: seq<byte>)
    | Error(text: seq<byte>)
    | Integer(value: int)
    | Bulk(data: seq<byte>)
    | Nil
    | Array(items: seq<Reply>)
    | Hollow(count: int)

  datatype Kind = KStatus | KError | KInteger | KBulk | KArray

  datatype ReadError = BadTypeByte(b: byte) | TooDeep

  // ---------- lines ----------

  predicate CrlfAt(s: seq<byte>, k: int) {
    0 <= k && k + 1 < |s| && s[k] == CR && s[k + 1] == LF
  }

  function NewlineFrom(s: seq<byte>, i: nat): (r: Option<nat>)
    requires i <= |s|
    ensures r.Some? ==> i <= r.value && CrlfAt(s, r.value) && forall k :: i <= k < r.value ==> !CrlfAt(s, k)
    ensures r.None? ==> forall k :: i <= k ==> !CrlfAt(s, k)
    decreases |s| - i
  {
    if CrlfAt(s, i) then Some(i)
    else if i + 1 >= |s| then None
    else NewlineFrom(s, i + 1)
  }

  /** Where the first CRLF of `s` starts. */
  function Newline(s: seq<byte>): Option<nat> {
    NewlineFrom(s, 0)
  }

  lemma NewlineIs(s: seq<byte>, at: nat)
    requires CrlfAt(s, at) && forall k :: 0 <= k < at ==> !CrlfAt(s, k)
    ensures Newline(s) == Some(at)
  {
    var r := Newline(s);
    assert r.Some?;
    assert !(r.value < at);
    assert !(at < r.value);
  }

  /** A CRLF that has arrived is not displaced by bytes arriving later. */
  lemma NewlineExtends(s: seq<byte>, x: seq<byte>)
    requires Newline(s).Some?
    ensures Newline(s + x) == Newline(s)
  {
    var at := Newline(s).value;
    assert CrlfAt(s + x, at);
    forall k | 0 <= k < at
      ensures !CrlfAt(s + x, k)
    {
      assert !CrlfAt(s, k);
    }
    NewlineIs(s + x, at);
  }

  // ---------- one protocol item ----------

  function KindOf(b: byte): Option<Kind> {
    if b == MINUS then Some(KError)
    else if b == PLUS then Some(KStatus)
    else if b == COLON then Some(KInteger)
    else if b == DOLLAR then Some(KBulk)
    else if b == STAR then Some(KArray)
    else None
  }

  /** What the bytes after a type byte hold: a finished reply, the header of a non-empty array, too
      little so far, or an error. Sizes count the bytes the item occupies. */
  datatype Item =
    | Complete(reply: Reply, size: nat)
    | Opens(count: nat, size: nat)
    | Short
    | Refused(error: ReadError)

  function ReadItem(kind: Kind, s: seq<byte>, depth: nat): (r: Item)
    ensures r.Complete? || r.Opens? ==> 2 <= r.size <= |s|
    ensures r.Opens? ==> r.count > 0 && depth != MAX_DEPTH
  {
    if kind == KArray && depth == MAX_DEPTH then Refused(TooDeep)
    else if Newline(s).None? then Short
    else
      var at := Newline(s).value;
      var line := s[..at];
      match kind
      case KStatus => Complete(Status(line), at + 2)
      case KError => Complete(Error(line), at + 2)
      case KInteger => Complete(Integer(ReadLongLong(line)), at + 2)
      case KBulk =>
        var n := ReadLongLong(line);
        if n < 0 then Complete(Nil, at + 2)
        else if at + 2 + n + 2 <= |s| then Complete(Bulk(s[at + 2..at + 2 + n]), at + 2 + n + 2)
        else Short
      case KArray =>
        var n := ReadLongLong(line);
        if n == -1 then Complete(Nil, at + 2)
        else if n < 0 then Complete(Hollow(n), at + 2)
        else if n == 0 then Complete(Array([]), at + 2)
        else Opens(n, at + 2)
  }

  /** More bytes never change the verdict on an item that was not short. */
  lemma ReadItemExtends(kind: Kind, s: seq<byte>, depth: nat, x: seq<byte>)
    requires !ReadItem(kind, s, depth).Short?
    ensures ReadItem(kind, s + x, depth) == ReadItem(kind, s, depth)
  {
    if !(kind == KArray && depth == MAX_DEPTH) {
      NewlineExtends(s, x);
      var at := Newline(s).value;
      assert (s + x)[..at] == s[..at];
      if kind == KBulk && ReadLongLong(s[..at]) >= 0 {
        var n := ReadLongLong(s[..at]);
        assert (s + x)[at + 2..at + 2 + n] == s[at + 2..at + 2 + n];
      }
    }
  }

  // ---------- the reference parser ----------

  datatype Parse = Ok(reply: Reply, size: nat) | More | Bad(error: ReadError)
  datatype ParseList = AllOk(items: seq<Reply>, size: nat) | ListMore | ListBad(error: ReadError)

  /** One reply under `depth` enclosing arrays. */
  function ParseReply(s: seq<byte>, depth: nat): (r: Parse)
    ensures r.Ok? ==> 1 <= r.size <= |s|
    decreases |s|, 0, 0
  {
    if s == [] then More
    else if KindOf(s[0]).None? then Bad(BadTypeByte(s[0]))
    else
      match ReadItem(KindOf(s[0]).value, s[1..], depth)
      case Complete(reply, n) => Ok(reply, n + 1)
      case Short => More
      case Refused(e) => Bad(e)
      case Opens(count, n) =>
        match ParseMany(s[n + 1..], count, depth + 1)
        case AllOk(items, m) => Ok(Array(items), n + 1 + m)
        case ListMore => More
        case ListBad(e) => Bad(e)
  }

  /** `count` consecutive replies. */
  function ParseMany(s: seq<byte>, count: nat, depth: nat): (r: ParseList)
    ensures r.AllOk? ==> r.size <= |s| && |r.items| == count
    decreases |s|, 1, count
  {
    if count == 0 then AllOk([], 0)
    else
      match ParseReply(s, depth)
      case More => ListMore
      case Bad(e) => ListBad(e)
      case Ok(reply, n) =>
        match ParseMany(s[n..], count - 1, depth)
        case AllOk(items, m) => AllOk([reply] + items, n + m)
        case ListMore => ListMore
        case ListBad(e) => ListBad(e)
  }

  /** How a byte stream ends: after its complete replies it is cut short (`rest` remains), or it is broken. */
  datatype Tail = Cut(rest: seq<byte>) | Broken(error: ReadError)
  datatype Stream = Stream(replies: seq<Reply>, tail: Tail)

  function ParseStream(s: seq<byte>): Stream
    decreases |s|
  {
    match ParseReply(s, 0)
    case More => Stream([], Cut(s))
    case Bad(e) => Stream([], Broken(e))
    case Ok(reply, n) =>
      var rest := ParseStream(s[n..]);
      Stream([reply] + rest.replies, rest.tail)
  }

  // ---------- the encoding ----------

  predicate NoCrlf(s: seq<byte>) {
    forall k :: 0 <= k < |s| ==> !CrlfAt(s, k)
  }

  /** Replies the protocol can carry: one-line texts, and no `Hollow`. */
  predicate Encodable(t: Reply) {
    match t
    case Status(text) => NoCrlf(text)
    case Error(text) => NoCrlf(text)
    case Array(items) => forall i :: 0 <= i < |items| ==> Encodable(items[i])
    case Hollow(_) => false
    case _ => true
  }

  /** At most `d` nested array levels. */
  predicate Fits(t: Reply, d: nat) {
    t.Array? ==> d > 0 && forall i :: 0 <= i < |t.items| ==> Fits(t.items[i], d - 1)
  }

  function Encode(t: Reply): seq<byte> {
    match t
    case Status(text) => [PLUS] + text + CRLF
    case Error(text) => [MINUS] + text + CRLF
    case Integer(v) => [COLON] + Decimal(v) + CRLF
    case Bulk(data) => [DOLLAR] + Decimal(|data|) + CRLF + data + CRLF
    case Nil => [DOLLAR] + Decimal(-1) + CRLF
    case Array(items) => [STAR] + Decimal(|items|) + CRLF + EncodeAll(items)
    case Hollow(n) => [STAR] + Decimal(n) + CRLF
  }

  function EncodeAll(ts: seq<Reply>): seq<byte> {
    if ts == [] then [] else Encode(ts[0]) + EncodeAll(ts[1..])
  }

  // ---------- round trip ----------

  /** A line's text is recovered exactly when no CRLF hides in it. */
  lemma LineRecovered(text: seq<byte>, rest: seq<byte>)
    requires NoCrlf(text)
    ensures Newline(text + CRLF + rest) == Some(|text|)
    ensures (text + CRLF + rest)[..|text|] == text
    ensures (text + CRLF + rest)[|text| + 2..] == rest
  {
    var s := text + CRLF + rest;
    assert CrlfAt(s, |text|);
    forall k | 0 <= k < |text|
      ensures !CrlfAt(s, k)
    {
      assert !CrlfAt(text, k);
      if k == |text| - 1 {
        assert s[k + 1] == CR;
      } else {
        assert s[k] == text[k] && s[k + 1] == text[k + 1];
      }
    }
    NewlineIs(s, |text|);
  }

  lemma NumberLineRecovered(n: int, rest: seq<byte>)
    ensures Newline(Decimal(n) + CRLF + rest) == Some(|Decimal(n)|)
    ensures ReadLongLong((Decimal(n) + CRLF + rest)[..|Decimal(n)|]) == n
    ensures (Decimal(n) + CRLF + rest)[|Decimal(n)| + 2..] == rest
  {
    LineRecovered(Decimal(n), rest);
    DecimalRoundTrip(n);
  }

  /** A bulk item is recovered whatever bytes it holds. */
  lemma BulkRecovered(data: seq<byte>, rest: seq<byte>, depth: nat)
    ensures ReadItem(KBulk, Decimal(|data|) + CRLF + (data + CRLF + rest), depth)
            == Complete(Bulk(data), |Decimal(|data|)| + 2 + |data| + 2)
  {
    var tail := data + CRLF + rest;
    var s := Decimal(|data|) + CRLF + tail;
    NumberLineRecovered(|data|, tail);
    var at := |Decimal(|data|)|;
    assert s[at + 2..at + 2 + |data|] == s[at + 2..][..|data|] == data;
  }

  /** A type byte followed by a complete item is a reply. */
  lemma ParseLeaf(s: seq<byte>, body: seq<byte>, depth: nat, kind: Kind, reply: Reply, n: nat)
    requires s != [] && KindOf(s[0]) == Some(kind) && s[1..] == body
    requires ReadItem(kind, body, depth) == Complete(reply, n)
    ensures ParseReply(s, depth) == Ok(reply, n + 1)
  {
  }

  /** An array header followed by its elements is a reply. */
  lemma ParseOpen(s: seq<byte>, depth: nat, count: nat, n: nat)
    requires s != [] && s[0] == STAR
    requires ReadItem(KArray, s[1..], depth) == Opens(count, n)
    requires ParseMany(s[n + 1..], count, depth + 1).AllOk?
    ensures ParseReply(s, depth)
            == Ok(Array(ParseMany(s[n + 1..], count, depth + 1).items),
                  n + 1 + ParseMany(s[n + 1..], count, depth + 1).size)
  {
  }

  lemma TextRoundTrip(t: Reply, rest: seq<byte>, depth: nat)
    requires Encodable(t) && (t.Status? || t.Error?)
    ensures ParseReply(Encode(t) + rest, depth) == Ok(t, |Encode(t)|)
  {
    var s := Encode(t) + rest;
    var body := t.text + CRLF + rest;
    LineRecovered(t.text, rest);
    assert s[1..] == body;
    ParseLeaf(s, body, depth, if t.Status? then KStatus else KError, t, |t.text| + 2);
  }

  lemma NumberRoundTrip(t: Reply, rest: seq<byte>, depth: nat)
    requires t.Integer? || t.Nil?
    ensures ParseReply(Encode(t) + rest, depth) == Ok(t, |Encode(t)|)
  {
    var s := Encode(t) + rest;
    var v := if t.Integer? then t.value else -1;
    var body := Decimal(v) + CRLF + rest;
    NumberLineRecovered(v, rest);
    assert s[1..] == body;
    ParseLeaf(s, body, depth, if t.Integer? then KInteger else KBulk, t, |Decimal(v)| + 2);
  }

  lemma BulkRoundTrip(t: Reply, rest: seq<byte>, depth: nat)
    requires t.Bulk?
    ensures ParseReply(Encode(t) + rest, depth) == Ok(t, |Encode(t)|)
  {
    var s := Encode(t) + rest;
    var body := Decimal(|t.data|) + CRLF + (t.data + CRLF + rest);
    BulkRecovered(t.data, rest, depth);
    assert s[1..] == body;
    ParseLeaf(s, body, depth, KBulk, t, |Decimal(|t.data|)| + 2 + |t.data| + 2);
  }

  /** Parsing an encoded reply gives that reply and consumes exactly its bytes. */
  lemma {:induction false} ReplyRoundTrip(t: Reply, rest: seq<byte>, depth: nat)
    requires Encodable(t) && depth <= MAX_DEPTH && Fits(t, MAX_DEPTH - depth)
    ensures ParseReply(Encode(t) + rest, depth) == Ok(t, |Encode(t)|)
    decreases t, 1
  {
    match t
    case Status(_) => TextRoundTrip(t, rest, depth);
    case Error(_) => TextRoundTrip(t, rest, depth);
    case Integer(_) => NumberRoundTrip(t, rest, depth);
    case Nil => NumberRoundTrip(t, rest, depth);
    case Bulk(_) => BulkRoundTrip(t, rest, depth);
    case Array(items) =>
      ManyRoundTrip(items, rest, depth + 1);
      EncodeArray(items, rest);
      ParseArray(Encode(t) + rest, items, EncodeAll(items) + rest, depth, |EncodeAll(items)|);
  }

  lemma ArrayHeader(n: nat, tail: seq<byte>, depth: nat)
    requires depth < MAX_DEPTH
    ensures ReadItem(KArray, Decimal(n) + CRLF + tail, depth)
            == if n == 0 then Complete(Array([]), |Decimal(n)| + 2) else Opens(n, |Decimal(n)| + 2)
    ensures (Decimal(n) + CRLF + tail)[|Decimal(n)| + 2..] == tail
  {
    NumberLineRecovered(n, tail);
  }

  lemma ParseArray(s: seq<byte>, items: seq<Reply>, tail: seq<byte>, depth: nat, size: nat)
    requires depth < MAX_DEPTH
    requires s == [STAR] + (Decimal(|items|) + CRLF + tail)
    requires ParseMany(tail, |items|, depth + 1) == AllOk(items, size)
    ensures ParseReply(s, depth) == Ok(Array(items), |Decimal(|items|)| + 3 + size)
  {
    hide ReadItem, ParseReply;
    var n := |items|;
    ArrayHeader(n, tail, depth);
    var body := Decimal(n) + CRLF + tail;
    assert s[1..] == body;
    if n == 0 {
      assert items == [] && size == 0;
      ParseLeaf(s, body, depth, KArray, Array(items), |Decimal(n)| + 2);
    } else {
      assert s[|Decimal(n)| + 3..] == body[|Decimal(n)| + 2..];
      ParseOpen(s, depth, n, |Decimal(n)| + 2);
    }
  }

  lemma EncodeArray(items: seq<Reply>, rest: seq<byte>)
    ensures Encode(Array(items)) + rest == [STAR] + (Decimal(|items|) + CRLF + (EncodeAll(items) + rest))
    ensures |Encode(Array(items))| == |Decimal(|items|)| + 3 + |EncodeAll(items)|
  {
    hide Decimal, EncodeAll;
    assert Encode(Array(items)) == [STAR] + Decimal(|items|) + CRLF + EncodeAll(items);
    Regroup([STAR], Decimal(|items|), CRLF, EncodeAll(items), rest);
  }

  lemma Regroup(a: seq<byte>, b: seq<byte>, c: seq<byte>, d: seq<byte>, e: seq<byte>)
    ensures a + b + c + d + e == a + (b + c + (d + e))
  {
  }

  lemma {:induction false} ManyRoundTrip(ts: seq<Reply>, rest: seq<byte>, depth: nat)
    requires depth <= MAX_DEPTH
    requires forall i :: 0 <= i < |ts| ==> Encodable(ts[i]) && Fits(ts[i], MAX_DEPTH - depth)
    ensures ParseMany(EncodeAll(ts) + rest, |ts|, depth) == AllOk(ts, |EncodeAll(ts)|)
    decreases ts, 0
  {
    if ts != [] {
      var tail := EncodeAll(ts[1..]) + rest;
      EncodeAllCons(ts, rest);
      ReplyRoundTrip(ts[0], tail, depth);
      ManyRoundTrip(ts[1..], rest, depth);
      ParseManyCons(EncodeAll(ts) + rest, ts, depth, |Encode(ts[0])|, tail, |EncodeAll(ts[1..])|);
    }
  }

  lemma ParseManyCons(s: seq<byte>, ts: seq<Reply>, depth: nat, n: nat, tail: seq<byte>, m: nat)
    requires ts != [] && ParseReply(s, depth) == Ok(ts[0], n) && s[n..] == tail
    requires ParseMany(tail, |ts| - 1, depth) == AllOk(ts[1..], m)
    ensures ParseMany(s, |ts|, depth) == AllOk(ts, n + m)
  {
    assert [ts[0]] + ts[1..] == ts;
  }

  /** An encoded reply with too many array levels is refused, whatever precedes the offending level. */
  lemma {:induction false} TooDeepRefused(t: Reply, rest: seq<byte>, depth: nat)
    requires Encodable(t) && depth <= MAX_DEPTH && !Fits(t, MAX_DEPTH - depth)
    ensures ParseReply(Encode(t) + rest, depth) == Bad(TooDeep)
    decreases t, 1
  {
    hide ParseMany;
    var items := t.items;
    EncodeArray(items, rest);
    var s := Encode(t) + rest;
    if depth < MAX_DEPTH {
      ManyTooDeep(items, rest, depth + 1);
      ArrayHeader(|items|, EncodeAll(items) + rest, depth);
      var body := Decimal(|items|) + CRLF + (EncodeAll(items) + rest);
      assert s[1..] == body;
      assert s[|Decimal(|items|)| + 3..] == body[|Decimal(|items|)| + 2..];
    }
  }

  lemma {:induction false} ManyTooDeep(ts: seq<Reply>, rest: seq<byte>, depth: nat)
    requires depth <= MAX_DEPTH
    requires forall i :: 0 <= i < |ts| ==> Encodable(ts[i])
    requires exists i :: 0 <= i < |ts| && !Fits(ts[i], MAX_DEPTH - depth)
    ensures ParseMany(EncodeAll(ts) + rest, |ts|, depth) == ListBad(TooDeep)
    decreases ts, 0
  {
    hide ParseReply;
    var tail := EncodeAll(ts[1..]) + rest;
    EncodeAllCons(ts, rest);
    if Fits(ts[0], MAX_DEPTH - depth) {
      ReplyRoundTrip(ts[0], tail, depth);
      var i :| 0 <= i < |ts| && !Fits(ts[i], MAX_DEPTH - depth);
      assert ts[1..][i - 1] == ts[i];
      ManyTooDeep(ts[1..], rest, depth);
    } else {
      TooDeepRefused(ts[0], tail, depth);
    }
  }

  /** The stream form: encoded replies come back in order, and what follows them is left over. */
  lemma {:induction false} StreamRoundTrip(ts: seq<Reply>, rest: seq<byte>)
    requires forall i :: 0 <= i < |ts| ==> Encodable(ts[i]) && Fits(ts[i], MAX_DEPTH)
    ensures ParseStream(EncodeAll(ts) + rest).replies == ts + ParseStream(rest).replies
    ensures ParseStream(EncodeAll(ts) + rest).tail == ParseStream(rest).tail
  {
    hide ParseReply, ParseStream, Encode;
    if ts == [] {
      assert EncodeAll(ts) + rest == rest;
    } else {
      hide EncodeAll, Encodable, Fits;
      var tail := EncodeAll(ts[1..]) + rest;
      EncodeAllCons(ts, rest);
      ReplyRoundTrip(ts[0], tail, 0);
      StreamRoundTrip(ts[1..], rest);
      ParseStreamCons(EncodeAll(ts) + rest, ts[0], |Encode(ts[0])|, tail);
      assert ts + ParseStream(rest).replies == [ts[0]] + (ts[1..] + ParseStream(rest).replies);
    }
  }

  lemma ParseStreamCons(s: seq<byte>, reply: Reply, n: nat, tail: seq<byte>)
    requires ParseReply(s, 0) == Ok(reply, n) && s[n..] == tail
    ensures ParseStream(s).replies == [reply] + ParseStream(tail).replies
    ensures ParseStream(s).tail == ParseStream(tail).tail
  {
  }

  lemma EncodeAllCons(ts: seq<Reply>, rest: seq<byte>)
    requires ts != []
    ensures EncodeAll(ts) + rest == Encode(ts[0]) + (EncodeAll(ts[1..]) + rest)
    ensures (EncodeAll(ts) + rest)[|Encode(ts[0])|..] == EncodeAll(ts[1..]) + rest
    ensures |EncodeAll(ts)| == |Encode(ts[0])| + |EncodeAll(ts[1..])|
  {
  }

  /** The array spelling of nil reads as nil too. */
  lemma NilArrayIsNil(rest: seq<byte>, depth: nat)
    requires depth < MAX_DEPTH
    ensures ParseReply([STAR] + Decimal(-1) + CRLF + rest, depth) == Ok(Nil, 5)
  {
    var s := [STAR] + Decimal(-1) + CRLF + rest;
    NumberLineRecovered(-1, rest);
    ParseLeaf(s, Decimal(-1) + CRLF + rest, depth, KArray, Nil, 4);
  }

  /** More bytes never change a verdict of the reference parser. */
  lemma {:induction false} ParseReplyExtends(s: seq<byte>, depth: nat, x: seq<byte>)
    requires !ParseReply(s, depth).More?
    ensures ParseReply(s + x, depth) == ParseReply(s, depth)
    decreases |s|, 0, 0
  {
    if KindOf(s[0]).Some? {
      var item := ReadItem(KindOf(s[0]).value, s[1..], depth);
      ReadItemExtends(KindOf(s[0]).value, s[1..], depth, x);
      if item.Opens? {
        ParseManyExtends(s[item.size + 1..], item.count, depth + 1, x);
      }
      ParseReplySame(s, s + x, depth, KindOf(s[0]).value, x);
    }
  }

  /** ParseReply depends on its input only through the first item and the parse of what follows it. */
  lemma ParseReplySame(s: seq<byte>, s': seq<byte>, depth: nat, kind: Kind, x: seq<byte>)
    requires s != [] && KindOf(s[0]) == Some(kind) && s' == s + x
    requires ReadItem(kind, s[1..] + x, depth) == ReadItem(kind, s[1..], depth)
    requires var item := ReadItem(kind, s[1..], depth);
      !item.Short? &&
      (item.Opens? ==> ParseMany(s[item.size + 1..] + x, item.count, depth + 1)
                       == ParseMany(s[item.size + 1..], item.count, depth + 1))
    ensures ParseReply(s', depth) == ParseReply(s, depth)
  {
    hide ReadItem, ParseMany;
    assert s'[1..] == s[1..] + x;
    var item := ReadItem(kind, s[1..], depth);
    if item.Opens? {
      assert s'[item.size + 1..] == s[item.size + 1..] + x;
    }
  }

  lemma {:induction false} ParseManyExtends(s: seq<byte>, count: nat, depth: nat, x: seq<byte>)
    requires !ParseMany(s, count, depth).ListMore?
    ensures ParseMany(s + x, count, depth) == ParseMany(s, count, depth)
    decreases |s|, 1, count
  {
    hide ParseReply;
    if count > 0 {
      var r := ParseReply(s, depth);
      ParseReplyExtends(s, depth, x);
      if r.Ok? {
        assert (s + x)[r.size..] == s[r.size..] + x;
        ParseManyExtends(s[r.size..], count - 1, depth, x);
      }
    }
  }

  /** More bytes only add replies; a stream that is broken stays broken the same way. */
  lemma {:induction false} ParseStreamExtends(s: seq<byte>, x: seq<byte>)
    ensures ParseStream(s).replies <= ParseStream(s + x).replies
    ensures ParseStream(s).tail.Broken? ==> ParseStream(s + x) == ParseStream(s)
    decreases |s|
  {
    hide ParseReply;
    var p := ParseReply(s, 0);
    if !p.More? {
      ParseReplyExtends(s, 0, x);
    }
    if p.Ok? {
      assert (s + x)[p.size..] == s[p.size..] + x;
      ParseStreamExtends(s[p.size..], x);
    }
  }

  /** A prefix of encoded replies parses to a prefix of them, without error. */
  lemma PrefixOfEncoding(ts: seq<Reply>, n: nat)
    requires forall i :: 0 <= i < |ts| ==> Encodable(ts[i]) && Fits(ts[i], MAX_DEPTH)
    requires n <= |EncodeAll(ts)|
    ensures ParseStream(EncodeAll(ts)[..n]).replies <= ts
    ensures !ParseStream(EncodeAll(ts)[..n]).tail.Broken?
  {
    hide ParseStream, Encodable, Fits;
    var s := EncodeAll(ts);
    assert s[..n] + s[n..] == s && s + [] == s;
    ParseStreamExtends(s[..n], s[n..]);
    StreamRoundTrip(ts, []);
    EmptyStream();
    assert ts + [] == ts;
  }

  lemma EmptyStream()
    ensures ParseStream([]) == Stream([], Cut([]))
  {
  }

  lemma {:induction false} EncodeAllAppend(a: seq<Reply>, b: seq<Reply>)
    ensures EncodeAll(a + b) == EncodeAll(a) + EncodeAll(b)
  {
    hide Encode;
    if a == [] {
      assert a + b == b;
    } else {
      assert (a + b)[1..] == a[1..] + b;
      EncodeAllAppend(a[1..], b);
      assert Encode(a[0]) + (EncodeAll(a[1..]) + EncodeAll(b)) == (Encode(a[0]) + EncodeAll(a[1..])) + EncodeAll(b);
    }
  }
}
