/** The chained hash table of dict.c, with its linked buckets relinked in place, proved to be a finite map. */
module Dict {
  import opened Bytes

  const INITIAL_SIZE: nat := 4
  const LONG_MAX: nat := 0x7fff_ffff_ffff_ffff
  /** Bucket indices are C ints. */
  const MAX_ENTRIES: nat := 0x8000_0000

  // ---------- masks ----------

  function Pow2(k: nat): (r: nat)
    ensures r >= 1
  {
    if k == 0 then 1 else 2 * Pow2(k - 1)
  }

  /** The bitwise conjunction of two naturals. */
  function BitAnd(a: nat, b: nat): (r: nat)
    ensures r <= b
    decreases a
  {
    if a == 0 || b == 0 then 0 else 2 * BitAnd(a / 2, b / 2) + (a % 2) * (b % 2)
  }

  /** Masking with a power of two less one is the remainder modulo that power. */
  lemma {:induction false} MaskIsModulo(h: nat, k: nat)
    ensures BitAnd(h, Pow2(k) - 1) == h % Pow2(k)
    decreases k
  {
    hide BitAnd, Pow2;
    MaskStart(h, k);
    if k > 0 && h > 0 {
      MaskIsModulo(h / 2, k - 1);
      Pow2Twice(k);
      MaskTwice(h, Pow2(k - 1));
    }
  }

  lemma MaskStart(h: nat, k: nat)
    ensures h == 0 || k == 0 ==> BitAnd(h, Pow2(k) - 1) == h % Pow2(k) == 0
  {
    hide BitAnd;
    if k == 0 {
      assert Pow2(k) == 1;
    }
    BitAndZero(h);
  }

  lemma BitAndZero(h: nat)
    ensures BitAnd(h, 0) == 0 && forall b: nat :: BitAnd(0, b) == 0
  {
  }

  lemma Pow2Twice(k: nat)
    requires k > 0
    ensures Pow2(k) == 2 * Pow2(k - 1)
  {
  }

  /** A mask of one bit more. */
  lemma MaskTwice(h: nat, p: nat)
    requires h > 0 && p >= 1 && BitAnd(h / 2, p - 1) == h / 2 % p
    ensures BitAnd(h, 2 * p - 1) == h % (2 * p)
  {
    hide BitAnd;
    OddMask(h, p);
    HalfModulo(h, p);
  }

  /** The lowest bit of an odd mask. */
  lemma OddMask(h: nat, p: nat)
    requires h > 0 && p >= 1
    ensures BitAnd(h, 2 * p - 1) == 2 * BitAnd(h / 2, p - 1) + h % 2
  {
    var b := 2 * p - 1;
    assert b / 2 == p - 1 && b % 2 == 1;
    assert BitAnd(h, b) == 2 * BitAnd(h / 2, b / 2) + (h % 2) * (b % 2);
  }

  lemma HalfModulo(h: nat, p: nat)
    requires p >= 1
    ensures h % (2 * p) == 2 * (h / 2 % p) + h % 2
  {
    var q := h / 2 / p;
    var r := h / 2 % p;
    assert h / 2 == q * p + r;
    assert h == 2 * (h / 2) + h % 2;
    assert h == (2 * p) * q + (2 * r + h % 2) by {
      assert 2 * (q * p + r) == (2 * p) * q + 2 * r;
    }
    ModuloUnique(h, 2 * p, q, 2 * r + h % 2);
  }

  lemma SmallMultiple(m: nat, k: int)
    ensures k >= 1 ==> m * k >= m
    ensures k <= -1 ==> m * k + m <= 0
  {
    assert m * k == m * (k - 1) + m == m * (k + 1) - m;
  }

  lemma ModuloUnique(h: nat, m: nat, q: nat, r: nat)
    requires m > 0 && h == m * q + r && r < m
    ensures h % m == r
  {
    var d := h / m;
    assert h == m * d + h % m;
    assert m * (q - d) == h % m - r;
    SmallMultiple(m, q - d);
  }

  /** `_dictNextPower`. */
  method NextPower(size: nat) returns (r: nat, ghost bits: nat)
    ensures size >= LONG_MAX ==> r == LONG_MAX
    ensures size < LONG_MAX ==> r == Pow2(bits) && r >= size && r >= INITIAL_SIZE && (r == INITIAL_SIZE || r < 2 * size)
  {
    if size >= LONG_MAX {
      return LONG_MAX, 0;
    }
    r, bits := INITIAL_SIZE, 2;
    assert Pow2(2) == 4;
    while r < size
      invariant r == Pow2(bits) && r >= INITIAL_SIZE && (r == INITIAL_SIZE || r < 2 * size)
      decreases size - r
    {
      r, bits := r * 2, bits + 1;
    }
  }

  // ---------- chains ----------

  class Entry<K, V> {
    const key: K
    var val: V
    var next: Entry?<K, V>

    constructor (key: K, val: V, next: Entry?<K, V>)
      ensures this.key == key && this.val == val && this.next == next
    {
      this.key, this.val, this.next := key, val, next;
    }
  }

  /** The entries linked from `head`, in order. */
  ghost predicate ChainOk<K, V>(head: Entry?<K, V>, c: seq<Entry<K, V>>)
    reads (set x | x in c)`next
  {
    && head == (if c == [] then null else c[0])
    && (forall i :: 0 <= i < |c| - 1 ==> c[i].next == c[i + 1])
    && (c != [] ==> c[|c| - 1].next == null)
  }

  predicate DistinctKeys<K(==), V>(c: seq<Entry<K, V>>) {
    forall i, j :: 0 <= i < j < |c| ==> c[i].key != c[j].key
  }

  ghost function Total<K, V>(chains: seq<seq<Entry<K, V>>>): nat {
    if chains == [] then 0 else |chains[0]| + Total(chains[1..])
  }

  lemma {:induction false} TotalUpdate<K, V>(chains: seq<seq<Entry<K, V>>>, b: nat, c: seq<Entry<K, V>>)
    requires b < |chains|
    ensures Total(chains[b := c]) == Total(chains) - |chains[b]| + |c|
    decreases |chains|
  {
    if b > 0 {
      TotalUpdate(chains[1..], b - 1, c);
      assert chains[b := c][1..] == chains[1..][b - 1 := c];
    } else {
      assert chains[b := c][1..] == chains[1..];
    }
  }

  ghost predicate Has<K, V>(c: seq<Entry<K, V>>, k: K) {
    exists i :: 0 <= i < |c| && c[i].key == k
  }

  /** Every bucket's entries, and the entries are those of `ents`. */
  ghost predicate Linked<K, V>(tab: seq<Entry?<K, V>>, chains: seq<seq<Entry<K, V>>>, ents: set<Entry<K, V>>)
    reads ents`next
  {
    && |tab| == |chains|
    && (forall b, i :: 0 <= b < |chains| && 0 <= i < |chains[b]| ==> chains[b][i] in ents)
    && (forall b :: 0 <= b < |chains| ==> ChainOk(tab[b], chains[b]))
  }

  /** Each key sits in the bucket its hash selects, once. */
  ghost predicate Placed<K, V>(chains: seq<seq<Entry<K, V>>>, hash: K -> nat, mask: nat) {
    && (forall b, i :: 0 <= b < |chains| && 0 <= i < |chains[b]| ==> BitAnd(hash(chains[b][i].key), mask) == b)
    && (forall b :: 0 <= b < |chains| ==> DistinctKeys(chains[b]))
  }

  /** The table holds exactly the pairs of `model`. */
  ghost predicate Models<K, V>(chains: seq<seq<Entry<K, V>>>, hash: K -> nat, mask: nat, model: map<K, V>,
                               ents: set<Entry<K, V>>)
    reads ents`val
  {
    Entries(chains, model, ents) && AllPlaced(chains, hash, mask, model)
  }

  class Dict<K(==, !new), V> {
    const hash: K -> nat
    var table: array<Entry?<K, V>>
    var size: nat
    var sizemask: nat
    var used: nat
    ghost var bits: nat
    ghost var chains: seq<seq<Entry<K, V>>>
    ghost var ents: set<Entry<K, V>>
    ghost var model: map<K, V>
    ghost var Repr: set<object>

    ghost predicate Sized()
      reads this
    {
      && table.Length == size && |chains| == size
      && (size > 0 ==> size == Pow2(bits) && sizemask == size - 1)
      && used == Total(chains) == |model| && used <= size
    }

    ghost predicate Valid()
      reads this, Repr
    {
      && this in Repr && table in Repr && ents <= Repr && Sized()
      && Linked(table[..], chains, ents) && Placed(chains, hash, sizemask)
      && Models(chains, hash, sizemask, model, ents)
    }

    /** `dictCreate`. */
    constructor (hash: K -> nat)
      ensures Valid() && fresh(Repr) && model == map[] && this.hash == hash
    {
      this.hash := hash;
      table := new Entry?<K, V>[0];
      size, sizemask, used := 0, 0, 0;
      bits, chains, ents, model := 0, [], {}, map[];
      Repr := {this, table};
    }

    /** The bucket of a key. */
    function Index(key: K): (h: nat)
      requires size > 0 && sizemask == size - 1
      reads this
      ensures h < size
    {
      BitAnd(hash(key), sizemask)
    }

    /** The bucket search common to all operations: the entry with the key, and its position in the chain. */
    method Search(h: nat, key: K) returns (e: Entry?<K, V>, ghost at: nat)
      requires Valid() && h < size
      ensures e != null ==> at < |chains[h]| && chains[h][at] == e && e.key == key
      ensures e == null ==> !Has(chains[h], key)
    {
      hide Placed, Models, Total, Pow2;
      ghost var c := chains[h];
      assert ChainOk(table[..][h], c);
      e, at := table[h], 0;
      while e != null
        invariant at <= |c| && e == (if at < |c| then c[at] else null)
        invariant forall i :: 0 <= i < at ==> c[i].key != key
        decreases |c| - at
      {
        if e.key == key {
          return;
        }
        assert at == |c| - 1 || c[at].next == c[at + 1];
        e, at := e.next, at + 1;
      }
    }

    /** `dictFind`. */
    method Find(key: K) returns (e: Entry?<K, V>, ghost at: nat)
      requires Valid()
      ensures e != null <==> key in model
      ensures e != null ==> e in ents && e.key == key && e.val == model[key]
      ensures e != null ==> size > 0 && at < |chains[Index(key)]| && chains[Index(key)][at] == e
    {
      if size == 0 {
        assert key !in model;
        return null, 0;
      }
      var h := Index(key);
      e, at := Search(h, key);
      if e != null {
        assert chains[h][at] in ents;
      }
    }

    /** Linking a new entry at the head of its bucket. */
    method InsertHead(h: nat, key: K, val: V)
      requires Valid() && size > 0 && used < size && h == BitAnd(hash(key), sizemask) && key !in model
      modifies Repr
      ensures Valid() && fresh(Repr - old(Repr)) && model == old(model)[key := val]
      ensures size == old(size)
    {
      hide Total, Pow2, Placed, Models, Linked;
      var e := new Entry(key, val, table[h]);
      ghost var tab := table[..];
      AbsentInBucket(chains, hash, sizemask, model, ents, key);
      PlacedInsert(chains, hash, sizemask, h, e);
      TotalUpdate(chains, h, [e] + chains[h]);
      LinkedInsert(tab, chains, ents, h, e);
      ModelsInsert(chains, hash, sizemask, model, ents, h, e);
      table[h] := e;
      assert table[..] == tab[h := e];
      used := used + 1;
      Repr := Repr + {e};
      ents := ents + {e};
      chains := chains[h := [e] + chains[h]];
      model := model[key := val];
    }

    /** `dictExpand`: all entries move to a table of the next power of two; the map does not change. */
    method Expand(newsize: nat) returns (ok: bool)
      requires Valid() && newsize < LONG_MAX
      modifies Repr
      ensures Valid() && fresh(Repr - old(Repr)) && model == old(model)
      ensures ok == (old(used) <= newsize)
      ensures ok ==> size >= newsize && size >= INITIAL_SIZE && (size == INITIAL_SIZE || size < 2 * newsize)
      ensures !ok ==> size == old(size)
    {
      hide Placed, Models, Linked, Total, Pow2;
      var realsize;
      ghost var b;
      realsize, b := NextPower(newsize);
      if used > newsize {
        return false;
      }
      var n := used;
      var t: array<Entry?<K, V>> := new Entry?<K, V>[realsize](_ => null);
      ghost var nc: seq<seq<Entry<K, V>>>;
      nc := MoveAll(t, realsize - 1);
      Install(t, n, b, nc);
      ok := true;
    }

    /** The new table replaces the old one. */
    method Install(t: array<Entry?<K, V>>, n: nat, ghost b: nat, ghost nc: seq<seq<Entry<K, V>>>)
      requires this in Repr && ents <= Repr && t.Length == |nc| == Pow2(b) && n == Total(nc) == |model| && n <= t.Length
      requires Linked(t[..], nc, ents) && Placed(nc, hash, t.Length - 1) && Models(nc, hash, t.Length - 1, model, ents)
      modifies this
      ensures Valid() && Repr == old(Repr) + {t} && model == old(model) && size == t.Length
    {
      hide Placed, Models, Linked, Total, Pow2;
      table := t;
      size, sizemask, used := t.Length, t.Length - 1, n;
      bits, chains := b, nc;
      Repr := Repr + {t};
    }

    /** The rehash in progress: the first `i` buckets have moved to `t`, the others are intact. */
    ghost predicate Moving(t: array<Entry?<K, V>>, nmask: nat, nc: seq<seq<Entry<K, V>>>, i: nat)
      reads this, table, t, ents
    {
      && i <= size == |chains| == table.Length && t != table
      && Partial(t[..], nc, hash, nmask, model, ents) && Transferred(nc, nmask, chains, sizemask, hash, i)
      && Placed(chains, hash, sizemask) && Entries(chains, model, ents)
      && (forall b :: i <= b < size ==> ChainOk(table[b], chains[b]))
      && used == Total(chains[i..]) && Total(nc) + used == |model| && AllPlaced(chains, hash, sizemask, model)
    }

    /** One bucket. */
    method MoveOne(t: array<Entry?<K, V>>, nmask: nat, ghost nc: seq<seq<Entry<K, V>>>, i: nat)
      returns (ghost nc': seq<seq<Entry<K, V>>>)
      requires Moving(t, nmask, nc, i) && i < size
      modifies this`used, t, ents`next
      ensures Moving(t, nmask, nc', i + 1)
    {
      hide Total, Transferred, BitAnd, Has, Partial, AllPlaced;
      assert chains[i..][0] == chains[i] && chains[i..][1..] == chains[i + 1..];
      TotalCons(chains[i..]);
      PartialSize(t[..], nc, hash, nmask, model, ents);
      NextBucketIsNew(nc, nmask, chains, sizemask, hash, i);
      BucketsApart(chains, hash, sizemask, i);
      var moved;
      nc', moved := MoveBucket(table[i], chains[i], t, nc, hash, nmask, model, ents);
      TransferredStep(nc, nc', nmask, chains, sizemask, hash, i);
      used := used - moved;
    }

    /** The outer loop of `dictExpand`; it ends with no entry uncounted. */
    method MoveAll(t: array<Entry?<K, V>>, nmask: nat) returns (ghost nc: seq<seq<Entry<K, V>>>)
      requires Valid() && t !in Repr && t.Length == nmask + 1 && forall i :: 0 <= i < t.Length ==> t[i] == null
      modifies this`used, t, ents`next
      ensures Linked(t[..], nc, ents) && Placed(nc, hash, nmask) && Models(nc, hash, nmask, model, ents)
      ensures Total(nc) == |model| && |nc| == nmask + 1 && used == 0
    {
      hide Moving, Linked, Placed, Models, Total, Valid;
      nc := MovingStarts(t, nmask);
      var i := 0;
      while i < size && used > 0
        invariant 0 <= i <= size && Moving(t, nmask, nc, i)
      {
        nc := MoveOne(t, nmask, nc, i);
        i := i + 1;
      }
      MovingEnds(t, nmask, nc, i);
    }

    lemma MovingStarts(t: array<Entry?<K, V>>, nmask: nat) returns (nc: seq<seq<Entry<K, V>>>)
      requires Valid() && t !in Repr && t.Length == nmask + 1 && forall i :: 0 <= i < t.Length ==> t[i] == null
      ensures Moving(t, nmask, nc, 0)
    {
      hide Total, Pow2, Transferred, BitAnd, Has, Placed, Models, Entries, Partial;
      nc := seq(nmask + 1, _ => []);
      EmptyTable<K, V>(nmask + 1, hash, sizemask, chains);
      EmptyPartial(t[..], hash, nmask, model, ents);
      ModelsEntries(chains, hash, sizemask, model, ents);
      assert chains[0..] == chains;
      assert AllPlaced(chains, hash, sizemask, model);
    }

    lemma MovingEnds(t: array<Entry?<K, V>>, nmask: nat, nc: seq<seq<Entry<K, V>>>, i: nat)
      requires Moving(t, nmask, nc, i) && (i == size || used == 0)
      ensures Linked(t[..], nc, ents) && Placed(nc, hash, nmask) && Models(nc, hash, nmask, model, ents)
      ensures Total(nc) == |model| && |nc| == nmask + 1 && used == 0
    {
      hide Total, Transferred, BitAnd, Has, Placed, Models, Entries;
      if i == size {
        TotalNil(chains[i..]);
      }
      NothingLeft(chains, i);
      TransferComplete(t[..], nc, nmask, chains, sizemask, hash, i, model, ents);
    }

    /** `_dictExpandIfNeeded`: after it there is room for one more entry. */
    method ExpandIfNeeded() returns (ok: bool)
      requires Valid() && used < MAX_ENTRIES
      modifies Repr
      ensures Valid() && fresh(Repr - old(Repr)) && model == old(model)
      ensures ok && size > 0 && used < size
    {
      hide Placed, Models, Linked, Total;
      if size == 0 {
        ok := Expand(INITIAL_SIZE);
      } else if used == size {
        ok := Expand(size * 2);
      } else {
        ok := true;
      }
    }

    /** `dictAdd`: refused when the key is there. */
    method Add(key: K, val: V) returns (ok: bool)
      requires Valid() && used < MAX_ENTRIES
      modifies Repr
      ensures Valid() && fresh(Repr - old(Repr))
      ensures ok == (key !in old(model))
      ensures model == if ok then old(model)[key := val] else old(model)
    {
      hide Placed, Models, Linked, Total, Pow2;
      var _ := ExpandIfNeeded();
      var h := Index(key);
      var e, at := Search(h, key);
      KeyPresence(h, key);
      if e != null {
        assert Has(chains[h], key);
        return false;
      }
      InsertHead(h, key, val);
      ok := true;
    }

    lemma KeyPresence(h: nat, key: K)
      requires Valid() && h < size && h == BitAnd(hash(key), sizemask)
      ensures key in model <==> Has(chains[h], key)
    {
    }

    /** `dictReplace`: 1 when the key was added, 0 when its value was replaced. */
    method Replace(key: K, val: V) returns (added: bool)
      requires Valid() && used < MAX_ENTRIES
      modifies Repr
      ensures Valid() && fresh(Repr - old(Repr))
      ensures added == (key !in old(model)) && model == old(model)[key := val]
    {
      hide Placed, Models, Linked, Total, Pow2;
      added := Add(key, val);
      if added {
        return;
      }
      var entry, at := Find(key);
      AssignVal(entry, val, table[..], chains, Index(key), at, hash, sizemask, model, ents);
      model := model[key := val];
    }

    /** `dictDelete`. The entry leaves its chain; every other chain and entry stays as it is. */
    method Delete(key: K) returns (ok: bool, ghost at: nat)
      requires Valid()
      modifies Repr
      ensures Valid() && Repr == old(Repr) && size == old(size) && sizemask == old(sizemask) && table == old(table)
      ensures ok == (key in old(model)) && model == old(model) - {key}
      ensures !ok ==> chains == old(chains)
      ensures ok ==> size > 0 && TakenOut(old(chains), chains, Index(key), at, key)
    {
      hide Placed, Models, Linked, Total, Pow2;
      if size == 0 {
        NothingInNothing();
        return false, 0;
      }
      var h := Index(key);
      var de, prevde;
      de, prevde, at := SearchPrev(h, key);
      KeyPresence(h, key);
      if de == null {
        return false, at;
      }
      TotalUpdate(chains, h, Without(chains[h], at));
      Cut(table, h, prevde, de, chains, at, hash, sizemask, model, ents);
      chains := chains[h := Without(chains[h], at)];
      model := model - {key};
      used := used - 1;
      ok := true;
    }

    lemma NothingInNothing()
      requires Valid() && size == 0
      ensures model == map[]
    {
    }

    /** The search of `dictDelete`, which remembers the entry before. */
    method SearchPrev(h: nat, key: K) returns (e: Entry?<K, V>, prev: Entry?<K, V>, ghost at: nat)
      requires Valid() && h < size
      ensures e != null ==> at < |chains[h]| && chains[h][at] == e && e.key == key
      ensures e != null ==> prev == (if at > 0 then chains[h][at - 1] else null)
      ensures e == null ==> !Has(chains[h], key)
      ensures e != null ==> Has(chains[h], key)
    {
      hide Placed, Models, Total, Pow2;
      ghost var c := chains[h];
      assert ChainOk(table[..][h], c);
      e, prev, at := table[h], null, 0;
      while e != null
        invariant at <= |c| && e == (if at < |c| then c[at] else null)
        invariant prev == (if at > 0 then c[at - 1] else null)
        invariant forall i :: 0 <= i < at ==> c[i].key != key
        decreases |c| - at
      {
        if e.key == key {
          return;
        }
        assert at == |c| - 1 || c[at].next == c[at + 1];
        prev := e;
        e, at := e.next, at + 1;
      }
    }

    lemma BucketChain(b: nat)
      requires Valid() && b < size
      ensures ChainOk(table[b], chains[b])
    {
      assert ChainOk(table[..][b], chains[b]);
    }
  }

  // ---------- rehashing ----------

  /** The value of a linked entry is replaced. */
  method AssignVal<K, V>(e: Entry<K, V>, val: V, ghost tab: seq<Entry?<K, V>>, ghost chains: seq<seq<Entry<K, V>>>,
                         ghost h: nat, ghost at: nat, ghost hash: K -> nat, ghost mask: nat, ghost model: map<K, V>,
                         ghost ents: set<Entry<K, V>>)
    requires Linked(tab, chains, ents) && Placed(chains, hash, mask) && Models(chains, hash, mask, model, ents)
    requires h < |chains| && at < |chains[h]| && chains[h][at] == e
    modifies e`val
    ensures Linked(tab, chains, ents) && Models(chains, hash, mask, model[e.key := val], ents)
  {
    hide BitAnd, Has;
    e.val := val;
    forall b | 0 <= b < |chains|
      ensures ChainOk(tab[b], chains[b])
    {
      assert old(ChainOk(tab[b], chains[b]));
    }
    forall b, i | 0 <= b < |chains| && 0 <= i < |chains[b]|
      ensures model[e.key := val][chains[b][i].key] == chains[b][i].val
    {
      if chains[b][i].key == e.key {
        SamePlace(chains, hash, mask, h, at, b, i);
      }
    }
  }

  /** A key occurs at one place only. */
  lemma SamePlace<K, V>(chains: seq<seq<Entry<K, V>>>, hash: K -> nat, mask: nat, h: nat, at: nat, b: nat, i: nat)
    requires Placed(chains, hash, mask) && h < |chains| && at < |chains[h]| && b < |chains| && i < |chains[b]|
    requires chains[h][at].key == chains[b][i].key
    ensures h == b && at == i
  {
    hide BitAnd;
  }

  /** The entry at position `at` of chain `h`, and no other, has left. */
  ghost predicate TakenOut<K, V>(before: seq<seq<Entry<K, V>>>, after: seq<seq<Entry<K, V>>>, h: nat, at: nat, key: K) {
    h < |before| && at < |before[h]| && before[h][at].key == key && after == before[h := Without(before[h], at)]
  }

  ghost function Without<K, V>(c: seq<Entry<K, V>>, at: nat): seq<Entry<K, V>>
    requires at < |c|
  {
    c[..at] + c[at + 1..]
  }

  /** Unlinking the entry at position `at` of a chain. */
  method CutChain<K, V>(t: array<Entry?<K, V>>, h: nat, prev: Entry?<K, V>, e: Entry<K, V>, ghost c: seq<Entry<K, V>>,
                        ghost at: nat)
    requires h < t.Length && ChainOk(t[h], c) && at < |c| && c[at] == e
    requires prev == (if at > 0 then c[at - 1] else null) && forall i, j :: 0 <= i < j < |c| ==> c[i] != c[j]
    modifies t, (set x | x in c && x == prev)`next
    ensures ChainOk(t[h], Without(c, at)) && t[..] == old(t[..])[h := t[h]]
  {
    ghost var c' := Without(c, at);
    assert at < |c| - 1 ==> e.next == c[at + 1];
    if prev != null {
      prev.next := e.next;
    } else {
      t[h] := e.next;
    }
    assert forall i :: 0 <= i < |c'| ==> c'[i] == if i < at then c[i] else c[i + 1];
    assert forall i :: 0 <= i < |c| && i != at - 1 ==> c[i].next == old(c[i].next);
  }

  /** Unlinking the entry at position `at` of bucket `h`. */
  method Cut<K, V>(t: array<Entry?<K, V>>, h: nat, prev: Entry?<K, V>, e: Entry<K, V>,
                   ghost chains: seq<seq<Entry<K, V>>>,
                   ghost at: nat, ghost hash: K -> nat, ghost mask: nat, ghost model: map<K, V>,
                   ghost ents: set<Entry<K, V>>)
    requires Linked(t[..], chains, ents) && Placed(chains, hash, mask) && Models(chains, hash, mask, model, ents)
    requires h < |chains| && at < |chains[h]| && chains[h][at] == e
    requires prev == if at > 0 then chains[h][at - 1] else null
    modifies t, (set x | x in ents && x == prev)`next
    ensures var chains' := chains[h := Without(chains[h], at)];
      Linked(t[..], chains', ents) && Placed(chains', hash, mask) && Models(chains', hash, mask, model - {e.key}, ents)
  {
    hide BitAnd, Has, Models;
    ghost var tab := t[..];
    assert ChainOk(tab[h], chains[h]);
    PlacedWithout(chains, hash, mask, h, at);
    ModelsWithout(chains, hash, mask, model, ents, h, at);
    BucketsApart(chains, hash, mask, h);
    CutChain(t, h, prev, e, chains[h], at);
    ghost var chains' := chains[h := Without(chains[h], at)];
    forall b | 0 <= b < |chains'|
      ensures ChainOk(t[..][b], chains'[b])
    {
      if b != h {
        assert old(ChainOk(t[..][b], chains[b]));
        assert prev !in chains[b];
      }
    }
  }

  lemma PlacedWithout<K, V>(chains: seq<seq<Entry<K, V>>>, hash: K -> nat, mask: nat, h: nat, at: nat)
    requires Placed(chains, hash, mask) && h < |chains| && at < |chains[h]|
    ensures Placed(chains[h := Without(chains[h], at)], hash, mask)
  {
    hide BitAnd;
    var c, c' := chains[h], Without(chains[h], at);
    assert forall i :: 0 <= i < |c'| ==> c'[i] == if i < at then c[i] else c[i + 1];
  }

  lemma ModelsWithout<K, V>(chains: seq<seq<Entry<K, V>>>, hash: K -> nat, mask: nat, model: map<K, V>,
                            ents: set<Entry<K, V>>, h: nat, at: nat)
    requires Placed(chains, hash, mask) && Models(chains, hash, mask, model, ents) && h < |chains| && at < |chains[h]|
    ensures Models(chains[h := Without(chains[h], at)], hash, mask, model - {chains[h][at].key}, ents)
  {
    hide BitAnd, Placed, Entries, AllPlaced;
    EntriesWithout(chains, hash, mask, model, ents, h, at);
    AllPlacedWithout(chains, hash, mask, model, h, at);
  }

  lemma EntriesWithout<K, V>(chains: seq<seq<Entry<K, V>>>, hash: K -> nat, mask: nat, model: map<K, V>,
                             ents: set<Entry<K, V>>, h: nat, at: nat)
    requires Placed(chains, hash, mask) && Entries(chains, model, ents) && h < |chains| && at < |chains[h]|
    ensures Entries(chains[h := Without(chains[h], at)], model - {chains[h][at].key}, ents)
  {
    hide BitAnd, Placed;
    var c, c', key := chains[h], Without(chains[h], at), chains[h][at].key;
    var chains': seq<seq<Entry<K, V>>> := chains[h := c'];
    assert forall i :: 0 <= i < |c'| ==> c'[i] == if i < at then c[i] else c[i + 1];
    forall b: nat, i: nat | b < |chains'| && i < |chains'[b]|
      ensures chains'[b][i].key != key
    {
      var i0: nat := if b == h && i >= at then i + 1 else i;
      assert chains'[b][i] == chains[b][i0];
      if chains[b][i0].key == key {
        SamePlace(chains, hash, mask, h, at, b, i0);
      }
    }
  }

  lemma AllPlacedWithout<K, V>(chains: seq<seq<Entry<K, V>>>, hash: K -> nat, mask: nat, model: map<K, V>,
                               h: nat, at: nat)
    requires AllPlaced(chains, hash, mask, model) && h < |chains| && at < |chains[h]|
    ensures AllPlaced(chains[h := Without(chains[h], at)], hash, mask, model - {chains[h][at].key})
  {
    hide BitAnd;
    var c, c', key := chains[h], Without(chains[h], at), chains[h][at].key;
    var chains': seq<seq<Entry<K, V>>> := chains[h := c'];
    forall k | k in model - {key}
      ensures BitAnd(hash(k), mask) < |chains'| && Has(chains'[BitAnd(hash(k), mask)], k)
    {
      var b := BitAnd(hash(k), mask);
      var i :| 0 <= i < |chains[b]| && chains[b][i].key == k;
      if b == h {
        assert c'[if i < at then i else i - 1].key == k;
      }
    }
  }

  /** An entry whose key is not in its bucket is in no bucket. */
  lemma NotLinked<K, V>(chains: seq<seq<Entry<K, V>>>, hash: K -> nat, mask: nat, e: Entry<K, V>)
    requires Placed(chains, hash, mask)
    requires BitAnd(hash(e.key), mask) < |chains| ==> !Has(chains[BitAnd(hash(e.key), mask)], e.key)
    ensures forall b, i :: 0 <= b < |chains| && 0 <= i < |chains[b]| ==> chains[b][i] != e
  {
    hide BitAnd;
  }

  /** The new table of a rehash: well linked and placed, and its entries are pairs of `model`. */
  ghost predicate Partial<K, V>(tab: seq<Entry?<K, V>>, chains: seq<seq<Entry<K, V>>>, hash: K -> nat, mask: nat,
                                model: map<K, V>, ents: set<Entry<K, V>>)
    reads ents
  {
    |chains| == mask + 1 && Linked(tab, chains, ents) && Placed(chains, hash, mask) && Entries(chains, model, ents)
  }

  /** Relinking one entry at the head of a bucket of the new table. */
  method Relink<K, V>(e: Entry<K, V>, t: array<Entry?<K, V>>, h: nat, ghost nc: seq<seq<Entry<K, V>>>,
                      ghost hash: K -> nat, ghost mask: nat, ghost model: map<K, V>, ghost ents: set<Entry<K, V>>)
    requires Partial(t[..], nc, hash, mask, model, ents) && e in ents && h < |nc| && h == BitAnd(hash(e.key), mask)
    requires !Has(nc[h], e.key) && e.key in model && model[e.key] == e.val
    modifies e`next, t
    ensures Partial(t[..], nc[h := [e] + nc[h]], hash, mask, model, ents)
  {
    hide BitAnd;
    NotLinked(nc, hash, mask, e);
    PlacedInsert(nc, hash, mask, h, e);
    ghost var tab, nc' := t[..], nc[h := [e] + nc[h]];
    e.next := t[h];
    t[h] := e;
    assert t[..] == tab[h := e];
    forall b | 0 <= b < |nc'|
      ensures ChainOk(t[..][b], nc'[b])
    {
      assert old(ChainOk(t[..][b], nc[b]));
      assert ChainOk(tab[b], nc[b]);
    }
  }

  /** Every entry is a pair of `model`. */
  /** Every key of the map is in its bucket. */
  ghost predicate AllPlaced<K, V>(chains: seq<seq<Entry<K, V>>>, hash: K -> nat, mask: nat, model: map<K, V>) {
    forall k :: k in model ==> BitAnd(hash(k), mask) < |chains| && Has(chains[BitAnd(hash(k), mask)], k)
  }

  ghost predicate Entries<K, V>(chains: seq<seq<Entry<K, V>>>, model: map<K, V>, ents: set<Entry<K, V>>)
    reads ents`val
  {
    forall b, i :: 0 <= b < |chains| && 0 <= i < |chains[b]| ==>
      chains[b][i] in ents && chains[b][i].key in model && model[chains[b][i].key] == chains[b][i].val
  }

  lemma ModelsEntries<K, V>(chains: seq<seq<Entry<K, V>>>, hash: K -> nat, mask: nat, model: map<K, V>,
                            ents: set<Entry<K, V>>)
    requires Models(chains, hash, mask, model, ents)
    ensures Entries(chains, model, ents)
    ensures forall k :: k in model ==> BitAnd(hash(k), mask) < |chains| && Has(chains[BitAnd(hash(k), mask)], k)
  {
  }

  lemma EmptyPartial<K, V>(tab: seq<Entry?<K, V>>, hash: K -> nat, mask: nat, model: map<K, V>, ents: set<Entry<K, V>>)
    requires |tab| == mask + 1 && forall i :: 0 <= i < |tab| ==> tab[i] == null
    ensures Partial(tab, seq(mask + 1, _ => []), hash, mask, model, ents)
  {
  }

  /** Entries of different buckets are different objects. */
  lemma BucketsApart<K, V>(chains: seq<seq<Entry<K, V>>>, hash: K -> nat, mask: nat, n: nat)
    requires Placed(chains, hash, mask) && n < |chains|
    ensures forall b, i :: 0 <= b < |chains| && b != n && 0 <= i < |chains[b]| ==> chains[b][i] !in chains[n]
  {
    hide BitAnd;
  }

  /** The keys of `nc'` are those of `nc` and those of `c`. */
  ghost predicate KeysAdded<K(!new), V>(nc: seq<seq<Entry<K, V>>>, nc': seq<seq<Entry<K, V>>>, c: seq<Entry<K, V>>,
                                  hash: K -> nat, mask: nat)
  {
    && |nc'| == |nc|
    && (forall b, k :: 0 <= b < |nc| ==>
          (Has(nc'[b], k) <==> Has(nc[b], k) || (Has(c, k) && BitAnd(hash(k), mask) == b)))
  }

  lemma KeysAddedStep<K(!new), V>(nc: seq<seq<Entry<K, V>>>, nc': seq<seq<Entry<K, V>>>, c: seq<Entry<K, V>>,
                            hash: K -> nat, mask: nat, e: Entry<K, V>, h: nat)
    requires KeysAdded(nc, nc', c, hash, mask) && h == BitAnd(hash(e.key), mask) && h < |nc'|
    ensures KeysAdded(nc, nc'[h := [e] + nc'[h]], c + [e], hash, mask)
  {
    hide BitAnd, Has;
    var nc'' := nc'[h := [e] + nc'[h]];
    forall b, k | 0 <= b < |nc|
      ensures Has(nc''[b], k) <==> Has(nc[b], k) || (Has(c + [e], k) && BitAnd(hash(k), mask) == b)
    {
      HasPrepend(nc'[h], e, k);
      HasAppend(c, e, k);
    }
  }

  lemma HasPrepend<K, V>(c: seq<Entry<K, V>>, e: Entry<K, V>, k: K)
    ensures Has([e] + c, k) <==> e.key == k || Has(c, k)
  {
    if e.key == k {
      assert ([e] + c)[0].key == k;
    }
    if Has(c, k) {
      var i :| 0 <= i < |c| && c[i].key == k;
      assert ([e] + c)[i + 1].key == k;
    }
  }

  lemma HasAppend<K, V>(c: seq<Entry<K, V>>, e: Entry<K, V>, k: K)
    ensures Has(c + [e], k) <==> e.key == k || Has(c, k)
  {
    if e.key == k {
      assert (c + [e])[|c|].key == k;
    }
    if Has(c, k) {
      var i :| 0 <= i < |c| && c[i].key == k;
      assert (c + [e])[i].key == k;
    }
  }

  /** The inner loop of `dictExpand`: every entry of one old bucket is relinked into the new table. */
  method MoveBucket<K(!new), V>(head: Entry?<K, V>, ghost c: seq<Entry<K, V>>, t: array<Entry?<K, V>>,
                          ghost nc: seq<seq<Entry<K, V>>>, hash: K -> nat, mask: nat,
                          ghost model: map<K, V>, ghost ents: set<Entry<K, V>>)
    returns (ghost nc': seq<seq<Entry<K, V>>>, moved: nat)
    requires ChainOk(head, c) && Partial(t[..], nc, hash, mask, model, ents) && DistinctKeys(c)
    requires forall i :: 0 <= i < |c| ==> c[i] in ents && c[i].key in model && model[c[i].key] == c[i].val
    requires forall i :: 0 <= i < |c| ==> !Has(nc[BitAnd(hash(c[i].key), mask)], c[i].key)
    modifies (set x | x in c)`next, t
    ensures Partial(t[..], nc', hash, mask, model, ents) && KeysAdded(nc, nc', c, hash, mask)
    ensures Total(nc') == Total(nc) + |c| && moved == |c|
  {
    hide BitAnd, Has, Partial, Total;
    nc', moved := nc, 0;
    var he := head;
    KeysNone(nc, hash, mask);
    PartialSize(t[..], nc, hash, mask, model, ents);
    while he != null
      invariant moved <= |c| && he == (if moved < |c| then c[moved] else null)
      invariant forall i :: moved <= i < |c| ==> c[i].next == old(c[i].next)
      invariant Partial(t[..], nc', hash, mask, model, ents) && KeysAdded(nc, nc', c[..moved], hash, mask)
      invariant Total(nc') == Total(nc) + moved && |nc'| == mask + 1
      decreases |c| - moved
    {
      var nextHe := he.next;
      var h := BitAnd(hash(he.key), mask);
      assert !Has(nc'[h], he.key) by { NotYetMoved(nc, nc', c, hash, mask, moved); }
      TotalUpdate(nc', h, [he] + nc'[h]);
      KeysAddedStep(nc, nc', c[..moved], hash, mask, he, h);
      assert c[..moved + 1] == c[..moved] + [he];
      Relink(he, t, h, nc', hash, mask, model, ents);
      nc' := nc'[h := [he] + nc'[h]];
      moved := moved + 1;
      he := nextHe;
    }
    assert c[..moved] == c;
  }

  lemma NotYetMoved<K(!new), V>(nc: seq<seq<Entry<K, V>>>, nc': seq<seq<Entry<K, V>>>, c: seq<Entry<K, V>>,
                          hash: K -> nat, mask: nat, n: nat)
    requires n < |c| && DistinctKeys(c) && KeysAdded(nc, nc', c[..n], hash, mask) && |nc| == mask + 1
    requires !Has(nc[BitAnd(hash(c[n].key), mask)], c[n].key)
    ensures !Has(nc'[BitAnd(hash(c[n].key), mask)], c[n].key)
  {
    hide BitAnd;
    assert !Has(c[..n], c[n].key);
  }

  lemma KeysNone<K(!new), V>(nc: seq<seq<Entry<K, V>>>, hash: K -> nat, mask: nat)
    ensures forall c: seq<Entry<K, V>> {:trigger c[..0]} :: KeysAdded(nc, nc, c[..0], hash, mask)
  {
  }

  lemma PartialSize<K, V>(tab: seq<Entry?<K, V>>, chains: seq<seq<Entry<K, V>>>, hash: K -> nat, mask: nat,
                          model: map<K, V>, ents: set<Entry<K, V>>)
    requires Partial(tab, chains, hash, mask, model, ents)
    ensures |chains| == mask + 1
  {
  }

  /** The new table holds exactly the keys of the first `n` old buckets. */
  ghost predicate Transferred<K(!new), V>(nc: seq<seq<Entry<K, V>>>, nmask: nat, chains: seq<seq<Entry<K, V>>>,
                                          mask: nat, hash: K -> nat, n: nat)
  {
    forall x, k :: 0 <= x < |nc| ==>
      (Has(nc[x], k) <==> BitAnd(hash(k), nmask) == x && InFirst(chains, mask, hash, n, k))
  }

  ghost predicate InFirst<K, V>(chains: seq<seq<Entry<K, V>>>, mask: nat, hash: K -> nat, n: nat, k: K) {
    var b := BitAnd(hash(k), mask);
    b < n && b < |chains| && Has(chains[b], k)
  }

  lemma TransferredStep<K(!new), V>(nc: seq<seq<Entry<K, V>>>, nc': seq<seq<Entry<K, V>>>, nmask: nat,
                                    chains: seq<seq<Entry<K, V>>>, mask: nat, hash: K -> nat, n: nat)
    requires Transferred(nc, nmask, chains, mask, hash, n) && n < |chains| && Placed(chains, hash, mask)
    requires KeysAdded(nc, nc', chains[n], hash, nmask)
    ensures Transferred(nc', nmask, chains, mask, hash, n + 1)
  {
    hide BitAnd;
    forall k | Has(chains[n], k)
      ensures BitAnd(hash(k), mask) == n
    {
      var i :| 0 <= i < |chains[n]| && chains[n][i].key == k;
    }
  }

  /** The entries of the next bucket are not in the new table yet. */
  lemma NextBucketIsNew<K(!new), V>(nc: seq<seq<Entry<K, V>>>, nmask: nat, chains: seq<seq<Entry<K, V>>>,
                                    mask: nat, hash: K -> nat, n: nat)
    requires Transferred(nc, nmask, chains, mask, hash, n) && n < |chains| && Placed(chains, hash, mask)
    requires |nc| == nmask + 1
    ensures forall i :: 0 <= i < |chains[n]| ==> !Has(nc[BitAnd(hash(chains[n][i].key), nmask)], chains[n][i].key)
  {
    hide BitAnd;
  }

  /** When every entry has moved, the new table holds the same map. */
  lemma TransferComplete<K(!new), V>(tab: seq<Entry?<K, V>>, nc: seq<seq<Entry<K, V>>>, nmask: nat,
                                     chains: seq<seq<Entry<K, V>>>, mask: nat, hash: K -> nat, n: nat,
                                     model: map<K, V>, ents: set<Entry<K, V>>)
    requires Partial(tab, nc, hash, nmask, model, ents) && Transferred(nc, nmask, chains, mask, hash, n)
    requires n <= |chains| && forall b :: n <= b < |chains| ==> chains[b] == []
    requires forall k :: k in model ==> BitAnd(hash(k), mask) < |chains| && Has(chains[BitAnd(hash(k), mask)], k)
    ensures Models(nc, hash, nmask, model, ents)
  {
    forall k | k in model
      ensures BitAnd(hash(k), nmask) < |nc| && Has(nc[BitAnd(hash(k), nmask)], k)
    {
      assert InFirst(chains, mask, hash, n, k);
    }
  }

  lemma {:induction false} NothingLeft<K, V>(chains: seq<seq<Entry<K, V>>>, n: nat)
    requires n <= |chains| && Total(chains[n..]) == 0
    ensures forall b :: n <= b < |chains| ==> chains[b] == []
    decreases |chains| - n
  {
    if n < |chains| {
      assert chains[n..][0] == chains[n] && chains[n..][1..] == chains[n + 1..];
      NothingLeft(chains, n + 1);
    }
  }

  lemma {:induction false} EmptyTable<K(!new), V>(size: nat, hash: K -> nat, mask: nat, chains: seq<seq<Entry<K, V>>>)
    ensures var nc: seq<seq<Entry<K, V>>> := seq(size, _ => []);
      Total(nc) == 0 && Transferred(nc, size - 1 + (if size == 0 then 1 else 0), chains, mask, hash, 0)
    decreases size
  {
    var nc: seq<seq<Entry<K, V>>> := seq(size, _ => []);
    if size > 0 {
      EmptyTable(size - 1, hash, mask, chains);
      var shorter: seq<seq<Entry<K, V>>> := seq(size - 1, _ => []);
      assert nc[1..] == shorter;
    }
  }

  lemma TotalCons<K, V>(chains: seq<seq<Entry<K, V>>>)
    requires chains != []
    ensures Total(chains) == |chains[0]| + Total(chains[1..])
  {
  }

  lemma TotalNil<K, V>(chains: seq<seq<Entry<K, V>>>)
    ensures chains == [] ==> Total(chains) == 0
  {
  }

  lemma LinkedInsert<K, V>(tab: seq<Entry?<K, V>>, chains: seq<seq<Entry<K, V>>>, ents: set<Entry<K, V>>, h: nat,
                           e: Entry<K, V>)
    requires Linked(tab, chains, ents) && h < |chains| && e !in ents && e.next == tab[h]
    ensures Linked(tab[h := e], chains[h := [e] + chains[h]], ents + {e})
  {
    var tab', chains' := tab[h := e], chains[h := [e] + chains[h]];
    forall b | 0 <= b < |chains'|
      ensures ChainOk(tab'[b], chains'[b])
    {
      assert ChainOk(tab[b], chains[b]);
    }
  }

  lemma ModelsInsert<K, V>(chains: seq<seq<Entry<K, V>>>, hash: K -> nat, mask: nat, model: map<K, V>,
                           ents: set<Entry<K, V>>, h: nat, e: Entry<K, V>)
    requires Models(chains, hash, mask, model, ents) && h < |chains| && h == BitAnd(hash(e.key), mask)
    requires e.key !in model
    ensures Models(chains[h := [e] + chains[h]], hash, mask, model[e.key := e.val], ents + {e})
  {
    hide BitAnd;
    var chains' := chains[h := [e] + chains[h]];
    forall k | k in model[e.key := e.val]
      ensures BitAnd(hash(k), mask) < |chains'| && Has(chains'[BitAnd(hash(k), mask)], k)
    {
      var b := BitAnd(hash(k), mask);
      if k == e.key {
        assert chains'[h][0].key == k;
      } else {
        var i :| 0 <= i < |chains[b]| && chains[b][i].key == k;
        assert b == h ==> chains'[b][i + 1].key == k;
        assert b != h ==> chains'[b][i].key == k;
      }
    }
  }

  lemma AbsentInBucket<K, V>(chains: seq<seq<Entry<K, V>>>, hash: K -> nat, mask: nat, model: map<K, V>,
                             ents: set<Entry<K, V>>, key: K)
    requires Models(chains, hash, mask, model, ents) && key !in model
    ensures forall b :: 0 <= b < |chains| ==> !Has(chains[b], key)
  {
  }

  lemma PlacedInsert<K, V>(chains: seq<seq<Entry<K, V>>>, hash: K -> nat, mask: nat, h: nat, e: Entry<K, V>)
    requires Placed(chains, hash, mask) && h < |chains| && BitAnd(hash(e.key), mask) == h && !Has(chains[h], e.key)
    ensures Placed(chains[h := [e] + chains[h]], hash, mask)
  {
    hide BitAnd;
  }

  // ---------- iteration ----------

  /** All entries, bucket by bucket, from bucket `b` on. */
  ghost function From<K, V>(chains: seq<seq<Entry<K, V>>>, b: nat): seq<Entry<K, V>>
    decreases |chains| - b
  {
    if b >= |chains| then [] else chains[b] + From(chains, b + 1)
  }

  ghost function Keys<K, V>(c: seq<Entry<K, V>>): (r: seq<K>)
    ensures |r| == |c| && forall i :: 0 <= i < |c| ==> r[i] == c[i].key
  {
    seq(|c|, i requires 0 <= i < |c| => c[i].key)
  }

  lemma FromUnfold<K, V>(chains: seq<seq<Entry<K, V>>>, b: nat)
    ensures From(chains, b) == if b >= |chains| then [] else chains[b] + From(chains, b + 1)
  {
  }

  /** `dictIterator`: the bucket, the entry returned last and the one to return next in that bucket. */
  class DictIterator<K(==, !new), V> {
    const ht: Dict<K, V>
    var index: int
    var entry: Entry?<K, V>
    var nextEntry: Entry?<K, V>
    /** The entries of the current bucket not yet returned. */
    ghost var rest: seq<Entry<K, V>>

    ghost predicate Valid()
      reads this, ht, ht.Repr
    {
      && ht.Valid() && this !in ht.Repr && -1 <= index && ht.size == |ht.chains|
      && (entry == null ==> rest == [])
      && (entry != null ==> 0 <= index < ht.size && IsTail(rest, ht.chains[index]) && nextEntry == First(rest))
    }

    /** What the iteration will still return. */
    ghost function Todo(): seq<Entry<K, V>>
      reads this, ht
    {
      rest + From(ht.chains, if index < 0 then 0 else index + 1)
    }

    /** `e` is the entry just returned, at its place in the current bucket. */
    ghost predicate Returned(e: Entry<K, V>)
      reads this, ht
    {
      entry == e && 0 <= index < ht.size && index < |ht.chains| && IsTail([e] + rest, ht.chains[index])
    }

    /** `dictGetIterator`. */
    constructor (ht: Dict<K, V>)
      requires ht.Valid()
      ensures Valid() && this.ht == ht && Todo() == From(ht.chains, 0)
    {
      hide From, Linked, Placed, Models, Total, Pow2, ChainOk;
      this.ht, index, entry, nextEntry, rest := ht, -1, null, null, [];
    }

    /** The current entry becomes `e`, the first of `tail`, and its successor is saved: the caller may delete it. */
    method Visit(e: Entry?<K, V>, ghost tail: seq<Entry<K, V>>)
      requires ht.Valid() && this !in ht.Repr && 0 <= index < ht.size == |ht.chains|
      requires IsTail(tail, ht.chains[index]) && e == First(tail)
      modifies this`entry, this`nextEntry, this`rest
      ensures Valid() && entry == e && rest == if tail == [] then [] else tail[1..]
    {
      hide From, Linked, Placed, Models, Total, Pow2, ChainOk;
      entry := e;
      if entry != null {
        ht.BucketChain(index);
        NextInChain(ht.table[index], ht.chains[index], tail);
        nextEntry := entry.next;
      }
      rest := if tail == [] then [] else tail[1..];
    }

    /** `dictNext`: a bucket that is used up, or empty, leads to the next one. */
    method Next() returns (e: Entry?<K, V>)
      requires Valid()
      modifies this
      ensures Valid()
      ensures old(Todo()) == [] ==> e == null && Todo() == []
      ensures old(Todo()) != [] ==> e != null && e == old(Todo())[0] && Todo() == old(Todo())[1..]
      ensures e != null ==> Returned(e)
    {
      hide From, Linked, Placed, Models, Total, Pow2, ChainOk, IsTail, First;
      while true
        invariant Valid() && Todo() == old(Todo())
        decreases ht.size - index, entry != null
      {
        var more := Advance();
        if !more {
          return null;
        }
        if entry != null {
          return entry;
        }
      }
    }

    /** One round of the loop of `dictNext`. */
    method Advance() returns (more: bool)
      requires Valid()
      modifies this
      ensures Valid()
      ensures !more ==> old(Todo()) == [] && Todo() == []
      ensures more ==> index < ht.size
      ensures more && entry == null ==>
        Todo() == old(Todo()) && (index > old(index) || (index == old(index) && old(entry) != null))
      ensures more && entry != null ==> old(Todo()) == [entry] + Todo() && Returned(entry)
    {
      hide From, Linked, Placed, Models, Total, Pow2, ChainOk, Dict.Valid;
      if entry == null {
        more := NextBucket();
      } else {
        ghost var tail := rest;
        Visit(nextEntry, tail);
        assert entry != null ==> [entry] + rest == tail;
        more := true;
      }
    }

    method NextBucket() returns (more: bool)
      requires Valid() && entry == null
      modifies this
      ensures Valid()
      ensures !more ==> old(Todo()) == [] && Todo() == []
      ensures more ==> old(index) < index < ht.size
      ensures more && entry == null ==> Todo() == old(Todo())
      ensures more && entry != null ==> old(Todo()) == [entry] + Todo() && Returned(entry)
    {
      hide From, Linked, Placed, Models, Total, Pow2, ChainOk;
      FromUnfold(ht.chains, index + 1);
      index := index + 1;
      if index >= ht.size {
        FromUnfold(ht.chains, index + 1);
        return false;
      }
      ghost var tail := ht.chains[index];
      ht.BucketChain(index);
      ChainHead(ht.table[index], tail);
      Visit(ht.table[index], tail);
      assert entry != null ==> [entry] + rest == tail;
      more := true;
    }
  }

  lemma ChainHead<K, V>(head: Entry?<K, V>, c: seq<Entry<K, V>>)
    requires ChainOk(head, c)
    ensures head == First(c) && IsTail(c, c)
  {
  }

  lemma NextInChain<K, V>(head: Entry?<K, V>, c: seq<Entry<K, V>>, tail: seq<Entry<K, V>>)
    requires ChainOk(head, c) && IsTail(tail, c) && tail != []
    ensures tail[0].next == First(tail[1..]) && IsTail(tail[1..], c)
  {
    var at := |c| - |tail|;
    assert tail[0] == c[at];
    assert at < |c| - 1 ==> c[at].next == c[at + 1];
    assert tail[1..] == c[at + 1..];
  }

  predicate IsTail<K, V>(rest: seq<Entry<K, V>>, c: seq<Entry<K, V>>) {
    |rest| <= |c| && rest == c[|c| - |rest|..]
  }

  function First<K, V>(c: seq<Entry<K, V>>): Entry?<K, V> {
    if c == [] then null else c[0]
  }

  // ---------- a full walk ----------

  /** Every key of the table occurs exactly once in the bucket-by-bucket order. */
  lemma {:induction false} FromKeys<K(!new), V>(chains: seq<seq<Entry<K, V>>>, hash: K -> nat, mask: nat, b: nat)
    requires Placed(chains, hash, mask)
    ensures DistinctKeys(From(chains, b))
    ensures forall k :: Has(From(chains, b), k) <==>
      b <= BitAnd(hash(k), mask) < |chains| && Has(chains[BitAnd(hash(k), mask)], k)
    decreases |chains| - b
  {
    hide BitAnd;
    if b < |chains| {
      FromKeys(chains, hash, mask, b + 1);
      var c, rest := chains[b], From(chains, b + 1);
      forall k
        ensures Has(c + rest, k) <==> Has(c, k) || Has(rest, k)
      {
        HasConcat(c, rest, k);
      }
      forall k | Has(c, k)
        ensures BitAnd(hash(k), mask) == b && !Has(rest, k)
      {
        var i :| 0 <= i < |c| && c[i].key == k;
      }
      forall i, j | 0 <= i < j < |c + rest|
        ensures (c + rest)[i].key != (c + rest)[j].key
      {
        if i < |c| <= j {
          assert Has(c, c[i].key);
          assert rest[j - |c|].key == (c + rest)[j].key;
        }
      }
    }
  }

  lemma HasConcat<K, V>(a: seq<Entry<K, V>>, b: seq<Entry<K, V>>, k: K)
    ensures Has(a + b, k) <==> Has(a, k) || Has(b, k)
  {
    if Has(a, k) {
      var i :| 0 <= i < |a| && a[i].key == k;
      assert (a + b)[i].key == k;
    }
    if Has(b, k) {
      var i :| 0 <= i < |b| && b[i].key == k;
      assert (a + b)[|a| + i].key == k;
    }
  }

  /** The entry just returned, and nothing the iteration still needs, leaves the table. */
  method DeleteCurrent<K(==, !new), V>(it: DictIterator<K, V>, e: Entry<K, V>)
    requires it.Valid() && it.Returned(e)
    modifies it.ht.Repr
    ensures it.Valid() && it.Todo() == old(it.Todo()) && it.ht.Repr == old(it.ht.Repr)
    ensures it.ht.model == old(it.ht.model) - {e.key}
  {
    hide Linked, Models, Total, Pow2, BitAnd, From;
    var d := it.ht;
    ghost var c := d.chains[it.index];
    ghost var at := |c| - |it.rest| - 1;
    assert c[at] == e && c[at + 1..] == it.rest by {
      assert ([e] + it.rest)[0] == e && ([e] + it.rest)[1..] == it.rest;
    }
    ghost var old_chains := d.chains;
    KeyIsThere(d, it.index, at);
    var ok, where := d.Delete(e.key);
    SamePlace(old_chains, d.hash, d.sizemask, it.index, at, d.Index(e.key), where);
    assert Without(c, at)[at..] == it.rest;
    FromSame(old_chains, d.chains, it.index + 1);
  }

  lemma KeyIsThere<K(!new), V>(d: Dict<K, V>, b: nat, i: nat)
    requires d.Valid() && b < d.size && i < |d.chains[b]|
    ensures d.chains[b][i].key in d.model && d.size > 0 && d.Index(d.chains[b][i].key) == b
  {
  }

  lemma {:induction false} FromSame<K, V>(a: seq<seq<Entry<K, V>>>, b: seq<seq<Entry<K, V>>>, i: nat)
    requires |a| == |b| && forall j :: i <= j < |a| ==> a[j] == b[j]
    ensures From(a, i) == From(b, i)
    decreases |a| - i
  {
    if i < |a| {
      FromSame(a, b, i + 1);
    }
  }

  /** A full walk in which the caller deletes some of the entries just returned: every key is returned exactly
      once, and exactly the chosen ones are gone afterwards. */
  method Walk<K(==, !new), V>(d: Dict<K, V>, doomed: K -> bool) returns (visited: seq<K>)
    requires d.Valid()
    modifies d.Repr
    ensures d.Valid()
    ensures forall i, j :: 0 <= i < j < |visited| ==> visited[i] != visited[j]
    ensures forall k :: k in visited <==> k in old(d.model)
    ensures d.model == map k | k in old(d.model) && !doomed(k) :: old(d.model)[k]
  {
    hide Linked, Placed, Models, Total, Pow2, BitAnd, From, IsTail, Dict.Valid, DictIterator.Todo;
    ghost var all := From(d.chains, 0);
    WalkOrder(d);
    visited := [];
    var it := new DictIterator(d);
    assert it.Todo() == all[0..];
    while true
      invariant it.Valid() && it.ht == d && d.Repr == old(d.Repr) && fresh(it)
      invariant |visited| <= |all| && it.Todo() == all[|visited|..] && visited == Keys(all)[..|visited|]
      invariant d.model == old(d.model) - Chosen(visited, doomed)
      decreases |all| - |visited|
    {
      var e := WalkStep(it, doomed);
      if e == null {
        break;
      }
      assert Chosen(visited + [e.key], doomed) == Chosen(visited, doomed) + (if doomed(e.key) then {e.key} else {});
      visited := visited + [e.key];
    }
    assert visited == Keys(all);
  }

  function Chosen<K(==)>(ks: seq<K>, doomed: K -> bool): set<K> {
    set k | k in ks && doomed(k)
  }

  method WalkStep<K(==, !new), V>(it: DictIterator<K, V>, doomed: K -> bool) returns (e: Entry?<K, V>)
    requires it.Valid()
    modifies it, it.ht.Repr
    ensures it.Valid() && it.ht.Repr == old(it.ht.Repr)
    ensures old(it.Todo()) == [] ==> e == null && it.ht.model == old(it.ht.model)
    ensures old(it.Todo()) != [] ==> e != null && e == old(it.Todo())[0] && it.Todo() == old(it.Todo())[1..]
    ensures e != null ==> it.ht.model == old(it.ht.model) - (if doomed(e.key) then {e.key} else {})
  {
    hide Linked, Placed, Models, Total, Pow2, BitAnd, From, IsTail;
    e := it.Next();
    if e != null && doomed(e.key) {
      DeleteCurrent(it, e);
    }
  }

  lemma WalkOrder<K(!new), V>(d: Dict<K, V>)
    requires d.Valid()
    ensures DistinctKeys(From(d.chains, 0))
    ensures forall k :: k in Keys(From(d.chains, 0)) <==> k in d.model
  {
    hide BitAnd, From, Linked, Placed, Models, Total, Pow2, Keys;
    FromKeys(d.chains, d.hash, d.sizemask, 0);
    forall k
      ensures k in Keys(From(d.chains, 0)) <==> k in d.model
    {
      KeysAre(From(d.chains, 0), k);
      ModelKey(d.chains, d.hash, d.sizemask, d.model, d.ents, k);
    }
  }

  lemma KeysAre<K, V>(c: seq<Entry<K, V>>, k: K)
    ensures k in Keys(c) <==> Has(c, k)
  {
    if k in Keys(c) {
      var i :| 0 <= i < |c| && Keys(c)[i] == k;
      assert c[i].key == k;
    }
    if Has(c, k) {
      var i :| 0 <= i < |c| && c[i].key == k;
      assert Keys(c)[i] == k;
    }
  }

  /** The model has exactly the keys found in their buckets. */
  lemma ModelKey<K(!new), V>(chains: seq<seq<Entry<K, V>>>, hash: K -> nat, mask: nat, model: map<K, V>,
                             ents: set<Entry<K, V>>, k: K)
    requires Models(chains, hash, mask, model, ents)
    ensures k in model <==> BitAnd(hash(k), mask) < |chains| && Has(chains[BitAnd(hash(k), mask)], k)
  {
    hide BitAnd;
    var b := BitAnd(hash(k), mask);
    if b < |chains| && Has(chains[b], k) {
      var j :| 0 <= j < |chains[b]| && chains[b][j].key == k;
    }
  }

  // ---------- any sequence of operations ----------

  datatype Op<K, V> = AddOp(key: K, val: V) | ReplaceOp(key: K, val: V) | DeleteOp(key: K)

  function Apply<K, V>(m: map<K, V>, op: Op<K, V>): map<K, V> {
    match op
    case AddOp(k, v) => if k in m then m else m[k := v]
    case ReplaceOp(k, v) => m[k := v]
    case DeleteOp(k) => m - {k}
  }

  function ApplyAll<K, V>(m: map<K, V>, ops: seq<Op<K, V>>): map<K, V> {
    if ops == [] then m else Apply(ApplyAll(m, ops[..|ops| - 1]), ops[|ops| - 1])
  }

  /** After any sequence of operations, with any number of expansions, a lookup agrees with the plain map. */
  method Run<K(==, !new), V>(d: Dict<K, V>, ops: seq<Op<K, V>>, key: K) returns (r: Option<V>)
    requires d.Valid() && |ops| + d.used <= MAX_ENTRIES
    modifies d.Repr
    ensures d.Valid() && d.model == ApplyAll(old(d.model), ops)
    ensures r == if key in ApplyAll(old(d.model), ops) then Some(ApplyAll(old(d.model), ops)[key]) else None
  {
    hide Dict.Valid, Apply, ApplyAll;
    PerformAll(d, ops);
    r := Lookup(d, key);
  }

  method PerformAll<K(==, !new), V>(d: Dict<K, V>, ops: seq<Op<K, V>>)
    requires d.Valid() && |ops| + d.used <= MAX_ENTRIES
    modifies d.Repr
    ensures d.Valid() && d.model == ApplyAll(old(d.model), ops)
  {
    SelfIn(d);
    hide Dict.Valid, Apply, ApplyAll;
    ApplyNone(d.model, ops);
    for i := 0 to |ops|
      invariant d.Valid() && d in d.Repr && fresh(d.Repr - old(d.Repr)) && d.used <= old(d.used) + i
      invariant d.model == ApplyAll(old(d.model), ops[..i])
    {
      ApplyNext(old(d.model), ops, i);
      Perform(d, ops[i]);
    }
    assert ops[..|ops|] == ops;
  }

  lemma SelfIn<K(!new), V>(d: Dict<K, V>)
    requires d.Valid()
    ensures d in d.Repr
  {
  }

  lemma ApplyNone<K, V>(m: map<K, V>, ops: seq<Op<K, V>>)
    ensures ApplyAll(m, ops[..0]) == m
  {
  }

  lemma ApplyNext<K, V>(m: map<K, V>, ops: seq<Op<K, V>>, i: nat)
    requires i < |ops|
    ensures ApplyAll(m, ops[..i + 1]) == Apply(ApplyAll(m, ops[..i]), ops[i])
  {
    assert ops[..i + 1][..i] == ops[..i];
  }

  method Perform<K(==, !new), V>(d: Dict<K, V>, op: Op<K, V>)
    requires d.Valid() && d.used < MAX_ENTRIES
    modifies d.Repr
    ensures d.Valid() && d in d.Repr && fresh(d.Repr - old(d.Repr)) && d.used <= old(d.used) + 1
    ensures d.model == Apply(old(d.model), op)
  {
    hide Linked, Placed, Models, Total, Pow2, BitAnd;
    match op {
      case AddOp(k, v) => var ok := d.Add(k, v);
      case ReplaceOp(k, v) => var added := d.Replace(k, v);
      case DeleteOp(k) => var ok, at := d.Delete(k);
    }
  }

  /** What `dictFind` gives its caller. */
  method Lookup<K(==, !new), V>(d: Dict<K, V>, key: K) returns (r: Option<V>)
    requires d.Valid()
    ensures r == if key in d.model then Some(d.model[key]) else None
  {
    hide Linked, Placed, Models, Total, Pow2, BitAnd;
    var e, at := d.Find(key);
    r := if e != null then Some(e.val) else None;
  }
}
