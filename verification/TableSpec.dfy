/** The chained hash table as functions on values, one chain of entries per bucket, and what it guarantees.

    The results: whatever the hash, any run of set, get, unset, isset and clear answers like a finite map
    (`TableRefinesMap`), the in-place rehash keeps every entry and puts each in its new bucket (`RehashKeeps`),
    and the load bound holds after any run from creation on (`LoadBounded`). Keys are compared by value. */
module TableSpec {
  import opened Posix
  import opened Wrappers

  /** What the program keeps in its table: authentication tags. */
  type Value = seq<byte>

  datatype Entry = Entry(key: int, value: Value)

  type Chain = seq<Entry>

  /** A hash gives, for a key and a number of buckets, the bucket of the key. */
  type Hash = (int, nat) -> nat

  ghost predicate ValidHash(h: Hash) {
    forall k, n: nat :: n > 0 ==> h(k, n) < n
  }

  // ----- one chain -----

  function ChainSet(c: Chain, key: int, value: Value): Chain {
    if c == [] then [Entry(key, value)]
    else if c[0].key == key then [Entry(key, value)] + c[1..]
    else [c[0]] + ChainSet(c[1..], key, value)
  }

  function ChainGet(c: Chain, key: int): Option<Value> {
    if c == [] then None else if c[0].key == key then Some(c[0].value) else ChainGet(c[1..], key)
  }

  function ChainRemove(c: Chain, key: int): Chain {
    if c == [] then [] else if c[0].key == key then c[1..] else [c[0]] + ChainRemove(c[1..], key)
  }

  /** Puts an entry last, unless its key is already there: then the entry is dropped. */
  function ChainUpdate(c: Chain, e: Entry): Chain {
    if c == [] then [e] else if c[0].key == e.key then c else [c[0]] + ChainUpdate(c[1..], e)
  }

  // ----- the table -----

  type Table = seq<Chain>

  /** All entries of all buckets. */
  ghost function All(t: Table): multiset<Entry> {
    if t == [] then multiset{} else multiset(t[0]) + All(t[1..])
  }

  /** The entries are those of the finite map `c`, each exactly once; so no key occurs twice. */
  ghost predicate Models(m: multiset<Entry>, c: map<int, Value>) {
    forall e: Entry :: m[e] == if e.key in c && c[e.key] == e.value then 1 else 0
  }

  /** Every entry is in the bucket of its key. */
  ghost predicate InOwnBucket(t: Table, h: Hash) {
    forall b, e :: 0 <= b < |t| && e in t[b] ==> h(e.key, |t|) == b
  }

  /** The table stands for the map `c`. */
  ghost predicate WellFormed(t: Table, c: map<int, Value>, h: Hash) {
    ValidHash(h) && |t| > 0 && Models(All(t), c) && InOwnBucket(t, h)
  }

  // ----- rehashing in place -----

  /** Takes the entries of a detached chain one by one and puts each into its bucket among `|t|` buckets. */
  function MoveAll(t: Table, c: Chain, h: Hash): (r: Table)
    requires |t| > 0 ==> forall k :: h(k, |t|) < |t|
    requires c == [] || |t| > 0
    ensures |r| == |t|
    decreases |c|
  {
    if c == [] then t else
      var b := h(c[0].key, |t|);
      MoveAll(t[b := ChainUpdate(t[b], c[0])], c[1..], h)
  }

  /** Buckets `i` to `size - 1` of the grown array, emptied and moved one after the other. A moved entry may land in
      a bucket that is still to come and is then moved again. */
  function RehashFrom(t: Table, i: nat, size: nat, h: Hash): (r: Table)
    requires i <= size <= |t| && |t| > 0 && forall k :: h(k, |t|) < |t|
    ensures |r| == |t|
    decreases size - i
  {
    if i == size then t else RehashFrom(MoveAll(t[i := []], t[i], h), i + 1, size, h)
  }

  lemma RehashStep(t: Table, i: nat, size: nat, h: Hash)
    requires i < size <= |t| && |t| > 0 && forall k :: h(k, |t|) < |t|
    ensures RehashFrom(t, i, size, h) == RehashFrom(MoveAll(t[i := []], t[i], h), i + 1, size, h)
  {
  }

  function Empty(n: nat): Table {
    seq(n, _ => [])
  }

  /** A smaller size is refused. */
  function Rehash(t: Table, newSize: nat, h: Hash): (r: Table)
    requires |t| > 0 && forall k, n: nat :: n > 0 ==> h(k, n) < n
    ensures |r| == if newSize < |t| then |t| else newSize
  {
    if newSize < |t| then t else RehashFrom(t + Empty(newSize - |t|), 0, |t|, h)
  }

  // ----- growing -----

  const SIZES: seq<nat> := [5, 13, 23, 47, 97, 193, 383, 769, 1531, 3067, 6143, 12289, 24571, 49157, 98299, 196613,
                            393241, 786547, 1573111, 1668053, 1805579, 1868527, 1999993]

  const UINT_MAX_1: nat := 0x1_0000_0000

  function FirstAbove(s: seq<nat>, size: nat): Option<nat> {
    if s == [] then None else if s[0] > size then Some(s[0]) else FirstAbove(s[1..], size)
  }

  /** The least listed size above the given one; beyond the list, twice the size as an unsigned 32-bit number. */
  function NextSize(size: nat): nat {
    match FirstAbove(SIZES, size)
    case Some(n) => n
    case None => (size * 2) % UINT_MAX_1
  }

  // ----- the operations -----

  datatype State = State(table: Table, count: int, loadFactor: real)

  function Overloaded(s: State): bool
    requires |s.table| > 0
  {
    s.count as real / |s.table| as real > s.loadFactor
  }

  function SetBucket(t: Table, b: nat, key: int, value: Value): Table
    requires b < |t|
  {
    t[b := ChainSet(t[b], key, value)]
  }

  function Set(s: State, key: int, value: Value, h: Hash): State
    requires |s.table| > 0 && forall k, n: nat :: n > 0 ==> h(k, n) < n
  {
    var b := h(key, |s.table|);
    var t := SetBucket(s.table, b, key, value);
    var s1 := State(t, s.count + |t[b]| - |s.table[b]|, s.loadFactor);
    if Overloaded(s1) then s1.(table := Rehash(t, NextSize(|t|), h)) else s1
  }

  function Get(s: State, key: int, h: Hash): Option<Value>
    requires |s.table| > 0 && forall k, n: nat :: n > 0 ==> h(k, n) < n
  {
    ChainGet(s.table[h(key, |s.table|)], key)
  }

  function Unset(s: State, key: int, h: Hash): State
    requires |s.table| > 0 && forall k, n: nat :: n > 0 ==> h(k, n) < n
  {
    var b := h(key, |s.table|);
    var c := ChainRemove(s.table[b], key);
    State(s.table[b := c], s.count - (|s.table[b]| - |c|), s.loadFactor)
  }

  function Clear(s: State): State {
    State(Empty(|s.table|), s.count - Size(s.table), s.loadFactor)
  }

  function Size(t: Table): nat {
    if t == [] then 0 else |t[0]| + Size(t[1..])
  }

  // ----- chains as multisets -----

  lemma {:induction false} ChainRemoveMultiset(c: Chain, key: int)
    ensures multiset(c) == multiset(ChainRemove(c, key)) +
      match ChainGet(c, key) { case None => multiset{} case Some(v) => multiset{Entry(key, v)} }
  {
    if c != [] {
      ChainRemoveMultiset(c[1..], key);
      assert c == [c[0]] + c[1..];
    }
  }

  lemma {:induction false} ChainSetMultiset(c: Chain, key: int, value: Value)
    ensures multiset(ChainSet(c, key, value)) == multiset(ChainRemove(c, key)) + multiset{Entry(key, value)}
  {
    if c != [] && c[0].key != key {
      ChainSetMultiset(c[1..], key, value);
    }
  }

  lemma {:induction false} ChainUpdateMultiset(c: Chain, e: Entry)
    requires forall x :: x in c ==> x.key != e.key
    ensures multiset(ChainUpdate(c, e)) == multiset(c) + multiset{e}
  {
    if c != [] {
      assert c == [c[0]] + c[1..];
      ChainUpdateMultiset(c[1..], e);
    }
  }

  lemma {:induction false} ChainGetFinds(c: Chain, key: int)
    ensures match ChainGet(c, key)
      case None => forall e :: e in c ==> e.key != key
      case Some(v) => Entry(key, v) in c
  {
    if c != [] {
      ChainGetFinds(c[1..], key);
    }
  }

  // ----- tables as multisets -----

  lemma {:induction false} AllUpdate(t: Table, b: nat, c: Chain)
    requires b < |t|
    ensures All(t[b := c]) + multiset(t[b]) == All(t) + multiset(c)
  {
    var t1 := t[b := c];
    if b == 0 {
      assert t1[1..] == t[1..];
    } else {
      assert t1[1..] == t[1..][b - 1 := c] && t[1..][b - 1] == t[b];
      AllUpdate(t[1..], b - 1, c);
      AddLeft(multiset(t[0]), All(t1[1..]), multiset(t[b]), All(t[1..]), multiset(c));
    }
  }

  lemma AddLeft(a: multiset<Entry>, x: multiset<Entry>, x1: multiset<Entry>, y: multiset<Entry>, y1: multiset<Entry>)
    requires x + x1 == y + y1
    ensures a + x + x1 == a + y + y1
  {
    assert a + x + x1 == a + (x + x1) && a + y + y1 == a + (y + y1);
  }

  lemma Cancel(a: multiset<Entry>, b: multiset<Entry>, x: multiset<Entry>)
    requires a + x == b + x
    ensures a == b
  {
    assert a == (a + x) - x && b == (b + x) - x;
  }

  lemma AllSame(t: Table, b: nat, q: Chain)
    requires b < |t| && multiset(q) == multiset(t[b])
    ensures All(t[b := q]) == All(t)
  {
    AllUpdate(t, b, q);
    Cancel(All(t[b := q]), All(t), multiset(q));
  }

  lemma AllPlus(t: Table, b: nat, q: Chain, e: Entry)
    requires b < |t| && multiset(q) == multiset(t[b]) + multiset{e}
    ensures All(t[b := q]) == All(t) + multiset{e}
  {
    AllUpdate(t, b, q);
    assert All(t) + (multiset(t[b]) + multiset{e}) == All(t) + multiset{e} + multiset(t[b]);
    Cancel(All(t[b := q]), All(t) + multiset{e}, multiset(t[b]));
  }

  lemma AllTake(t: Table, b: nat)
    requires b < |t|
    ensures All(t[b := []]) + multiset(t[b]) == All(t)
  {
    AllUpdate(t, b, []);
  }

  lemma {:induction false} AllHas(t: Table, e: Entry)
    ensures e in All(t) <==> exists b :: 0 <= b < |t| && e in t[b]
  {
    if t != [] {
      AllHas(t[1..], e);
      if e in All(t[1..]) {
        var b :| 0 <= b < |t[1..]| && e in t[1..][b];
        assert e in t[b + 1];
      }
      if exists b :: 0 < b < |t| && e in t[b] {
        var b :| 0 < b < |t| && e in t[b];
        assert e in t[1..][b - 1];
      }
    }
  }

  lemma {:induction false} AllSize(t: Table)
    ensures |All(t)| == Size(t)
  {
    if t != [] {
      AllSize(t[1..]);
    }
  }

  lemma {:induction false} AllEmpty(n: nat)
    ensures All(Empty(n)) == multiset{}
  {
    if n > 0 {
      assert Empty(n)[1..] == Empty(n - 1);
      AllEmpty(n - 1);
    }
  }

  lemma {:induction false} AllConcat(t: Table, u: Table)
    ensures All(t + u) == All(t) + All(u)
  {
    if t == [] {
      assert t + u == u;
    } else {
      assert (t + u)[1..] == t[1..] + u;
      AllConcat(t[1..], u);
    }
  }

  lemma ModelsAdd(m: multiset<Entry>, c: map<int, Value>, e: Entry)
    requires Models(m, c) && e.key !in c
    ensures Models(m + multiset{e}, c[e.key := e.value])
  {
  }

  lemma ModelsDrop(m: multiset<Entry>, m1: multiset<Entry>, c: map<int, Value>, e: Entry)
    requires Models(m, c) && m == m1 + multiset{e}
    ensures e.key in c && c[e.key] == e.value && Models(m1, c - {e.key})
  {
    assert m[e] == 1;
  }

  /** What a lookup in the bucket of a key finds is what the map holds. */
  lemma LookupIsContents(t: Table, c: map<int, Value>, key: int, h: Hash)
    requires WellFormed(t, c, h)
    ensures ChainGet(t[h(key, |t|)], key) == if key in c then Some(c[key]) else None
  {
    var b := h(key, |t|);
    ChainGetFinds(t[b], key);
    match ChainGet(t[b], key)
    case None =>
      if key in c {
        var e := Entry(key, c[key]);
        assert All(t)[e] == 1;
        AllHas(t, e);
        assert false;
      }
    case Some(v) =>
      AllHas(t, Entry(key, v));
      assert All(t)[Entry(key, v)] > 0;
  }

  // ----- rehash -----

  /** A key that is still to be moved is not in the table yet. */
  lemma NotYetThere(t: Table, b: nat, e: Entry, rest: multiset<Entry>, c: map<int, Value>)
    requires b < |t| && Models(All(t) + multiset{e} + rest, c)
    ensures forall x :: x in t[b] ==> x.key != e.key
  {
    var m := All(t) + multiset{e} + rest;
    assert m[e] > 0;
    forall x | x in t[b]
      ensures x.key != e.key
    {
      AllHas(t, x);
      assert m[x] > 0;
    }
  }

  lemma ChainUpdateHas(c: Chain, e: Entry)
    ensures forall x :: x in ChainUpdate(c, e) ==> x in c || x == e
  {
  }

  lemma MoveOne(t: Table, e: Entry, rest: multiset<Entry>, c: map<int, Value>, h: Hash)
    requires ValidHash(h) && |t| > 0 && Models(All(t) + multiset{e} + rest, c)
    ensures var b := h(e.key, |t|);
      var t1 := t[b := ChainUpdate(t[b], e)];
      && All(t1) == All(t) + multiset{e}
      && forall b', x :: 0 <= b' < |t| && x in t1[b'] ==> x in t[b'] || h(x.key, |t|) == b'
  {
    var b := h(e.key, |t|);
    var c1 := ChainUpdate(t[b], e);
    NotYetThere(t, b, e, rest, c);
    ChainUpdateMultiset(t[b], e);
    ChainUpdateHas(t[b], e);
    AllPlus(t, b, c1, e);
  }

  lemma MoveAllOne(t: Table, e: Entry, c: Chain, h: Hash)
    requires ValidHash(h) && |t| > 0 && c != [] && c[0] == e
    ensures MoveAll(t, c, h) == MoveAll(MoveAll(t, [e], h), c[1..], h)
  {
    assert [e][1..] == [];
  }

  lemma {:induction false} MoveAllKeeps(t: Table, q: Chain, c: map<int, Value>, h: Hash)
    requires ValidHash(h) && |t| > 0
    requires Models(All(t) + multiset(q), c)
    ensures All(MoveAll(t, q, h)) == All(t) + multiset(q)
    ensures forall b, e :: 0 <= b < |t| && e in MoveAll(t, q, h)[b] ==> e in t[b] || h(e.key, |t|) == b
    decreases |q|
  {
    if q != [] {
      var (e, rest) := (q[0], q[1..]);
      assert q == [e] + rest;
      assert All(t) + multiset(q) == All(t) + multiset{e} + multiset(rest);
      MoveOne(t, e, multiset(rest), c, h);
      var b := h(e.key, |t|);
      MoveAllKeeps(t[b := ChainUpdate(t[b], e)], rest, c, h);
    }
  }

  /** Buckets outside `i..size` are final: each of their entries hashes to them at the new size. */
  ghost predicate Placed(t: Table, i: nat, size: nat, h: Hash) {
    forall b, e :: 0 <= b < |t| && (b < i || b >= size) && e in t[b] ==> h(e.key, |t|) == b
  }

  /** One turn of the outer loop. */
  lemma MoveBucket(t: Table, i: nat, size: nat, c: map<int, Value>, h: Hash)
    requires ValidHash(h) && i < size <= |t|
    requires Models(All(t), c) && Placed(t, i, size, h)
    ensures var t1 := MoveAll(t[i := []], t[i], h);
      All(t1) == All(t) && Placed(t1, i + 1, size, h)
  {
    AllTake(t, i);
    MoveAllKeeps(t[i := []], t[i], c, h);
    Emptied(t, i, size, h);
    PlacedMove(t[i := []], MoveAll(t[i := []], t[i], h), i + 1, size, h);
  }

  lemma Emptied(t: Table, i: nat, size: nat, h: Hash)
    requires i < size <= |t| && Placed(t, i, size, h)
    ensures Placed(t[i := []], i + 1, size, h)
  {
  }

  lemma PlacedMove(t: Table, t1: Table, i: nat, size: nat, h: Hash)
    requires Placed(t, i, size, h) && |t1| == |t|
    requires forall b, e :: 0 <= b < |t| && e in t1[b] ==> e in t[b] || h(e.key, |t|) == b
    ensures Placed(t1, i, size, h)
  {
  }

  lemma {:induction false} RehashFromKeeps(t: Table, i: nat, size: nat, c: map<int, Value>, h: Hash)
    requires ValidHash(h) && i <= size <= |t| && |t| > 0
    requires Models(All(t), c) && Placed(t, i, size, h)
    ensures var r := RehashFrom(t, i, size, h);
      All(r) == All(t) && InOwnBucket(r, h)
    decreases size - i
  {
    if i < size {
      MoveBucket(t, i, size, c, h);
      RehashFromKeeps(MoveAll(t[i := []], t[i], h), i + 1, size, c, h);
    }
  }

  /** Rehashing neither loses nor duplicates an entry, leaves every one in its bucket at the new size, and so
      keeps the map. */
  lemma RehashKeeps(t: Table, newSize: nat, c: map<int, Value>, h: Hash)
    requires WellFormed(t, c, h)
    ensures var r := Rehash(t, newSize, h);
      && All(r) == All(t) && WellFormed(r, c, h)
      && |r| == Max(|t|, newSize)
  {
    if newSize >= |t| {
      AllConcat(t, Empty(newSize - |t|));
      AllEmpty(newSize - |t|);
      RehashFromKeeps(t + Empty(newSize - |t|), 0, |t|, c, h);
    }
  }

  // ----- growing -----

  lemma {:induction false} FirstAboveIsLeast(s: seq<nat>, size: nat)
    requires forall i, j :: 0 <= i < j < |s| ==> s[i] < s[j]
    ensures match FirstAbove(s, size)
      case None => forall i :: 0 <= i < |s| ==> s[i] <= size
      case Some(n) => n in s && n > size && forall i :: 0 <= i < |s| && s[i] > size ==> n <= s[i]
  {
    if s != [] && s[0] <= size {
      var rest := s[1..];
      FirstAboveIsLeast(rest, size);
      assert forall i :: 0 < i < |s| ==> s[i] == rest[i - 1];
    }
  }

  lemma SizesAscend()
    ensures forall i, j :: 0 <= i < j < |SIZES| ==> SIZES[i] < SIZES[j]
    ensures |SIZES| == 23 && SIZES[22] == 1999993
  {
  }

  /** For sizes that fit in 32 bits, the next size is larger exactly when doubling does not wrap around; it is the
      least listed size above the given one when there is one. */
  lemma NextSizeGrows(size: nat)
    requires size < UINT_MAX_1
    ensures NextSize(size) > size <==> size < 0x8000_0000
    ensures NextSize(size) < UINT_MAX_1
    ensures size < 1999993 ==>
      NextSize(size) in SIZES && forall i :: 0 <= i < |SIZES| && SIZES[i] > size ==> NextSize(size) <= SIZES[i]
    ensures 1999993 <= size < 0x8000_0000 ==> NextSize(size) == size + size
  {
    SizesAscend();
    FirstAboveIsLeast(SIZES, size);
  }

  // ----- the operations against the map -----

  /** A table in good order that stands for `c` and whose counter is the number of keys. */
  ghost predicate Good(s: State, c: map<int, Value>, h: Hash) {
    WellFormed(s.table, c, h) && s.count == |c|
  }

  lemma {:induction false} ChainSetLength(c: Chain, key: int, value: Value)
    ensures |ChainSet(c, key, value)| == |c| + if ChainGet(c, key).None? then 1 else 0
  {
    if c != [] {
      ChainSetLength(c[1..], key, value);
    }
  }

  lemma {:induction false} ChainRemoveLength(c: Chain, key: int)
    ensures |ChainRemove(c, key)| == |c| - if ChainGet(c, key).None? then 0 else 1
  {
    if c != [] {
      ChainRemoveLength(c[1..], key);
    }
  }

  lemma ChainRemoveHas(c: Chain, key: int)
    ensures forall e :: e in ChainRemove(c, key) ==> e in c
  {
  }

  lemma ChainSetHas(c: Chain, key: int, value: Value)
    ensures forall e :: e in ChainSet(c, key, value) ==> e in c || e.key == key
  {
  }

  lemma ReplaceBucket(t: Table, b: nat, q: Chain, h: Hash)
    requires InOwnBucket(t, h) && b < |t| && forall e :: e in q ==> h(e.key, |t|) == b
    ensures InOwnBucket(t[b := q], h)
  {
  }

  lemma AllRemove(t: Table, b: nat, key: int)
    requires b < |t|
    ensures match ChainGet(t[b], key)
      case None => All(t[b := ChainRemove(t[b], key)]) == All(t)
      case Some(v) => All(t) == All(t[b := ChainRemove(t[b], key)]) + multiset{Entry(key, v)}
  {
    var q := ChainRemove(t[b], key);
    ChainRemoveMultiset(t[b], key);
    match ChainGet(t[b], key)
    case None => AllSame(t, b, q);
    case Some(v) =>
      AllPlus(t[b := q], b, t[b], Entry(key, v));
      assert t[b := q][b := t[b]] == t;
  }

  lemma AllSet(t: Table, b: nat, key: int, value: Value)
    requires b < |t|
    ensures All(t[b := ChainSet(t[b], key, value)]) == All(t[b := ChainRemove(t[b], key)]) + multiset{Entry(key, value)}
  {
    var (q0, q1) := (ChainRemove(t[b], key), ChainSet(t[b], key, value));
    ChainSetMultiset(t[b], key, value);
    AllPlus(t[b := q0], b, q1, Entry(key, value));
    assert t[b := q0][b := q1] == t[b := q1];
  }

  lemma UnsetModels(t: Table, c: map<int, Value>, key: int, h: Hash)
    requires WellFormed(t, c, h)
    ensures
      var b := h(key, |t|);
      Models(All(t[b := ChainRemove(t[b], key)]), c - {key})
  {
    var b := h(key, |t|);
    LookupIsContents(t, c, key, h);
    AllRemove(t, b, key);
    match ChainGet(t[b], key)
    case None => assert c - {key} == c;
    case Some(v) => ModelsDrop(All(t), All(t[b := ChainRemove(t[b], key)]), c, Entry(key, v));
  }

  lemma DropThenSet(c: map<int, Value>, key: int, value: Value)
    ensures (c - {key})[key := value] == c[key := value]
  {
  }

  lemma SetModels(t: Table, c: map<int, Value>, key: int, value: Value, h: Hash)
    requires WellFormed(t, c, h)
    ensures Models(All(SetBucket(t, h(key, |t|), key, value)), c[key := value])
  {
    var b := h(key, |t|);
    UnsetModels(t, c, key, h);
    AllSet(t, b, key, value);
    ModelsAdd(All(t[b := ChainRemove(t[b], key)]), c - {key}, Entry(key, value));
    DropThenSet(c, key, value);
  }

  lemma UnsetKeeps(t: Table, c: map<int, Value>, key: int, h: Hash)
    requires WellFormed(t, c, h)
    ensures
      var b := h(key, |t|);
      WellFormed(t[b := ChainRemove(t[b], key)], c - {key}, h)
  {
    var b := h(key, |t|);
    UnsetModels(t, c, key, h);
    ChainRemoveHas(t[b], key);
    ReplaceBucket(t, b, ChainRemove(t[b], key), h);
  }

  lemma SetBucketKeeps(t: Table, c: map<int, Value>, key: int, value: Value, h: Hash)
    requires WellFormed(t, c, h)
    ensures WellFormed(SetBucket(t, h(key, |t|), key, value), c[key := value], h)
  {
    var b := h(key, |t|);
    SetModels(t, c, key, value, h);
    ChainSetHas(t[b], key, value);
    ReplaceBucket(t, b, ChainSet(t[b], key, value), h);
  }

  lemma MapSizeSet(m: map<int, Value>, key: int, value: Value)
    ensures |m[key := value]| == |m| + if key in m then 0 else 1
  {
    assert m[key := value].Keys == m.Keys + {key};
    assert |m.Keys + {key}| == |m.Keys| + if key in m then 0 else 1;
  }

  lemma MapSizeDrop(m: map<int, Value>, key: int)
    ensures |m - {key}| == |m| - if key in m then 1 else 0
  {
    assert (m - {key}).Keys == m.Keys - {key};
    assert |m.Keys - {key}| == |m.Keys| - if key in m then 1 else 0;
  }

  lemma SetCount(s: State, c: map<int, Value>, key: int, value: Value, h: Hash)
    requires Good(s, c, h)
    ensures var b := h(key, |s.table|);
      s.count + |ChainSet(s.table[b], key, value)| - |s.table[b]| == |c[key := value]|
  {
    LookupIsContents(s.table, c, key, h);
    ChainSetLength(s.table[h(key, |s.table|)], key, value);
    MapSizeSet(c, key, value);
  }

  lemma SetGood(s: State, c: map<int, Value>, key: int, value: Value, h: Hash)
    requires Good(s, c, h)
    ensures Good(Set(s, key, value, h), c[key := value], h)
  {
    SetCount(s, c, key, value, h);
    SetBucketKeeps(s.table, c, key, value, h);
    var t1 := SetBucket(s.table, h(key, |s.table|), key, value);
    hide Models, InOwnBucket, Rehash, All, ChainSet;
    RehashKeeps(t1, NextSize(|t1|), c[key := value], h);
  }

  lemma UnsetGood(s: State, c: map<int, Value>, key: int, h: Hash)
    requires Good(s, c, h)
    ensures Good(Unset(s, key, h), c - {key}, h)
  {
    UnsetKeeps(s.table, c, key, h);
    LookupIsContents(s.table, c, key, h);
    hide Models, InOwnBucket, All;
    ChainRemoveLength(s.table[h(key, |s.table|)], key);
    MapSizeDrop(c, key);
  }

  lemma ModelsHas(m: multiset<Entry>, c: map<int, Value>, k: int)
    requires Models(m, c) && k in c
    ensures Entry(k, c[k]) in m
  {
    assert m[Entry(k, c[k])] == 1;
  }

  lemma {:induction false} ModelsSize(m: multiset<Entry>, c: map<int, Value>)
    requires Models(m, c)
    ensures |m| == |c|
    decreases |m|
  {
    if m == multiset{} {
      forall k | k in c
        ensures false
      {
        ModelsHas(m, c, k);
      }
      assert c == map[];
    } else {
      var e :| e in m;
      ModelsDrop(m, m - multiset{e}, c, e);
      ModelsSize(m - multiset{e}, c - {e.key});
      MapSizeDrop(c, e.key);
    }
  }

  lemma ClearGood(s: State, c: map<int, Value>, h: Hash)
    requires Good(s, c, h)
    ensures Good(Clear(s), map[], h)
  {
    AllSize(s.table);
    ModelsSize(All(s.table), c);
    AllEmpty(|s.table|);
  }

  /** What a set does to counter and size. */
  predicate SetsSizes(s: State, s1: State)
    requires |s.table| > 0
  {
    && s1.count <= s.count + 1 && s1.loadFactor == s.loadFactor
    && if s1.count as real / |s.table| as real > s.loadFactor
       then |s1.table| == Max(|s.table|, NextSize(|s.table|))
       else |s1.table| == |s.table|
  }

  /** A set that overloads the table lets it grow to the next size, any other set keeps its size. */
  lemma SetSizes(s: State, key: int, value: Value, h: Hash)
    requires ValidHash(h) && |s.table| > 0
    ensures SetsSizes(s, Set(s, key, value, h))
  {
    ChainSetLength(s.table[h(key, |s.table|)], key, value);
    hide ChainSet, RehashFrom, NextSize;
  }

  /** The number of keys is at most the load factor times the number of buckets. */
  predicate LoadHolds(s: State) {
    s.count as real <= s.loadFactor * |s.table| as real
  }

  /** A set keeps the load bound, with a load factor of at least one and fewer than 2^31 keys before it: a table that
      has to grow then has fewer buckets than keys. */
  lemma SetKeepsLoad(s: State, key: int, value: Value, h: Hash)
    requires ValidHash(h) && s.loadFactor >= 1.0 && |s.table| > 0
    requires LoadHolds(s) && s.count < 0x8000_0000
    ensures LoadHolds(Set(s, key, value, h)) && Set(s, key, value, h).loadFactor == s.loadFactor
  {
    hide Set, LoadHolds, SetsSizes;
    SetSizes(s, key, value, h);
    LoadStep(s, Set(s, key, value, h));
  }

  lemma GrowsEnough(size: nat, count: int, loadFactor: real)
    requires size > 0 && loadFactor >= 1.0 && count <= 0x8000_0000 && count as real / size as real > loadFactor
    ensures NextSize(size) > size
  {
    hide NextSize;
    MoreThanSize(count, size);
    NextSizeGrows(size);
  }

  lemma LoadStep(s: State, s1: State)
    requires |s.table| > 0 && SetsSizes(s, s1)
    requires s.loadFactor >= 1.0 && LoadHolds(s) && s.count < 0x8000_0000
    ensures LoadHolds(s1) && s1.loadFactor == s.loadFactor
  {
    hide NextSize;
    if s1.count as real / |s.table| as real > s.loadFactor {
      GrowsEnough(|s.table|, s1.count, s.loadFactor);
    }
    LoadArithmetic(s.count, s1.count, |s.table|, |s1.table|, s.loadFactor);
  }

  /** Fewer keys in a table of the same size, or none at all. */
  lemma LoadShrinks(s: State, s1: State)
    requires LoadHolds(s) && s1.loadFactor == s.loadFactor && |s1.table| == |s.table| && s1.count <= s.count
    ensures LoadHolds(s1)
  {
  }

  lemma LoadOfNone(s: State)
    requires s.count == 0 && s.loadFactor >= 1.0
    ensures LoadHolds(s)
  {
    Times(s.loadFactor, 0.0, |s.table| as real);
  }

  lemma MoreThanSize(count: int, size: nat)
    requires size > 0 && count as real / size as real > 1.0
    ensures size < count
  {
    if count <= size {
      Divided(count, size);
    }
  }

  lemma Divided(count: int, size: nat)
    requires size > 0 && count <= size
    ensures count as real / size as real <= 1.0
  {
  }

  lemma LoadArithmetic(count0: int, count1: int, size0: nat, size1: nat, f: real)
    requires count1 <= count0 + 1 && size0 > 0 && f >= 1.0
    requires count0 as real <= f * size0 as real
    requires if count1 as real / size0 as real > f then size1 >= size0 + 1 else size1 == size0
    ensures count1 as real <= f * size1 as real
  {
    var (n, x) := (size0 as real, count1 as real);
    if size1 == size0 {
      Quotient(x, n, f);
    } else {
      Times(f, n + 1.0, size1 as real);
      assert f * (n + 1.0) == f * n + f;
    }
  }

  lemma Quotient(x: real, n: real, f: real)
    requires n > 0.0 && x / n <= f
    ensures x <= f * n
  {
    var q := x / n;
    assert q * n == x;
    Times(n, q, f);
    assert n * q == q * n && n * f == f * n;
  }

  lemma Times(f: real, a: real, b: real)
    requires f >= 0.0 && a <= b
    ensures f * a <= f * b
  {
  }

  // ----- runs -----

  datatype Op = OpSet(key: int, value: Value) | OpGet(key: int) | OpUnset(key: int) | OpIsSet(key: int) | OpClear

  datatype Reply = Done | Found(result: Option<Value>) | Is(yes: bool)

  function Step(s: State, op: Op, h: Hash): (r: (State, Reply))
    requires |s.table| > 0 && forall k, n: nat :: n > 0 ==> h(k, n) < n
    ensures |r.0.table| > 0
  {
    match op
    case OpSet(key, value) => (Set(s, key, value, h), Done)
    case OpGet(key) => (s, Found(Get(s, key, h)))
    case OpUnset(key) => (Unset(s, key, h), Done)
    case OpIsSet(key) => (s, Is(Get(s, key, h).Some?))
    case OpClear => (Clear(s), Done)
  }

  function MapStep(m: map<int, Value>, op: Op): (map<int, Value>, Reply) {
    match op
    case OpSet(key, value) => (m[key := value], Done)
    case OpGet(key) => (m, Found(if key in m then Some(m[key]) else None))
    case OpUnset(key) => (m - {key}, Done)
    case OpIsSet(key) => (m, Is(key in m))
    case OpClear => (map[], Done)
  }

  function Run(s: State, ops: seq<Op>, h: Hash): (State, seq<Reply>)
    requires |s.table| > 0 && forall k, n: nat :: n > 0 ==> h(k, n) < n
    decreases |ops|
  {
    if ops == [] then (s, []) else
      var (s1, reply) := Step(s, ops[0], h);
      var (s2, replies) := Run(s1, ops[1..], h);
      (s2, [reply] + replies)
  }

  function MapRun(m: map<int, Value>, ops: seq<Op>): (map<int, Value>, seq<Reply>)
    decreases |ops|
  {
    if ops == [] then (m, []) else
      var (m1, reply) := MapStep(m, ops[0]);
      var (m2, replies) := MapRun(m1, ops[1..]);
      (m2, [reply] + replies)
  }

  lemma StepGood(s: State, c: map<int, Value>, op: Op, h: Hash)
    requires Good(s, c, h)
    ensures var ((s1, reply), (c1, mapReply)) := (Step(s, op, h), MapStep(c, op));
      Good(s1, c1, h) && reply == mapReply
  {
    match op
    case OpSet(key, value) => SetGood(s, c, key, value, h);
    case OpGet(key) => LookupIsContents(s.table, c, key, h);
    case OpUnset(key) => UnsetGood(s, c, key, h);
    case OpIsSet(key) => LookupIsContents(s.table, c, key, h);
    case OpClear => ClearGood(s, c, h);
  }

  lemma {:induction false} RunGood(s: State, c: map<int, Value>, ops: seq<Op>, h: Hash)
    requires Good(s, c, h)
    ensures var ((s1, replies), (c1, mapReplies)) := (Run(s, ops, h), MapRun(c, ops));
      Good(s1, c1, h) && replies == mapReplies
    decreases |ops|
  {
    if ops != [] {
      StepGood(s, c, ops[0], h);
      RunGood(Step(s, ops[0], h).0, MapStep(c, ops[0]).0, ops[1..], h);
    }
  }

  function Created(size: nat, loadFactor: real): State {
    State(Empty(NextSize(size)), 0, loadFactor)
  }

  lemma CreatedGood(size: nat, loadFactor: real, h: Hash)
    requires ValidHash(h) && NextSize(size) > 0
    ensures Good(Created(size, loadFactor), map[], h)
  {
    AllEmpty(NextSize(size));
  }

  lemma UnsetShrinks(s: State, c: map<int, Value>, key: int, h: Hash)
    requires Good(s, c, h)
    ensures var s1 := Unset(s, key, h);
      s1.loadFactor == s.loadFactor && |s1.table| == |s.table| && s1.count <= s.count
  {
    ChainRemoveLength(s.table[h(key, |s.table|)], key);
  }

  lemma GoodCount(s: State, c: map<int, Value>, h: Hash)
    requires Good(s, c, h)
    ensures s.count == |c| && ValidHash(h) && |s.table| > 0
  {
  }

  lemma StepKeepsLoad(s: State, c: map<int, Value>, op: Op, h: Hash)
    requires Good(s, c, h) && s.loadFactor >= 1.0 && LoadHolds(s) && |c| < 0x8000_0000
    ensures var s1 := Step(s, op, h).0; LoadHolds(s1) && s1.loadFactor == s.loadFactor
  {
    GoodCount(s, c, h);
    hide Good, LoadHolds, Set, Unset;
    match op
    case OpSet(key, value) => SetKeepsLoad(s, key, value, h);
    case OpGet(key) =>
    case OpUnset(key) =>
      UnsetShrinks(s, c, key, h);
      LoadShrinks(s, Unset(s, key, h));
    case OpIsSet(key) =>
    case OpClear =>
      ClearGood(s, c, h);
      GoodCount(Clear(s), map[], h);
      LoadOfNone(Clear(s));
  }

  lemma StepAddsOne(c: map<int, Value>, op: Op)
    ensures |MapStep(c, op).0| <= |c| + 1
  {
    if op.OpSet? {
      MapSizeSet(c, op.key, op.value);
    } else if op.OpUnset? {
      MapSizeDrop(c, op.key);
    }
  }

  lemma {:induction false} RunKeepsLoad(s: State, c: map<int, Value>, ops: seq<Op>, h: Hash)
    requires Good(s, c, h) && s.loadFactor >= 1.0 && LoadHolds(s) && |c| + |ops| <= 0x8000_0000
    ensures LoadHolds(Run(s, ops, h).0) && Run(s, ops, h).0.loadFactor == s.loadFactor
    decreases |ops|
  {
    hide LoadHolds, Step, MapStep;
    if ops != [] {
      StepGood(s, c, ops[0], h);
      StepKeepsLoad(s, c, ops[0], h);
      StepAddsOne(c, ops[0]);
      RunKeepsLoad(Step(s, ops[0], h).0, MapStep(c, ops[0]).0, ops[1..], h);
    }
  }

  /** The load bound over whole runs: from creation on, with a load factor of at least one, after any run of up to 2^31
      operations, the number of keys is at most the load factor times the number of buckets. */
  lemma LoadBounded(size: nat, loadFactor: real, ops: seq<Op>, h: Hash, s: State)
    requires ValidHash(h) && NextSize(size) > 0 && loadFactor >= 1.0 && |ops| <= 0x8000_0000
    requires s == Run(Created(size, loadFactor), ops, h).0
    ensures LoadHolds(s) && s.loadFactor == loadFactor && s.count == |MapRun(map[], ops).0|
  {
    hide LoadHolds, Run, MapRun;
    CreatedGood(size, loadFactor, h);
    LoadOfNone(Created(size, loadFactor));
    RunKeepsLoad(Created(size, loadFactor), map[], ops, h);
    RunGood(Created(size, loadFactor), map[], ops, h);
  }

  /** From creation on, any run of operations, with rehashes wherever they fall, gives the answers of a finite map
      that starts empty; the counter is the number of keys, and every entry sits in its own bucket. */
  lemma TableRefinesMap(size: nat, loadFactor: real, ops: seq<Op>, h: Hash)
    requires ValidHash(h) && NextSize(size) > 0
    ensures var ((s, replies), (c, mapReplies)) := (Run(Created(size, loadFactor), ops, h), MapRun(map[], ops));
      && replies == mapReplies
      && s.count == |c| && WellFormed(s.table, c, h)
  {
    CreatedGood(size, loadFactor, h);
    RunGood(Created(size, loadFactor), map[], ops, h);
  }
}
