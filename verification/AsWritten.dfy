/** The key comparison and the hash as the source spells them, and when they agree with the intended ones.

    The list helpers write `*key = *(list->key)`, an assignment whose value then decides, where equality is meant,
    and `hash` returns the key itself instead of its remainder by the size. TableSpec and HashTable model the
    intended operations. Here the spelled ones are modelled. Together the two slips make a table indexed directly by
    the key, in which bucket 0 only ever grows and is never found in: the answers over a run are those of a finite map
    exactly when key 0 is not asked for while it is set (`WrittenExactly`). A key that is not below the number of
    buckets is outside the array. */
module AsWritten {
  import opened TableSpec
  import opened Wrappers

  predicate AllKey(c: Chain, key: int) {
    forall i :: 0 <= i < |c| ==> c[i].key == key
  }

  // ----- the spelled helpers: the searched key is overwritten by each key that is passed -----

  function GetWritten(c: Chain): Option<Value> {
    if c == [] then None else if c[0].key != 0 then Some(c[0].value) else GetWritten(c[1..])
  }

  function SetWritten(c: Chain, key: int, value: Value): (r: Chain)
    ensures AllKey(c, key) ==> AllKey(r, key)
  {
    if c == [] then [Entry(key, value)]
    else if c[0].key != 0 then [Entry(c[0].key, value)] + c[1..]
    else [c[0]] + SetWritten(c[1..], c[0].key, value)
  }

  function RemoveWritten(c: Chain, key: int): (r: Chain)
    ensures AllKey(c, key) ==> AllKey(r, key)
    decreases |c|
  {
    if c == [] then [] else if c[0].key != 0 then c[1..] else [c[0]] + RemoveWritten(c[1..], c[0].key)
  }

  function UpdateWritten(c: Chain, e: Entry): (r: Chain)
    ensures AllKey(c, e.key) ==> AllKey(r, e.key)
    decreases |c|
  {
    if c == [] then [e]
    else if c[0].key != 0 then c
    else [c[0]] + UpdateWritten(c[1..], e.(key := c[0].key))
  }

  /** On a list whose nodes all have the searched key, the spelled helpers do what the intended ones do if and only
      if that key is not 0 or the list is empty. */
  lemma WrittenAgrees(c: Chain, key: int, value: Value)
    requires AllKey(c, key)
    ensures GetWritten(c) == ChainGet(c, key) <==> key != 0 || c == []
    ensures SetWritten(c, key, value) == ChainSet(c, key, value) <==> key != 0 || c == []
    ensures RemoveWritten(c, key) == ChainRemove(c, key) <==> key != 0 || c == []
  {
    if c != [] && key == 0 {
      ZeroNeverFound(c, value);
    }
  }

  lemma {:induction false} ZeroNeverFound(c: Chain, value: Value)
    requires AllKey(c, 0)
    ensures GetWritten(c) == None && RemoveWritten(c, 0) == c
    ensures SetWritten(c, 0, value) == c + [Entry(0, value)] == UpdateWritten(c, Entry(0, value))
  {
    if c != [] {
      ZeroNeverFound(c[1..], value);
      assert [c[0]] + (c[1..] + [Entry(0, value)]) == c + [Entry(0, value)];
    }
  }

  // ----- the table with the spelled hash: the bucket of a key is the key -----

  ghost predicate InPlace(t: Table) {
    forall b :: 0 <= b < |t| ==> AllKey(t[b], b)
  }

  /** The inner loop of a rehash over a detached list. */
  function MoveWritten(t: Table, c: Chain): (r: Table)
    requires InPlace(t) && forall i :: 0 <= i < |c| ==> 0 <= c[i].key < |t|
    ensures |r| == |t| && InPlace(r)
    decreases |c|
  {
    if c == [] then t else MoveWritten(t[c[0].key := UpdateWritten(t[c[0].key], c[0])], c[1..])
  }

  function RehashFromWritten(t: Table, i: nat, size: nat): (r: Table)
    requires InPlace(t) && i <= size <= |t|
    ensures |r| == |t| && InPlace(r)
    decreases size - i
  {
    if i == size then t else RehashFromWritten(MoveWritten(t[i := []], t[i]), i + 1, size)
  }

  function RehashWritten(t: Table, newSize: nat): (r: Table)
    requires InPlace(t)
    ensures InPlace(r) && |r| == if newSize < |t| then |t| else newSize
  {
    if newSize < |t| then t else RehashFromWritten(t + Empty(newSize - |t|), 0, |t|)
  }

  /** The state after a set, before the table grows, if it does. */
  function Stored(s: State, k: nat, value: Value): State
    requires k < |s.table|
  {
    var q := SetWritten(s.table[k], k, value);
    State(s.table[k := q], s.count + |q| - |s.table[k]|, s.loadFactor)
  }

  function WrittenSet(s: State, key: nat, value: Value): (r: State)
    requires InPlace(s.table) && key < |s.table|
    ensures InPlace(r.table) && |r.table| >= |s.table|
  {
    var s1 := Stored(s, key, value);
    if Overloaded(s1) then s1.(table := RehashWritten(s1.table, NextSize(|s1.table|))) else s1
  }

  /** The key is inside the array. */
  predicate KeyInRange(op: Op, size: nat) {
    op.OpClear? || 0 <= op.key < size
  }

  function WrittenStep(s: State, op: Op): (r: (State, Reply))
    requires InPlace(s.table) && KeyInRange(op, |s.table|)
    ensures InPlace(r.0.table) && |r.0.table| >= |s.table|
  {
    match op
    case OpSet(k, value) => (WrittenSet(s, k, value), Done)
    case OpGet(k) => (s, Found(GetWritten(s.table[k])))
    case OpUnset(k) =>
      var c := RemoveWritten(s.table[k], k);
      (State(s.table[k := c], s.count - (|s.table[k]| - |c|), s.loadFactor), Done)
    case OpIsSet(k) => (s, Is(GetWritten(s.table[k]).Some?))
    case OpClear => (Clear(s), Done)
  }

  lemma StillInRange(ops: seq<Op>, size: nat, size1: nat)
    requires ops != [] && size <= size1 && forall op :: op in ops ==> KeyInRange(op, size)
    ensures forall op :: op in ops[1..] ==> KeyInRange(op, size1)
  {
    forall op | op in ops[1..]
      ensures KeyInRange(op, size1)
    {
      assert op in ops;
    }
  }

  function WrittenRun(s: State, ops: seq<Op>): (r: (State, seq<Reply>))
    requires InPlace(s.table) && forall op :: op in ops ==> KeyInRange(op, |s.table|)
    ensures |r.1| == |ops|
    decreases |ops|
  {
    if ops == [] then (s, []) else
      assert ops[0] in ops;
      var (s1, reply) := WrittenStep(s, ops[0]);
      StillInRange(ops, |s.table|, |s1.table|);
      var (s2, replies) := WrittenRun(s1, ops[1..]);
      (s2, [reply] + replies)
  }

  // ----- sizes -----

  lemma {:induction false} SizeUpdate(t: Table, b: nat, c: Chain)
    requires b < |t|
    ensures Size(t[b := c]) == Size(t) - |t[b]| + |c|
  {
    if b == 0 {
      assert t[0 := c][1..] == t[1..];
    } else {
      assert t[b := c][1..] == t[1..][b - 1 := c];
      SizeUpdate(t[1..], b - 1, c);
    }
  }

  lemma {:induction false} SizeExtended(t: Table, n: nat)
    ensures Size(t + Empty(n)) == Size(t)
    decreases |t| + n
  {
    if t != [] {
      assert (t + Empty(n))[1..] == t[1..] + Empty(n);
      SizeExtended(t[1..], n);
    } else if n > 0 {
      assert t + Empty(n) == Empty(n) && Empty(n)[1..] == [] + Empty(n - 1);
      SizeExtended([], n - 1);
    }
  }

  lemma {:induction false} FewEntries(t: Table)
    requires forall b :: 0 <= b < |t| ==> |t[b]| <= 1
    ensures Size(t) <= |t|
  {
    if t != [] {
      FewEntries(t[1..]);
    }
  }

  // ----- what the table stands for -----

  /** The number of keys other than 0. */
  function Others(c: map<int, Value>): nat {
    |c.Keys - {0}|
  }

  /** Bucket `b` holds the value of key `b` and nothing else, except that bucket 0 holds `zeros` entries of key 0; and
      the counter counts them all. */
  ghost predicate Direct(s: State, c: map<int, Value>, zeros: nat) {
    && |s.table| > 0 && InPlace(s.table)
    && s.count == Size(s.table) == Others(c) + zeros && |s.table[0]| == zeros
    && (forall k :: k in c ==> 0 <= k < |s.table|)
    && forall b :: 0 < b < |s.table| ==> s.table[b] == if b in c then [Entry(b, c[b])] else []
  }

  /** Hanging the entries of a bucket back into it, one by one, gives the bucket again. */
  lemma {:induction false} MoveBack(t: Table, i: nat, c: Chain)
    requires InPlace(t) && i < |t| && AllKey(c, i) && (i > 0 ==> |t[i]| + |c| <= 1)
    ensures MoveWritten(t, c) == t[i := t[i] + c]
    decreases |c|
  {
    if c == [] {
      assert t[i] + c == t[i] && t[i := t[i]] == t;
    } else {
      var t1 := t[i := UpdateWritten(t[i], c[0])];
      if i == 0 {
        assert c[0] == Entry(0, c[0].value);
        ZeroNeverFound(t[0], c[0].value);
      }
      assert t1[i] == t[i] + [c[0]];
      MoveBack(t1, i, c[1..]);
      assert t[i] + [c[0]] + c[1..] == t[i] + c;
      assert t1[i := t[i] + c] == t[i := t[i] + c];
    }
  }

  lemma {:induction false} RehashFromWrittenIs(t: Table, i: nat, size: nat)
    requires InPlace(t) && i <= size <= |t| && forall b :: 0 < b < |t| ==> |t[b]| <= 1
    ensures RehashFromWritten(t, i, size) == t
    decreases size - i
  {
    if i < size {
      MoveBack(t[i := []], i, t[i]);
      assert [] + t[i] == t[i] && t[i := []][i := t[i]] == t;
      RehashFromWrittenIs(t, i + 1, size);
    }
  }

  /** The spelled rehash leaves every entry where it is and adds empty buckets. */
  lemma RehashWrittenExtends(t: Table, newSize: nat)
    requires InPlace(t) && forall b :: 0 < b < |t| ==> |t[b]| <= 1
    ensures RehashWritten(t, newSize) == if newSize < |t| then t else t + Empty(newSize - |t|)
  {
    if newSize >= |t| {
      RehashFromWrittenIs(t + Empty(newSize - |t|), 0, |t|);
    }
  }

  lemma DirectExtended(s: State, c: map<int, Value>, zeros: nat)
    requires Direct(s, c, zeros)
    ensures Direct(s.(table := RehashWritten(s.table, NextSize(|s.table|))), c, zeros)
  {
    RehashWrittenExtends(s.table, NextSize(|s.table|));
    if NextSize(|s.table|) >= |s.table| {
      SizeExtended(s.table, NextSize(|s.table|) - |s.table|);
    }
  }

  lemma {:induction false} RunGrows(s: State, ops: seq<Op>)
    requires InPlace(s.table) && forall op :: op in ops ==> KeyInRange(op, |s.table|)
    ensures |WrittenRun(s, ops).0.table| >= |s.table|
    decreases |ops|
  {
    if ops != [] {
      assert ops[0] in ops;
      var s1 := WrittenStep(s, ops[0]).0;
      StillInRange(ops, |s.table|, |s1.table|);
      RunGrows(s1, ops[1..]);
    }
  }

  /** How many entries of key 0 an operation leaves. */
  function ZerosAfter(zeros: nat, op: Op): nat {
    if op.OpClear? then 0 else if op.OpSet? && op.key == 0 then zeros + 1 else zeros
  }

  /** Another list in bucket 0. */
  lemma ReplaceZero(s: State, c: map<int, Value>, zeros: nat, q: Chain, c1: map<int, Value>)
    requires Direct(s, c, zeros) && AllKey(q, 0)
    requires Others(c1) == Others(c) && forall k :: k != 0 ==> (k in c1 <==> k in c) && (k in c ==> c1[k] == c[k])
    ensures Direct(State(s.table[0 := q], s.count + |q| - |s.table[0]|, s.loadFactor), c1, |q|)
  {
    hide Others;
    SizeUpdate(s.table, 0, q);
  }

  /** Another list in the bucket of another key. */
  lemma ReplaceOther(s: State, c: map<int, Value>, zeros: nat, b: nat, q: Chain, c1: map<int, Value>)
    requires Direct(s, c, zeros) && 0 < b < |s.table| && q == if b in c1 then [Entry(b, c1[b])] else []
    requires Others(c1) == Others(c) + |q| - |s.table[b]|
    requires forall k :: k != b ==> (k in c1 <==> k in c) && (k in c ==> c1[k] == c[k])
    ensures Direct(State(s.table[b := q], s.count + |q| - |s.table[b]|, s.loadFactor), c1, zeros)
  {
    hide Others;
    SizeUpdate(s.table, b, q);
  }

  lemma CountPlus(keys: set<int>, k: int)
    ensures |keys + {k} - {0}| == |keys - {0}| + if k == 0 || k in keys then 0 else 1
  {
    if k == 0 || k in keys {
      assert keys + {k} - {0} == keys - {0};
    } else {
      assert keys + {k} - {0} == (keys - {0}) + {k};
    }
  }

  lemma OthersSet(c: map<int, Value>, k: int, value: Value)
    ensures Others(c[k := value]) == Others(c) + if k == 0 || k in c then 0 else 1
  {
    CountPlus(c.Keys, k);
    assert c[k := value].Keys == c.Keys + {k};
  }

  lemma OthersUnset(c: map<int, Value>, k: int)
    ensures Others(c - {k}) == Others(c) - if k != 0 && k in c then 1 else 0
  {
    CountPlus(c.Keys - {k}, k);
    assert (c - {k}).Keys == c.Keys - {k};
    if k in c {
      assert c.Keys - {k} + {k} == c.Keys;
    } else {
      assert c.Keys - {k} == c.Keys;
    }
  }

  /** In a bucket of another key the helpers do what is meant. */
  lemma OtherBucket(q: Chain, k: int, value: Value)
    requires k != 0 && AllKey(q, k) && |q| <= 1
    ensures SetWritten(q, k, value) == [Entry(k, value)] && RemoveWritten(q, k) == []
  {
  }

  lemma DirectBucket(s: State, c: map<int, Value>, zeros: nat, k: nat, value: Value)
    requires Direct(s, c, zeros) && k < |s.table|
    ensures Direct(Stored(s, k, value), c[k := value], ZerosAfter(zeros, OpSet(k, value)))
  {
    hide Direct, Others, SetWritten;
    OthersSet(c, k, value);
    var q, c1 := SetWritten(s.table[k], k, value), c[k := value];
    if k == 0 {
      BucketZero(s, c, zeros);
      ZeroNeverFound(s.table[0], value);
      ReplaceZero(s, c, zeros, q, c1);
    } else {
      BucketOther(s, c, zeros, k);
      OtherBucket(s.table[k], k, value);
      ReplaceOther(s, c, zeros, k, q, c1);
    }
  }

  lemma BucketZero(s: State, c: map<int, Value>, zeros: nat)
    requires Direct(s, c, zeros)
    ensures AllKey(s.table[0], 0) && |s.table[0]| == zeros
  {
  }

  lemma BucketOther(s: State, c: map<int, Value>, zeros: nat, b: nat)
    requires Direct(s, c, zeros) && 0 < b < |s.table|
    ensures s.table[b] == if b in c then [Entry(b, c[b])] else []
  {
  }

  lemma DirectSet(s: State, c: map<int, Value>, zeros: nat, k: nat, value: Value)
    requires Direct(s, c, zeros) && k < |s.table|
    ensures Direct(WrittenSet(s, k, value), c[k := value], ZerosAfter(zeros, OpSet(k, value)))
  {
    DirectBucket(s, c, zeros, k, value);
    hide Direct;
    DirectExtended(Stored(s, k, value), c[k := value], ZerosAfter(zeros, OpSet(k, value)));
  }

  lemma DirectUnset(s: State, c: map<int, Value>, zeros: nat, k: nat)
    requires Direct(s, c, zeros) && k < |s.table|
    ensures Direct(WrittenStep(s, OpUnset(k)).0, c - {k}, zeros)
  {
    hide Direct, Others, RemoveWritten;
    OthersUnset(c, k);
    var q, c1 := RemoveWritten(s.table[k], k), c - {k};
    if k == 0 {
      BucketZero(s, c, zeros);
      ZeroNeverFound(s.table[0], []);
      ReplaceZero(s, c, zeros, q, c1);
    } else {
      BucketOther(s, c, zeros, k);
      OtherBucket(s.table[k], k, []);
      ReplaceOther(s, c, zeros, k, q, c1);
    }
  }

  lemma NoOthers()
    ensures Others(map[]) == 0
  {
    var none: map<int, Value> := map[];
    assert none.Keys == {};
  }

  lemma DirectClear(s: State, c: map<int, Value>, zeros: nat)
    requires Direct(s, c, zeros)
    ensures Direct(Clear(s), map[], 0)
  {
    SizeExtended([], |s.table|);
    assert [] + Empty(|s.table|) == Empty(|s.table|);
    NoOthers();
  }

  lemma DirectStep(s: State, c: map<int, Value>, zeros: nat, op: Op)
    requires Direct(s, c, zeros) && KeyInRange(op, |s.table|)
    ensures Direct(WrittenStep(s, op).0, MapStep(c, op).0, ZerosAfter(zeros, op))
  {
    match op
    case OpSet(k, value) => DirectSet(s, c, zeros, k, value);
    case OpGet(k) =>
    case OpUnset(k) => DirectUnset(s, c, zeros, k);
    case OpIsSet(k) =>
    case OpClear => DirectClear(s, c, zeros);
  }

  // ----- the answers -----

  /** The operation asks for key 0 while the map has it. */
  predicate AsksZero(c: map<int, Value>, op: Op) {
    (op.OpGet? || op.OpIsSet?) && op.key == 0 && 0 in c
  }

  lemma AnswersExactly(s: State, c: map<int, Value>, zeros: nat, op: Op)
    requires Direct(s, c, zeros) && KeyInRange(op, |s.table|)
    ensures WrittenStep(s, op).1 == MapStep(c, op).1 <==> !AsksZero(c, op)
  {
    ZeroNeverFound(s.table[0], []);
  }

  predicate NeverAsksZero(c: map<int, Value>, ops: seq<Op>)
    decreases |ops|
  {
    ops != [] ==> !AsksZero(c, ops[0]) && NeverAsksZero(MapStep(c, ops[0]).0, ops[1..])
  }

  /** The entries of key 0 after a run: its sets since the last clear. */
  function ZerosAfterAll(zeros: nat, ops: seq<Op>): nat
    decreases |ops|
  {
    if ops == [] then zeros else ZerosAfterAll(ZerosAfter(zeros, ops[0]), ops[1..])
  }

  lemma {:induction false} DirectRun(s: State, c: map<int, Value>, zeros: nat, ops: seq<Op>)
    requires Direct(s, c, zeros) && forall op :: op in ops ==> KeyInRange(op, |s.table|)
    ensures Direct(WrittenRun(s, ops).0, MapRun(c, ops).0, ZerosAfterAll(zeros, ops))
    ensures WrittenRun(s, ops).1 == MapRun(c, ops).1 <==> NeverAsksZero(c, ops)
    decreases |ops|
  {
    if ops != [] {
      assert ops[0] in ops;
      var (s1, reply) := WrittenStep(s, ops[0]);
      var (c1, mapReply) := MapStep(c, ops[0]);
      DirectStep(s, c, zeros, ops[0]);
      AnswersExactly(s, c, zeros, ops[0]);
      StillInRange(ops, |s.table|, |s1.table|);
      DirectRun(s1, c1, ZerosAfter(zeros, ops[0]), ops[1..]);
      SameHeadAndTail(reply, WrittenRun(s1, ops[1..]).1, mapReply, MapRun(c1, ops[1..]).1);
    }
  }

  lemma SameHeadAndTail(x: Reply, a: seq<Reply>, y: Reply, b: seq<Reply>)
    ensures [x] + a == [y] + b <==> x == y && a == b
  {
    assert ([x] + a)[0] == x && ([x] + a)[1..] == a && ([y] + b)[0] == y && ([y] + b)[1..] == b;
  }

  lemma CreatedDirect(size: nat, loadFactor: real)
    requires NextSize(size) > 0
    ensures Direct(Created(size, loadFactor), map[], 0)
  {
    SizeExtended([], NextSize(size));
    assert [] + Empty(NextSize(size)) == Empty(NextSize(size));
    NoOthers();
  }

  /** From creation on, any run of the operations as spelled, with keys inside the array and with the table growing
      wherever it does, gives the answers of a finite map if and only if it never asks for key 0 while that is set. */
  lemma {:induction false} WrittenExactly(size: nat, loadFactor: real, ops: seq<Op>)
    requires NextSize(size) > 0 && forall op :: op in ops ==> KeyInRange(op, NextSize(size))
    ensures WrittenRun(Created(size, loadFactor), ops).1 == MapRun(map[], ops).1 <==> NeverAsksZero(map[], ops)
  {
    CreatedDirect(size, loadFactor);
    DirectRun(Created(size, loadFactor), map[], 0, ops);
  }

  /** And in any such run the counter, which is also the number of records a dump writes, is the number of other keys
      plus one for every set of key 0 since the last clear: setting key 0 again adds an entry, unsetting removes none. */
  lemma {:induction false} WrittenCounter(size: nat, loadFactor: real, ops: seq<Op>)
    requires NextSize(size) > 0 && forall op :: op in ops ==> KeyInRange(op, NextSize(size))
    ensures var s := WrittenRun(Created(size, loadFactor), ops).0;
      s.count == Size(s.table) == Others(MapRun(map[], ops).0) + ZerosAfterAll(0, ops)
  {
    CreatedDirect(size, loadFactor);
    DirectRun(Created(size, loadFactor), map[], 0, ops);
  }

  // ----- growth -----

  lemma GrowsWhenOverloaded(s: State, k: nat, value: Value)
    requires InPlace(s.table) && k < |s.table| < 0x8000_0000
    ensures |WrittenSet(s, k, value).table| > |s.table| <==> Overloaded(Stored(s, k, value))
  {
    hide SetWritten, NextSize, Overloaded, RehashFromWritten;
    NextSizeGrows(|s.table|);
  }

  /** The growth test, for that many entries and buckets. */
  predicate Exceeds(count: int, size: nat, loadFactor: real)
    requires size > 0
  {
    count as real / size as real > loadFactor
  }

  lemma StoredExceeds(s: State, k: nat, value: Value)
    requires InPlace(s.table) && k < |s.table|
    ensures Overloaded(Stored(s, k, value)) <==> Exceeds(Stored(s, k, value).count, |s.table|, s.loadFactor)
  {
    hide SetWritten;
  }

  /** A set lets the table grow exactly when the other keys and the entries of key 0 together exceed the load. */
  lemma GrowsExactly(s: State, c: map<int, Value>, zeros: nat, k: nat, value: Value)
    requires Direct(s, c, zeros) && k < |s.table| < 0x8000_0000
    ensures |WrittenSet(s, k, value).table| > |s.table| <==>
      Exceeds(Others(c[k := value]) + ZerosAfter(zeros, OpSet(k, value)), |s.table|, s.loadFactor)
  {
    DirectBucket(s, c, zeros, k, value);
    CountIs(Stored(s, k, value), c[k := value], ZerosAfter(zeros, OpSet(k, value)));
    GrowsWhenOverloaded(s, k, value);
    StoredExceeds(s, k, value);
    hide WrittenSet, Others, Stored, Overloaded, Exceeds;
  }

  lemma CountIs(s: State, c: map<int, Value>, zeros: nat)
    requires Direct(s, c, zeros)
    ensures s.count == Others(c) + zeros
    ensures zeros == 0 ==> s.count < |s.table|
  {
    if zeros == 0 {
      FewEntries(s.table[1..]);
    }
  }

  /** Other keys alone never let it grow, when the load factor is at least one. */
  lemma NoGrowth(s: State, c: map<int, Value>, k: nat, value: Value)
    requires Direct(s, c, 0) && 0 < k < |s.table| && s.loadFactor >= 1.0
    ensures |WrittenSet(s, k, value).table| == |s.table|
  {
    DirectBucket(s, c, 0, k, value);
    var s1 := Stored(s, k, value);
    CountIs(s1, c[k := value], 0);
    assert s1.count >= 0;
    BelowOne(s1.count, |s1.table|);
  }

  lemma BelowOne(a: nat, b: nat)
    requires a < b
    ensures a as real / b as real < 1.0
  {
  }

  predicate OtherKey(op: Op) {
    op.OpClear? || op.key != 0
  }

  lemma {:induction false} NoGrowthRun(s: State, c: map<int, Value>, ops: seq<Op>)
    requires Direct(s, c, 0) && s.loadFactor >= 1.0
    requires forall op :: op in ops ==> KeyInRange(op, |s.table|) && OtherKey(op)
    ensures |WrittenRun(s, ops).0.table| == |s.table| && NeverAsksZero(c, ops)
    decreases |ops|
  {
    if ops != [] {
      assert ops[0] in ops;
      DirectStep(s, c, 0, ops[0]);
      if ops[0].OpSet? {
        NoGrowth(s, c, ops[0].key, ops[0].value);
      }
      NoGrowthRun(WrittenStep(s, ops[0]).0, MapStep(c, ops[0]).0, ops[1..]);
    }
  }

  /** With keys from 1 on and a load factor of at least one, any run from creation on gives the answers of a finite map
      and the table keeps its size. */
  lemma {:induction false} WrittenRefinesMap(size: nat, loadFactor: real, ops: seq<Op>)
    requires NextSize(size) > 0 && loadFactor >= 1.0
    requires forall op :: op in ops ==> KeyInRange(op, NextSize(size)) && OtherKey(op)
    ensures var (s, replies) := WrittenRun(Created(size, loadFactor), ops);
      replies == MapRun(map[], ops).1 && |s.table| == NextSize(size)
  {
    CreatedDirect(size, loadFactor);
    NoGrowthRun(Created(size, loadFactor), map[], ops);
    WrittenExactly(size, loadFactor, ops);
  }

  // ----- what the codec does -----

  /** The codec sets keys from 0 on and looks up pages, which are numbered from 1. */
  predicate CodecOp(op: Op) {
    op.OpSet? || (op.OpGet? && op.key != 0)
  }

  lemma {:induction false} CodecNeverAsksZero(c: map<int, Value>, ops: seq<Op>)
    requires forall op :: op in ops ==> CodecOp(op)
    ensures NeverAsksZero(c, ops)
    decreases |ops|
  {
    if ops != [] {
      assert ops[0] in ops;
      CodecNeverAsksZero(MapStep(c, ops[0]).0, ops[1..]);
    }
  }

  /** So the tags that the codec finds are those of a finite map, as long as its pages are below the number of
      buckets, although every encryption of page 1 adds an entry of key 0. */
  lemma CodecFindsTags(size: nat, loadFactor: real, ops: seq<Op>)
    requires NextSize(size) > 0
    requires forall op :: op in ops ==> CodecOp(op) && KeyInRange(op, NextSize(size))
    ensures WrittenRun(Created(size, loadFactor), ops).1 == MapRun(map[], ops).1
  {
    CodecNeverAsksZero(map[], ops);
    WrittenExactly(size, loadFactor, ops);
  }

  /** Key 0, under which the first 16 bytes of page 1 leave a tag, is stored but never found again. */
  lemma ZeroIsLost(value: Value)
    ensures GetWritten(SetWritten([], 0, value)) == None
    ensures SetWritten(SetWritten([], 0, value), 0, value) == [Entry(0, value), Entry(0, value)]
  {
    ZeroNeverFound([Entry(0, value)], value);
  }
}
