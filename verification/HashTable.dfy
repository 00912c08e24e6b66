/** The hash map as the program has it: an array of buckets, each a list of linked nodes that is rewritten in place.
    Every method is tied to its function in TableSpec, whose results therefore hold of it.

    Keys are held by value, and two keys match when they are equal; see AsWritten for the comparison as it is
    spelled in the source and for the table on which the two coincide. */
module HashTable {
  import opened Posix
  import opened TableSpec
  import opened Wrappers

  class Node {
    var key: int
    var value: Value
    var next: Node?

    constructor (key: int, value: Value)
      ensures this.key == key && this.value == value && next == null
    {
      this.key, this.value, this.next := key, value, null;
    }
  }

  /** The list at `list` runs through the nodes `ns`, which are all different, and carries the entries `c`. */
  ghost predicate IsList(list: Node?, ns: seq<Node>, c: Chain)
    reads ns
    decreases |ns|
  {
    if ns == [] then list == null && c == []
    else
      && list == ns[0] && ns[0] !in ns[1..]
      && c != [] && c[0] == Entry(ns[0].key, ns[0].value)
      && IsList(ns[0].next, ns[1..], c[1..])
  }

  // ----- the recursive list helpers -----

  method SetItem(list: Node?, key: int, value: Value, ghost ns: seq<Node>, ghost c: Chain)
    returns (r: Node?, added: int, ghost ns1: seq<Node>)
    requires IsList(list, ns, c)
    modifies ns
    ensures IsList(r, ns1, ChainSet(c, key, value))
    ensures forall n :: n in ns1 ==> n in ns || fresh(n)
    ensures added == |ChainSet(c, key, value)| - |c|
    decreases |ns|
  {
    if list == null {
      r := new Node(key, value);
      return r, 1, [r];
    }
    if key == list.key {
      if list.value != value {
        list.value := value;
      }
      return list, 0, ns;
    }
    var rest, a;
    ghost var ns';
    rest, a, ns' := SetItem(list.next, key, value, ns[1..], c[1..]);
    list.next := rest;
    ns1 := [list] + ns';
    assert ns1[1..] == ns';
    return list, a, ns1;
  }

  method GetItem(list: Node?, key: int, ghost ns: seq<Node>, ghost c: Chain) returns (r: Node?)
    requires IsList(list, ns, c)
    ensures r == null <==> ChainGet(c, key) == None
    ensures r != null ==> r in ns && ChainGet(c, key) == Some(r.value)
    decreases |ns|
  {
    if list == null {
      return null;
    }
    if key == list.key {
      return list;
    }
    r := GetItem(list.next, key, ns[1..], c[1..]);
  }

  method KeyExists(list: Node?, key: int, ghost ns: seq<Node>, ghost c: Chain) returns (r: bool)
    requires IsList(list, ns, c)
    ensures r == ChainGet(c, key).Some?
    decreases |ns|
  {
    if list == null {
      return false;
    }
    if key == list.key {
      return true;
    }
    r := KeyExists(list.next, key, ns[1..], c[1..]);
  }

  method RemoveItem(list: Node?, key: int, ghost ns: seq<Node>, ghost c: Chain)
    returns (r: Node?, removed: int, ghost ns1: seq<Node>)
    requires IsList(list, ns, c)
    modifies ns
    ensures IsList(r, ns1, ChainRemove(c, key))
    ensures forall n :: n in ns1 ==> n in ns
    ensures removed == |c| - |ChainRemove(c, key)|
    decreases |ns|
  {
    if list == null {
      return null, 0, [];
    }
    if key == list.key {
      return list.next, 1, ns[1..];
    }
    var rest, a;
    ghost var ns';
    rest, a, ns' := RemoveItem(list.next, key, ns[1..], c[1..]);
    list.next := rest;
    ns1 := [list] + ns';
    assert ns1[1..] == ns';
    return list, a, ns1;
  }

  /** Counts the nodes it gives back; nothing of the list remains. */
  method RemoveItems(list: Node?, ghost ns: seq<Node>, ghost c: Chain) returns (r: Node?, removed: int)
    requires IsList(list, ns, c)
    modifies ns
    ensures r == null && removed == |c|
    decreases |ns|
  {
    if list == null {
      return null, 0;
    }
    removed := 0;
    if list.next != null {
      var rest;
      rest, removed := RemoveItems(list.next, ns[1..], c[1..]);
      list.next := rest;
    }
    return null, removed + 1;
  }

  /** Hangs a detached node at the end of a list, unless the list already has its key. */
  method UpdateItemList(list: Node?, found: Node, ghost ns: seq<Node>, ghost c: Chain)
    returns (r: Node?, ghost ns1: seq<Node>)
    requires IsList(list, ns, c) && found !in ns
    modifies ns, found`next
    ensures IsList(r, ns1, ChainUpdate(c, Entry(found.key, found.value)))
    ensures forall n :: n in ns1 ==> n in ns || n == found
    decreases |ns|
  {
    found.next := null;
    if list == null {
      return found, [found];
    }
    if found.key == list.key {
      return list, ns;
    }
    if list.next == null {
      list.next := found;
      ns1 := [list, found];
      assert ns == [list] && ns1[1..] == [found];
      assert IsList(found, [found], [Entry(found.key, found.value)]);
      return list, ns1;
    }
    var rest;
    ghost var ns';
    rest, ns' := UpdateItemList(list.next, found, ns[1..], c[1..]);
    list.next := rest;
    ns1 := [list] + ns';
    assert ns1[1..] == ns';
    return list, ns1;
  }

  /** Bucket by bucket, the lists run through `chains`, carry the entries of `t`, and share no node. */
  ghost predicate Buckets(items: seq<Node?>, chains: seq<seq<Node>>, t: Table, nodes: set<Node>)
    reads nodes
  {
    && |items| == |chains| == |t|
    && Apart(chains)
    && (forall b :: 0 <= b < |items| ==> InBucket(items[b], chains[b], t[b], nodes))
  }

  ghost predicate Apart(chains: seq<seq<Node>>) {
    forall b1, b2, i, j ::
      0 <= b1 < |chains| && 0 <= b2 < |chains| && b1 != b2 && 0 <= i < |chains[b1]| && 0 <= j < |chains[b2]| ==>
      chains[b1][i] != chains[b2][j]
  }

  ghost predicate InBucket(list: Node?, ns: seq<Node>, c: Chain, nodes: set<Node>)
    reads nodes
  {
    (forall n :: n in ns ==> n in nodes) && IsList(list, ns, c)
  }

  /** `b` is the only bucket that shares a node with `ns`. */
  ghost predicate OnlyIn(ns: seq<Node>, b: nat, chains: seq<seq<Node>>) {
    forall b', i, j :: 0 <= b' < |chains| && b' != b && 0 <= i < |ns| && 0 <= j < |chains[b']| ==> ns[i] != chains[b'][j]
  }

  /** No bucket uses a node of `q`. */
  ghost predicate Detached(q: seq<Node>, chains: seq<seq<Node>>) {
    forall b, n :: 0 <= b < |chains| && n in chains[b] ==> n !in q
  }

  lemma StillDetached(q: seq<Node>, chains: seq<seq<Node>>, index: nat, ns1: seq<Node>, temp: Node)
    requires index < |chains| && Detached(q, chains) && temp !in q
    requires forall n :: n in ns1 ==> n in chains[index] || n == temp
    ensures Detached(q, chains[index := ns1])
  {
  }

  lemma StillOnlyIn(ns1: seq<Node>, b: nat, chains: seq<seq<Node>>, news: set<Node>)
    requires b < |chains| && Apart(chains)
    requires forall n :: n in ns1 ==> n in chains[b] || n in news
    requires forall b', j :: 0 <= b' < |chains| && 0 <= j < |chains[b']| ==> chains[b'][j] !in news
    ensures OnlyIn(ns1, b, chains)
  {
    forall b', i, j | 0 <= b' < |chains| && b' != b && 0 <= i < |ns1| && 0 <= j < |chains[b']|
      ensures ns1[i] != chains[b'][j]
    {
      assert ns1[i] in ns1;
    }
  }

  /** Putting the rewritten list of one bucket back. */
  lemma BucketReplaced(items: seq<Node?>, chains: seq<seq<Node>>, t: Table, nodes: set<Node>, b: nat,
                       r: Node?, ns1: seq<Node>, c1: Chain, nodes1: set<Node>)
    requires b < |items| && |items| == |chains| && |chains| == |t|
    requires Apart(chains) && OnlyIn(ns1, b, chains)
    requires InBucket(r, ns1, c1, nodes1) && nodes <= nodes1
    requires forall b' :: 0 <= b' < |items| && b' != b ==> InBucket(items[b'], chains[b'], t[b'], nodes)
    ensures Buckets(items[b := r], chains[b := ns1], t[b := c1], nodes1)
  {
  }

  class HashMap {
    var items: array<Node?>
    var count: int
    var size: nat
    const loadFactor: real
    const hash: Hash

    ghost var chains: seq<seq<Node>>
    ghost var table: Table
    ghost var nodes: set<Node>

    ghost predicate Valid()
      reads this, items, nodes
    {
      && ValidHash(hash)
      && items.Length == size > 0
      && Buckets(items[..], chains, table, nodes)
    }

    /** The map as a value. */
    ghost function View(): State
      reads this
    {
      State(table, count, loadFactor)
    }

    constructor (size: nat, loadFactor: real, hash: Hash)
      requires ValidHash(hash) && NextSize(size) > 0
      ensures Valid() && fresh(items) && fresh(nodes)
      ensures View() == Created(size, loadFactor) && this.hash == hash
    {
      var newSize := NextSize(size);
      var a := new Node?[newSize];
      for i := 0 to newSize
        invariant forall j :: 0 <= j < i ==> a[j] == null
      {
        a[i] := null;
      }
      items, count, this.size := a, 0, newSize;
      this.loadFactor, this.hash := loadFactor, hash;
      chains, table, nodes := seq(newSize, _ => []), Empty(newSize), {};
      new;
      assert items[..] == a[..];
    }

    method HmGet(key: int) returns (r: Option<Value>)
      requires Valid()
      ensures r == Get(View(), key, hash)
    {
      var index := hash(key, size);
      var temp := GetItem(items[index], key, chains[index], table[index]);
      r := if temp == null then None else Some(temp.value);
    }

    method HmIsSet(key: int) returns (r: bool)
      requires Valid()
      ensures r == Get(View(), key, hash).Some?
    {
      var index := hash(key, size);
      r := KeyExists(items[index], key, chains[index], table[index]);
    }

    /** Puts the rewritten list of one bucket back into the array. */
    method PutBack(index: nat, r: Node?, ghost ns1: seq<Node>, ghost c1: Chain, ghost news: set<Node>)
      requires index < items.Length && items.Length == |chains| && |chains| == |table|
      requires Apart(chains) && InBucket(r, ns1, c1, nodes + news)
      requires forall n :: n in ns1 ==> n in chains[index] || n in news
      requires forall b, j :: 0 <= b < |chains| && 0 <= j < |chains[b]| ==> chains[b][j] !in news
      requires forall b :: 0 <= b < items.Length && b != index ==> InBucket(items[b], chains[b], table[b], nodes)
      modifies items, `chains, `table, `nodes
      ensures Buckets(items[..], chains, table, nodes)
      ensures chains == old(chains)[index := ns1] && table == old(table)[index := c1] && nodes == old(nodes) + news
    {
      StillOnlyIn(ns1, index, chains, news);
      BucketReplaced(items[..], chains, table, nodes, index, r, ns1, c1, nodes + news);
      items[index] := r;
      assert items[..] == old(items[..])[index := r];
      chains, table, nodes := chains[index := ns1], table[index := c1], nodes + news;
    }

    method HmUnset(key: int)
      requires Valid()
      modifies this, items, nodes
      ensures Valid() && items == old(items) && nodes == old(nodes)
      ensures View() == Unset(old(View()), key, hash)
    {
      var index := hash(key, size);
      assert InBucket(items[..][index], chains[index], table[index], nodes);
      var r, removed;
      ghost var ns1;
      r, removed, ns1 := RemoveItem(items[index], key, chains[index], table[index]);
      forall b | 0 <= b < size && b != index
        ensures InBucket(items[b], chains[b], table[b], nodes)
      {
        assert old(InBucket(items[..][b], chains[b], table[b], nodes));
      }
      PutBack(index, r, ns1, ChainRemove(table[index], key), {});
      count := count - removed;
    }

    /** The first half of a set: the bucket is rewritten, the table does not grow yet. */
    method SetInBucket(key: int, value: Value)
      requires Valid()
      modifies this, items, nodes
      ensures Valid() && items == old(items) && fresh(nodes - old(nodes))
      ensures var b := hash(key, |old(table)|);
        && table == SetBucket(old(table), b, key, value)
        && count == old(count) + |table[b]| - |old(table[b])|
    {
      var index := hash(key, size);
      assert InBucket(items[..][index], chains[index], table[index], nodes);
      var r, added;
      ghost var ns1;
      r, added, ns1 := SetItem(items[index], key, value, chains[index], table[index]);
      forall b | 0 <= b < size && b != index
        ensures InBucket(items[b], chains[b], table[b], nodes)
      {
        assert old(InBucket(items[..][b], chains[b], table[b], nodes));
      }
      PutBack(index, r, ns1, ChainSet(table[index], key, value), set n | n in ns1 && fresh(n));
      count := count + added;
    }

    /** One turn of the inner loop of a rehash: a detached node is hung into its bucket. The nodes `q` that are still
        to come stay detached and are not touched. */
    method MoveNode(temp: Node, ghost e: Entry, ghost q: seq<Node>)
      requires ValidHash(hash) && items.Length > 0 && Buckets(items[..], chains, table, nodes)
      requires temp in nodes && e == Entry(temp.key, temp.value) && temp !in q
      requires Detached([temp], chains) && Detached(q, chains)
      modifies items, nodes - (set n | n in q), `chains, `table, `nodes
      ensures Buckets(items[..], chains, table, nodes) && nodes == old(nodes)
      ensures table == MoveAll(old(table), [e], hash)
      ensures Detached(q, chains)
    {
      var index := hash(temp.key, items.Length);
      assert InBucket(items[..][index], chains[index], table[index], nodes);
      assert temp in [temp];
      assert forall b, j :: 0 <= b < |chains| && 0 <= j < |chains[b]| ==> chains[b][j] in chains[b];
      var r;
      ghost var ns1;
      r, ns1 := UpdateItemList(items[index], temp, chains[index], table[index]);
      forall b | 0 <= b < items.Length && b != index
        ensures InBucket(items[b], chains[b], table[b], nodes)
      {
        assert old(InBucket(items[..][b], chains[b], table[b], nodes));
      }
      StillDetached(q, chains, index, ns1, temp);
      PutBack(index, r, ns1, ChainUpdate(table[index], e), {temp});
    }

    /** The inner loop of a rehash. */
    method MoveChain(list: Node?, ghost q0: seq<Node>, ghost c0: Chain)
      requires ValidHash(hash) && items.Length > 0 && Buckets(items[..], chains, table, nodes)
      requires InBucket(list, q0, c0, nodes) && Detached(q0, chains)
      modifies items, nodes, `chains, `table, `nodes
      ensures Buckets(items[..], chains, table, nodes) && nodes == old(nodes)
      ensures table == MoveAll(old(table), c0, hash)
    {
      var temp := list;
      ghost var q, c := q0, c0;
      while temp != null
        invariant Buckets(items[..], chains, table, nodes) && nodes == old(nodes)
        invariant InBucket(temp, q, c, nodes) && Detached(q, chains)
        invariant |table| == items.Length && MoveAll(table, c, hash) == MoveAll(old(table), c0, hash)
        decreases |q|
      {
        var next := temp.next;
        ghost var (e, q1, c1, t) := (c[0], q[1..], c[1..], table);
        assert forall n :: n in q1 ==> n in q;
        assert forall n :: n in [temp] ==> n in q;
        assert InBucket(next, q1, c1, nodes);
        MoveNode(temp, e, q1);
        MoveAllOne(t, e, c, hash);
        temp, q, c := next, q1, c1;
      }
    }

    /** Reallocates the array; the new buckets at its end are empty. */
    method Grow(newSize: nat)
      requires Valid() && newSize >= size
      modifies `items, `chains, `table
      ensures fresh(items) && items.Length == newSize
      ensures table == old(table) + Empty(newSize - size) && Buckets(items[..], chains, table, nodes)
    {
      var a := new Node?[newSize];
      for i := 0 to newSize
        modifies a
        invariant forall j :: 0 <= j < i ==> a[j] == if j < size then items[j] else null
      {
        a[i] := if i < size then items[i] else null;
      }
      forall b | 0 <= b < size
        ensures InBucket(a[b], chains[b], table[b], nodes)
      {
        assert InBucket(items[..][b], chains[b], table[b], nodes);
      }
      items := a;
      chains, table := chains + seq(newSize - size, _ => []), table + Empty(newSize - size);
    }

    /** Grows the array and moves every node to its bucket, walking the same array it fills. */
    method HmRehash(newSize: nat)
      requires Valid()
      modifies this, items, nodes
      ensures Valid() && nodes == old(nodes) && (items == old(items) || fresh(items))
      ensures table == Rehash(old(table), newSize, hash) && count == old(count)
    {
      if newSize < size {
        return;
      }
      Grow(newSize);
      MoveBuckets(size);
      size := newSize;
    }

    /** The outer loop of a rehash, over the buckets the array had before it grew. */
    method MoveBuckets(n: nat)
      requires ValidHash(hash) && n <= items.Length && items.Length > 0 && Buckets(items[..], chains, table, nodes)
      modifies items, nodes, `chains, `table, `nodes
      ensures Buckets(items[..], chains, table, nodes) && nodes == old(nodes)
      ensures table == RehashFrom(old(table), 0, n, hash)
    {
      ghost var goal := RehashFrom(table, 0, n, hash);
      for i := 0 to n
        invariant Buckets(items[..], chains, table, nodes) && nodes == old(nodes)
        invariant RehashFrom(table, i, n, hash) == goal
      {
        RehashStep(table, i, n, hash);
        DetachAndMove(i);
      }
    }

    /** One turn of the outer loop. */
    method DetachAndMove(i: nat)
      requires ValidHash(hash) && i < items.Length && Buckets(items[..], chains, table, nodes)
      modifies items, nodes, `chains, `table, `nodes
      ensures Buckets(items[..], chains, table, nodes) && nodes == old(nodes)
      ensures table == MoveAll(old(table)[i := []], old(table)[i], hash)
    {
      var temp := items[i];
      ghost var (q, c) := (chains[i], table[i]);
      assert InBucket(items[..][i], q, c, nodes);
      forall b | 0 <= b < items.Length && b != i
        ensures InBucket(items[b], chains[b], table[b], nodes)
      {
        assert InBucket(items[..][b], chains[b], table[b], nodes);
      }
      PutBack(i, null, [], [], {});
      MoveChain(temp, q, c);
    }

    method HmSet(key: int, value: Value)
      requires Valid()
      modifies this, items, nodes
      ensures Valid() && (items == old(items) || fresh(items)) && fresh(nodes - old(nodes))
      ensures View() == Set(old(View()), key, value, hash)
    {
      SetInBucket(key, value);
      if count as real / size as real > loadFactor {
        var n := ComputeNextSize(size);
        HmRehash(n);
      }
    }

    method HmClear()
      requires Valid()
      modifies this, items, nodes
      ensures Valid() && items == old(items)
      ensures View() == Clear(old(View()))
    {
      var counter := 0;
      for i := 0 to size
        invariant items == old(items) && items.Length == size && size == old(size)
        invariant Buckets(items[..], chains, table, nodes) && nodes == old(nodes)
        invariant |table| == |old(table)| && forall b :: 0 <= b < size ==> table[b] == if b < i then [] else old(table[b])
        invariant counter + Size(old(table)[..i]) == 0 && count == old(count)
      {
        var removed := EmptyBucket(i);
        counter := counter - removed;
        SizeSnoc(old(table), i);
      }
      count := count + counter;
      assert old(table)[..size] == old(table);
      assert table == Empty(size);
    }

    method EmptyBucket(i: nat) returns (removed: int)
      requires i < items.Length && Buckets(items[..], chains, table, nodes)
      modifies items, nodes, `chains, `table, `nodes
      ensures Buckets(items[..], chains, table, nodes) && nodes == old(nodes)
      ensures table == old(table)[i := []] && removed == |old(table)[i]|
    {
      assert InBucket(items[..][i], chains[i], table[i], nodes);
      var r;
      r, removed := RemoveItems(items[i], chains[i], table[i]);
      forall b | 0 <= b < items.Length && b != i
        ensures InBucket(items[b], chains[b], table[b], nodes)
      {
        assert old(InBucket(items[..][b], chains[b], table[b], nodes));
      }
      PutBack(i, r, [], [], {});
    }
  }

  lemma {:induction false} SizeSnoc(t: Table, i: nat)
    requires i < |t|
    ensures Size(t[..i + 1]) == Size(t[..i]) + |t[i]|
  {
    if i > 0 {
      SizeSnoc(t[1..], i - 1);
      assert t[..i + 1][1..] == t[1..][..i] && t[..i][1..] == t[1..][..i - 1];
    } else {
      assert t[..1][1..] == [];
    }
  }

  /** What a scan that has passed `i` sizes, none of them above `size`, has learned. */
  lemma {:induction false} Behind(sizes: seq<nat>, i: nat, size: nat)
    requires i <= |sizes| && forall j :: 0 <= j < i ==> sizes[j] <= size
    ensures i == |sizes| ==> FirstAbove(sizes, size) == None
    ensures i < |sizes| && sizes[i] > size ==> FirstAbove(sizes, size) == Some(sizes[i])
  {
    if i > 0 {
      Behind(sizes[1..], i - 1, size);
    }
  }

  /** The search through the size list. */
  method ComputeNextSize(size: nat) returns (r: nat)
    ensures r == NextSize(size)
  {
    for i := 0 to |SIZES|
      invariant forall j :: 0 <= j < i ==> SIZES[j] <= size
    {
      Behind(SIZES, i, size);
      if SIZES[i] > size {
        return SIZES[i];
      }
    }
    Behind(SIZES, |SIZES|, size);
    return size * 2 % UINT_MAX_1;
  }
}
