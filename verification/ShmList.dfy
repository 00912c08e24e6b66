/** The supplicant's list of shared-memory buffers, keyed by the identifier that the driver gave each of them.

    The first half states what the list means on sequences of records; the second half is the linked list as the
    program has it, every method of which is tied to a function of the first half. */
module ShmList {
  import opened Posix
  import opened Words
  import opened Wrappers

  class TeeShm {
    const id: i32
    const p: array<byte>
    const registered: bool
    var size: u64
    var next: TeeShm?

    constructor (id: i32, length: nat, registered: bool)
      ensures this.id == id && this.registered == registered && next == null
      ensures fresh(p) && p.Length == length
    {
      this.id, this.registered, size, next := id, registered, 0, null;
      p := new byte[length](_ => 0);
    }
  }

  // ----- what the list means -----

  /** The first record with the identifier. */
  function Find(l: seq<TeeShm>, id: int): (r: Option<TeeShm>)
    ensures r.Some? ==> r.value in l && r.value.id == id
  {
    if l == [] then None else if l[0].id == id then Some(l[0]) else Find(l[1..], id)
  }

  /** The list without the first record that has the identifier. */
  function Pop(l: seq<TeeShm>, id: int): seq<TeeShm> {
    if l == [] then [] else if l[0].id == id then l[1..] else [l[0]] + Pop(l[1..], id)
  }

  function Push(l: seq<TeeShm>, shm: TeeShm): seq<TeeShm> {
    [shm] + l
  }

  ghost predicate HasId(l: seq<TeeShm>, id: int) {
    exists i :: 0 <= i < |l| && l[i].id == id
  }

  ghost predicate UniqueIds(l: seq<TeeShm>) {
    forall i, j :: 0 <= i < j < |l| ==> l[i].id != l[j].id
  }

  /** The finite map that the list stands for. */
  ghost function Contents(l: seq<TeeShm>): map<int, TeeShm> {
    if l == [] then map[] else Contents(l[1..])[l[0].id := l[0]]
  }

  lemma {:induction false} FindIsLookup(l: seq<TeeShm>, id: int)
    ensures id in Contents(l) <==> HasId(l, id)
    ensures Find(l, id) == if id in Contents(l) then Some(Contents(l)[id]) else None
  {
    if l != [] {
      FindIsLookup(l[1..], id);
      assert l[0].id == id ==> HasId(l, id);
      if HasId(l[1..], id) {
        var i :| 0 <= i < |l[1..]| && l[1..][i].id == id;
        assert l[i + 1].id == id;
      }
      if HasId(l, id) && l[0].id != id {
        var i :| 0 <= i < |l| && l[i].id == id;
        assert l[1..][i - 1].id == id;
      }
    }
  }

  /** Pushing binds the identifier and leaves every other binding alone, whether or not it was bound before. */
  lemma PushBinds(l: seq<TeeShm>, shm: TeeShm)
    ensures Contents(Push(l, shm)) == Contents(l)[shm.id := shm]
  {
    assert Push(l, shm)[1..] == l;
  }

  /** Popping unlinks the record that `Find` finds, from whatever position, and nothing else. */
  lemma {:induction false} PopUnlinksFound(l: seq<TeeShm>, id: int) returns (i: nat)
    ensures Find(l, id) == None ==> Pop(l, id) == l
    ensures Find(l, id).Some? ==> i < |l| && l[i] == Find(l, id).value && Pop(l, id) == l[..i] + l[i + 1..]
    ensures forall j :: 0 <= j < i && j < |l| ==> l[j].id != id
  {
    i := 0;
    if l != [] && l[0].id != id {
      var k := PopUnlinksFound(l[1..], id);
      i := k + 1;
      forall j | 0 <= j < i && j < |l|
        ensures l[j].id != id
      {
        assert j > 0 ==> l[j] == l[1..][j - 1];
      }
      if Find(l, id).Some? {
        assert [l[0]] + (l[1..][..k] + l[1..][k + 1..]) == l[..i] + l[i + 1..];
      }
    }
  }

  /** Popping removes the binding exactly when no second record had the identifier. */
  lemma {:induction false} PopUnbinds(l: seq<TeeShm>, id: int)
    ensures forall k :: k != id ==> Find(Pop(l, id), k) == Find(l, k)
    ensures Contents(Pop(l, id)) == Contents(l) - {id} <==> !HasId(Pop(l, id), id)
  {
    forall k | k != id
      ensures Find(Pop(l, id), k) == Find(l, k)
      ensures k in Contents(Pop(l, id)) <==> k in Contents(l)
      ensures k in Contents(l) ==> Contents(Pop(l, id))[k] == Contents(l)[k]
    {
      FindOther(l, id, k);
      FindIsLookup(l, k);
      FindIsLookup(Pop(l, id), k);
    }
    FindIsLookup(Pop(l, id), id);
    var popped, less := Contents(Pop(l, id)), Contents(l) - {id};
    if id !in popped {
      forall k
        ensures k in popped <==> k in less
        ensures k in less ==> popped[k] == less[k]
      {
      }
      assert popped == less;
    }
  }

  lemma {:induction false} FindOther(l: seq<TeeShm>, id: int, k: int)
    requires k != id
    ensures Find(Pop(l, id), k) == Find(l, k)
  {
    if l != [] && l[0].id != id {
      FindOther(l[1..], id, k);
      assert ([l[0]] + Pop(l[1..], id))[1..] == Pop(l[1..], id);
    }
  }

  lemma UniqueGone(l: seq<TeeShm>, id: int)
    requires UniqueIds(l)
    ensures UniqueIds(Pop(l, id)) && !HasId(Pop(l, id), id)
  {
    var i := PopUnlinksFound(l, id);
    FindIsLookup(l, id);
    if Find(l, id).Some? {
      var rest := Pop(l, id);
      forall j | 0 <= j < |rest|
        ensures rest[j] == l[if j < i then j else j + 1] && rest[j].id != id
      {
      }
      forall j, k | 0 <= j < k < |rest|
        ensures rest[j].id != rest[k].id
      {
        assert l[if j < i then j else j + 1].id != l[if k < i then k else k + 1].id;
      }
    }
  }

  /** Unique identifiers stay unique, and then the list refines a finite map: a pop removes just its binding. */
  lemma UniqueKept(l: seq<TeeShm>, id: int, shm: TeeShm)
    requires UniqueIds(l)
    ensures UniqueIds(Pop(l, id)) && Contents(Pop(l, id)) == Contents(l) - {id}
    ensures UniqueIds(Push(l, shm)) <==> shm.id !in Contents(l)
  {
    UniqueGone(l, id);
    PopUnbinds(l, id);
    FindIsLookup(l, shm.id);
    var pushed := Push(l, shm);
    assert forall j :: 0 <= j < |l| ==> pushed[j + 1] == l[j];
    if HasId(l, shm.id) {
      var j :| 0 <= j < |l| && l[j].id == shm.id;
      assert pushed[0].id == pushed[j + 1].id;
    }
  }

  // ----- a call and what other threads do meanwhile -----

  datatype ShmOp = Pushed(shm: TeeShm) | Popped(id: int)

  function Apply(l: seq<TeeShm>, op: ShmOp): seq<TeeShm> {
    match op
    case Pushed(shm) => Push(l, shm)
    case Popped(id) => Pop(l, id)
  }

  function ApplyAll(l: seq<TeeShm>, ops: seq<ShmOp>): seq<TeeShm>
    decreases |ops|
  {
    if ops == [] then l else ApplyAll(Apply(l, ops[0]), ops[1..])
  }

  ghost predicate Avoids(op: ShmOp, id: int) {
    match op
    case Pushed(shm) => shm.id != id
    case Popped(other) => other != id
  }

  lemma {:induction false} PopsCommute(l: seq<TeeShm>, a: int, b: int)
    requires a != b
    ensures Pop(Pop(l, a), b) == Pop(Pop(l, b), a)
  {
    if l != [] && l[0].id != a && l[0].id != b {
      PopsCommute(l[1..], a, b);
      assert ([l[0]] + Pop(l[1..], a))[1..] == Pop(l[1..], a);
      assert ([l[0]] + Pop(l[1..], b))[1..] == Pop(l[1..], b);
    } else if l != [] && l[0].id == a {
      assert ([l[0]] + Pop(l[1..], b))[1..] == Pop(l[1..], b);
    } else if l != [] {
      assert ([l[0]] + Pop(l[1..], a))[1..] == Pop(l[1..], a);
    }
  }

  lemma ApplyPopCommute(l: seq<TeeShm>, op: ShmOp, id: int)
    requires Avoids(op, id)
    ensures Pop(Apply(l, op), id) == Apply(Pop(l, id), op)
    ensures Find(Apply(l, op), id) == Find(l, id)
  {
    match op
    case Pushed(shm) =>
      assert Push(l, shm)[1..] == l;
    case Popped(other) =>
      PopsCommute(l, other, id);
      FindOther(l, other, id);
  }

  /** A call that pushes its buffer and pops it at the end finds it in between and leaves the list as if it had never
      been there, whatever other threads push and pop meanwhile under other identifiers, and even if the list
      already had the identifier. */
  lemma {:induction false} AllocThenFree(l: seq<TeeShm>, shm: TeeShm, others: seq<ShmOp>)
    requires forall i :: 0 <= i < |others| ==> Avoids(others[i], shm.id)
    ensures Find(ApplyAll(Push(l, shm), others), shm.id) == Some(shm)
    ensures Pop(ApplyAll(Push(l, shm), others), shm.id) == ApplyAll(l, others)
  {
    ApplyAllPopCommute(Push(l, shm), others, shm.id);
    assert Push(l, shm)[1..] == l;
  }

  lemma {:induction false} ApplyAllPopCommute(l: seq<TeeShm>, ops: seq<ShmOp>, id: int)
    requires forall i :: 0 <= i < |ops| ==> Avoids(ops[i], id)
    ensures Pop(ApplyAll(l, ops), id) == ApplyAll(Pop(l, id), ops)
    ensures Find(ApplyAll(l, ops), id) == Find(l, id)
    decreases |ops|
  {
    if ops != [] {
      ApplyPopCommute(l, ops[0], id);
      ApplyAllPopCommute(Apply(l, ops[0]), ops[1..], id);
    }
  }

  // ----- the linked list -----

  /** Walking from the head: what lies behind the first `k` records decides, when none of them matches. */
  lemma {:induction false} Skip(l: seq<TeeShm>, k: nat, id: int)
    requires k <= |l| && forall i :: 0 <= i < k ==> l[i].id != id
    ensures Find(l, id) == Find(l[k..], id)
    ensures Pop(l, id) == l[..k] + Pop(l[k..], id)
    decreases k
  {
    if k == 0 {
      assert l[0..] == l;
    } else {
      Skip(l, k - 1, id);
      assert l[k - 1..][0] == l[k - 1] && l[k - 1..][1..] == l[k..];
      assert l[..k - 1] + ([l[k - 1]] + Pop(l[k..], id)) == l[..k] + Pop(l[k..], id);
    }
  }

  /** What a walk that has passed `k` records without a match has learned. */
  lemma Passed(l: seq<TeeShm>, k: nat, id: int)
    requires k <= |l| && forall i :: 0 <= i < k ==> l[i].id != id
    ensures k == |l| ==> Find(l, id) == None && Pop(l, id) == l
    ensures k < |l| && l[k].id == id ==> Find(l, id) == Some(l[k]) && Pop(l, id) == l[..k] + l[k + 1..]
  {
    Skip(l, k, id);
    if k == |l| {
      assert l[..k] + [] == l;
    } else {
      assert l[k..][1..] == l[k + 1..];
    }
  }

  ghost function At(ns: seq<TeeShm>, k: nat): TeeShm? {
    if k < |ns| then ns[k] else null
  }

  /** The records reached from `head`, all different, so that the list is acyclic. */
  ghost predicate Linked(head: TeeShm?, ns: seq<TeeShm>)
    reads ns
  {
    && head == At(ns, 0)
    && (forall i :: 0 <= i < |ns| ==> ns[i].next == At(ns, i + 1))
    && forall i, j :: 0 <= i < j < |ns| ==> ns[i] != ns[j]
  }

  lemma Without(ns: seq<TeeShm>, rest: seq<TeeShm>, k: nat)
    requires k < |ns| && rest == ns[..k] + ns[k + 1..]
    ensures At(ns, k + 1) == At(rest, k) && (k > 0 ==> At(rest, 0) == At(ns, 0))
    ensures forall i :: 0 <= i < k ==> rest[i] == ns[i]
    ensures forall i :: k <= i < |rest| ==> rest[i] == ns[i + 1] && At(rest, i + 1) == At(ns, i + 2)
  {
    forall i | k <= i < |rest|
      ensures rest[i] == ns[i + 1] && At(rest, i + 1) == At(ns, i + 2)
    {
      assert rest[i] == ns[k + 1..][i - k];
    }
  }

  class ShmTable {
    var head: TeeShm?
    ghost var nodes: seq<TeeShm>

    ghost predicate Valid()
      reads this, nodes
    {
      Linked(head, nodes)
    }

    constructor ()
      ensures Valid() && nodes == []
    {
      head, nodes := null, [];
    }

    method FindTshm(id: int) returns (tshm: TeeShm?)
      requires Valid()
      ensures Find(nodes, id) == if tshm == null then None else Some(tshm)
      ensures tshm != null ==> tshm in nodes
    {
      tshm := head;
      ghost var k := 0;
      while tshm != null && tshm.id != id
        invariant k <= |nodes| && tshm == At(nodes, k)
        invariant forall i :: 0 <= i < k ==> nodes[i].id != id
        decreases |nodes| - k
      {
        tshm := tshm.next;
        k := k + 1;
      }
      Passed(nodes, k, id);
    }

    method UnlinkHead(tshm: TeeShm)
      requires Valid() && tshm == head
      modifies this
      ensures Valid() && nodes == old(nodes)[1..]
    {
      head := tshm.next;
      nodes := nodes[1..];
      assert forall i :: 0 <= i < |nodes| ==> nodes[i] == old(nodes)[i + 1];
    }

    /** Takes the record behind `prev` out of the list. */
    method Unlink(prev: TeeShm, tshm: TeeShm, ghost k: nat)
      requires Valid() && k + 1 < |nodes| && prev == nodes[k] && tshm == nodes[k + 1]
      modifies `nodes, prev`next
      ensures Valid()
      ensures nodes == old(nodes)[..k + 1] + old(nodes)[k + 2..]
    {
      ghost var rest := nodes[..k + 1] + nodes[k + 2..];
      Without(nodes, rest, k + 1);
      assert tshm.next == At(rest, k + 1);
      prev.next := tshm.next;
      nodes := rest;
    }

    /** Walks from a head that does not match to the first record that does, and the one before it. */
    method Walk(first: TeeShm, id: int) returns (prev: TeeShm, tshm: TeeShm?, ghost k: nat)
      requires Valid() && first == head && first.id != id
      ensures k < |nodes| && prev == nodes[k] && tshm == At(nodes, k + 1)
      ensures forall i :: 0 <= i <= k ==> nodes[i].id != id
      ensures tshm != null ==> tshm.id == id
    {
      prev, tshm, k := first, first.next, 0;
      while tshm != null && tshm.id != id
        invariant k < |nodes| && prev == nodes[k] && tshm == At(nodes, k + 1)
        invariant forall i :: 0 <= i <= k ==> nodes[i].id != id
        decreases |nodes| - k
      {
        prev := tshm;
        tshm := tshm.next;
        k := k + 1;
      }
    }

    method PopTshm(id: int) returns (tshm: TeeShm?)
      requires Valid()
      modifies this, (set n | n in nodes)`next
      ensures Valid()
      ensures nodes == Pop(old(nodes), id)
      ensures Find(old(nodes), id) == if tshm == null then None else Some(tshm)
    {
      tshm := head;
      if tshm == null {
        return;
      }
      if tshm.id == id {
        UnlinkHead(tshm);
        return;
      }
      var prev;
      ghost var k;
      prev, tshm, k := Walk(tshm, id);
      Passed(nodes, k + 1, id);
      if tshm != null {
        Unlink(prev, tshm, k);
      }
    }

    method PushTshm(tshm: TeeShm)
      requires Valid() && tshm !in nodes
      modifies this, tshm`next
      ensures Valid()
      ensures nodes == Push(old(nodes), tshm)
    {
      tshm.next := head;
      head := tshm;
      nodes := [tshm] + nodes;
      assert forall i :: 0 < i < |nodes| ==> nodes[i] == old(nodes)[i - 1];
    }
  }
}
