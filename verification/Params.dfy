/** The parameters of a remote procedure call and the two ways in which the supplicant turns a memory reference into
    an address. */
module Params {
  import opened Posix
  import opened ShmList
  import opened Words
  import opened Wrappers

  /** The type field of a parameter's attributes. */
  datatype Kind = ValueIn | ValueOut | ValueInout | MemrefIn | MemrefOut | MemrefInout | Unused

  /** `a`, `b` and `c` are three values, or the offset, size and identifier of a memory reference. */
  datatype Param = Param(kind: Kind, meta: bool, a: u64, b: u64, c: u64)

  predicate IsValue(p: Param) {
    p.kind.ValueIn? || p.kind.ValueOut? || p.kind.ValueInout?
  }

  predicate IsMemref(p: Param) {
    p.kind.MemrefIn? || p.kind.MemrefOut? || p.kind.MemrefInout?
  }

  // ----- meta parameters come first -----

  /** Splits the parameters of a request into `numMeta` meta parameters and the rest. */
  method FindParams(p: array<Param>) returns (ok: bool, numParams: nat, numMeta: nat)
    ensures numMeta + numParams == p.Length
    ensures forall i :: 0 <= i < numMeta ==> p[i].meta
    ensures numParams > 0 ==> !p[numMeta].meta
    ensures ok <==> forall i, j :: 0 <= i < j < p.Length && p[j].meta ==> p[i].meta
  {
    var n := 0;
    while n < p.Length && p[n].meta
      invariant n <= p.Length
      invariant forall i :: 0 <= i < n ==> p[i].meta
    {
      n := n + 1;
    }
    numParams, numMeta := p.Length - n, n;
    while n < p.Length
      invariant numMeta <= n <= p.Length
      invariant forall i :: numMeta <= i < n ==> !p[i].meta
    {
      if p[n].meta {
        assert numMeta < n;
        return false, numParams, numMeta;
      }
      n := n + 1;
    }
    return true, numParams, numMeta;
  }

  // ----- windows of a shared buffer -----

  /** The guard of get_param. */
  predicate GetParamRejects(sz: u64, offs: u64, size: u64) {
    AddU64(sz, offs) < sz || AddU64(sz, offs) > size
  }

  /** The guard of tee_supp_param_to_va. */
  predicate ToVaRejects(sz: u64, offs: u64, size: u64) {
    var end := AddU64(sz, offs);
    end < sz || end < offs || end > size
  }

  /** Although both sums wrap around, the two guards let the same windows through: those that end inside the buffer. */
  lemma WindowsAgree(sz: u64, offs: u64, size: u64)
    ensures !GetParamRejects(sz, offs, size) <==> offs + sz <= size
    ensures !ToVaRejects(sz, offs, size) <==> offs + sz <= size
  {
    assert AddU64(sz, offs) == if sz + offs < TWO_64 then sz + offs else sz + offs - TWO_64;
  }

  /** An address: none, or a place in the memory of a buffer. */
  datatype Va = Null | Va(p: array<byte>, offs: nat)

  /** The address a memory reference denotes; none when its window is not one of a known buffer. */
  ghost function Address(nodes: seq<TeeShm>, param: Param): Va
    reads nodes
  {
    var found := Find(nodes, ToInt(param.c));
    if IsMemref(param) && found.Some? && param.a + param.b <= found.value.size then Va(found.value.p, param.a) else Null
  }

  /** The address of an accepted window is its offset in the memory of the buffer with its identifier, and all of the
      window lies in what was asked for. */
  lemma AddressIsOffset(nodes: seq<TeeShm>, param: Param)
    ensures match Address(nodes, param)
      case Va(p, offs) =>
        var found := Find(nodes, ToInt(param.c));
        found.Some? && p == found.value.p && offs == param.a && offs + param.b <= found.value.size
      case Null =>
        !IsMemref(param) || Find(nodes, ToInt(param.c)).None?
          || param.a + param.b > Find(nodes, ToInt(param.c)).value.size
  {
  }

  method ParamToVa(shm: ShmTable, param: Param) returns (va: Va)
    requires shm.Valid()
    ensures va == Address(shm.nodes, param)
    ensures va.Va? ==> (
      && va.offs == param.a && Find(shm.nodes, ToInt(param.c)).Some?
      && va.p == Find(shm.nodes, ToInt(param.c)).value.p)
  {
    if !IsMemref(param) {
      return Null;
    }
    var end := AddU64(param.b, param.a);
    if end < param.b || end < param.a {
      return Null;
    }
    var tshm := shm.FindTshm(ToInt(param.c));
    if tshm == null || end > tshm.size {
      return Null;
    }
    return Va(tshm.p, param.a);
  }

  /** What get_param fills in; all zero when there is no buffer. */
  datatype Memory = Memory(size: u64, id: u64, buffer: Va)

  /** A missing buffer is an error for an input parameter and a null buffer for the others; a window that does not lie
      in its buffer is always an error. */
  method GetParam(shm: ShmTable, params: array<Param>, idx: nat) returns (err: bool, m: Memory)
    requires shm.Valid()
    ensures err <==> (
      || idx >= params.Length
      || !IsMemref(params[idx])
      || (&& Address(shm.nodes, params[idx]).Null?
          && (params[idx].kind.MemrefIn? || Find(shm.nodes, ToInt(params[idx].c)).Some?)))
    ensures !err ==> m.buffer == Address(shm.nodes, params[idx])
    ensures !err && m.buffer.Va? ==> m.size == params[idx].b && m.id == params[idx].c && m.buffer.offs == params[idx].a
    ensures m.buffer.Null? ==> m.size == 0 && m.id == 0
  {
    m := Memory(0, 0, Null);
    if idx >= params.Length {
      return true, m;
    }
    var param := params[idx];
    if !IsMemref(param) {
      return true, m;
    }
    var tshm := shm.FindTshm(ToInt(param.c));
    if tshm == null {
      return param.kind.MemrefIn?, m;
    }
    WindowsAgree(param.b, param.a, tshm.size);
    if AddU64(param.b, param.a) < param.b {
      return true, m;
    }
    if AddU64(param.b, param.a) > tshm.size {
      return true, m;
    }
    return false, Memory(param.b, param.c, Va(tshm.p, param.a));
  }
}
