/** The static bump arena that serves malloc, free and the mass release in every application. */
module Workspace {
  import opened Bytes

  const SIZE_LIMIT: int := 0x1_0000_0000_0000_0000

  /** A block handed out since the last reset: offset and size within the arena. */
  datatype Block = Block(start: nat, size: nat)

  /** The arena's octets, its bump offset and the blocks handed out since the last reset, oldest first. */
  datatype State = State(mem: seq<byte>, off: nat, live: seq<Block>)

  /** Round up to the alignment of 16. */
  function Round16(n: nat): nat {
    (n + 15) / 16 * 16
  }

  /** The least multiple of 16 that is not smaller. */
  lemma Round16Is(n: nat, m: nat)
    ensures Round16(n) % 16 == 0 && n <= Round16(n) && (m % 16 == 0 && n <= m ==> Round16(n) <= m)
  {
    if m % 16 == 0 && n <= m {
      assert m == m / 16 * 16 && (n + 15) / 16 <= m / 16;
    }
  }

  /** The offset at which a request for `n` octets is served, if it is. */
  function Place(size: nat, off: nat, n: nat): Option<nat> {
    var at := Round16(off);
    if n == 0 || at > size || n > size - at then None else Some(at)
  }

  datatype Op = Alloc(n: nat) | Free(p: nat) | Reset | Store(b: nat, k: nat, v: byte)

  /** A client stores only inside a block it holds. */
  predicate Allowed(st: State, op: Op) {
    op.Store? ==> op.b < |st.live| && op.k < st.live[op.b].size && st.live[op.b].start + op.k < |st.mem|
  }

  function Step(st: State, op: Op): State
    requires Allowed(st, op)
  {
    match op
    case Alloc(n) =>
      var p := Place(|st.mem|, st.off, n);
      if p.None? then st else st.(off := p.value + n, live := st.live + [Block(p.value, n)])
    case Free(_) => st
    case Reset =>
      if st.off > |st.mem| then st
      else State(Zeros(st.off) + st.mem[st.off..], 0, [])
    case Store(b, k, v) => st.(mem := st.mem[st.live[b].start + k := v])
  }

  function Zeros(n: nat): (z: seq<byte>)
    ensures |z| == n && forall k :: 0 <= k < n ==> z[k] == 0
  {
    seq(n, _ => 0)
  }

  ghost predicate Inside(k: int, b: Block) {
    b.start <= k < b.start + b.size
  }

  ghost predicate Covered(live: seq<Block>, k: int) {
    exists j :: 0 <= j < |live| && Inside(k, live[j])
  }

  /** Blocks are aligned, in order, pairwise disjoint and below the offset; everything outside them is zero. */
  ghost predicate Clean(st: State) {
    && st.off <= |st.mem|
    && (forall j :: 0 <= j < |st.live| ==>
          st.live[j].start % 16 == 0 && 0 < st.live[j].size && st.live[j].start + st.live[j].size <= st.off)
    && (forall i, j :: 0 <= i < j < |st.live| ==> st.live[i].start + st.live[i].size <= st.live[j].start)
    && (forall k :: 0 <= k < |st.mem| && !Covered(st.live, k) ==> st.mem[k] == 0)
  }

  ghost function Init(size: nat): State {
    State(Zeros(size), 0, [])
  }

  lemma CoveredLater(live: seq<Block>, b: Block, k: int)
    requires Covered(live, k)
    ensures Covered(live + [b], k)
  {
    var j :| 0 <= j < |live| && Inside(k, live[j]);
    assert (live + [b])[j] == live[j];
  }

  lemma AllocKeepsClean(st: State, n: nat)
    requires Clean(st)
    ensures Clean(Step(st, Alloc(n)))
    ensures var p := Place(|st.mem|, st.off, n);
      p.Some? ==> st.off <= p.value && p.value % 16 == 0 && forall k :: p.value <= k < p.value + n ==> st.mem[k] == 0
  {
    var p := Place(|st.mem|, st.off, n);
    if p.Some? {
      var at := p.value;
      assert st.off <= at && at % 16 == 0;
      hide Round16, Place;
      assert forall k :: at <= k ==> !Covered(st.live, k);
      var live' := st.live + [Block(at, n)];
      forall k | 0 <= k < |st.mem| && !Covered(live', k) ensures st.mem[k] == 0 {
        if Covered(st.live, k) {
          CoveredLater(st.live, Block(at, n), k);
        }
      }
    }
  }

  lemma StepKeepsClean(st: State, op: Op)
    requires Clean(st) && Allowed(st, op)
    ensures Clean(Step(st, op)) && |Step(st, op).mem| == |st.mem|
  {
    match op {
      case Alloc(n) =>
        AllocKeepsClean(st, n);
      case Free(_) =>
      case Reset =>
        forall k | st.off <= k < |st.mem| ensures st.mem[k] == 0 {
          assert !Covered(st.live, k);
        }
      case Store(b, k, v) =>
        assert Inside(st.live[b].start + k, st.live[b]);
    }
  }

  /** A run of operations, each allowed where it happens. */
  ghost predicate Runs(st: State, ops: seq<Op>, st': State)
    decreases |ops|
  {
    if ops == [] then st == st'
    else Allowed(st, ops[0]) && Runs(Step(st, ops[0]), ops[1..], st')
  }

  lemma {:induction false} RunKeepsClean(st: State, ops: seq<Op>, st': State)
    requires Clean(st) && Runs(st, ops, st')
    ensures Clean(st') && |st'.mem| == |st.mem|
    decreases |ops|
  {
    if ops != [] {
      StepKeepsClean(st, ops[0]);
      RunKeepsClean(Step(st, ops[0]), ops[1..], st');
    }
  }

  /** After any run, a block handed out is aligned, zero-filled and disjoint from every block still held. */
  lemma BlockIsFresh(size: nat, ops: seq<Op>, st: State, n: nat)
    requires Runs(Init(size), ops, st) && Place(size, st.off, n).Some?
    ensures var p := Place(size, st.off, n).value;
      && |st.mem| == size && p % 16 == 0 && p + n <= size
      && (forall k :: p <= k < p + n ==> st.mem[k] == 0)
      && (forall j :: 0 <= j < |st.live| ==> st.live[j].start + st.live[j].size <= p)
  {
    RunKeepsClean(Init(size), ops, st);
    AllocKeepsClean(st, n);
  }

  // ----- Copying into a block -----

  predicate Fits(st: State, b: nat, data: seq<byte>) {
    b < |st.live| && |data| <= st.live[b].size && st.live[b].start + |data| <= |st.mem|
  }

  /** The arena with `data` at the start of block `b`. */
  function Filled(st: State, b: nat, data: seq<byte>): State
    requires Fits(st, b, data)
  {
    var at := st.live[b].start;
    st.(mem := st.mem[..at] + data + st.mem[at + |data|..])
  }

  /** A request for `n` octets, and a copy of `data` into the block if there is one. */
  function AllocFill(st: State, n: nat, data: seq<byte>): (st': State)
    requires |data| <= n
    ensures |st'.mem| == |st.mem|
  {
    if Place(|st.mem|, st.off, n).None? then st else Filled(Step(st, Alloc(n)), |st.live|, data)
  }

  /** A served request appends its block, holds the data in front, and changes nothing else. */
  lemma AllocFillIs(st: State, n: nat, data: seq<byte>, k: nat)
    requires |data| <= n && Place(|st.mem|, st.off, n).Some? && k < |st.mem|
    ensures var at, st' := Round16(st.off), AllocFill(st, n, data);
      && at + n <= |st.mem| == |st'.mem| && st'.off == at + n && st'.live == st.live + [Block(at, n)]
      && st'.mem[k] == if at <= k < at + |data| then data[k - at] else st.mem[k]
  {
    hide Round16;
  }

  /** The same for two requests in a row. */
  lemma TwoBlocks(st: State, n: nat, data: seq<byte>, n': nat, data': seq<byte>, k: nat)
    requires |data| <= n && |data'| <= n' && k < |st.mem| && Place(|st.mem|, st.off, n).Some?
    requires var first := AllocFill(st, n, data); Place(|first.mem|, first.off, n').Some?
    ensures var p, st' := Round16(st.off), AllocFill(AllocFill(st, n, data), n', data');
      var q := Round16(p + n);
      && p + n <= q && q + n' <= |st'.mem| == |st.mem|
      && st'.off == q + n' && st'.live == st.live + [Block(p, n), Block(q, n')]
      && st'.mem[k] == if p <= k < p + |data| then data[k - p]
                       else if q <= k < q + |data'| then data'[k - q]
                       else st.mem[k]
  {
    hide Round16, Place, AllocFill;
    var first := AllocFill(st, n, data);
    AllocFillIs(st, n, data, k);
    AllocFillIs(first, n', data', k);
    Round16Is(first.off, 0);
    assert first.live + [Block(Round16(first.off), n')]
        == st.live + [Block(Round16(st.off), n), Block(Round16(first.off), n')];
  }

  lemma FilledMore(st: State, b: nat, data: seq<byte>, i: nat)
    requires Fits(st, b, data) && i < |data|
    ensures Fits(st, b, data[..i]) && Fits(st, b, data[..i + 1])
    ensures var part := Filled(st, b, data[..i]);
      Allowed(part, Store(b, i, data[i])) && Step(part, Store(b, i, data[i])) == Filled(st, b, data[..i + 1])
  {
    var at := st.live[b].start;
    assert Filled(st, b, data[..i]).mem[at + i := data[i]] == Filled(st, b, data[..i + 1]).mem;
  }

  // ----- Capacity -----

  /** Do all the requests succeed, one after the other, from offset `off`? */
  predicate AllServed(size: nat, off: nat, ns: seq<nat>)
    decreases |ns|
  {
    ns == [] || (Place(size, off, ns[0]).Some? && AllServed(size, Place(size, off, ns[0]).value + ns[0], ns[1..]))
  }

  /** The room a sequence of requests takes: all but the last rounded up to 16. */
  function Room(ns: seq<nat>): nat {
    if ns == [] then 0 else if |ns| == 1 then ns[0] else Round16(ns[0]) + Room(ns[1..])
  }

  /** Non-zero requests all succeed exactly when their room fits after the (rounded) offset. */
  lemma {:induction false} AllServedIffRoom(size: nat, off: nat, ns: seq<nat>)
    requires ns != [] && forall k :: 0 <= k < |ns| ==> ns[k] != 0
    ensures AllServed(size, off, ns) <==> Round16(off) + Room(ns) <= size
    decreases |ns|
  {
    if |ns| == 1 {
      assert ns[1..] == [];
    } else {
      var at := Round16(off);
      AllServedIffRoom(size, at + ns[0], ns[1..]);
      assert Round16(at + ns[0]) == at + Round16(ns[0]);
      RoomAtLeastFirst(ns);
    }
  }

  lemma RoomAtLeastFirst(ns: seq<nat>)
    requires ns != []
    ensures ns[0] <= Room(ns)
  {
  }

  // ----- The routines -----

  /** `(off + 15) & ~15` on `size_t` */
  function AlignUp(off: nat): (at: nat)
    requires off + 15 < SIZE_LIMIT
    ensures at == Round16(off)
  {
    (off + 15) % SIZE_LIMIT / 16 * 16
  }

  class Arena {
    const buffer: array<byte>
    var off: nat
    ghost var live: seq<Block>

    ghost predicate Valid()
      reads this, buffer
    {
      buffer.Length + 15 < SIZE_LIMIT && Clean(Current())
    }

    ghost function Current(): State
      reads this, buffer
    {
      State(buffer[..], off, live)
    }

    constructor (size: nat)
      requires size + 15 < SIZE_LIMIT
      ensures Valid() && fresh(buffer) && Current() == Init(size)
    {
      buffer := new byte[size](_ => 0);
      off, live := 0, [];
      new;
      assert buffer[..] == Zeros(size);
    }

    /** app_workspace_alloc: the offset of the block, or None where the routine returns NULL. */
    method Alloc(n: nat) returns (p: Option<nat>)
      requires Valid()
      modifies this
      ensures Valid() && Current() == Step(old(Current()), Op.Alloc(n))
      ensures p == Place(buffer.Length, old(off), n)
      ensures p.Some? ==> p.value + n <= buffer.Length && forall k :: p.value <= k < p.value + n ==> buffer[k] == 0
    {
      ghost var st := Current();
      AllocKeepsClean(st, n);
      assert off <= buffer.Length;
      hide Clean, Round16;
      var at := AlignUp(off);
      if n == 0 || at > buffer.Length || n > buffer.Length - at { return None; }
      off := at + n;
      live := live + [Block(at, n)];
      return Some(at);
    }

    /** app_workspace_free */
    method Free(p: nat)
      requires Valid()
      ensures Valid() && Current() == Step(old(Current()), Op.Free(p))
    {
    }

    /** app_workspace_reset */
    method Reset()
      requires Valid()
      modifies this, buffer
      ensures Valid() && Current() == Step(old(Current()), Op.Reset)
      ensures forall k :: 0 <= k < buffer.Length ==> buffer[k] == 0
    {
      ghost var st := Current();
      StepKeepsClean(st, Op.Reset);
      if off > 0 {
        forall k | 0 <= k < off {
          buffer[k] := 0;
        }
      }
      assert buffer[..] == Zeros(off) + st.mem[off..];
      off, live := 0, [];
      assert forall k :: 0 <= k < buffer.Length ==> !Covered(live, k);
    }

    /** A client's store into a block it holds. */
    method Store(at: nat, v: byte, ghost b: nat, ghost k: nat)
      requires Valid() && Allowed(Current(), Op.Store(b, k, v)) && at == live[b].start + k
      modifies buffer
      ensures Valid() && Current() == Step(old(Current()), Op.Store(b, k, v))
    {
      StepKeepsClean(Current(), Op.Store(b, k, v));
      buffer[at] := v;
    }

    /** memcpy to the start of a block that the client holds. */
    method Fill(at: nat, data: seq<byte>, ghost b: nat)
      requires Valid() && Fits(Current(), b, data) && at == live[b].start
      modifies buffer
      ensures Valid() && Current() == Filled(old(Current()), b, data)
    {
      hide Clean;
      ghost var st := Current();
      var i := 0;
      assert data[..0] == [] && Filled(st, b, []).mem == st.mem;
      while i < |data|
        invariant i <= |data| && Valid() && Fits(st, b, data[..i])
        invariant Current() == Filled(st, b, data[..i])
      {
        FilledMore(st, b, data, i);
        Store(at + i, data[i], b, i);
        i := i + 1;
      }
      assert data[..i] == data;
    }
  }
}
