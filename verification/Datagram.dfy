/** The growable datagram buffer of the DTLS PSK demo. */
module Datagram {
  import opened Bytes

  /** Totals below this stay clear of the wrap-around of `(len + n) * 2`. */
  const SAFE_TOTAL: int := 0x8000_0000

  /** The live octets and the capacity, with the octets moved by growth and the longest content so far. */
  datatype Buffer = Buffer(content: seq<byte>, capacity: nat, moved: nat, peak: nat)

  const EMPTY: Buffer := Buffer([], 0, 0, 0)

  function Max(a: nat, b: nat): nat {
    if a < b then b else a
  }

  /** The capacity asked for when `need` octets do not fit. */
  function NewCapacity(need: uint32): uint32 {
    Max(4096, Wrap32(need * 2))
  }

  /** The growth step for `n` more octets, where `granted` says whether a reallocation succeeds. */
  function Room(b: Buffer, n: nat, granted: bool): (Buffer, bool) {
    var need := Wrap32(|b.content| + n);
    if b.capacity >= need then (b, true)
    else if granted then (b.(capacity := NewCapacity(need), moved := b.moved + |b.content|), true)
    else (b, false)
  }

  /** May `n` more octets be appended: do they fit now, after growing, or is the growth that they call for refused? */
  predicate Safe(b: Buffer, n: nat, granted: bool) {
    var total := |b.content| + n;
    total <= b.capacity || total < SAFE_TOTAL || (b.capacity < Wrap32(total) && !granted)
  }

  /** The growth step makes room for the copy that follows it in exactly these cases. */
  lemma SafeIffRoom(b: Buffer, n: uint32, granted: bool)
    requires |b.content| <= b.capacity < UINT32_LIMIT
    ensures Safe(b, n, granted) <==>
              var (roomy, ok) := Room(b, n, granted);
              ok ==> |b.content| + n <= roomy.capacity
  {
    var total := |b.content| + n;
    if UINT32_LIMIT <= total {
      assert Wrap32(total) == total - UINT32_LIMIT;
    }
  }

  /** So when reallocation succeeds, growing suffices exactly for what fits already and for totals below 2^31. */
  lemma GrowthSuffices(b: Buffer, n: uint32)
    requires |b.content| <= b.capacity < UINT32_LIMIT
    ensures |b.content| + n <= Room(b, n, true).0.capacity <==>
              |b.content| + n <= b.capacity || |b.content| + n < SAFE_TOTAL
  {
    SafeIffRoom(b, n, true);
  }

  /** It fails for 2^31 octets and an empty buffer: their doubled count is zero, and 4096 octets are asked for. */
  lemma GrowthWraps()
    ensures Room(EMPTY, 0x8000_0000, true) == (EMPTY.(capacity := 4096), true)
    ensures !Safe(EMPTY, 0x8000_0000, true)
  {
  }

  /** A reallocation that is called for is never smaller than the live octets. */
  lemma GrowthKeepsLive(b: Buffer, n: uint32)
    requires |b.content| <= b.capacity < UINT32_LIMIT && Safe(b, n, true)
    requires b.capacity < Wrap32(|b.content| + n)
    ensures |b.content| <= NewCapacity(Wrap32(|b.content| + n))
  {
    SafeIffRoom(b, n, true);
  }

  function Extended(b: Buffer, data: seq<byte>): Buffer {
    b.(content := b.content + data, peak := Max(b.peak, |b.content| + |data|))
  }

  /** Append; the flag returned is success. */
  function Append(b: Buffer, data: seq<byte>, granted: bool): (Buffer, bool) {
    var (roomy, ok) := Room(b, |data|, granted);
    (if ok then Extended(roomy, data) else b, ok)
  }

  /**
   * Below 2^31 octets an append succeeds exactly when there is room or reallocation is granted; it adds the octets at
   * the end, and what it grows to is twice what is needed, at least 4096. A failed one changes nothing.
   */
  lemma AppendIs(b: Buffer, data: seq<byte>, granted: bool)
    requires |b.content| + |data| < 0x8000_0000
    ensures var (b', ok) := Append(b, data, granted);
      var total := |b.content| + |data|;
      && (ok <==> total <= b.capacity || granted)
      && (ok ==> b'.content == b.content + data)
      && (!ok ==> b' == b)
      && b'.capacity == if total <= b.capacity || !granted then b.capacity else if total < 2048 then 4096 else 2 * total
  {
  }

  /** The octets a read with room for `room` delivers; the others are dropped. */
  function Delivered(b: Buffer, room: nat): (out: seq<byte>)
    ensures out <= b.content && |out| == if |b.content| < room then |b.content| else room
  {
    if room < |b.content| then b.content[..room] else b.content
  }

  function AfterRead(b: Buffer): Buffer {
    b.(content := [])
  }

  /** The content fits, the capacity is at most twice the peak, and growth has moved no more than the capacity. */
  ghost predicate Bounded(b: Buffer) {
    && |b.content| <= b.peak <= b.capacity < UINT32_LIMIT
    && b.capacity <= Max(4096, 2 * b.peak)
    && b.moved <= b.capacity
  }

  datatype Op = Put(data: seq<byte>, granted: bool) | Take(room: nat)

  ghost predicate Allowed(b: Buffer, op: Op) {
    op.Put? ==> |op.data| < UINT32_LIMIT && Safe(b, |op.data|, op.granted)
  }

  ghost function Step(b: Buffer, op: Op): Buffer {
    match op
    case Put(data, granted) => Append(b, data, granted).0
    case Take(_) => AfterRead(b)
  }

  lemma StepKeepsBounded(b: Buffer, op: Op)
    requires Bounded(b) && Allowed(b, op)
    ensures Bounded(Step(b, op))
  {
    if op.Put? {
      AppendKeepsBounded(b, op.data, op.granted);
    }
  }

  lemma AppendKeepsBounded(b: Buffer, data: seq<byte>, granted: bool)
    requires Bounded(b) && |data| < UINT32_LIMIT && Safe(b, |data|, granted)
    ensures Bounded(Append(b, data, granted).0)
  {
    SafeIffRoom(b, |data|, granted);
    if |b.content| + |data| < SAFE_TOTAL {
      AppendIs(b, data, granted);
    }
  }

  ghost predicate Runs(b: Buffer, ops: seq<Op>, b': Buffer)
    decreases |ops|
  {
    if ops == [] then b == b'
    else Allowed(b, ops[0]) && Runs(Step(b, ops[0]), ops[1..], b')
  }

  /** The octets successfully appended along a run. */
  ghost function Appended(b: Buffer, ops: seq<Op>): nat
    decreases |ops|
  {
    if ops == [] then 0
    else
      (if ops[0].Put? && Append(b, ops[0].data, ops[0].granted).1 then |ops[0].data| else 0)
      + Appended(Step(b, ops[0]), ops[1..])
  }

  lemma {:induction false} RunKeepsBounded(b: Buffer, ops: seq<Op>, b': Buffer)
    requires Bounded(b) && Runs(b, ops, b')
    ensures Bounded(b')
    ensures b'.peak <= b.peak + Appended(b, ops)
    decreases |ops|
  {
    if ops != [] {
      StepKeepsBounded(b, ops[0]);
      RunKeepsBounded(Step(b, ops[0]), ops[1..], b');
    }
  }

  /** Over any run from the initial buffer, all growth together moves at most max(4096, 2 * octets appended). */
  lemma GrowthIsAmortised(ops: seq<Op>, b: Buffer)
    requires Runs(EMPTY, ops, b)
    ensures Bounded(b)
    ensures b.moved <= Max(4096, 2 * Appended(EMPTY, ops))
  {
    RunKeepsBounded(EMPTY, ops, b);
  }

  // ----- Datagram boundaries -----

  function Concat(ds: seq<seq<byte>>): seq<byte> {
    if ds == [] then [] else Concat(ds[..|ds| - 1]) + ds[|ds| - 1]
  }

  ghost predicate NoneEmpty(ds: seq<seq<byte>>) {
    forall i :: 0 <= i < |ds| ==> ds[i] != []
  }

  /** The datagrams appended since the last read, after one more operation; empty ones leave no trace. */
  ghost function NextPending(b: Buffer, ds: seq<seq<byte>>, op: Op): seq<seq<byte>> {
    match op
    case Put(data, granted) => if data != [] && Append(b, data, granted).1 then ds + [data] else ds
    case Take(_) => []
  }

  /** The same after a run of operations. */
  ghost function Pending(b: Buffer, ds: seq<seq<byte>>, ops: seq<Op>): seq<seq<byte>>
    decreases |ops|
  {
    if ops == [] then ds else Pending(Step(b, ops[0]), NextPending(b, ds, ops[0]), ops[1..])
  }

  lemma StepKeepsPending(b: Buffer, ds: seq<seq<byte>>, op: Op)
    requires b.content == Concat(ds) && NoneEmpty(ds)
    ensures Step(b, op).content == Concat(NextPending(b, ds, op)) && NoneEmpty(NextPending(b, ds, op))
  {
    if op.Put? {
      assert (ds + [op.data])[..|ds|] == ds;
    }
  }

  /** Along every run the content is the pending datagrams, run together. */
  lemma {:induction false} RunKeepsPending(b: Buffer, ds: seq<seq<byte>>, ops: seq<Op>, b': Buffer)
    requires b.content == Concat(ds) && NoneEmpty(ds) && Runs(b, ops, b')
    ensures b'.content == Concat(Pending(b, ds, ops)) && NoneEmpty(Pending(b, ds, ops))
    decreases |ops|
  {
    hide NoneEmpty, Concat, Allowed;
    if ops != [] {
      StepKeepsPending(b, ds, ops[0]);
      RunKeepsPending(Step(b, ops[0]), NextPending(b, ds, ops[0]), ops[1..], b');
    }
  }

  lemma {:induction false} ConcatAtLeast(ds: seq<seq<byte>>, i: nat)
    requires NoneEmpty(ds) && i < |ds|
    ensures |ds[i]| + |ds| - 1 <= |Concat(ds)|
  {
    var n := |ds| - 1;
    if i < n {
      ConcatAtLeast(ds[..n], i);
    } else if n > 0 {
      ConcatAtLeast(ds[..n], 0);
    }
  }

  /** A read delivers one whole datagram and drops nothing exactly when one alone is pending and has room. */
  lemma WholeDatagramIff(b: Buffer, ds: seq<seq<byte>>, room: nat)
    requires b.content == Concat(ds) && NoneEmpty(ds) && b.content != []
    ensures Delivered(b, room) in ds && Delivered(b, room) == b.content <==> |ds| == 1 && |ds[0]| <= room
  {
    var got := Delivered(b, room);
    if got in ds && got == b.content {
      var i :| 0 <= i < |ds| && ds[i] == got;
      ConcatAtLeast(ds, i);
    }
    if |ds| == 1 {
      assert ds[..0] == [] && Concat(ds) == [] + ds[0] == ds[0];
      assert ds[0] in ds;
    }
  }

  /** The same for a read at the end of any run from the initial buffer. */
  lemma ReadIsWholeIff(ops: seq<Op>, b: Buffer, room: nat)
    requires Runs(EMPTY, ops, b) && b.content != []
    ensures var ds := Pending(EMPTY, [], ops);
      Delivered(b, room) in ds && Delivered(b, room) == b.content <==> |ds| == 1 && |ds[0]| <= room
  {
    RunKeepsPending(EMPTY, [], ops, b);
    WholeDatagramIff(b, Pending(EMPTY, [], ops), room);
  }

  /** Two datagrams appended in a row are read as one. */
  lemma ReadMerges(d: seq<byte>, e: seq<byte>, room: nat)
    requires d != [] && e != [] && |d| + |e| < SAFE_TOTAL && |d| + |e| <= room
    ensures var b := Step(Step(EMPTY, Put(d, true)), Put(e, true));
      && Runs(EMPTY, [Put(d, true), Put(e, true)], b)
      && Delivered(b, room) == d + e && Delivered(b, room) !in [d, e]
  {
    var first := Step(EMPTY, Put(d, true));
    var both := Step(first, Put(e, true));
    assert first.content == d && both.content == d + e;
    assert |d + e| != |d| && |d + e| != |e|;
    var ops := [Put(d, true), Put(e, true)];
    assert ops[1..] == [Put(e, true)] && ops[1..][1..] == [];
    assert Runs(both, [], both) && Runs(first, ops[1..], both);
  }

  // ----- The routines -----

  datatype Status = Success | Null | Failed

  /** noxtls_realloc: fails, or gives a block of the asked size that keeps the old octets. */
  method Realloc(block: array?<byte>, live: nat, size: nat, granted: bool) returns (p: array?<byte>)
    requires block == null ==> live == 0
    requires block != null ==> live <= block.Length
    requires granted ==> live <= size
    ensures p != null <==> granted
    ensures p != null ==> fresh(p) && p.Length == size
    ensures p != null ==> p[..live] == if block == null then [] else old(block[..live])
  {
    if !granted { return null; }
    var q := new byte[size](_ => 0);
    if block != null {
      forall k | 0 <= k < live {
        q[k] := block[k];
      }
    }
    return q;
  }

  class UdpBuffer {
    var data: array?<byte>
    var len: nat
    var capacity: nat
    ghost var moved: nat
    ghost var peak: nat

    ghost predicate Valid()
      reads this, data
    {
      Shaped() && Bounded(Current())
    }

    ghost predicate Shaped()
      reads this, data
    {
      && (data == null ==> len == 0 && capacity == 0)
      && (data != null ==> capacity == data.Length && len <= data.Length)
    }

    ghost function Current(): Buffer
      reads this, data
      requires data == null ==> len == 0
      requires data != null ==> len <= data.Length
    {
      Buffer(Content(), capacity, moved, peak)
    }

    /** udp_buffer_init */
    constructor ()
      ensures Valid() && Current() == EMPTY && data == null
    {
      data, len, capacity, moved, peak := null, 0, 0, 0, 0;
    }

    ghost function Content(): seq<byte>
      reads this, data
      requires data == null ==> len == 0
      requires data != null ==> len <= data.Length
    {
      if data == null then [] else data[..len]
    }

    /** The growth step of udp_buffer_append. */
    method MakeRoom(n: uint32, granted: bool) returns (ok: bool)
      requires Valid() && Safe(Current(), n, granted)
      modifies this
      ensures Shaped() && (data == old(data) || fresh(data))
      ensures var (b, fits) := Room(old(Current()), n, granted);
        Current() == b && ok == fits && (ok ==> len + n <= capacity)
    {
      SafeIffRoom(Current(), n, granted);
      if capacity < Wrap32(len + n) {
        if granted {
          GrowthKeepsLive(Current(), n);
        }
        var newCapacity := Wrap32(Wrap32(len + n) * 2);
        if newCapacity < 4096 { newCapacity := 4096; }
        var newData := Realloc(data, len, newCapacity, granted);
        if newData == null { return false; }
        data := newData;
        capacity := newCapacity;
        moved := moved + len;
      }
      return true;
    }

    /** The copy that ends udp_buffer_append. */
    method Extend(src: array<byte>, n: uint32)
      requires Shaped() && len + n <= capacity && n <= src.Length && src != data
      modifies this, data
      ensures Shaped() && Current() == Extended(old(Current()), old(src[..n]))
    {
      if data != null {
        CopyIn(data, len, src, n);
      }
      len := len + n;
      peak := Max(peak, len);
    }

    /** udp_buffer_append of the first `n` octets of `src` */
    method AppendData(src: array?<byte>, n: uint32, granted: bool) returns (status: Status)
      requires Valid()
      requires src != null ==> n <= src.Length && src != data && Safe(Current(), n, granted)
      modifies this, data
      ensures Valid()
      ensures src == null ==> status == Null && Current() == old(Current())
      ensures src != null ==>
                var (b, ok) := Append(old(Current()), old(src[..n]), granted);
                Current() == b && status == if ok then Success else Failed
    {
      if src == null { return Null; }
      ghost var before, bytes := Current(), src[..n];
      StepKeepsBounded(before, Put(bytes, granted));
      hide Bounded, Room, Extended;
      var ok := MakeRoom(n, granted);
      if !ok { return Failed; }
      assert src[..n] == bytes;
      Extend(src, n);
      return Success;
    }

    static method CopyIn(dst: array<byte>, at: nat, src: array<byte>, n: nat)
      requires at + n <= dst.Length && n <= src.Length && src != dst
      modifies dst
      ensures dst[..at + n] == old(dst[..at]) + src[..n]
    {
      forall k | 0 <= k < n {
        dst[at + k] := src[k];
      }
    }

    /** udp_buffer_read into the first `room` octets of `dst` */
    method ReadData(dst: array?<byte>, room: uint32) returns (r: int)
      requires Valid()
      requires dst != null ==> room <= dst.Length && dst != data
      modifies this, dst
      ensures Valid()
      ensures dst == null ==> r == -1 && Current() == old(Current())
      ensures dst != null ==>
                var out := Delivered(old(Current()), room);
                && r == ToInt32(|out|) && Current() == AfterRead(old(Current()))
                && dst[..] == out + old(dst[..])[|out|..]
    {
      if dst == null { return -1; }
      StepKeepsBounded(Current(), Take(room));
      if len == 0 { return 0; }
      ghost var before := dst[..];
      var toRead := if room < len then room else len;
      forall k | 0 <= k < toRead {
        dst[k] := data[k];
      }
      assert dst[..] == data[..toRead] + before[toRead..];
      len := 0;
      return ToInt32(toRead);
    }

    /** udp_buffer_free */
    method Release()
      requires Valid()
      modifies this
      ensures Valid() && Current() == EMPTY && data == null
    {
      data := null;
      len, capacity, moved, peak := 0, 0, 0, 0;
    }
  }
}
