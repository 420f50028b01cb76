/**
 The lock-free hash map of common/common.h (ConcurrentMap::insert) as a state machine.

 A bucket goes from null to a marker (claimed by compare-and-exchange) to the key pointer of the
 claiming thread; the value and the key size are written in between.  A thread probes the
 buckets of one shard in order and gives up after MAX_RETRY of them.  Atomic accesses are
 sequentially consistent here.
 */
module ConcurrentMap {
  import opened Bits

  const MIN_NBUCKETS: nat := 2048
  const NUM_SHARDS: nat := 16
  const MAX_RETRY: nat := 128

  /** A key pointer is the memory it points to, which may go on after the key. */
  datatype Call<V> = Call(data: seq<byte>, size: nat, hash: nat, val: V) {
    ghost predicate Valid() {
      size <= |data| && size < TWO_32
    }

    function Key(): seq<byte>
      requires size <= |data|
    {
      data[..size]
    }
  }

  datatype Slot = Null | Marker | Key(ptr: seq<byte>)

  /** Where a thread is inside insert; `idx` and `retry` are its loop variables. */
  datatype Pc =
    | Probing(idx: nat, retry: nat)
    | SawNull(idx: nat, retry: nat)
    | SawKey(idx: nat, retry: nat, ptr: seq<byte>)
    | Claimed(idx: nat, retry: nat)
    | WroteValue(idx: nat, retry: nat)
    | WroteSize(idx: nat, retry: nat)
    | Done(idx: nat, retry: nat, inserted: bool)
    | GaveUp

  /**
   The shared arrays and the threads.  `sizes` and `values` start out unallocated: a key of the map
   is an element that has been written.  `owner` is a history variable: who claimed a bucket.
   */
  datatype State<V> = State(
    slots: seq<Slot>, sizes: map<nat, nat>, values: map<nat, V>, pcs: seq<Pc>, owner: map<nat, nat>)

  // ---- resize and the probe sequence

  /** The number of buckets chosen by resize. */
  function NumBuckets(requested: nat): nat {
    if BitCeil(requested) < MIN_NBUCKETS then MIN_NBUCKETS else BitCeil(requested)
  }

  ghost predicate TableSize(n: nat) {
    n >= MIN_NBUCKETS && exists k :: n == Pow2(k)
  }

  lemma ResizeMakesATable(requested: nat)
    ensures TableSize(NumBuckets(requested)) && requested <= NumBuckets(requested)
  {
    BitCeilIsLeast(requested, 0);
    assert Pow2(5) == 32 && Pow2(11) == 64 * Pow2(5);
  }

  /** A table divides into 16 shards of at least MAX_RETRY buckets. */
  lemma ShardSize(n: nat)
    requires TableSize(n)
    ensures n / NUM_SHARDS >= MAX_RETRY && n == NUM_SHARDS * (n / NUM_SHARDS)
  {
    var k :| n == Pow2(k);
    assert Pow2(4) == 16;
    if k < 4 {
      Pow2Divides(k, 4);
    } else {
      Pow2Divides(4, k);
    }
  }

  function FirstIdx(n: nat, hash: nat): (idx: nat)
    requires n > 0
    ensures idx < n
  {
    hash % n
  }

  /** The next bucket of the same shard, wrapping around. */
  function NextIdx(n: nat, idx: nat): nat
    requires n >= NUM_SHARDS
  {
    var shard := n / NUM_SHARDS;
    idx - idx % shard + (idx + 1) % shard
  }

  function ProbeIdx(n: nat, hash: nat, retry: nat): nat
    requires n >= NUM_SHARDS
  {
    if retry == 0 then FirstIdx(n, hash) else NextIdx(n, ProbeIdx(n, hash, retry - 1))
  }

  lemma ModStep(x: nat, shard: nat)
    requires shard > 0
    ensures (x + 1) % shard == if x % shard + 1 < shard then x % shard + 1 else 0
  {
    if x % shard + 1 < shard {
      ModUnique(x + 1, shard, x / shard, x % shard + 1);
    } else {
      ModUnique(x + 1, shard, x / shard + 1, 0);
    }
  }

  /** The start of the shard a bucket is in, as a multiple of the shard size. */
  lemma ShardStart(n: nat, idx: nat, r: nat)
    requires TableSize(n) && idx < n && r < n / NUM_SHARDS
    ensures
      var shard := n / NUM_SHARDS;
      var x := idx - idx % shard + r;
      x < n && x % shard == r && x - r == idx - idx % shard
  {
    ShardSize(n);
    var shard := n / NUM_SHARDS;
    var q := idx / shard;
    ModUnique(shard * q + r, shard, q, r);
    BelowMultiple(shard, q, NUM_SHARDS);
  }

  lemma BelowMultiple(shard: nat, q: nat, k: nat)
    requires shard * q < shard * k
    ensures shard * q + shard <= shard * k
  {
    assert shard * (k - q) == shard * k - shard * q;
    MulGrows(shard, k - q);
  }

  lemma {:induction false} ProbeFormula(n: nat, hash: nat, retry: nat)
    requires TableSize(n)
    ensures
      var shard, first := n / NUM_SHARDS, FirstIdx(n, hash);
      shard > 0 && ProbeIdx(n, hash, retry) < n &&
      ProbeIdx(n, hash, retry) == first - first % shard + (first % shard + retry) % shard
  {
    ShardSize(n);
    var shard, first := n / NUM_SHARDS, FirstIdx(n, hash);
    var low := first % shard;
    if retry == 0 {
      ModUnique(low, shard, 0, low);
    } else {
      ProbeFormula(n, hash, retry - 1);
      ModStep(low + retry - 1, shard);
      var r := (low + retry - 1) % shard;
      ShardStart(n, first, r);
      ModStep(ProbeIdx(n, hash, retry - 1), shard);
      ShardStart(n, first, (low + retry) % shard);
    }
  }

  /** The buckets probed by one call are all different, because a shard has at least MAX_RETRY of them. */
  lemma ProbesAreDistinct(n: nat, hash: nat, r: nat, r': nat)
    requires TableSize(n) && r < r' < MAX_RETRY
    ensures ProbeIdx(n, hash, r) != ProbeIdx(n, hash, r')
  {
    ShardSize(n);
    ProbeFormula(n, hash, r);
    ProbeFormula(n, hash, r');
    var shard := n / NUM_SHARDS;
    var low := FirstIdx(n, hash) % shard;
    NearbyDiffer(low + r, low + r', shard);
  }

  lemma NearbyDiffer(a: nat, b: nat, shard: nat)
    requires a < b < a + shard
    ensures a % shard != b % shard
  {
    var d := b / shard - a / shard;
    assert shard * d == (b - b % shard) - (a - a % shard);
    MulGrows(shard, d);
  }

  // ---- the atomic steps

  datatype Job<V> = Job(nbuckets: nat, calls: seq<Call<V>>) {
    /** Equal keys carry equal hashes. */
    ghost predicate Valid() {
      TableSize(nbuckets) &&
      (forall t :: 0 <= t < |calls| ==> calls[t].Valid()) &&
      (forall t, u :: 0 <= t < |calls| && 0 <= u < |calls| && calls[t].Key() == calls[u].Key() ==>
         calls[t].hash == calls[u].hash)
    }

    ghost predicate SameKey(t: nat, u: nat)
      requires Valid() && t < |calls| && u < |calls|
    {
      calls[t].Key() == calls[u].Key()
    }
  }

  ghost predicate Init<V>(job: Job<V>, s: State<V>)
    requires TableSize(job.nbuckets)
  {
    s.slots == seq(job.nbuckets, _ => Null) && s.sizes == map[] && s.values == map[] && s.owner == map[] &&
    s.pcs == seq(|job.calls|, t requires 0 <= t < |job.calls| =>
      Probing(FirstIdx(job.nbuckets, job.calls[t].hash), 0))
  }

  /** The loop test failed MAX_RETRY times, or one more probe. */
  function Advance(n: nat, idx: nat, retry: nat): Pc
    requires n >= NUM_SHARDS
  {
    if retry + 1 < MAX_RETRY then Probing(NextIdx(n, idx), retry + 1) else GaveUp
  }

  /** Do the size and the bytes stored for a bucket agree with the key of a call? */
  predicate Matches<V>(call: Call<V>, ptr: seq<byte>, size: nat) {
    call.size == size && size <= |ptr| && size <= |call.data| && ptr[..size] == call.data[..size]
  }

  ghost predicate Step<V>(job: Job<V>, s: State<V>, s': State<V>, t: nat)
    requires TableSize(job.nbuckets)
  {
    |s.slots| == job.nbuckets && t < |s.pcs| == |job.calls| &&
    var call, pc := job.calls[t], s.pcs[t];
    !pc.Done? && pc != GaveUp && pc.idx < |s.slots| &&
    match pc
    case Probing(idx, retry) =>
      (match s.slots[idx]
       case Marker => s' == s
       case Null => s' == s.(pcs := s.pcs[t := SawNull(idx, retry)])
       case Key(ptr) => s' == s.(pcs := s.pcs[t := SawKey(idx, retry, ptr)]))
    case SawNull(idx, retry) =>
      // The weak exchange may fail even though the bucket is still null.
      || s' == s.(pcs := s.pcs[t := Probing(idx, retry)])
      || (s.slots[idx] == Null &&
          s' == s.(slots := s.slots[idx := Marker], owner := s.owner[idx := t],
                   pcs := s.pcs[t := Claimed(idx, retry)]))
    case Claimed(idx, retry) =>
      s' == s.(values := s.values[idx := call.val], pcs := s.pcs[t := WroteValue(idx, retry)])
    case WroteValue(idx, retry) =>
      s' == s.(sizes := s.sizes[idx := call.size % 0x1_0000_0000], pcs := s.pcs[t := WroteSize(idx, retry)])
    case WroteSize(idx, retry) =>
      s' == s.(slots := s.slots[idx := Key(call.data)], pcs := s.pcs[t := Done(idx, retry, true)])
    case SawKey(idx, retry, ptr) =>
      // The size must have been written, and memcmp must stay inside both keys.
      idx in s.sizes && (call.size == s.sizes[idx] ==> call.size <= |ptr|) &&
      s' == s.(pcs := s.pcs[t :=
        if Matches(call, ptr, s.sizes[idx]) then Done(idx, retry, false)
        else Advance(job.nbuckets, idx, retry)])
    case _ => false
  }

  /** A run under some schedule: which thread moves at each step is arbitrary. */
  ghost predicate Run<V>(job: Job<V>, trace: seq<State<V>>, schedule: seq<nat>)
    requires TableSize(job.nbuckets)
  {
    |trace| == |schedule| + 1 && Init(job, trace[0]) &&
    forall n :: 0 <= n < |schedule| ==> Step(job, trace[n], trace[n + 1], schedule[n])
  }

  // ---- the invariant

  /** Thread u, which claimed bucket b, stands at it. */
  ghost predicate Holds(s: State, u: nat, b: nat) {
    u < |s.pcs| &&
    match s.pcs[u]
    case Claimed(idx, _) => idx == b
    case WroteValue(idx, _) => idx == b
    case WroteSize(idx, _) => idx == b
    case Done(idx, _, inserted) => inserted && idx == b
    case _ => false
  }

  /** The state of one bucket follows from how far its owner has come. */
  ghost predicate BucketOk<V>(job: Job<V>, s: State<V>, b: nat)
    requires job.Valid() && |s.pcs| == |job.calls| && b < |s.slots|
  {
    if b !in s.owner then s.slots[b] == Null
    else
      var u := s.owner[b];
      Holds(s, u, b) &&
      var call, pc := job.calls[u], s.pcs[u];
      s.slots[b] == (if pc.Done? then Key(call.data) else Marker) &&
      (!pc.Claimed? ==> b in s.values && s.values[b] == call.val) &&
      (pc.WroteSize? || pc.Done? ==> b in s.sizes && s.sizes[b] == call.size)
  }

  /** Bucket b is taken for good by a key other than thread t's. */
  ghost predicate TakenByOther<V>(job: Job<V>, s: State<V>, t: nat, b: nat)
    requires job.Valid() && t < |s.pcs| == |job.calls|
  {
    b < |s.slots| && s.slots[b].Key? && b in s.owner && s.owner[b] < |s.pcs| &&
    !job.SameKey(t, s.owner[b])
  }

  /** Thread t has passed over its first `retry` buckets. */
  ghost predicate Passed<V>(job: Job<V>, s: State<V>, t: nat, retry: nat)
    requires job.Valid() && t < |s.pcs| == |job.calls|
  {
    forall r: nat :: r < retry ==>
      TakenByOther(job, s, t, ProbeIdx(job.nbuckets, job.calls[t].hash, r))
  }

  ghost predicate ThreadOk<V>(job: Job<V>, s: State<V>, t: nat)
    requires job.Valid() && t < |s.pcs| == |job.calls|
  {
    var pc := s.pcs[t];
    if pc == GaveUp then Passed(job, s, t, MAX_RETRY)
    else
      pc.retry < MAX_RETRY && pc.idx == ProbeIdx(job.nbuckets, job.calls[t].hash, pc.retry) &&
      pc.idx < |s.slots| &&
      Passed(job, s, t, pc.retry) &&
      match pc
      case SawKey(b, _, ptr) => s.slots[b] == Key(ptr)
      case Claimed(b, _) => b in s.owner && s.owner[b] == t
      case WroteValue(b, _) => b in s.owner && s.owner[b] == t
      case WroteSize(b, _) => b in s.owner && s.owner[b] == t
      case Done(b, _, inserted) =>
        b in s.owner && s.owner[b] < |s.pcs| && s.slots[b].Key? && job.SameKey(t, s.owner[b]) &&
        (inserted <==> s.owner[b] == t)
      case _ => true
  }

  ghost predicate Inv<V>(job: Job<V>, s: State<V>)
    requires job.Valid()
  {
    |s.slots| == job.nbuckets && |s.pcs| == |job.calls| &&
    (forall b: nat :: b < |s.slots| ==> BucketOk(job, s, b)) &&
    (forall t: nat :: t < |s.pcs| ==> ThreadOk(job, s, t))
  }

  lemma InitOk<V>(job: Job<V>, s: State<V>)
    requires job.Valid() && Init(job, s)
    ensures Inv(job, s)
  {
  }

  /** What a step can do to a bucket: null, then marker, then one key for ever. */
  ghost predicate SlotMoves(a: Slot, b: Slot) {
    a == b || (a == Null && b == Marker) || (a == Marker && b.Key?)
  }

  ghost predicate Grows<V>(s: State<V>, s': State<V>) {
    |s'.slots| == |s.slots| && |s'.pcs| == |s.pcs| &&
    (forall b :: 0 <= b < |s.slots| ==> SlotMoves(s.slots[b], s'.slots[b])) &&
    (forall b :: b in s.owner ==> b in s'.owner && s'.owner[b] == s.owner[b])
  }

  lemma StepGrows<V>(job: Job<V>, s: State<V>, s': State<V>, t: nat)
    requires job.Valid() && Inv(job, s) && Step(job, s, s', t)
    ensures Grows(s, s')
  {
    assert ThreadOk(job, s, t);
    assert BucketOk(job, s, s.pcs[t].idx);
  }

  lemma PassedStays<V>(job: Job<V>, s: State<V>, s': State<V>, t: nat, retry: nat)
    requires job.Valid() && t < |s.pcs| == |job.calls| && Grows(s, s') && Passed(job, s, t, retry)
    ensures Passed(job, s', t, retry)
  {
    forall r: nat | r < retry
      ensures TakenByOther(job, s', t, ProbeIdx(job.nbuckets, job.calls[t].hash, r))
    {
      var b := ProbeIdx(job.nbuckets, job.calls[t].hash, r);
      assert TakenByOther(job, s, t, b);
      assert SlotMoves(s.slots[b], s'.slots[b]);
    }
  }

  /** The thread that moves keeps its part of the invariant. */
  lemma MoverOk<V>(job: Job<V>, s: State<V>, s': State<V>, t: nat)
    requires job.Valid() && Inv(job, s) && Step(job, s, s', t)
    ensures ThreadOk(job, s', t)
  {
    assert ThreadOk(job, s, t);
    StepGrows(job, s, s', t);
    var pc := s.pcs[t];
    PassedStays(job, s, s', t, pc.retry);
    if pc.SawKey? {
      SeenKeyOk(job, s, s', t);
    } else if pc.WroteSize? {
      assert job.SameKey(t, t);
    }
  }

  /** A thread that has read a key: it recognises its own key and no other. */
  lemma SeenKeyOk<V>(job: Job<V>, s: State<V>, s': State<V>, t: nat)
    requires job.Valid() && Inv(job, s) && Step(job, s, s', t) && s.pcs[t].SawKey?
    ensures ThreadOk(job, s', t)
  {
    assert ThreadOk(job, s, t);
    StepGrows(job, s, s', t);
    var pc := s.pcs[t];
    PassedStays(job, s, s', t, pc.retry);
    var b := pc.idx;
    assert BucketOk(job, s, b);
    var u := s.owner[b];
    assert s.slots[b] == Key(job.calls[u].data) && s.sizes[b] == job.calls[u].size;
    assert Matches(job.calls[t], pc.ptr, s.sizes[b]) <==> job.SameKey(t, u) by {
      assert job.calls[t].Valid() && job.calls[u].Valid();
    }
    if job.SameKey(t, u) {
      assert ThreadOk(job, s, u);
    } else {
      assert TakenByOther(job, s', t, b);
      ProbeFormula(job.nbuckets, job.calls[t].hash, pc.retry + 1);
    }
  }

  lemma OthersOk<V>(job: Job<V>, s: State<V>, s': State<V>, t: nat, u: nat)
    requires job.Valid() && Inv(job, s) && Step(job, s, s', t)
    requires u < |s.pcs| && u != t
    ensures ThreadOk(job, s', u)
  {
    assert ThreadOk(job, s, u);
    StepGrows(job, s, s', t);
    var pc := s.pcs[u];
    assert s'.pcs[u] == pc;
    if pc == GaveUp {
      PassedStays(job, s, s', u, MAX_RETRY);
    } else {
      PassedStays(job, s, s', u, pc.retry);
      assert SlotMoves(s.slots[pc.idx], s'.slots[pc.idx]);
    }
  }

  lemma BucketStaysOk<V>(job: Job<V>, s: State<V>, s': State<V>, t: nat, b: nat)
    requires job.Valid() && Inv(job, s) && Step(job, s, s', t) && b < |s.slots|
    ensures |s'.pcs| == |job.calls| && |s'.slots| == |s.slots| && BucketOk(job, s', b)
  {
    assert ThreadOk(job, s, t);
    assert BucketOk(job, s, b);
    assert BucketOk(job, s, s.pcs[t].idx);
    assert job.calls[t].Valid();
  }

  /** Every step keeps the invariant. */
  lemma StepKeepsInv<V>(job: Job<V>, s: State<V>, s': State<V>, t: nat)
    requires job.Valid() && Inv(job, s) && Step(job, s, s', t)
    ensures Inv(job, s')
  {
    StepGrows(job, s, s', t);
    forall b: nat | b < |s'.slots| ensures BucketOk(job, s', b) {
      BucketStaysOk(job, s, s', t, b);
    }
    forall u: nat | u < |s'.pcs| ensures ThreadOk(job, s', u) {
      if u == t {
        MoverOk(job, s, s', t);
      } else {
        OthersOk(job, s, s', t, u);
      }
    }
  }

  lemma {:induction false} RunKeepsInv<V>(job: Job<V>, trace: seq<State<V>>, schedule: seq<nat>, n: nat)
    requires job.Valid() && Run(job, trace, schedule) && n < |trace|
    ensures Inv(job, trace[n])
  {
    if n == 0 {
      InitOk(job, trace[0]);
    } else {
      RunKeepsInv(job, trace, schedule, n - 1);
      StepKeepsInv(job, trace[n - 1], trace[n], schedule[n - 1]);
    }
  }

  /** No thread is ever stuck short of its result: nothing unwritten is read, no key is overrun. */
  lemma NeverStuck<V>(job: Job<V>, s: State<V>, t: nat) returns (s': State<V>)
    requires job.Valid() && Inv(job, s) && t < |s.pcs| && !s.pcs[t].Done? && s.pcs[t] != GaveUp
    ensures Step(job, s, s', t)
  {
    assert ThreadOk(job, s, t);
    var call, pc := job.calls[t], s.pcs[t];
    assert BucketOk(job, s, pc.idx);
    match pc
    case Probing(idx, retry) =>
      s' := match s.slots[idx]
        case Marker => s
        case Null => s.(pcs := s.pcs[t := SawNull(idx, retry)])
        case Key(ptr) => s.(pcs := s.pcs[t := SawKey(idx, retry, ptr)]);
    case SawNull(idx, retry) =>
      s' := s.(pcs := s.pcs[t := Probing(idx, retry)]);
    case Claimed(idx, retry) =>
      s' := s.(values := s.values[idx := call.val], pcs := s.pcs[t := WroteValue(idx, retry)]);
    case WroteValue(idx, retry) =>
      s' := s.(sizes := s.sizes[idx := call.size % 0x1_0000_0000], pcs := s.pcs[t := WroteSize(idx, retry)]);
    case WroteSize(idx, retry) =>
      s' := s.(slots := s.slots[idx := Key(call.data)], pcs := s.pcs[t := Done(idx, retry, true)]);
    case SawKey(idx, retry, ptr) =>
      assert job.calls[s.owner[idx]].Valid();
      s' := s.(pcs := s.pcs[t :=
        if Matches(call, ptr, s.sizes[idx]) then Done(idx, retry, false)
        else Advance(job.nbuckets, idx, retry)]);
  }

  // ---- the theorems

  /** No key ever holds two buckets, not even while one of them is still being filled. */
  lemma NoKeyTwice<V>(job: Job<V>, s: State<V>, b: nat, c: nat)
    requires job.Valid() && Inv(job, s)
    requires b < |s.slots| && c < |s.slots| && b in s.owner && c in s.owner
    requires s.owner[b] < |s.pcs| && s.owner[c] < |s.pcs| && job.SameKey(s.owner[b], s.owner[c])
    ensures b == c
  {
    var t, u := s.owner[b], s.owner[c];
    assert BucketOk(job, s, b) && BucketOk(job, s, c);
    assert ThreadOk(job, s, t) && ThreadOk(job, s, u);
    assert job.calls[t].hash == job.calls[u].hash;
    assert job.SameKey(u, t) && !TakenByOther(job, s, u, b) && !TakenByOther(job, s, t, c);
    assert Passed(job, s, t, s.pcs[t].retry) && Passed(job, s, u, s.pcs[u].retry);
  }

  /**
   Agreement among finished calls for one key: they all return the same bucket, holding the
   inserter's value; at most one of them inserted, and it is none other than the owner.
   */
  lemma FinishedCallsAgree<V>(job: Job<V>, s: State<V>, t: nat, u: nat)
    requires job.Valid() && Inv(job, s) && t < |s.pcs| && u < |s.pcs|
    requires s.pcs[t].Done? && s.pcs[u].Done? && job.SameKey(t, u)
    ensures s.pcs[t].idx == s.pcs[u].idx
    ensures s.pcs[t].inserted && s.pcs[u].inserted ==> t == u
    ensures
      var b := s.pcs[t].idx;
      b in s.owner && s.owner[b] < |s.pcs| && job.SameKey(t, s.owner[b]) &&
      s.pcs[s.owner[b]].Done? && s.pcs[s.owner[b]].inserted && s.pcs[s.owner[b]].idx == b &&
      b in s.values && s.values[b] == job.calls[s.owner[b]].val
  {
    assert ThreadOk(job, s, t) && ThreadOk(job, s, u);
    NoKeyTwice(job, s, s.pcs[t].idx, s.pcs[u].idx);
    assert BucketOk(job, s, s.pcs[t].idx);
  }

  /** Success or giving up is the same for all callers of a key, and giving up means 128 full buckets. */
  lemma GivingUpIsByKey<V>(job: Job<V>, s: State<V>, t: nat, u: nat)
    requires job.Valid() && Inv(job, s) && t < |s.pcs| && u < |s.pcs|
    requires s.pcs[t] == GaveUp && job.SameKey(t, u)
    ensures !s.pcs[u].Done?
    ensures Passed(job, s, u, MAX_RETRY)
    ensures forall r: nat, r': nat :: r < r' < MAX_RETRY ==>
              ProbeIdx(job.nbuckets, job.calls[u].hash, r) != ProbeIdx(job.nbuckets, job.calls[u].hash, r')
  {
    assert ThreadOk(job, s, t) && ThreadOk(job, s, u);
    assert s.pcs[u].Done? ==> TakenByOther(job, s, t, s.pcs[u].idx);
    forall r: nat | r < MAX_RETRY ensures TakenByOther(job, s, u, ProbeIdx(job.nbuckets, job.calls[u].hash, r)) {
      assert TakenByOther(job, s, t, ProbeIdx(job.nbuckets, job.calls[t].hash, r));
    }
    forall r: nat, r': nat | r < r' < MAX_RETRY
      ensures ProbeIdx(job.nbuckets, job.calls[u].hash, r) != ProbeIdx(job.nbuckets, job.calls[u].hash, r')
    {
      ProbesAreDistinct(job.nbuckets, job.calls[u].hash, r, r');
    }
  }

  /** The result of a finished call never changes afterwards. */
  lemma {:induction false} ResultsAreFinal<V>(
      job: Job<V>, trace: seq<State<V>>, schedule: seq<nat>, n: nat, m: nat, t: nat)
    requires job.Valid() && Run(job, trace, schedule) && n <= m < |trace| && t < |trace[n].pcs|
    requires trace[n].pcs[t].Done? || trace[n].pcs[t] == GaveUp
    ensures t < |trace[m].pcs| && trace[m].pcs[t] == trace[n].pcs[t]
    decreases m
  {
    if n < m {
      ResultsAreFinal(job, trace, schedule, n, m - 1, t);
      assert Step(job, trace[m - 1], trace[m], schedule[m - 1]);
    }
  }

  /**
   The guarantee for whole runs: whatever two callers of one key observe, at whatever moments they
   finish, is consistent.
   */
  lemma EveryRunIsConsistent<V>(
      job: Job<V>, trace: seq<State<V>>, schedule: seq<nat>, n: nat, m: nat, t: nat, u: nat)
    requires job.Valid() && Run(job, trace, schedule) && n <= m < |trace|
    requires t < |trace[n].pcs| && u < |trace[m].pcs| && t < |job.calls| && u < |job.calls| && job.SameKey(t, u)
    requires trace[n].pcs[t].Done? || trace[n].pcs[t] == GaveUp
    requires trace[m].pcs[u].Done? || trace[m].pcs[u] == GaveUp
    ensures trace[n].pcs[t].Done? <==> trace[m].pcs[u].Done?
    ensures trace[n].pcs[t].Done? ==>
              trace[n].pcs[t].idx == trace[m].pcs[u].idx &&
              (trace[n].pcs[t].inserted && trace[m].pcs[u].inserted ==> t == u)
  {
    RunKeepsInv(job, trace, schedule, m);
    ResultsAreFinal(job, trace, schedule, n, m, t);
    var s := trace[m];
    if s.pcs[t] == GaveUp {
      GivingUpIsByKey(job, s, t, u);
    } else if s.pcs[u] == GaveUp {
      GivingUpIsByKey(job, s, u, t);
    } else {
      FinishedCallsAgree(job, s, t, u);
    }
  }

  // ---- keys of 4 GiB or more

  /** A key that does not fit its 32-bit size is never recognised. */
  lemma OversizedKeysNeverMatch<V>(call: Call<V>, ptr: seq<byte>)
    requires call.size <= |call.data|
    ensures Matches(call, call.data, call.size % 0x1_0000_0000) <==> call.size < TWO_32
    ensures call.size >= TWO_32 ==> forall size: nat :: !Matches(call, ptr, size % 0x1_0000_0000)
  {
  }

  /** A run that has come to a given state. */
  ghost predicate RunTo<V>(job: Job<V>, trace: seq<State<V>>, schedule: seq<nat>, s: State<V>)
    requires TableSize(job.nbuckets)
  {
    Run(job, trace, schedule) && trace[|trace| - 1] == s
  }

  lemma Extend<V>(job: Job<V>, trace: seq<State<V>>, schedule: seq<nat>, s: State<V>, s': State<V>, t: nat)
    requires TableSize(job.nbuckets) && RunTo(job, trace, schedule, s) && Step(job, s, s', t)
    ensures RunTo(job, trace + [s'], schedule + [t], s')
  {
    var trace', schedule' := trace + [s'], schedule + [t];
    forall n | 0 <= n < |schedule'| ensures Step(job, trace'[n], trace'[n + 1], schedule'[n]) {
      assert n < |schedule| ==> Step(job, trace[n], trace[n + 1], schedule[n]);
    }
  }

  /** The state after thread t has taken an empty bucket and filled it without interruption. */
  function Taken<V>(job: Job<V>, s: State<V>, t: nat): State<V>
    requires t < |s.pcs| == |job.calls| && s.pcs[t].Probing? && s.pcs[t].idx < |s.slots|
  {
    var call, idx := job.calls[t], s.pcs[t].idx;
    State(s.slots[idx := Key(call.data)], s.sizes[idx := call.size % 0x1_0000_0000], s.values[idx := call.val],
          s.pcs[t := Done(idx, s.pcs[t].retry, true)], s.owner[idx := t])
  }

  lemma TakesBucket<V>(job: Job<V>, trace: seq<State<V>>, schedule: seq<nat>, s: State<V>, t: nat)
    returns (trace': seq<State<V>>, schedule': seq<nat>)
    requires TableSize(job.nbuckets) && RunTo(job, trace, schedule, s)
    requires |s.slots| == job.nbuckets && t < |s.pcs| == |job.calls| && s.pcs[t].Probing?
    requires s.pcs[t].idx < |s.slots| && s.slots[s.pcs[t].idx] == Null
    ensures RunTo(job, trace', schedule', Taken(job, s, t))
  {
    var call, idx, retry := job.calls[t], s.pcs[t].idx, s.pcs[t].retry;
    var a := s.(pcs := s.pcs[t := SawNull(idx, retry)]);
    Extend(job, trace, schedule, s, a, t);
    var b := a.(slots := a.slots[idx := Marker], owner := a.owner[idx := t], pcs := a.pcs[t := Claimed(idx, retry)]);
    Extend(job, trace + [a], schedule + [t], a, b, t);
    var c := b.(values := b.values[idx := call.val], pcs := b.pcs[t := WroteValue(idx, retry)]);
    Extend(job, trace + [a] + [b], schedule + [t] + [t], b, c, t);
    var d := c.(sizes := c.sizes[idx := call.size % 0x1_0000_0000], pcs := c.pcs[t := WroteSize(idx, retry)]);
    Extend(job, trace + [a] + [b] + [c], schedule + [t] + [t] + [t], c, d, t);
    var e := d.(slots := d.slots[idx := Key(call.data)], pcs := d.pcs[t := Done(idx, retry, true)]);
    trace', schedule' := trace + [a] + [b] + [c] + [d], schedule + [t] + [t] + [t] + [t];
    Extend(job, trace', schedule', d, e, t);
    trace', schedule' := trace' + [e], schedule' + [t];
    assert e == Taken(job, s, t);
  }

  /** Two finished calls of one key that have each inserted it. */
  ghost predicate InsertedTwice(s: State) {
    |s.pcs| == 2 && s.pcs[0].Done? && s.pcs[1].Done? && s.pcs[0].inserted && s.pcs[1].inserted &&
    s.pcs[0].idx != s.pcs[1].idx
  }

  /** The second call of a key that has been inserted passes by if it does not recognise it. */
  lemma PassesBy<V>(job: Job<V>, trace: seq<State<V>>, schedule: seq<nat>, s: State<V>, t: nat, ptr: seq<byte>)
    returns (trace': seq<State<V>>, schedule': seq<nat>)
    requires TableSize(job.nbuckets) && RunTo(job, trace, schedule, s)
    requires |s.slots| == job.nbuckets && t < |s.pcs| == |job.calls| && s.pcs[t].Probing? && s.pcs[t].retry == 0
    requires s.pcs[t].idx < |s.slots| && s.slots[s.pcs[t].idx] == Key(ptr) && s.pcs[t].idx in s.sizes
    requires job.calls[t].size != s.sizes[s.pcs[t].idx]
    ensures RunTo(job, trace', schedule', s.(pcs := s.pcs[t := Probing(NextIdx(job.nbuckets, s.pcs[t].idx), 1)]))
  {
    var idx := s.pcs[t].idx;
    var a := s.(pcs := s.pcs[t := SawKey(idx, 0, ptr)]);
    Extend(job, trace, schedule, s, a, t);
    var b := a.(pcs := a.pcs[t := Probing(NextIdx(job.nbuckets, idx), 1)]);
    Extend(job, trace + [a], schedule + [t], a, b, t);
    trace', schedule' := trace + [a] + [b], schedule + [t] + [t];
    assert a.pcs[t := b.pcs[t]] == s.pcs[t := b.pcs[t]];
  }

  /** Two callers of such a key, one after the other. */
  lemma InsertsTwice<V>(n: nat, call: Call<V>) returns (trace: seq<State<V>>, schedule: seq<nat>, s: State<V>)
    requires TableSize(n) && TWO_32 <= call.size <= |call.data|
    ensures RunTo(Job(n, [call, call]), trace, schedule, s) && InsertedTwice(s)
  {
    var job := Job(n, [call, call]);
    var idx := FirstIdx(n, call.hash);
    var pc := Probing(idx, 0);
    var s0 := State(seq(n, _ => Null), map[], map[], [pc, pc], map[]);
    assert RunTo(job, [s0], [], s0);
    trace, schedule := TakesBucket(job, [s0], [], s0, 0);
    var s1 := Taken(job, s0, 0);
    trace, schedule := PassesBy(job, trace, schedule, s1, 1, call.data);
    var s2 := s1.(pcs := s1.pcs[1 := Probing(NextIdx(n, idx), 1)]);
    ProbesAreDistinct(n, call.hash, 0, 1);
    ProbeFormula(n, call.hash, 1);
    assert ProbeIdx(n, call.hash, 0) == idx && ProbeIdx(n, call.hash, 1) == NextIdx(n, idx);
    trace, schedule := TakesBucket(job, trace, schedule, s2, 1);
    s := Taken(job, s2, 1);
  }

  /**
   One key can end up in two buckets, each taken by a call that reports having inserted it, if and only if its
   size does not fit 32 bits.
   */
  lemma KeysAreUniqueIfTheyFit<V>(n: nat, call: Call<V>)
    requires TableSize(n) && call.size <= |call.data|
    ensures (exists trace, schedule, s :: RunTo(Job(n, [call, call]), trace, schedule, s) && InsertedTwice(s)) <==>
            call.size >= TWO_32
  {
    var job := Job(n, [call, call]);
    if call.size >= TWO_32 {
      var trace, schedule, s := InsertsTwice(n, call);
    } else {
      forall trace, schedule, s | RunTo(job, trace, schedule, s) ensures !InsertedTwice(s) {
        NotTwice(job, trace, schedule, s);
      }
    }
  }

  lemma NotTwice<V>(job: Job<V>, trace: seq<State<V>>, schedule: seq<nat>, s: State<V>)
    requires job.Valid() && RunTo(job, trace, schedule, s) && |job.calls| == 2 && job.SameKey(0, 1)
    ensures !InsertedTwice(s)
  {
    RunKeepsInv(job, trace, schedule, |trace| - 1);
    if InsertedTwice(s) {
      FinishedCallsAgree(job, s, 0, 1);
    }
  }
}
