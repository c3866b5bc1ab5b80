/** How each worker picks its samples out of the manifest.

    Every host runs `process` independently and walks
    `itertools.islice(rows, index, limit, len(hosts))`: host number `k` of
    `n` takes the rows at manifest positions `k, k + n, k + 2n, ...` that lie
    below the global stop position `limit`. Nothing is exchanged between
    hosts; the partition property holds because every host computes the same
    stride over the same manifest. */
module Sharding {
  import opened Wrappers

  /** Why `process` raises before touching any sample. */
  datatype ShardError =
    | HostNotListed   // `list.index` raises ValueError: the host is not in the host list
    | NegativeLimit   // `islice` raises ValueError for a negative stop argument

  /** Python `list.index`: the first position holding `x`, or `None` where
      Python raises ValueError. */
  function IndexOf<T(==)>(xs: seq<T>, x: T): (r: Option<nat>)
    ensures r.None? <==> x !in xs
    ensures r.Some? ==> r.value < |xs| && xs[r.value] == x && x !in xs[..r.value]
  {
    if |xs| == 0 then None
    else if xs[0] == x then Some(0)
    else match IndexOf(xs[1..], x)
      case None => None
      case Some(i) =>
        assert xs[..i + 1] == [xs[0]] + xs[1..][..i];
        Some(i + 1)
  }

  /** The position `islice` stops at: the limit when there is one, and in
      any case no further than the end of the manifest. */
  function Stop(len: nat, limit: Option<nat>): (s: nat)
    ensures s <= len
  {
    match limit
    case None => len
    case Some(l) => if l < len then l else len
  }

  /** The reference description of a stride: the positions
      `start, start + step, start + 2*step, ...` that lie below `stop`. */
  function Positions(start: nat, stop: nat, step: nat): (ps: seq<nat>)
    requires step >= 1
    ensures forall i :: 0 <= i < |ps| ==> start <= ps[i] < stop
    decreases stop - start
  {
    if start >= stop then [] else [start] + Positions(start + step, stop, step)
  }

  /** The `i`-th visited position is `start + i*step`, and the first
      position past the end of the stride is at or beyond `stop`. */
  lemma {:induction false} PositionsAreStrided(start: nat, stop: nat, step: nat)
    requires step >= 1
    ensures forall i :: 0 <= i < |Positions(start, stop, step)| ==>
      Positions(start, stop, step)[i] == start + i * step
    ensures start + |Positions(start, stop, step)| * step >= stop
    decreases stop - start
  {
    if start < stop {
      PositionsAreStrided(start + step, stop, step);
      var ps := Positions(start, stop, step);
      var rest := Positions(start + step, stop, step);
      assert ps == [start] + rest;
      forall i | 0 < i < |ps| ensures ps[i] == start + i * step {
        assert ps[i] == rest[i - 1] == start + step + (i - 1) * step;
        MulPred(i, step);
      }
      MulPred(|ps|, step);
    }
  }

  /** `step + (i - 1) * step` is `i * step`. */
  lemma MulPred(i: int, step: int)
    ensures step + (i - 1) * step == i * step
  {
  }

  /** `itertools.islice(rows, start, limit, step)` for a non-negative limit:
      yield the row at the next wanted position, move `step` positions on,
      and stop once the manifest is exhausted or the limit is reached. */
  function Islice<T>(rows: seq<T>, start: nat, limit: Option<nat>, step: nat): (r: seq<T>)
    requires step >= 1
    ensures |r| == |Positions(start, Stop(|rows|, limit), step)|
    decreases |rows| - start
  {
    if start >= |rows| || (limit.Some? && start >= limit.value) then []
    else [rows[start]] + Islice(rows, start + step, limit, step)
  }

  /** `islice` yields exactly the rows at the positions of the stride, in
      manifest order. */
  lemma {:induction false} IsliceVisitsPositions<T>(rows: seq<T>, start: nat, limit: Option<nat>, step: nat)
    requires step >= 1
    ensures var r := Islice(rows, start, limit, step);
      var ps := Positions(start, Stop(|rows|, limit), step);
      && |r| == |ps|
      && forall i :: 0 <= i < |r| ==> r[i] == rows[ps[i]]
    decreases |rows| - start
  {
    var stop := Stop(|rows|, limit);
    if start < stop {
      IsliceVisitsPositions(rows, start + step, limit, step);
      var r := Islice(rows, start, limit, step);
      var ps := Positions(start, stop, step);
      var rest := Islice(rows, start + step, limit, step);
      assert r == [rows[start]] + rest;
      assert ps == [start] + Positions(start + step, stop, step);
      forall i | 0 < i < |r| ensures r[i] == rows[ps[i]] {
        assert r[i] == rest[i - 1];
      }
    }
  }

  /** The `i`-th row of a stride is the row at `start + i*step`. */
  lemma IsliceStride<T>(rows: seq<T>, start: nat, limit: Option<nat>, step: nat)
    requires step >= 1
    ensures forall i :: 0 <= i < |Islice(rows, start, limit, step)| ==>
      start + i * step < |rows| && Islice(rows, start, limit, step)[i] == rows[start + i * step]
  {
    var ps := Positions(start, Stop(|rows|, limit), step);
    PositionsAreStrided(start, Stop(|rows|, limit), step);
    IsliceVisitsPositions(rows, start, limit, step);
    forall i | 0 <= i < |Islice(rows, start, limit, step)|
      ensures start + i * step < |rows| && Islice(rows, start, limit, step)[i] == rows[start + i * step]
    {
      assert ps[i] == start + i * step;
    }
  }

  /** The rows one host processes (fabfile.py lines 164-166): its index in
      the host list is its stride offset and the number of hosts is the
      stride. */
  function HostShard<T, H(==)>(rows: seq<T>, hosts: seq<H>, host: H, limit: Option<int>)
    : (r: Result<seq<T>, ShardError>)
    ensures r == Failure(HostNotListed) <==> host !in hosts
    ensures r == Failure(NegativeLimit) <==> host in hosts && limit.Some? && limit.value < 0
    ensures r.Success? ==>
      var k := IndexOf(hosts, host).value;
      forall i :: 0 <= i < |r.value| ==>
        k + i * |hosts| < |rows| && r.value[i] == rows[k + i * |hosts|]
    ensures r.Success? ==>
      var k := IndexOf(hosts, host).value;
      var stop := Stop(|rows|, NatLimit(limit));
      && |r.value| == |Positions(k, stop, |hosts|)|
      && |r.value| == stop / |hosts| + (if k < stop % |hosts| then 1 else 0)
  {
    match IndexOf(hosts, host)
    case None => Failure(HostNotListed)
    case Some(k) =>
      if limit.Some? && limit.value < 0 then Failure(NegativeLimit)
      else
        var stop := NatLimit(limit);
        IsliceStride(rows, k, stop, |hosts|);
        PositionsCount(k, |hosts|, Stop(|rows|, stop));
        var shard := Islice(rows, k, stop, |hosts|);
        Success(shard)
  }

  /** Row `i` of a host's shard is the manifest row at the `i`-th position
      of its stride. */
  lemma HostShardPositions<T, H>(rows: seq<T>, hosts: seq<H>, host: H, limit: Option<int>)
    requires HostShard(rows, hosts, host, limit).Success?
    ensures var shard := HostShard(rows, hosts, host, limit).value;
      var ps := Positions(IndexOf(hosts, host).value, Stop(|rows|, NatLimit(limit)), |hosts|);
      |shard| == |ps| && forall i :: 0 <= i < |ps| ==> ps[i] < |rows| && shard[i] == rows[ps[i]]
  {
    var k := IndexOf(hosts, host).value;
    PositionsAreStrided(k, Stop(|rows|, NatLimit(limit)), |hosts|);
  }

  /** Row `i` of a host's shard sits at a manifest position the host owns,
      which is returned. */
  lemma ShardRowOwned<T, H>(rows: seq<T>, hosts: seq<H>, host: H, limit: Option<int>, i: nat) returns (p: nat)
    requires HostShard(rows, hosts, host, limit).Success?
    requires i < |HostShard(rows, hosts, host, limit).value|
    ensures p < Stop(|rows|, NatLimit(limit)) && p % |hosts| == IndexOf(hosts, host).value
    ensures HostShard(rows, hosts, host, limit).value[i] == rows[p]
  {
    var k := IndexOf(hosts, host).value;
    var stop := Stop(|rows|, NatLimit(limit));
    var ps := Positions(k, stop, |hosts|);
    HostShardPositions(rows, hosts, host, limit);
    p := ps[i];
    PositionOwner(k, |hosts|, stop, p);
  }

  /** Every manifest position a host owns is in its shard, at a returned
      index. */
  lemma OwnedRowInShard<T, H>(rows: seq<T>, hosts: seq<H>, host: H, limit: Option<int>, p: nat) returns (i: nat)
    requires HostShard(rows, hosts, host, limit).Success?
    requires p < Stop(|rows|, NatLimit(limit)) && p % |hosts| == IndexOf(hosts, host).value
    ensures i < |HostShard(rows, hosts, host, limit).value| && HostShard(rows, hosts, host, limit).value[i] == rows[p]
  {
    var k := IndexOf(hosts, host).value;
    var stop := Stop(|rows|, NatLimit(limit));
    var ps := Positions(k, stop, |hosts|);
    PositionOwner(k, |hosts|, stop, p);
    i :| 0 <= i < |ps| && ps[i] == p;
    HostShardPositions(rows, hosts, host, limit);
  }

  /** `int(limit) if limit else None` once a negative limit has been
      rejected. */
  function NatLimit(limit: Option<int>): Option<nat>
  {
    if limit.Some? && limit.value >= 0 then Some(limit.value as nat) else None
  }

  // ---------------------------------------------------------------------
  // Arithmetic on Dafny's (Euclidean) division, which agrees with Python's
  // for the non-negative operands used here.

  lemma MulAtLeastOnce(a: int, m: int)
    requires m > 0 && a >= 1
    ensures a * m >= m
  {
  }

  /** Division and remainder are the unique quotient and remainder. */
  lemma DivModUnique(x: int, m: int, q: int, r: int)
    requires m > 0 && 0 <= r < m && x == q * m + r
    ensures x / m == q && x % m == r
  {
    var q0, r0 := x / m, x % m;
    assert x == q0 * m + r0;
    if q0 < q {
      assert (q - q0) * m == q * m - q0 * m;
      MulAtLeastOnce(q - q0, m);
    } else if q < q0 {
      assert (q0 - q) * m == q0 * m - q * m;
      MulAtLeastOnce(q0 - q, m);
    }
  }

  /** Moving one stride along does not change the remainder. */
  lemma ModStep(x: int, m: int)
    requires m > 0
    ensures (x + m) % m == x % m
  {
    DivModUnique(x + m, m, x / m + 1, x % m);
  }

  // ---------------------------------------------------------------------
  // Which positions a worker owns.

  /** A position is visited by the stride from `start` exactly when it lies
      in `[start, stop)` and is a whole number of strides from `start`. */
  lemma {:induction false} PositionsMembership(start: nat, stop: nat, step: nat, p: nat)
    requires step >= 1
    ensures p in Positions(start, stop, step) <==> start <= p < stop && (p - start) % step == 0
    decreases stop - start
  {
    if start < stop {
      var rest := Positions(start + step, stop, step);
      assert Positions(start, stop, step) == [start] + rest;
      PositionsMembership(start + step, stop, step, p);
      if p == start {
        DivModUnique(0, step, 0, 0);
      } else if start < p < start + step {
        DivModUnique(p - start, step, 0, p - start);
      } else if p >= start + step {
        ModStep(p - start - step, step);
        assert p - start - step + step == p - start;
      }
    }
  }

  /** Being a whole number of strides past `k < n` means leaving remainder `k`. */
  lemma StrideResidue(k: nat, n: nat, p: nat)
    requires k < n
    ensures p >= k && (p - k) % n == 0 <==> p % n == k
  {
    if p % n == k {
      DivModUnique(p - k, n, p / n, 0);
    } else if p >= k && (p - k) % n == 0 {
      DivModUnique(p, n, (p - k) / n, k);
    }
  }

  /** Worker `k` of `n` owns position `p` exactly when `p` is below the stop
      position and `p mod n == k`. */
  lemma PositionOwner(k: nat, n: nat, stop: nat, p: nat)
    requires k < n
    ensures p in Positions(k, stop, n) <==> p < stop && p % n == k
  {
    PositionsMembership(k, stop, n, p);
    StrideResidue(k, n, p);
  }

  /** No position is handed to two different workers. */
  lemma ShardsDisjoint(j: nat, k: nat, n: nat, stop: nat, p: nat)
    requires j < n && k < n && j != k
    ensures !(p in Positions(j, stop, n) && p in Positions(k, stop, n))
  {
    PositionOwner(j, n, stop, p);
    PositionOwner(k, n, stop, p);
  }

  /** Every position below the stop position is handed to some worker:
      the one numbered `p mod n`. */
  lemma ShardsCover(n: nat, stop: nat, p: nat)
    requires n >= 1 && p < stop
    ensures p % n < n && p in Positions(p % n, stop, n)
  {
    PositionOwner(p % n, n, stop, p);
  }

  /** No worker is handed a row at or beyond the limit, nor beyond the end
      of the manifest; without a limit the whole manifest is in play. */
  lemma LimitIsGlobalStop(len: nat, k: nat, n: nat, limit: Option<nat>, p: nat)
    requires n >= 1
    requires p in Positions(k, Stop(len, limit), n)
    ensures p < len
    ensures limit.Some? ==> p < limit.value
  {
    PositionsMembership(k, Stop(len, limit), n, p);
  }

  /** With no limit every row of the manifest is assigned to a worker. */
  lemma NoLimitAssignsEveryRow(len: nat, n: nat, p: nat)
    requires n >= 1 && p < len
    ensures p in Positions(p % n, Stop(len, None), n)
  {
    ShardsCover(n, len, p);
  }

  // ---------------------------------------------------------------------
  // Growing the stop position by one.

  /** Raising the stop position by one adds the new position to the stride
      that reaches it, at the end, and changes nothing else. */
  lemma {:induction false} PositionsExtend(start: nat, m: nat, step: nat)
    requires step >= 1
    ensures Positions(start, m + 1, step) ==
      Positions(start, m, step) + (if start <= m && (m - start) % step == 0 then [m] else [])
    decreases m - start
  {
    if start < m {
      PositionsExtend(start + step, m, step);
      if start + step > m {
        DivModUnique(m - start, step, 0, m - start);
      } else {
        ModStep(m - start - step, step);
      }
      assert Positions(start, m + 1, step) == [start] + Positions(start + step, m + 1, step);
      assert Positions(start, m, step) == [start] + Positions(start + step, m, step);
    } else if start == m {
      assert Positions(start, m + 1, step) == [m] + Positions(m + step, m + 1, step);
    }
  }

  /** Two calls of `islice` that visit the same positions yield the same rows. */
  lemma IsliceByStop<T>(rows: seq<T>, k: nat, n: nat, limit: Option<nat>, m: nat)
    requires n >= 1 && m == Stop(|rows|, limit)
    ensures Islice(rows, k, limit, n) == Islice(rows, k, Some(m), n)
  {
    assert Stop(|rows|, Some(m)) == m;
    IsliceVisitsPositions(rows, k, limit, n);
    IsliceVisitsPositions(rows, k, Some(m), n);
  }

  /** Raising the limit by one row hands that row to worker `m mod n`, at
      the end of its shard, and leaves every other shard unchanged. */
  lemma ShardExtend<T>(rows: seq<T>, k: nat, n: nat, m: nat)
    requires k < n && m < |rows|
    ensures Islice(rows, k, Some(m + 1), n) ==
      Islice(rows, k, Some(m), n) + (if m % n == k then [rows[m]] else [])
  {
    PositionsExtend(k, m, n);
    StrideResidue(k, n, m);
    assert Stop(|rows|, Some(m)) == m && Stop(|rows|, Some(m + 1)) == m + 1;
    var before := Positions(k, m, n);
    var after := Positions(k, m + 1, n);
    var s0 := Islice(rows, k, Some(m), n);
    var s1 := Islice(rows, k, Some(m + 1), n);
    var extra := if m % n == k then [rows[m]] else [];
    IsliceVisitsPositions(rows, k, Some(m), n);
    IsliceVisitsPositions(rows, k, Some(m + 1), n);
    assert after == before + (if m % n == k then [m] else []);
    assert |s1| == |s0| + |extra|;
    forall i | 0 <= i < |s1| ensures s1[i] == (s0 + extra)[i] {
      if i < |s0| {
        assert s1[i] == rows[after[i]] && after[i] == before[i];
      } else {
        assert after[i] == m;
      }
    }
    assert s1 == s0 + extra;
  }

  // ---------------------------------------------------------------------
  // Shard sizes.

  /** Worker `k` of `n` receives `stop / n` rows, plus one when `k` is below
      `stop mod n`. */
  lemma {:induction false} PositionsCount(k: nat, n: nat, stop: nat)
    requires k < n
    ensures |Positions(k, stop, n)| == stop / n + (if k < stop % n then 1 else 0)
    decreases stop
  {
    if stop == 0 {
      assert Positions(k, 0, n) == [];
      DivModUnique(0, n, 0, 0);
    } else {
      var m := stop - 1;
      PositionsCount(k, n, m);
      PositionsExtend(k, m, n);
      StrideResidue(k, n, m);
      CountStep(k, n, m);
    }
  }

  /** One more position: the quotient-and-remainder count grows by one
      exactly for the worker whose residue the new position has. */
  lemma CountStep(k: nat, n: nat, m: nat)
    requires k < n
    ensures (m + 1) / n + (if k < (m + 1) % n then 1 else 0) ==
      m / n + (if k < m % n then 1 else 0) + (if m % n == k then 1 else 0)
  {
    var q, r := m / n, m % n;
    assert m == q * n + r;
    if r + 1 < n {
      DivModUnique(m + 1, n, q, r + 1);
    } else {
      assert m + 1 == (q + 1) * n + 0;
      DivModUnique(m + 1, n, q + 1, 0);
    }
  }

  /** The shard sizes the hosts receive differ by at most one. */
  lemma ShardsBalanced<T>(rows: seq<T>, j: nat, k: nat, n: nat, limit: Option<nat>)
    requires j < n && k < n
    ensures |Islice(rows, j, limit, n)| <= |Islice(rows, k, limit, n)| + 1
  {
    var stop := Stop(|rows|, limit);
    PositionsCount(j, n, stop);
    PositionsCount(k, n, stop);
    IsliceVisitsPositions(rows, j, limit, n);
    IsliceVisitsPositions(rows, k, limit, n);
  }

  // ---------------------------------------------------------------------
  // The shards together are the manifest below the stop position.

  /** The shards of all `n` workers, worker `k` at index `k`. */
  function Shards<T>(rows: seq<T>, n: nat, limit: Option<nat>): (ss: seq<seq<T>>)
    requires n >= 1
    ensures |ss| == n
  {
    seq(n, k requires 0 <= k < n => Islice(rows, k, limit, n))
  }

  /** Everything held by a list of shards, counted with multiplicity. */
  ghost function Bag<T>(ss: seq<seq<T>>): multiset<T>
  {
    if |ss| == 0 then multiset{} else Bag(ss[..|ss| - 1]) + multiset(ss[|ss| - 1])
  }

  /** Appending `x` to shard `o` alone adds exactly one `x` to the bag. */
  lemma {:induction false} BagGrowOne<T>(ss: seq<seq<T>>, tt: seq<seq<T>>, o: nat, x: T)
    requires |ss| == |tt|
    requires forall k :: 0 <= k < |ss| ==> tt[k] == ss[k] + (if k == o then [x] else [])
    ensures Bag(tt) == Bag(ss) + (if o < |ss| then multiset{x} else multiset{})
    decreases |ss|
  {
    if |ss| > 0 {
      var last := |ss| - 1;
      var ss', tt' := ss[..last], tt[..last];
      forall k | 0 <= k < |ss'| ensures tt'[k] == ss'[k] + (if k == o then [x] else []) {
        assert tt'[k] == tt[k] && ss'[k] == ss[k];
      }
      BagGrowOne(ss', tt', o, x);
      BagLast(ss, tt, o, x);
    }
  }

  /** The last shard's share of `BagGrowOne`'s step. */
  lemma BagLast<T>(ss: seq<seq<T>>, tt: seq<seq<T>>, o: nat, x: T)
    requires |ss| == |tt| > 0
    requires tt[|ss| - 1] == ss[|ss| - 1] + (if |ss| - 1 == o then [x] else [])
    requires Bag(tt[..|ss| - 1]) == Bag(ss[..|ss| - 1]) + (if o < |ss| - 1 then multiset{x} else multiset{})
    ensures Bag(tt) == Bag(ss) + (if o < |ss| then multiset{x} else multiset{})
  {
    var last := |ss| - 1;
    BagSnoc(ss);
    BagSnoc(tt);
    if last == o {
      assert multiset(tt[last]) == multiset(ss[last]) + multiset{x};
    } else {
      assert tt[last] == ss[last];
    }
  }

  /** The bag of shards is the bag of all but the last plus the last. */
  lemma BagSnoc<T>(ss: seq<seq<T>>)
    requires |ss| > 0
    ensures Bag(ss) == Bag(ss[..|ss| - 1]) + multiset(ss[|ss| - 1])
  {
  }

  lemma {:induction false} ShardsPrefix<T>(rows: seq<T>, n: nat, m: nat)
    requires n >= 1 && m <= |rows|
    ensures Bag(Shards(rows, n, Some(m))) == multiset(rows[..m])
    decreases m
  {
    if m == 0 {
      BagEmpty(rows, n, n);
      assert Shards(rows, n, Some(0))[..n] == Shards(rows, n, Some(0));
    } else {
      var prev := m - 1;
      ShardsPrefix(rows, n, prev);
      BagStep(rows, n, prev);
      assert rows[..m] == rows[..prev] + [rows[prev]];
    }
  }

  /** Raising the limit from `m` to `m + 1` adds row `m` to the bag. */
  lemma BagStep<T>(rows: seq<T>, n: nat, m: nat)
    requires n >= 1 && m < |rows|
    ensures Bag(Shards(rows, n, Some(m + 1))) == Bag(Shards(rows, n, Some(m))) + multiset{rows[m]}
  {
    ShardsGrow(rows, n, m);
    BagGrowOne(Shards(rows, n, Some(m)), Shards(rows, n, Some(m + 1)), m % n, rows[m]);
  }

  /** Raising the limit by one row grows exactly the shard of worker
      `m mod n`, by that row. */
  lemma ShardsGrow<T>(rows: seq<T>, n: nat, m: nat)
    requires n >= 1 && m < |rows|
    ensures forall k :: 0 <= k < n ==>
      Shards(rows, n, Some(m + 1))[k] == Shards(rows, n, Some(m))[k] + (if k == m % n then [rows[m]] else [])
  {
    forall k | 0 <= k < n
      ensures Shards(rows, n, Some(m + 1))[k] == Shards(rows, n, Some(m))[k] + (if k == m % n then [rows[m]] else [])
    {
      ShardExtend(rows, k, n, m);
    }
  }

  lemma {:induction false} BagEmpty<T>(rows: seq<T>, n: nat, j: nat)
    requires 1 <= n && j <= n
    ensures Bag(Shards(rows, n, Some(0))[..j]) == multiset{}
    decreases j
  {
    if j > 0 {
      var ss := Shards(rows, n, Some(0));
      BagEmpty(rows, n, j - 1);
      assert ss[..j][..j - 1] == ss[..j - 1];
      IsliceVisitsPositions(rows, j - 1, Some(0), n);
      assert Positions(j - 1, Stop(|rows|, Some(0)), n) == [];
    }
  }

  /** Taken together, the shards of workers `0 .. n-1` hold every row below
      the stop position exactly as often as the manifest does, and nothing
      else. */
  lemma ShardsPartitionRows<T>(rows: seq<T>, n: nat, limit: Option<nat>)
    requires n >= 1
    ensures Bag(Shards(rows, n, limit)) == multiset(rows[..Stop(|rows|, limit)])
  {
    var m := Stop(|rows|, limit);
    ShardsPrefix(rows, n, m);
    forall k | 0 <= k < n ensures Shards(rows, n, limit)[k] == Shards(rows, n, Some(m))[k] {
      IsliceByStop(rows, k, n, limit, m);
    }
    assert Shards(rows, n, limit) == Shards(rows, n, Some(m));
  }
}
