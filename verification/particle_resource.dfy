/**
 * The particle resource field (systems/particle_resource.go): the slot
 * pool that particles live in (spawn, despawn, end-of-tick compaction),
 * the mass exchanges between particles, the resource grid and the
 * detritus grid, and grazing. Flow-field advection, noise and the spawn
 * lottery are left to parameters.
 */
module ParticleField {
  import opened SimMath
  import opened Grid

  /** The struct-of-arrays particle pool. */
  datatype Pool = Pool(x: seq<real>, y: seq<real>, mass: seq<real>, active: seq<bool>,
                       count: int, maxCount: int, freeList: seq<int>, activeList: seq<int>)

  /** Every per-slot array has MaxCount entries and the lists hold slot numbers. */
  predicate Shaped(p: Pool)
  {
    p.maxCount >= 0 &&
    |p.x| == p.maxCount && |p.y| == p.maxCount && |p.mass| == p.maxCount && |p.active| == p.maxCount &&
    (forall k :: 0 <= k < |p.freeList| ==> 0 <= p.freeList[k] < p.maxCount) &&
    (forall k :: 0 <= k < |p.activeList| ==> 0 <= p.activeList[k] < p.maxCount)
  }

  /**
   * The pool invariant, relative to the high-water mark hw (how many
   * slots have ever been handed out): Count plus the free list is hw;
   * the free list holds each inactive slot below hw exactly once; no slot
   * at or above hw is active; every active slot is listed.
   */
  predicate PoolInv(p: Pool, hw: int)
  {
    Shaped(p) && 0 <= hw <= p.maxCount && p.count >= 0 &&
    p.count + |p.freeList| == hw &&
    (forall a, b :: 0 <= a < b < |p.freeList| ==> p.freeList[a] != p.freeList[b]) &&
    (forall k :: 0 <= k < |p.freeList| ==> p.freeList[k] < hw && !p.active[p.freeList[k]]) &&
    (forall i :: 0 <= i < hw && !p.active[i] ==> i in p.freeList) &&
    (forall i :: hw <= i < p.maxCount ==> !p.active[i]) &&
    (forall i :: 0 <= i < p.maxCount && p.active[i] ==> i in p.activeList)
  }

  /** The constructor's pool: MaxCount slots (8000 when configured below 1), all free, none handed out. */
  function NewPool(configured: int): (p: Pool)
    ensures PoolInv(p, 0)
    ensures p.maxCount == (if configured < 1 then 8000 else configured) && p.count == 0
  {
    var n := if configured < 1 then 8000 else configured;
    Pool(seq(n, _ => 0.0), seq(n, _ => 0.0), seq(n, _ => 0.0), seq(n, _ => false), 0, n, [], [])
  }

  /** Occupies slot idx with a particle and lists it. */
  function Occupy(p: Pool, idx: int, x: real, y: real, mass: real): (r: Pool)
    requires Shaped(p) && 0 <= idx < p.maxCount
    ensures Shaped(r) && r.maxCount == p.maxCount
  {
    p.(x := p.x[idx := x], y := p.y[idx := y], mass := p.mass[idx := mass], active := p.active[idx := true],
       activeList := p.activeList + [idx], count := p.count + 1)
  }

  /**
   * spawn: reuses the most recently freed slot if there is one, else the
   * next never-used slot Count while Count < MaxCount, else changes nothing.
   */
  function Spawn(p: Pool, x: real, y: real, mass: real): (r: Pool)
    requires Shaped(p) && p.count >= 0
    ensures Shaped(r) && r.maxCount == p.maxCount
    ensures |p.freeList| > 0 ==> var idx := p.freeList[|p.freeList| - 1];
      r.freeList == p.freeList[..|p.freeList| - 1] && r.active == p.active[idx := true] &&
      r.activeList == p.activeList + [idx] && r.count == p.count + 1 && r.mass == p.mass[idx := mass]
    ensures |p.freeList| == 0 && p.count < p.maxCount ==>
      r.freeList == [] && r.active == p.active[p.count := true] &&
      r.activeList == p.activeList + [p.count] && r.count == p.count + 1 && r.mass == p.mass[p.count := mass]
    ensures |p.freeList| == 0 && p.count >= p.maxCount ==> r == p
  {
    if |p.freeList| > 0 then
      var idx := p.freeList[|p.freeList| - 1];
      Occupy(p.(freeList := p.freeList[..|p.freeList| - 1]), idx, x, y, mass)
    else if p.count < p.maxCount then Occupy(p, p.count, x, y, mass)
    else p
  }

  /** The high-water mark after a spawn: one higher exactly when a never-used slot was taken. */
  function SpawnHighWater(p: Pool, hw: int): int
  {
    if |p.freeList| == 0 && p.count < p.maxCount then hw + 1 else hw
  }

  /** spawn keeps the pool invariant, and Count + |FreeList| tracks the high-water mark. */
  lemma SpawnKeepsInv(p: Pool, hw: int, x: real, y: real, mass: real)
    requires PoolInv(p, hw)
    ensures PoolInv(Spawn(p, x, y, mass), SpawnHighWater(p, hw))
  {
    if |p.freeList| > 0 {
      SpawnReusedKeepsInv(p, hw, x, y, mass);
    } else if p.count < p.maxCount {
      SpawnFreshKeepsInv(p, hw, x, y, mass);
    }
  }

  lemma SpawnReusedKeepsInv(p: Pool, hw: int, x: real, y: real, mass: real)
    requires PoolInv(p, hw) && |p.freeList| > 0
    ensures PoolInv(Spawn(p, x, y, mass), hw)
  {
    var r := Spawn(p, x, y, mass);
    var n := |p.freeList| - 1;
    var idx := p.freeList[n];
    assert r.active == p.active[idx := true];
    forall i | 0 <= i < hw && !r.active[i]
      ensures i in r.freeList
    {
      assert i != idx && !p.active[i];
      var k :| 0 <= k < |p.freeList| && p.freeList[k] == i;
      assert k != n;
      assert r.freeList[k] == i;
    }
    forall k | 0 <= k < |r.freeList|
      ensures r.freeList[k] < hw && !r.active[r.freeList[k]]
    {
      assert r.freeList[k] == p.freeList[k] != idx;
    }
    forall i | 0 <= i < p.maxCount && r.active[i]
      ensures i in r.activeList
    {
      if i == idx {
        assert r.activeList[|p.activeList|] == idx;
      } else {
        assert i in p.activeList;
      }
    }
  }

  lemma SpawnFreshKeepsInv(p: Pool, hw: int, x: real, y: real, mass: real)
    requires PoolInv(p, hw) && |p.freeList| == 0 && p.count < p.maxCount
    ensures PoolInv(Spawn(p, x, y, mass), hw + 1)
  {
    var r := Spawn(p, x, y, mass);
    assert p.count == hw;
    assert r.active == p.active[hw := true];
    forall i | 0 <= i < p.maxCount && r.active[i]
      ensures i in r.activeList
    {
      if i == hw {
        assert r.activeList[|p.activeList|] == hw;
      } else {
        assert i in p.activeList;
      }
    }
  }

  /** despawn: frees slot i, zeroes its mass and decrements Count; the active list keeps it until compaction. */
  function Despawn(p: Pool, i: int): (r: Pool)
    requires Shaped(p) && 0 <= i < p.maxCount
    ensures Shaped(r) && r.maxCount == p.maxCount
    ensures !r.active[i] && r.mass[i] == 0.0 && r.freeList == p.freeList + [i] && r.count == p.count - 1
    ensures r.activeList == p.activeList
    ensures forall j :: 0 <= j < p.maxCount && j != i ==> r.active[j] == p.active[j] && r.mass[j] == p.mass[j]
  {
    p.(active := p.active[i := false], mass := p.mass[i := 0.0], freeList := p.freeList + [i], count := p.count - 1)
  }

  /** Despawning an active slot keeps the pool invariant with the same high-water mark. */
  lemma DespawnKeepsInv(p: Pool, hw: int, i: int)
    requires PoolInv(p, hw) && 0 <= i < p.maxCount && p.active[i]
    ensures PoolInv(Despawn(p, i), hw)
  {
    var r := Despawn(p, i);
    assert i !in p.freeList;
    assert i < hw;
    FreeListShort(p.freeList, hw, i);
    forall j | 0 <= j < hw && !r.active[j]
      ensures j in r.freeList
    {
      if j != i {
        assert j in p.freeList;
      } else {
        assert r.freeList[|p.freeList|] == i;
      }
    }
  }

  /** Distinct slots below hw that leave out slot i number fewer than hw: a free list never overflows. */
  lemma FreeListShort(s: seq<int>, hw: int, i: int)
    requires forall a, b :: 0 <= a < b < |s| ==> s[a] != s[b]
    requires forall k :: 0 <= k < |s| ==> 0 <= s[k] < hw && s[k] != i
    requires 0 <= i < hw
    ensures |s| < hw
  {
    var all := Below(hw);
    DistinctFits(s, all - {i});
    assert all == (all - {i}) + {i};
  }

  /** The slot numbers 0 .. n-1. */
  function Below(n: nat): (r: set<int>)
    ensures forall j :: j in r <==> 0 <= j < n
    ensures |r| == n
  {
    if n == 0 then {} else Below(n - 1) + {n - 1}
  }

  /** A duplicate-free sequence drawn from a set is no longer than the set is large. */
  lemma {:induction false} DistinctFits(s: seq<int>, within: set<int>)
    requires forall a, b :: 0 <= a < b < |s| ==> s[a] != s[b]
    requires forall k :: 0 <= k < |s| ==> s[k] in within
    ensures |s| <= |within|
    decreases |s|
  {
    if |s| > 0 {
      var x := s[|s| - 1];
      var front := s[..|s| - 1];
      assert forall k :: 0 <= k < |front| ==> front[k] == s[k] && front[k] != x;
      DistinctFits(front, within - {x});
      assert within == (within - {x}) + {x};
    }
  }

  /** TotalParticleMass: the mass carried by the active slots among the first |active| slots. */
  function ActiveMass(active: seq<bool>, mass: seq<real>): real
    requires |active| == |mass|
    decreases |active|
  {
    if |active| == 0 then 0.0
    else
      var n := |active| - 1;
      ActiveMass(active[..n], mass[..n]) + (if active[n] then mass[n] else 0.0)
  }

  /** What slot i adds to the particle mass. */
  function Carried(active: seq<bool>, mass: seq<real>, i: int): real
    requires 0 <= i < |active| == |mass|
  {
    if active[i] then mass[i] else 0.0
  }

  /** Rewriting one slot changes the particle mass by exactly that slot's change. */
  lemma {:induction false} ActiveMassUpdate(active: seq<bool>, mass: seq<real>, i: int, b: bool, m: real)
    requires 0 <= i < |active| == |mass|
    ensures ActiveMass(active[i := b], mass[i := m]) ==
      ActiveMass(active, mass) - Carried(active, mass, i) + (if b then m else 0.0)
    decreases |active|
  {
    var n := |active| - 1;
    var a' := active[i := b];
    var m' := mass[i := m];
    if i == n {
      assert a'[..n] == active[..n] && m'[..n] == mass[..n];
    } else {
      assert a'[..n] == active[..n][i := b] && m'[..n] == mass[..n][i := m];
      ActiveMassUpdate(active[..n], mass[..n], i, b, m);
    }
  }

  /** spawn into an available slot adds exactly the new particle's mass; into a full pool it adds nothing. */
  lemma SpawnAddsMass(p: Pool, hw: int, x: real, y: real, mass: real)
    requires PoolInv(p, hw)
    ensures var r := Spawn(p, x, y, mass);
      ActiveMass(r.active, r.mass) ==
        ActiveMass(p.active, p.mass) + (if |p.freeList| > 0 || p.count < p.maxCount then mass else 0.0)
  {
    if |p.freeList| > 0 {
      var idx := p.freeList[|p.freeList| - 1];
      ActiveMassUpdate(p.active, p.mass, idx, true, mass);
    } else if p.count < p.maxCount {
      assert p.count == hw;
      ActiveMassUpdate(p.active, p.mass, p.count, true, mass);
    }
  }

  /** despawn of an active slot removes exactly that particle's mass. */
  lemma DespawnRemovesMass(p: Pool, i: int)
    requires Shaped(p) && 0 <= i < p.maxCount && p.active[i]
    ensures ActiveMass(Despawn(p, i).active, Despawn(p, i).mass) == ActiveMass(p.active, p.mass) - p.mass[i]
  {
    ActiveMassUpdate(p.active, p.mass, i, false, 0.0);
  }

  /** The smallest mass a particle may keep. */
  const MinMass: real := 0.0001

  /** cleanupCompact's first pass: every listed slot still active but below MinMass is despawned. */
  function MarkDead(p: Pool, list: seq<int>): (r: Pool)
    requires Shaped(p) && forall k :: 0 <= k < |list| ==> 0 <= list[k] < p.maxCount
    ensures Shaped(r) && r.maxCount == p.maxCount && r.activeList == p.activeList
    ensures forall j :: 0 <= j < p.maxCount && j !in list ==> r.active[j] == p.active[j] && r.mass[j] == p.mass[j]
    ensures forall j :: 0 <= j < p.maxCount && j in list ==> r.active[j] == (p.active[j] && p.mass[j] >= MinMass)
    ensures forall j :: 0 <= j < p.maxCount && r.active[j] ==> p.active[j]
    decreases |list|
  {
    if |list| == 0 then p
    else
      var i := list[0];
      var q := if p.active[i] && p.mass[i] < MinMass then Despawn(p, i) else p;
      assert forall k :: 0 <= k < |list[1..]| ==> list[1..][k] == list[k + 1];
      assert forall j :: j in list <==> j == i || j in list[1..];
      MarkDead(q, list[1..])
  }

  lemma {:induction false} MarkDeadKeepsInv(p: Pool, hw: int, list: seq<int>)
    requires PoolInv(p, hw) && forall k :: 0 <= k < |list| ==> 0 <= list[k] < p.maxCount
    ensures PoolInv(MarkDead(p, list), hw)
    decreases |list|
  {
    if |list| > 0 {
      var i := list[0];
      assert forall k :: 0 <= k < |list[1..]| ==> list[1..][k] == list[k + 1];
      if p.active[i] && p.mass[i] < MinMass {
        DespawnKeepsInv(p, hw, i);
        MarkDeadKeepsInv(Despawn(p, i), hw, list[1..]);
      } else {
        MarkDeadKeepsInv(p, hw, list[1..]);
      }
    }
  }

  /** The listed slots that are active, in list order. */
  function KeepActive(list: seq<int>, active: seq<bool>): (r: seq<int>)
    requires forall k :: 0 <= k < |list| ==> 0 <= list[k] < |active|
    ensures forall k :: 0 <= k < |r| ==> 0 <= r[k] < |active| && active[r[k]]
    ensures forall i :: i in r <==> i in list && active[i]
    ensures |r| <= |list|
    decreases |list|
  {
    if |list| == 0 then []
    else
      assert forall k :: 0 <= k < |list[1..]| ==> list[1..][k] == list[k + 1];
      assert forall j :: j in list <==> j == list[0] || j in list[1..];
      var rest := KeepActive(list[1..], active);
      if active[list[0]] then [list[0]] + rest else rest
  }

  /** Compaction keeps the surviving entries in their original order. */
  lemma {:induction false} KeepActiveInOrder(list: seq<int>, active: seq<bool>)
    requires forall k :: 0 <= k < |list| ==> 0 <= list[k] < |active|
    ensures Subsequence(KeepActive(list, active), list)
    decreases |list|
  {
    if |list| > 0 {
      assert forall k :: 0 <= k < |list[1..]| ==> list[1..][k] == list[k + 1];
      KeepActiveInOrder(list[1..], active);
      var rest := KeepActive(list[1..], active);
      if active[list[0]] {
        assert ([list[0]] + rest)[1..] == rest;
      }
    }
  }

  /** a is b with some entries dropped and the order kept. */
  predicate Subsequence(a: seq<int>, b: seq<int>)
    decreases |b|
  {
    |a| == 0 || (|b| > 0 && ((a[0] == b[0] && Subsequence(a[1..], b[1..])) || Subsequence(a, b[1..])))
  }

  /**
   * cleanupCompact: listed slots below MinMass are despawned, and the
   * active list becomes exactly the previously listed slots that are
   * still active, in the same order.
   */
  function CleanupCompact(p: Pool): (r: Pool)
    requires Shaped(p)
    ensures Shaped(r) && r.maxCount == p.maxCount
    ensures forall j :: 0 <= j < p.maxCount && j in p.activeList ==> r.active[j] == (p.active[j] && p.mass[j] >= MinMass)
    ensures forall j :: 0 <= j < p.maxCount && j !in p.activeList ==> r.active[j] == p.active[j]
    ensures forall i :: 0 <= i < p.maxCount ==> (i in r.activeList <==> i in p.activeList && r.active[i])
    ensures Subsequence(r.activeList, p.activeList)
  {
    var q := MarkDead(p, p.activeList);
    KeepActiveInOrder(p.activeList, q.active);
    q.(activeList := KeepActive(p.activeList, q.active))
  }

  /** Compaction keeps the pool invariant, and afterwards every listed slot is active. */
  lemma CleanupKeepsInv(p: Pool, hw: int)
    requires PoolInv(p, hw)
    ensures PoolInv(CleanupCompact(p), hw)
    ensures forall k :: 0 <= k < |CleanupCompact(p).activeList| ==> CleanupCompact(p).active[CleanupCompact(p).activeList[k]]
  {
    MarkDeadKeepsInv(p, hw, p.activeList);
  }

  /** The part of an amount that a fraction takes. */
  function Portion(fraction: real, amount: real): real
  {
    fraction * amount
  }

  /** A non-negative fraction of a non-negative amount is non-negative. */
  lemma PortionNonNegative(fraction: real, amount: real)
    requires fraction >= 0.0 && amount >= 0.0
    ensures Portion(fraction, amount) >= 0.0
  {
    MulMonotone(amount, 0.0, fraction);
    assert amount * fraction == fraction * amount;
  }

  /**
   * StepDetritus: each positive detritus cell loses rate * dt of itself;
   * eff of that goes to the resource cell and the rest is returned as
   * heat. Detritus lost equals resource gained plus heat, and cells with
   * no detritus are untouched.
   */
  method StepDetritus(det: seq<real>, res: seq<real>, decayRate: real, dt: real, eff: real)
    returns (det': seq<real>, res': seq<real>, heat: real)
    requires |res| == |det|
    ensures |det'| == |det| && |res'| == |res|
    ensures Sum(det) - Sum(det') == (Sum(res') - Sum(res)) + heat
    ensures forall i :: 0 <= i < |det| && det[i] <= 0.0 ==> det'[i] == det[i] && res'[i] == res[i]
    ensures forall i :: 0 <= i < |det| ==> res'[i] - res[i] == Portion(eff, det[i] - det'[i])
    ensures 0.0 <= decayRate * dt <= 1.0 ==> forall i :: 0 <= i < |det| && det[i] >= 0.0 ==> 0.0 <= det'[i] <= det[i]
  {
    var rate := decayRate * dt;
    det' := det;
    res' := res;
    heat := 0.0;
    var i := 0;
    while i < |det|
      invariant 0 <= i <= |det| && |det'| == |det| && |res'| == |res|
      invariant Sum(det) - Sum(det') == (Sum(res') - Sum(res)) + heat
      invariant forall j :: i <= j < |det| ==> det'[j] == det[j] && res'[j] == res[j]
      invariant forall j :: 0 <= j < i && det[j] <= 0.0 ==> det'[j] == det[j] && res'[j] == res[j]
      invariant forall j :: 0 <= j < i ==> res'[j] - res[j] == Portion(eff, det[j] - det'[j])
      invariant 0.0 <= rate <= 1.0 ==> forall j :: 0 <= j < i && det[j] >= 0.0 ==> 0.0 <= det'[j] <= det[j]
    {
      var d := det'[i];
      if d > 0.0 {
        var decayed := Portion(rate, d);
        var gained := Portion(eff, decayed);
        var lost := Portion(1.0 - eff, decayed);
        DecayShares(d, decayed, eff);
        DecayBounds(d, rate);
        SumUpdate(det', i, d - decayed);
        SumUpdate(res', i, res'[i] + gained);
        det' := det'[i := d - decayed];
        res' := res'[i := res'[i] + gained];
        heat := heat + lost;
      } else {
        ZeroPortion(eff);
      }
      i := i + 1;
    }
  }

  lemma ZeroPortion(f: real)
    ensures Portion(f, 0.0) == 0.0
  {
  }

  lemma DecayShares(d: real, decayed: real, eff: real)
    ensures Portion(eff, decayed) + Portion(1.0 - eff, decayed) == decayed
    ensures Portion(eff, d - (d - decayed)) == Portion(eff, decayed)
  {
  }

  lemma DecayBounds(d: real, rate: real)
    requires d > 0.0
    ensures 0.0 <= rate <= 1.0 ==> 0.0 <= d - Portion(rate, d) <= d
  {
    if 0.0 <= rate <= 1.0 {
      MulMonotone(d, 0.0, rate);
      MulMonotone(d, rate, 1.0);
      assert d * rate == rate * d;
    }
  }

  /** Grid coordinates of a world position (x / worldW * gridW). */
  function GridCoord(p: real, world: real, cells: int): real
    requires world > 0.0
  {
    p / world * cells as real
  }

  lemma GridCoordNonNegative(p: real, world: real, cells: int)
    requires world > 0.0 && p >= 0.0 && cells >= 0
    ensures GridCoord(p, world, cells) >= 0.0
  {
    DivNonNegative(p, world);
    MulMonotone(p / world, 0.0, cells as real);
    assert p / world * 0.0 == 0.0;
  }

  /** Grid geometry: a w x h grid covering a worldW x worldH world. */
  datatype Geometry = Geometry(w: int, h: int, worldW: real, worldH: real)

  predicate ValidGeometry(g: Geometry)
  {
    g.w > 0 && g.h > 0 && g.worldW > 0.0 && g.worldH > 0.0
  }

  /** The bilinear corners of a position inside the world, with the mass spread over them. */
  function Spread(g: Geometry, x: real, y: real, mass: real): (cs: seq<Cell>)
    requires ValidGeometry(g) && x >= 0.0 && y >= 0.0
    ensures InGrid(cs, g.w * g.h)
    ensures Total(cs) == mass
    ensures mass >= 0.0 ==> forall k :: 0 <= k < |cs| ==> cs[k].amount >= 0.0
  {
    GridCoordNonNegative(x, g.worldW, g.w);
    GridCoordNonNegative(y, g.worldH, g.h);
    var corners := Corners(GridCoord(x, g.worldW, g.w), GridCoord(y, g.worldH, g.h), g.w, g.h);
    ScaleTotal(corners, mass);
    assert mass * 1.0 == mass;
    var cs := Scale(corners, mass);
    forall k | 0 <= k < |cs| && mass >= 0.0
      ensures cs[k].amount >= 0.0
    {
      MulMonotone(mass, 0.0, corners[k].amount);
      assert mass * 0.0 == 0.0;
    }
    cs
  }

  /**
   * splatToGrid: nothing for a non-positive mass; without a capacity all
   * of it is deposited; with one, what is deposited lies between 0 and
   * the mass and no cell is pushed past the capacity. The grid total
   * always grows by exactly what is deposited.
   */
  function SplatToGrid(res: seq<real>, g: Geometry, x: real, y: real, mass: real, cellCapacity: real): (r: Moved)
    requires ValidGeometry(g) && |res| == g.w * g.h && x >= 0.0 && y >= 0.0
    ensures |r.grid| == |res|
    ensures Sum(r.grid) == Sum(res) + r.moved
    ensures mass <= 0.0 ==> r == Moved(res, 0.0)
    ensures mass > 0.0 && cellCapacity <= 0.0 ==> r.moved == mass
    ensures mass > 0.0 && cellCapacity > 0.0 ==>
      0.0 <= r.moved <= mass && forall i :: 0 <= i < |res| && res[i] <= cellCapacity ==> r.grid[i] <= cellCapacity
  {
    if mass <= 0.0 then Moved(res, 0.0)
    else
      var cs := Spread(g, x, y, mass);
      if cellCapacity <= 0.0 then Moved(AddAll(res, cs), mass)
      else
        PosTotalOfNonNegative(cs);
        PutAll(res, cs, cellCapacity)
  }

  /**
   * removeFromGrid: nothing for a non-positive mass; otherwise each corner
   * gives up at most its share. The grid total drops by exactly what is
   * removed, and on a non-negative grid no cell goes negative and at most
   * the requested mass is removed.
   */
  function RemoveFromGrid(res: seq<real>, g: Geometry, x: real, y: real, mass: real): (r: Moved)
    requires ValidGeometry(g) && |res| == g.w * g.h && x >= 0.0 && y >= 0.0
    ensures |r.grid| == |res|
    ensures Sum(r.grid) == Sum(res) - r.moved
    ensures mass <= 0.0 ==> r == Moved(res, 0.0)
    ensures NonNegative(res) ==> NonNegative(r.grid) && 0.0 <= r.moved && (mass > 0.0 ==> r.moved <= mass)
  {
    if mass <= 0.0 then Moved(res, 0.0)
    else
      var cs := Spread(g, x, y, mass);
      PosTotalOfNonNegative(cs);
      TakeAll(res, cs)
  }

  /**
   * DepositDetritus / splatToDetGrid: nothing for a non-positive amount;
   * otherwise the whole amount lands on the detritus grid and is returned.
   */
  function DepositDetritus(det: seq<real>, g: Geometry, x: real, y: real, amount: real): (r: Moved)
    requires ValidGeometry(g) && |det| == g.w * g.h && x >= 0.0 && y >= 0.0
    ensures |r.grid| == |det|
    ensures amount <= 0.0 ==> r == Moved(det, 0.0)
    ensures amount > 0.0 ==> r.moved == amount && Sum(r.grid) == Sum(det) + amount
    ensures amount > 0.0 ==> forall i :: 0 <= i < |det| ==> r.grid[i] >= det[i]
  {
    if amount <= 0.0 then Moved(det, 0.0)
    else Moved(AddAll(det, Spread(g, x, y, amount)), amount)
  }

  /** The cell a grazer stands on: the wrapped fractional position scaled to the grid. */
  function GrazeCentre(p: real, world: real, cells: int): (c: int)
    requires world > 0.0 && cells > 0
    ensures 0 <= c <= cells
  {
    var u := Fract(p / world);
    ScaledCell(u, cells);
    Trunc(u * cells as real)
  }

  /** A fraction in [0, 1] scaled to n cells truncates to a cell index from 0 to n. */
  lemma ScaledCell(u: real, cells: int)
    requires 0.0 <= u <= 1.0 && cells > 0
    ensures 0 <= Trunc(u * cells as real) <= cells
  {
    var n := cells as real;
    MulMonotone(n, 0.0, u);
    MulMonotone(n, u, 1.0);
    assert n * 0.0 == 0.0 && n * 1.0 == n;
    assert u * n == n * u;
    TruncMonotone(u * n, n);
    TruncMonotone(0.0, u * n);
    TruncOfWhole(cells);
  }

  /**
   * grazeFromGrid: nothing when rate * dt is not positive or the kernel is
   * empty (a negative radius); otherwise each kernel cell gives up at most
   * its tent-weighted share. The grid total drops by exactly what is
   * removed, and on a non-negative grid cells stay non-negative and at
   * most rate * dt is removed.
   */
  function GrazeFromGrid(res: seq<real>, g: Geometry, x: real, y: real, rate: real, dt: real, radius: int): (r: Moved)
    requires ValidGeometry(g) && |res| == g.w * g.h
    ensures |r.grid| == |res|
    ensures Sum(r.grid) == Sum(res) - r.moved
    ensures rate * dt <= 0.0 || radius < 0 ==> r == Moved(res, 0.0)
    ensures NonNegative(res) ==> NonNegative(r.grid) && 0.0 <= r.moved <= Max(rate * dt, 0.0)
  {
    var cx := GrazeCentre(x, g.worldW, g.w);
    var cy := GrazeCentre(y, g.worldH, g.h);
    var want := rate * dt;
    if want <= 0.0 then Moved(res, 0.0)
    else
      var os := Offsets(radius);
      var wsum := TentSum(os, radius);
      TentSumPositive(radius);
      if wsum <= 0.0 then Moved(res, 0.0)
      else
        var cs := GrazeCells(os, radius, cx, cy, g.w, g.h, want, wsum);
        GrazeSharesTotal(os, radius, cx, cy, g.w, g.h, want);
        PosTotalOfNonNegative(cs);
        TakeAll(res, cs)
  }
}
