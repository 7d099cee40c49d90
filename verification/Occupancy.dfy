/** GPU occupancy and the register search of stream_executor/device_description.cc. */
module Occupancy {
  import opened Basics

  const UNINITIALIZED := 0xFFFF_FFFF_FFFF_FFFF
  const INT_LIMIT := 0x8000_0000

  datatype Device = Device(registersPerThreadLimit: nat, threadsPerWarp: nat, warpAllocGranularity: nat,
                           registerAllocGranularity: nat, registersPerBlockLimit: nat, sharedMemoryPerCore: nat,
                           blocksPerCoreLimit: nat, sharedMemoryAllocGranularity: nat, threadsPerCoreLimit: nat)

  // ---- Rounding ------------------------------------------------------------------------------------

  function CeilOfRatio(x: nat, y: nat): nat
    requires y > 0
  {
    x / y + if x > x / y * y then 1 else 0
  }

  function RoundUp(x: nat, n: nat): nat
    requires n > 0
  {
    CeilOfRatio(x, n) * n
  }

  function RoundDown(x: nat, n: nat): nat
    requires n > 0
  {
    x / n * n
  }

  /** x / y is the number of whole times y goes into x. */
  lemma DivGalois(x: nat, y: nat, n: nat)
    requires y > 0
    ensures n <= x / y <==> n * y <= x
  {
    if n <= x / y {
      MulMonotone(n, x / y, y);
    } else {
      MulMonotone(x / y + 1, n, y);
    }
  }

  /** The ceiling is the least number of y's that cover x. */
  lemma CeilGalois(x: nat, y: nat, n: nat)
    requires y > 0
    ensures CeilOfRatio(x, y) <= n <==> x <= n * y
  {
    var q := x / y;
    assert q * y <= x < q * y + y;
    if CeilOfRatio(x, y) <= n {
      MulMonotone(CeilOfRatio(x, y), n, y);
    } else {
      MulMonotone(n, CeilOfRatio(x, y) - 1, y);
    }
  }

  /** RoundUp gives the least multiple of n that is at least x. */
  lemma RoundUpLeast(x: nat, n: nat, m: nat)
    requires n > 0
    ensures x <= RoundUp(x, n)
    ensures x <= m * n ==> RoundUp(x, n) <= m * n
  {
    CeilGalois(x, n, CeilOfRatio(x, n));
    CeilGalois(x, n, m);
    if x <= m * n {
      MulMonotone(CeilOfRatio(x, n), m, n);
    }
  }

  lemma RoundUpMonotone(x: nat, y: nat, n: nat)
    requires x <= y && n > 0
    ensures RoundUp(x, n) <= RoundUp(y, n)
  {
    CeilGalois(y, n, CeilOfRatio(y, n));
    RoundUpLeast(x, n, CeilOfRatio(y, n));
  }

  lemma RoundUpPositive(x: nat, n: nat)
    requires x > 0 && n > 0
    ensures RoundUp(x, n) > 0
  {
    RoundUpLeast(x, n, 0);
  }

  // ---- Occupancy --------------------------------------------------------------------------------------

  predicate Initialized(d: Device) {
    && d.registersPerThreadLimit != UNINITIALIZED && d.threadsPerWarp != UNINITIALIZED
    && d.warpAllocGranularity != UNINITIALIZED && d.registerAllocGranularity != UNINITIALIZED
    && d.registersPerBlockLimit != UNINITIALIZED && d.sharedMemoryPerCore != UNINITIALIZED
    && d.blocksPerCoreLimit != UNINITIALIZED
  }

  /** The required fields are set and the register count is legal; otherwise the occupancy is zero. */
  predicate Computes(d: Device, registers: nat) {
    Initialized(d) && registers <= d.registersPerThreadLimit
  }

  /** The divisors are not zero: otherwise the source divides by zero. */
  predicate Proper(d: Device) {
    && d.threadsPerWarp > 0 && d.warpAllocGranularity > 0 && d.registerAllocGranularity > 0
    && d.sharedMemoryAllocGranularity > 0
  }

  function WarpsPerBlock(d: Device, threads: nat): nat
    requires Proper(d)
  {
    CeilOfRatio(threads, d.threadsPerWarp)
  }

  function RegistersPerBlock(d: Device, registers: nat, threads: nat): nat
    requires Proper(d)
  {
    RoundUp(WarpsPerBlock(d, threads), d.warpAllocGranularity)
    * RoundUp(d.threadsPerWarp * registers, d.registerAllocGranularity)
  }

  function SharedMemoryPerBlock(d: Device, shared: nat): nat
    requires Proper(d)
  {
    RoundUp(shared, d.sharedMemoryAllocGranularity)
  }

  function ThreadsPerBlock(d: Device, threads: nat): nat
    requires Proper(d)
  {
    WarpsPerBlock(d, threads) * d.threadsPerWarp
  }

  function Min(a: nat, b: nat): nat {
    if a <= b then a else b
  }

  lemma DivisorsPositive(d: Device, registers: nat, threads: nat)
    requires Proper(d) && registers > 0 && threads > 0
    ensures RegistersPerBlock(d, registers, threads) > 0 && ThreadsPerBlock(d, threads) > 0
  {
    var w := WarpsPerBlock(d, threads);
    CeilGalois(threads, d.threadsPerWarp, 0);
    RoundUpPositive(w, d.warpAllocGranularity);
    MulPositive(d.threadsPerWarp, registers);
    RoundUpPositive(d.threadsPerWarp * registers, d.registerAllocGranularity);
    MulPositive(RoundUp(w, d.warpAllocGranularity), RoundUp(d.threadsPerWarp * registers, d.registerAllocGranularity));
    MulPositive(w, d.threadsPerWarp);
  }

  /** CalculateOccupancy; `threads` is the product of the block's dimensions. */
  function CalculateOccupancy(d: Device, registers: nat, shared: nat, threads: nat): nat
    requires Computes(d, registers) ==> Proper(d) && registers > 0 && threads > 0
  {
    if !Computes(d, registers) then 0
    else
      DivisorsPositive(d, registers, threads);
      var regLimit := d.registersPerBlockLimit / RegistersPerBlock(d, registers, threads);
      var smem := SharedMemoryPerBlock(d, shared);
      var smemLimit := if smem > 0 then d.sharedMemoryPerCore / smem else d.blocksPerCoreLimit;
      var threadLimit := d.threadsPerCoreLimit / ThreadsPerBlock(d, threads);
      Min(Min(d.blocksPerCoreLimit, regLimit), Min(smemLimit, threadLimit))
  }

  /** n blocks fit the limits, in terms of what the code allocates. */
  predicate Fits(d: Device, registers: nat, shared: nat, threads: nat, n: nat)
    requires Proper(d)
  {
    && n <= d.blocksPerCoreLimit
    && n * RegistersPerBlock(d, registers, threads) <= d.registersPerBlockLimit
    && n * SharedMemoryPerBlock(d, shared) <= d.sharedMemoryPerCore
    && n * ThreadsPerBlock(d, threads) <= d.threadsPerCoreLimit
  }

  lemma FitsIff(d: Device, registers: nat, shared: nat, threads: nat, n: nat)
    requires Proper(d) && registers > 0 && threads > 0 && Computes(d, registers)
    ensures Fits(d, registers, shared, threads, n) <==> n <= CalculateOccupancy(d, registers, shared, threads)
  {
    DivisorsPositive(d, registers, threads);
    DivGalois(d.registersPerBlockLimit, RegistersPerBlock(d, registers, threads), n);
    DivGalois(d.threadsPerCoreLimit, ThreadsPerBlock(d, threads), n);
    if SharedMemoryPerBlock(d, shared) > 0 {
      DivGalois(d.sharedMemoryPerCore, SharedMemoryPerBlock(d, shared), n);
    }
  }

  // ---- What a device allocates --------------------------------------------------------------------------

  ghost predicate IsMultiple(m: nat, unit: nat) {
    exists k: nat :: m == k * unit
  }

  /** The least multiple of the unit that is at least x. */
  ghost predicate LeastMultiple(m: nat, unit: nat, x: nat) {
    IsMultiple(m, unit) && x <= m && forall q: nat | IsMultiple(q, unit) && x <= q :: m <= q
  }

  /** The least multiple of the warp granularity that holds the threads of a block. */
  ghost predicate AllocatesWarps(d: Device, threads: nat, a: nat) {
    && IsMultiple(a, d.warpAllocGranularity) && threads <= a * d.threadsPerWarp
    && forall q: nat | IsMultiple(q, d.warpAllocGranularity) && threads <= q * d.threadsPerWarp :: a <= q
  }

  lemma RoundUpIsLeast(x: nat, n: nat)
    requires n > 0
    ensures LeastMultiple(RoundUp(x, n), n, x)
  {
    RoundUpLeast(x, n, 0);
    forall q: nat | IsMultiple(q, n) && x <= q ensures RoundUp(x, n) <= q {
      var k: nat :| q == k * n;
      RoundUpLeast(x, n, k);
    }
  }

  lemma WarpsAreAllocated(d: Device, threads: nat)
    requires Proper(d)
    ensures AllocatesWarps(d, threads, RoundUp(WarpsPerBlock(d, threads), d.warpAllocGranularity))
  {
    var warps, tpw := WarpsPerBlock(d, threads), d.threadsPerWarp;
    var a := RoundUp(warps, d.warpAllocGranularity);
    RoundUpIsLeast(warps, d.warpAllocGranularity);
    CeilGalois(threads, tpw, a);
    forall q: nat | IsMultiple(q, d.warpAllocGranularity) && threads <= q * tpw ensures a <= q {
      CeilGalois(threads, tpw, q);
    }
  }

  /** Whole warps: the least multiple of the warp size that holds the threads of a block. */
  lemma ThreadsAreWhole(d: Device, threads: nat)
    requires Proper(d)
    ensures LeastMultiple(ThreadsPerBlock(d, threads), d.threadsPerWarp, threads)
  {
    RoundUpIsLeast(threads, d.threadsPerWarp);
  }

  /**
   What a block takes: a warps of b registers each, c bytes of shared memory, t threads, every one
   rounded up to the device's own unit.
   */
  ghost predicate Takes(d: Device, registers: nat, shared: nat, threads: nat, a: nat, b: nat, c: nat, t: nat) {
    && AllocatesWarps(d, threads, a)
    && LeastMultiple(b, d.registerAllocGranularity, d.threadsPerWarp * registers)
    && LeastMultiple(c, d.sharedMemoryAllocGranularity, shared)
    && LeastMultiple(t, d.threadsPerWarp, threads)
  }

  lemma TakesExactly(d: Device, registers: nat, shared: nat, threads: nat, a: nat, b: nat, c: nat, t: nat)
    requires Proper(d)
    ensures Takes(d, registers, shared, threads, a, b, c, t)
            <==> && a == RoundUp(WarpsPerBlock(d, threads), d.warpAllocGranularity)
                 && b == RoundUp(d.threadsPerWarp * registers, d.registerAllocGranularity)
                 && c == SharedMemoryPerBlock(d, shared) && t == ThreadsPerBlock(d, threads)
  {
    WarpsAreAllocated(d, threads);
    RoundUpIsLeast(d.threadsPerWarp * registers, d.registerAllocGranularity);
    RoundUpIsLeast(shared, d.sharedMemoryAllocGranularity);
    ThreadsAreWhole(d, threads);
  }

  /** n blocks can be resident on a core at once, by the device's own quantities. */
  ghost predicate CanReside(d: Device, registers: nat, shared: nat, threads: nat, n: nat) {
    exists a: nat, b: nat, c: nat, t: nat ::
      Takes(d, registers, shared, threads, a, b, c, t) && WithinLimits(d, a, b, c, t, n)
  }

  predicate WithinLimits(d: Device, a: nat, b: nat, c: nat, t: nat, n: nat) {
    && n <= d.blocksPerCoreLimit && n * (a * b) <= d.registersPerBlockLimit
    && n * c <= d.sharedMemoryPerCore && n * t <= d.threadsPerCoreLimit
  }

  /** The occupancy is the true maximum: n blocks fit all four limits exactly when n is no larger. */
  lemma OccupancyIsMaximum(d: Device, registers: nat, shared: nat, threads: nat, n: nat)
    requires Proper(d) && registers > 0 && threads > 0
    requires Initialized(d) && registers <= d.registersPerThreadLimit
    ensures CanReside(d, registers, shared, threads, n) <==> n <= CalculateOccupancy(d, registers, shared, threads)
  {
    var a := RoundUp(WarpsPerBlock(d, threads), d.warpAllocGranularity);
    var b := RoundUp(d.threadsPerWarp * registers, d.registerAllocGranularity);
    var c, t := SharedMemoryPerBlock(d, shared), ThreadsPerBlock(d, threads);
    FitsIff(d, registers, shared, threads, n);
    TakesExactly(d, registers, shared, threads, a, b, c, t);
    forall a': nat, b': nat, c': nat, t': nat | Takes(d, registers, shared, threads, a', b', c', t')
      ensures a' == a && b' == b && c' == c && t' == t
    {
      TakesExactly(d, registers, shared, threads, a', b', c', t');
    }
    assert Fits(d, registers, shared, threads, n) <==> WithinLimits(d, a, b, c, t, n);
  }

  /** An unset required field, or too many registers, makes the occupancy zero. */
  lemma OccupancyZero(d: Device, registers: nat, shared: nat, threads: nat)
    requires Proper(d) && registers > 0 && threads > 0
    requires 0xFFFF_FFFF_FFFF_FFFF in {d.registersPerThreadLimit, d.threadsPerWarp, d.warpAllocGranularity,
                                       d.registerAllocGranularity, d.registersPerBlockLimit, d.sharedMemoryPerCore,
                                       d.blocksPerCoreLimit}
             || registers > d.registersPerThreadLimit
    ensures CalculateOccupancy(d, registers, shared, threads) == 0
  {
  }

  /** Occupancy never rises with more registers per thread or more shared memory per block. */
  lemma OccupancyAntitone(d: Device, r: nat, r': nat, s: nat, s': nat, threads: nat)
    requires Proper(d) && 0 < r <= r' && s <= s' && threads > 0
    ensures CalculateOccupancy(d, r', s', threads) <= CalculateOccupancy(d, r, s, threads)
  {
    if Initialized(d) && r' <= d.registersPerThreadLimit {
      var n := CalculateOccupancy(d, r', s', threads);
      FitsIff(d, r', s', threads, n);
      FitsIff(d, r, s, threads, n);
      var warps, w := RoundUp(WarpsPerBlock(d, threads), d.warpAllocGranularity), d.threadsPerWarp;
      MulMonotone(r, r', w);
      RoundUpMonotone(w * r, w * r', d.registerAllocGranularity);
      MulMonotone(RoundUp(w * r, d.registerAllocGranularity), RoundUp(w * r', d.registerAllocGranularity), warps);
      MulMonotone(RegistersPerBlock(d, r, threads), RegistersPerBlock(d, r', threads), n);
      RoundUpMonotone(s, s', d.sharedMemoryAllocGranularity);
      MulMonotone(SharedMemoryPerBlock(d, s), SharedMemoryPerBlock(d, s'), n);
    }
  }

  // ---- The register search ------------------------------------------------------------------------------

  function RegStep(d: Device): nat
    requires Proper(d)
  {
    d.registerAllocGranularity / d.threadsPerWarp
  }

  predicate Meets(d: Device, shared: nat, threads: nat, target: nat, r: nat)
    requires Proper(d) && threads > 0 && r > 0
  {
    CalculateOccupancy(d, r, shared, threads) >= target
  }

  /** The search from r down, in steps. */
  function SearchFrom(d: Device, shared: nat, threads: nat, target: nat, r: nat): nat
    requires Proper(d) && threads > 0 && RegStep(d) > 0
  {
    if r == 0 then 0
    else if Meets(d, shared, threads, target, r) then r
    else
      DivGalois(r - 1, RegStep(d), (r - 1) / RegStep(d));
      SearchFrom(d, shared, threads, target, RoundDown(r - 1, RegStep(d)))
  }

  /** The limit is a register count that an int can hold. */
  method CalculateRegisterLimit(d: Device, shared: nat, threads: nat, target: nat) returns (r: nat)
    requires Proper(d) && threads > 0 && RegStep(d) > 0 && d.registersPerThreadLimit < INT_LIMIT
    ensures r == SearchFrom(d, shared, threads, target, d.registersPerThreadLimit)
    ensures Tiles(d) ==> Greatest(d, shared, threads, target, d.registersPerThreadLimit, r)
  {
    if Tiles(d) {
      SearchIsGreatest(d, shared, threads, target, d.registersPerThreadLimit);
    }
    var step := d.registerAllocGranularity / d.threadsPerWarp;
    r := d.registersPerThreadLimit;
    while r > 0
      invariant SearchFrom(d, shared, threads, target, r)
                == SearchFrom(d, shared, threads, target, d.registersPerThreadLimit)
    {
      var occupancy := CalculateOccupancy(d, r, shared, threads);
      if occupancy >= target {
        return r;
      }
      DivGalois(r - 1, step, (r - 1) / step);
      r := RoundDown(r - 1, step);
    }
  }

  /** r is the greatest count in 1..limit that meets the target, or 0 when none does. */
  ghost predicate Greatest(d: Device, shared: nat, threads: nat, target: nat, limit: nat, r: nat)
    requires Proper(d) && threads > 0
  {
    && r <= limit
    && (r > 0 ==> Meets(d, shared, threads, target, r))
    && forall q | r < q <= limit :: !Meets(d, shared, threads, target, q)
  }

  /** The allocation unit is a whole number of registers per thread, or the step is one anyway. */
  predicate Tiles(d: Device)
    requires Proper(d)
  {
    d.registerAllocGranularity % d.threadsPerWarp == 0 || RegStep(d) == 1
  }

  /** Scaling both sides by w does not change how many units cover r. */
  lemma ScaledCover(w: nat, r: nat, step: nat, n: nat)
    requires w > 0 && step > 0
    ensures w * step > 0 && (CeilOfRatio(w * r, w * step) <= n <==> CeilOfRatio(r, step) <= n)
  {
    MulPositive(w, step);
    CeilGalois(w * r, w * step, n);
    CeilGalois(r, step, n);
    Cancel(w, r, n * step);
    assert n * (w * step) == w * (n * step);
  }

  lemma ScaleCeil(w: nat, r: nat, step: nat)
    requires w > 0 && step > 0
    ensures w * step > 0 && CeilOfRatio(w * r, w * step) == CeilOfRatio(r, step)
  {
    MulPositive(w, step);
    ScaledCover(w, r, step, CeilOfRatio(w * r, w * step));
    ScaledCover(w, r, step, CeilOfRatio(r, step));
  }

  lemma Cancel(w: nat, x: nat, y: nat)
    requires w > 0
    ensures w * x <= w * y <==> x <= y
  {
    if x > y {
      MulMonotone(y + 1, x, w);
    } else {
      MulMonotone(x, y, w);
    }
  }

  /** Between two steps the allocation, and so the occupancy, does not change. */
  lemma SameBetweenSteps(d: Device, shared: nat, threads: nat, q: nat, r: nat)
    requires Proper(d) && threads > 0 && RegStep(d) > 0
    requires d.registerAllocGranularity % d.threadsPerWarp == 0 && r > 0
    requires RoundDown(r - 1, RegStep(d)) < q <= r <= d.registersPerThreadLimit
    ensures q > 0 && CalculateOccupancy(d, q, shared, threads) == CalculateOccupancy(d, r, shared, threads)
  {
    var w, g, step := d.threadsPerWarp, d.registerAllocGranularity, RegStep(d);
    assert g == w * step;
    var k := (r - 1) / step;
    assert k * step <= r - 1 < k * step + step;
    assert (k + 1) * step == k * step + step;
    CeilGalois(q, step, k);
    CeilGalois(q, step, k + 1);
    CeilGalois(r, step, k);
    CeilGalois(r, step, k + 1);
    ScaleCeil(w, q, step);
    ScaleCeil(w, r, step);
  }

  /** The stepped search finds the optimum although it skips most counts. */
  lemma {:induction false} SearchIsGreatest(d: Device, shared: nat, threads: nat, target: nat, r: nat)
    requires Proper(d) && threads > 0 && RegStep(d) > 0 && Tiles(d) && r <= d.registersPerThreadLimit
    ensures Greatest(d, shared, threads, target, r, SearchFrom(d, shared, threads, target, r))
  {
    if r > 0 && !Meets(d, shared, threads, target, r) {
      var step := RegStep(d);
      var next := RoundDown(r - 1, step);
      DivGalois(r - 1, step, (r - 1) / step);
      SearchIsGreatest(d, shared, threads, target, next);
      forall q | next < q <= r ensures !Meets(d, shared, threads, target, q) {
        if q < r {
          if step > 1 {
            SameBetweenSteps(d, shared, threads, q, r);
          }
        }
      }
    }
  }

  // ---- Exactly when the search is optimal ---------------------------------------------------------------

  /** One block of one thread per core. */
  function Witness(w: nat, g: nat, limit: nat, registers: nat): Device {
    Device(limit, w, 1, g, registers, 1, 1, 1, w)
  }

  lemma WitnessMeets(w: nat, g: nat, limit: nat, registers: nat, r: nat)
    requires 0 < w < INT_LIMIT && 0 < g < INT_LIMIT && 0 < r <= limit < INT_LIMIT && registers < UNINITIALIZED
    ensures var d := Witness(w, g, limit, registers);
            && Proper(d) && Initialized(d)
            && (Meets(d, 0, 1, 1, r) <==> RoundUp(w * r, g) <= registers)
  {
    var d := Witness(w, g, limit, registers);
    CeilGalois(1, w, 1);
    CeilGalois(1, w, 0);
    assert WarpsPerBlock(d, 1) == 1 && RoundUp(1, 1) == 1;
    FitsIff(d, r, 0, 1, 1);
    assert SharedMemoryPerBlock(d, 0) == 0 && ThreadsPerBlock(d, 1) == w;
    assert RegistersPerBlock(d, r, 1) == RoundUp(w * r, g);
  }

  /** With registers for k allocation units, r registers per thread fit when k units cover a warp. */
  lemma WitnessOccupancy(w: nat, g: nat, k: nat, limit: nat, r: nat)
    requires 0 < w <= g < INT_LIMIT && 0 < k <= w && 0 < r <= limit < INT_LIMIT
    ensures var d := Witness(w, g, limit, k * g);
            && Proper(d) && Initialized(d)
            && (Meets(d, 0, 1, 1, r) <==> w * r <= k * g)
  {
    MulMonotone(k, INT_LIMIT, g);
    WitnessMeets(w, g, limit, k * g, r);
    RoundUpLeast(w * r, g, k);
  }

  /** The first multiple of the remainder that reaches w. */
  lemma Carry(w: nat, rem: nat) returns (k: nat)
    requires 0 < rem < w
    ensures 0 < k <= w && w <= k * rem < 2 * w
  {
    k := CeilOfRatio(w, rem);
    CeilGalois(w, rem, k);
    CeilGalois(w, rem, 0);
    CeilGalois(w, rem, k - 1);
    CeilGalois(w, rem, w);
    MulMonotone(1, rem, w);
    assert (k - 1) * rem == k * rem - rem;
  }

  lemma Expand(k: nat, w: nat, s: nat, rem: nat)
    ensures k * (w * s + rem) == w * (k * s) + k * rem
  {
    assert k * (w * s + rem) == k * (w * s) + k * rem;
    assert k * (w * s) == w * (k * s);
  }

  lemma RoundDownNext(k: nat, s: nat)
    requires s > 1
    ensures RoundDown(k * s + 1, s) == k * s
  {
    DivGalois(k * s + 1, s, k);
    DivGalois(k * s + 1, s, k + 1);
    assert (k + 1) * s == k * s + s;
  }

  /** Some k units hold k * step + 1 registers per thread, one more than the search looks at. */
  lemma UnevenUnits(w: nat, g: nat) returns (k: nat, top: nat)
    requires 0 < w && g / w > 1 && g % w > 0
    ensures 0 < k <= w
    ensures w * (top + 1) <= k * g < w * (top + 2)
    ensures RoundDown(top + 1, g / w) == top <= g
  {
    var s, rem := g / w, g % w;
    assert g == w * s + rem;
    k := Carry(w, rem);
    top := k * s;
    MulMonotone(k, w, s);
    Expand(k, w, s, rem);
    assert w * (top + 1) == w * top + w && w * (top + 2) == w * top + 2 * w;
    RoundDownNext(k, s);
  }

  /**
   When the units do not tile and the step is more than one, some device with these units makes the
   search miss the optimum: some count meets the target that it steps over.
   */
  lemma UnevenSearchFails(w: nat, g: nat) returns (d: Device)
    requires 0 < w && g / w > 1 && g % w > 0 && g < INT_LIMIT - 2
    ensures d.threadsPerWarp == w && d.registerAllocGranularity == g && Proper(d) && RegStep(d) > 0
    ensures d.registersPerThreadLimit < INT_LIMIT
    ensures !Greatest(d, 0, 1, 1, d.registersPerThreadLimit, SearchFrom(d, 0, 1, 1, d.registersPerThreadLimit))
  {
    DivGalois(g, w, 1);
    var k, top := UnevenUnits(w, g);
    d := Witness(w, g, top + 2, k * g);
    WitnessOccupancy(w, g, k, top + 2, top + 2);
    WitnessOccupancy(w, g, k, top + 2, top + 1);
    StepsOver(d, top);
  }

  /** From top + 2 the search steps over top + 1. */
  lemma StepsOver(d: Device, top: nat)
    requires Proper(d) && RegStep(d) > 0 && RoundDown(top + 1, RegStep(d)) == top
    requires !Meets(d, 0, 1, 1, top + 2) && Meets(d, 0, 1, 1, top + 1)
    ensures !Greatest(d, 0, 1, 1, top + 2, SearchFrom(d, 0, 1, 1, top + 2))
  {
    SearchStays(d, 0, 1, 1, top);
    assert SearchFrom(d, 0, 1, 1, top + 2) == SearchFrom(d, 0, 1, 1, top) <= top;
  }

  lemma {:induction false} SearchStays(d: Device, shared: nat, threads: nat, target: nat, r: nat)
    requires Proper(d) && threads > 0 && RegStep(d) > 0
    ensures SearchFrom(d, shared, threads, target, r) <= r
  {
    if r > 0 && !Meets(d, shared, threads, target, r) {
      DivGalois(r - 1, RegStep(d), (r - 1) / RegStep(d));
      SearchStays(d, shared, threads, target, RoundDown(r - 1, RegStep(d)));
    }
  }

  /** The search is optimal for these units on every device and kernel. */
  ghost predicate AlwaysOptimal(w: nat, g: nat) {
    forall d: Device, shared: nat, threads: nat, target: nat |
      && d.threadsPerWarp == w && d.registerAllocGranularity == g && Proper(d) && RegStep(d) > 0
      && d.registersPerThreadLimit < INT_LIMIT && threads > 0 ::
      Greatest(d, shared, threads, target, d.registersPerThreadLimit,
               SearchFrom(d, shared, threads, target, d.registersPerThreadLimit))
  }

  /** Optimal if and only if threads_per_warp divides the register granularity or the step is one. */
  lemma SearchOptimalIff(w: nat, g: nat)
    requires 0 < w <= g < INT_LIMIT - 2
    ensures AlwaysOptimal(w, g) <==> g % w == 0 || g / w == 1
  {
    DivGalois(g, w, 1);
    if g % w == 0 || g / w == 1 {
      forall d: Device, shared: nat, threads: nat, target: nat |
        && d.threadsPerWarp == w && d.registerAllocGranularity == g && Proper(d) && RegStep(d) > 0
        && d.registersPerThreadLimit < INT_LIMIT && threads > 0
        ensures Greatest(d, shared, threads, target, d.registersPerThreadLimit,
                         SearchFrom(d, shared, threads, target, d.registersPerThreadLimit))
      {
        SearchIsGreatest(d, shared, threads, target, d.registersPerThreadLimit);
      }
    } else {
      var d := UnevenSearchFails(w, g);
      assert !AlwaysOptimal(w, g);
    }
  }

  // ---- Launch dimensions -----------------------------------------------------------------------------------

  /** CalculateDimensionality: the blocks cover the elements, and one block fewer would not. */
  method CalculateDimensionality(threadsPerBlockLimit: nat, elementCount: nat) returns (threads: nat, blocks: nat)
    requires threadsPerBlockLimit > 0
    ensures threads <= threadsPerBlockLimit && elementCount <= blocks * threads
    ensures blocks > 0 ==> (blocks - 1) * threads < elementCount
    ensures blocks == 1 ==> threads == elementCount
  {
    threads := threadsPerBlockLimit;
    blocks := CeilOfRatio(elementCount, threads);
    CeilGalois(elementCount, threads, blocks);
    if blocks > 0 {
      CeilGalois(elementCount, threads, blocks - 1);
    }
    if blocks == 1 {
      threads := elementCount;
    }
  }
}
