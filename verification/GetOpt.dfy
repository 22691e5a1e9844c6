/** The exchange of argument blocks, and the scan of arguments that relies on
    it, in tools/getopt.c. */
module GetOpt {
  import opened Arithmetic
  import opened Cycles

  /** The block from `start` to `mid` and that from `mid` to `end` exchanged. */
  function Exchanged<T>(s: seq<T>, start: nat, mid: nat, end: nat): seq<T>
    requires start <= mid <= end <= |s|
  {
    s[..start] + s[mid..end] + s[start..mid] + s[end..]
  }

  /** The element at place `p` of the two blocks is where a step takes it. */
  ghost predicate Moved<T>(s: seq<T>, t: seq<T>, start: nat, a: nat, b: nat, p: nat)
    requires p < a + b && start + a + b <= |s| == |t|
  {
    t[start + Step(a, b, p)] == s[start + p]
  }

  /** The blocks are exchanged if that holds of every element. */
  lemma StepsExchange<T>(s: seq<T>, t: seq<T>, start: nat, a: nat, b: nat)
    requires start + a + b <= |s| == |t|
    requires forall k | 0 <= k < |s| && (k < start || k >= start + a + b) :: t[k] == s[k]
    requires forall p | 0 <= p < a + b :: Moved(s, t, start, a, b, p)
    ensures t == Exchanged(s, start, start + a, start + a + b)
  {
    forall k | 0 <= k < |t|
      ensures t[k] == Exchanged(s, start, start + a, start + a + b)[k]
    {
      if start <= k < start + b {
        assert Moved(s, t, start, a, b, k - start + a);
      } else if start + b <= k < start + a + b {
        assert Moved(s, t, start, a, b, k - start - b);
      }
    }
  }

  /** gcd(). */
  method GreatestCommonDivisor(a0: nat, b0: nat) returns (g: nat)
    requires b0 > 0
    ensures g == Gcd(a0, b0)
  {
    var a, b := a0, b0;
    var c := a % b;
    while c != 0
      invariant b > 0 && c == a % b && Gcd(a, b) == Gcd(a0, b0)
      decreases c
    {
      a := b;
      b := c;
      c := a % b;
    }
    g := b;
  }

  /** A cycle's places, as positions in an array. */
  ghost predicate Cycle(orbit: seq<nat>, length: nat, size: nat) {
    && 0 < length && |orbit| == length + 1 && orbit[0] == orbit[length]
    && (forall t | 0 <= t <= length :: orbit[t] < size)
    && (forall t, u | 0 <= t < u < length :: orbit[t] != orbit[u])
  }

  /** After `j` swaps: the elements moved on, the one in hand, and the rest. */
  ghost predicate Advanced<T>(was: seq<T>, now: seq<T>, orbit: seq<nat>, length: nat, j: nat)
    requires Cycle(orbit, length, |was|) && j <= length
  {
    && |now| == |was|
    && now[orbit[0]] == was[orbit[if j < length then j else length - 1]]
    && (forall t | 0 < t < length :: now[orbit[t]] == was[orbit[if t <= j then t - 1 else t]])
    && (forall k | 0 <= k < |was| && k !in orbit :: now[k] == was[k])
  }

  lemma SwapAdvances<T>(was: seq<T>, now: seq<T>, orbit: seq<nat>, length: nat, j: nat)
    requires Cycle(orbit, length, |was|) && j < length && Advanced(was, now, orbit, length, j)
    ensures Advanced(was, now[orbit[j + 1] := now[orbit[0]]][orbit[0] := now[orbit[j + 1]]], orbit, length, j + 1)
  {
  }

  /** The inner loop of permute_args(): move the elements of one cycle. */
  method FollowCycle<T>(args: array<T>, start: nat, mid: nat, end: nat, cstart: nat, length: nat, ghost orbit: seq<nat>)
    requires start < mid < end <= args.Length
    requires Cycle(orbit, length, args.Length) && orbit[0] == cstart
    requires forall t | 0 <= t <= length :: start <= orbit[t] < end
    requires forall t | 0 <= t < length :: orbit[t + 1] == start + Step(mid - start, end - mid, orbit[t] - start)
    modifies args
    ensures Advanced(old(args[..]), args[..], orbit, length, length)
  {
    ghost var was := args[..];
    var pos := cstart;
    var j := 0;
    while j < length
      invariant j <= length && pos == orbit[j]
      invariant Advanced(was, args[..], orbit, length, j)
    {
      SwapAdvances(was, args[..], orbit, length, j);
      if pos >= mid {
        pos := pos - (mid - start);
      } else {
        pos := pos + (end - mid);
      }
      var swap := args[pos];
      args[pos] := args[cstart];
      args[cstart] := swap;
      j := j + 1;
    }
  }

  function Shifted(orbit: seq<nat>, start: nat): seq<nat> {
    seq(|orbit|, t requires 0 <= t < |orbit| => start + orbit[t])
  }

  ghost predicate Kept<T>(s: seq<T>, t: seq<T>, start: nat, p: nat)
    requires start + p < |s| == |t|
  {
    t[start + p] == s[start + p]
  }

  /** After the first `i` cycles: the elements of their classes have moved. */
  ghost predicate Exchanging<T>(was: seq<T>, now: seq<T>, start: nat, plan: Plan, i: nat) {
    && plan.Valid() && start + plan.a + plan.b <= |was| == |now|
    && (forall k | 0 <= k < |was| && (k < start || k >= start + plan.a + plan.b) :: now[k] == was[k])
    && (forall p | 0 <= p < plan.a + plan.b && p % plan.g < i :: Moved(was, now, start, plan.a, plan.b, p))
    && (forall p | 0 <= p < plan.a + plan.b && p % plan.g >= i :: Kept(was, now, start, p))
  }

  /** The cycle that starts `i` after the first block is that of class `i`. */
  lemma CycleStarts(plan: Plan, i: nat)
    requires plan.Valid() && i < plan.g
    ensures plan.a + i < plan.a + plan.b && (plan.a + i) % plan.g == i
  {
    QuotientIs(plan.a + i, plan.g, plan.p, i);
    assert plan.q > 0;
    NextProduct(0, plan.q, plan.g);
  }

  lemma StepKeepsClass(plan: Plan, p: nat)
    requires plan.Valid() && p < plan.a + plan.b
    ensures Step(plan.a, plan.b, p) < plan.a + plan.b
    ensures Step(plan.a, plan.b, p) % plan.g == p % plan.g
  {
    if p >= plan.a {
      ClassesDiffer(plan.g, p, p - plan.a, plan.p);
    } else {
      ClassesDiffer(plan.g, p + plan.b, p, plan.q);
    }
  }

  ghost predicate CycleFollowed<T>(before: seq<T>, now: seq<T>, start: nat, plan: Plan, i: nat) {
    var orbit := Shifted(Orbit(plan, plan.a + i), start);
    Cycle(orbit, plan.Length(), |before|) && Advanced(before, now, orbit, plan.Length(), plan.Length())
  }

  /** An element of the cycle's class moves. */
  lemma MovesNow<T>(before: seq<T>, now: seq<T>, start: nat, plan: Plan, i: nat, p: nat)
    requires plan.Valid() && i < plan.g && start + plan.a + plan.b <= |before|
    requires CycleFollowed(before, now, start, plan, i)
    requires p < plan.a + plan.b && p % plan.g == i
    ensures |now| == |before| && Moved(before, now, start, plan.a, plan.b, p)
  {
    var u := NextOnOrbit(plan, i, p);
    hide Orbit, Step;
    var orbit := Shifted(Orbit(plan, plan.a + i), start);
    assert orbit[u] == start + p && orbit[u + 1] == start + Step(plan.a, plan.b, p);
    assert now[orbit[u + 1]] == before[orbit[u]];
  }

  /** A place of class `i` is on the cycle, and the next one is its step. */
  lemma NextOnOrbit(plan: Plan, i: nat, p: nat) returns (u: nat)
    requires plan.Valid() && i < plan.g && p < plan.a + plan.b && p % plan.g == i
    ensures u < plan.Length() && Orbit(plan, plan.a + i)[u] == p
    ensures Orbit(plan, plan.a + i)[u + 1] == Step(plan.a, plan.b, p) < plan.a + plan.b
  {
    hide Orbit, Step;
    CycleStarts(plan, i);
    PlanSize(plan);
    OrbitIs(plan, plan.a + i);
    assert SameClass(plan.g, p, plan.a + i);
    var t :| 0 <= t <= plan.Length() && Orbit(plan, plan.a + i)[t] == p;
    u := if t < plan.Length() then t else 0;
  }

  /** What is at a place of another class stays. */
  lemma StaysNow<T>(before: seq<T>, now: seq<T>, start: nat, plan: Plan, i: nat, q: nat)
    requires plan.Valid() && i < plan.g && start + plan.a + plan.b <= |before|
    requires CycleFollowed(before, now, start, plan, i)
    requires q < plan.a + plan.b && q % plan.g != i
    ensures |now| == |before| && now[start + q] == before[start + q]
  {
    CycleStarts(plan, i);
    NotOnOrbit(plan, start, plan.a + i, q);
  }

  lemma CycleDone<T>(was: seq<T>, before: seq<T>, now: seq<T>, start: nat, plan: Plan, i: nat)
    requires Exchanging(was, before, start, plan, i) && i < plan.g
    requires CycleFollowed(before, now, start, plan, i)
    ensures Exchanging(was, now, start, plan, i + 1)
  {
    forall k | 0 <= k < |was| && (k < start || k >= start + plan.a + plan.b)
      ensures now[k] == was[k]
    {
      OrbitIsCycle(plan, start, i, |was|);
    }
    hide CycleFollowed;
    forall p | 0 <= p < plan.a + plan.b && p % plan.g < i + 1
      ensures Moved(was, now, start, plan.a, plan.b, p)
    {
      if p % plan.g == i {
        assert Kept(was, before, start, p);
        MovesNow(before, now, start, plan, i, p);
      } else {
        StepKeepsClass(plan, p);
        assert Moved(was, before, start, plan.a, plan.b, p);
        StaysNow(before, now, start, plan, i, Step(plan.a, plan.b, p));
      }
    }
    forall p | 0 <= p < plan.a + plan.b && p % plan.g >= i + 1
      ensures Kept(was, now, start, p)
    {
      assert Kept(was, before, start, p);
      StaysNow(before, now, start, plan, i, p);
    }
  }

  lemma NotOnOrbit(plan: Plan, start: nat, c: nat, q: nat)
    requires plan.Valid() && c < plan.a + plan.b && q < plan.a + plan.b && q % plan.g != c % plan.g
    ensures start + q !in Shifted(Orbit(plan, c), start)
  {
    OrbitIs(plan, c);
    assert !SameClass(plan.g, q, c);
  }

  lemma OrbitIsCycle(plan: Plan, start: nat, i: nat, size: nat)
    requires plan.Valid() && i < plan.g && start + plan.a + plan.b <= size
    ensures plan.a + i < plan.a + plan.b
    ensures var orbit := Shifted(Orbit(plan, plan.a + i), start);
            && Cycle(orbit, plan.Length(), size) && orbit[0] == start + plan.a + i
            && (forall t | 0 <= t <= plan.Length() :: start <= orbit[t] < start + plan.a + plan.b)
            && (forall t | 0 <= t < plan.Length() :: orbit[t + 1] == start + Step(plan.a, plan.b, orbit[t] - start))
  {
    CycleStarts(plan, i);
    OrbitIs(plan, plan.a + i);
    PlanSize(plan);
    var places := Orbit(plan, plan.a + i);
    var orbit := Shifted(places, start);
    forall t | 0 <= t < plan.Length()
      ensures orbit[t + 1] == start + Step(plan.a, plan.b, orbit[t] - start)
    {
      assert places[t + 1] == Step(plan.a, plan.b, places[t]);
    }
  }

  lemma NothingMoved<T>(was: seq<T>, start: nat, plan: Plan)
    requires plan.Valid() && start + plan.a + plan.b <= |was|
    ensures Exchanging(was, was, start, plan, 0)
  {
  }

  lemma Exchanges<T>(was: seq<T>, now: seq<T>, start: nat, plan: Plan)
    requires Exchanging(was, now, start, plan, plan.g)
    ensures start + plan.a + plan.b <= |was|
    ensures now == Exchanged(was, start, start + plan.a, start + plan.a + plan.b)
  {
    StepsExchange(was, now, start, plan.a, plan.b);
  }

  lemma CycleFollows<T>(before: seq<T>, now: seq<T>, start: nat, plan: Plan, i: nat)
    requires Cycle(Shifted(Orbit(plan, plan.a + i), start), plan.Length(), |before|)
    requires Advanced(before, now, Shifted(Orbit(plan, plan.a + i), start), plan.Length(), plan.Length())
    ensures CycleFollowed(before, now, start, plan, i)
  {
  }

  /** permute_args(): exchange two adjacent blocks, neither of them empty. */
  method PermuteArgs<T>(args: array<T>, start: nat, mid: nat, end: nat)
    requires start < mid < end <= args.Length
    modifies args
    ensures args[..] == Exchanged(old(args[..]), start, mid, end)
  {
    hide Exchanging, CycleFollowed, Advanced, Cycle, Orbit, Shifted, Step, Gcd;
    ghost var was := args[..];
    var nonOpts, opts := mid - start, end - mid;
    var cycles := GreatestCommonDivisor(nonOpts, opts);
    ghost var p, q, x, y := GcdFacts(nonOpts, opts);
    ghost var plan := Plan(nonOpts, opts, cycles, p, q, x, y);
    PlanSize(plan);
    NothingMoved(was, start, plan);
    var length := (end - start) / cycles;
    var i := 0;
    while i < cycles
      invariant i <= cycles
      invariant Exchanging(was, args[..], start, plan, i)
    {
      ghost var before := args[..];
      OrbitIsCycle(plan, start, i, args.Length);
      FollowCycle(args, start, mid, end, mid + i, length, Shifted(Orbit(plan, plan.a + i), start));
      CycleFollows(before, args[..], start, plan, i);
      CycleDone(was, before, args[..], start, plan, i);
      i := i + 1;
    }
    Exchanges(was, args[..], start, plan);
  }
}
