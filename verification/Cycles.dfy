/** Rotating `a + b` places by `b`: the cycles of that permutation, which
    tools/getopt.c follows. */
module Cycles {
  import opened Arithmetic

  /** The greatest common divisor, as gcd() computes it. */
  function Gcd(a: nat, b: nat): (g: nat)
    requires b > 0
    ensures 0 < g <= b
    decreases b
  {
    if a % b == 0 then b else Gcd(b, a % b)
  }

  /** It divides both numbers and is a sum of multiples of them. */
  lemma {:induction false} GcdFacts(a: nat, b: nat) returns (p: nat, q: nat, x: int, y: int)
    requires b > 0
    ensures a == p * Gcd(a, b) && b == q * Gcd(a, b)
    ensures Gcd(a, b) == x * a + y * b
    decreases b
  {
    hide Gcd;
    var k, c := GcdUnfolds(a, b);
    if c == 0 {
      p, q, x, y := k, 1, 0, 1;
    } else {
      var r, s, u, v := GcdFacts(b, c);
      p, q, x, y := k * r + s, r, v, u - k * v;
      GcdStep(a, b, k, c, Gcd(b, c), r, s, u, v);
    }
  }

  lemma GcdUnfolds(a: nat, b: nat) returns (k: nat, c: nat)
    requires b > 0
    ensures a == k * b + c && c < b && Gcd(a, b) == if c == 0 then b else Gcd(b, c)
  {
    k, c := a / b, a % b;
  }

  lemma GcdStep(a: int, b: int, k: int, c: int, g: int, r: int, s: int, u: int, v: int)
    requires a == k * b + c && b == r * g && c == s * g && g == u * b + v * c
    ensures a == (k * r + s) * g && g == v * a + (u - k * v) * b
  {
    assert k * b == k * (r * g) == (k * r) * g;
    assert (k * r + s) * g == (k * r) * g + s * g;
    assert v * a == v * (k * b + c) == v * (k * b) + v * c;
    assert v * (k * b) == (k * v) * b;
    assert (u - k * v) * b == u * b - (k * v) * b;
  }

  /** Where an element at `p` goes: past the `b` that follow, or back past `a`. */
  function Step(a: nat, b: nat, p: nat): nat {
    if p >= a then p - a else p + b
  }

  function Steps(a: nat, b: nat, c: nat, t: nat): nat {
    if t == 0 then c else Step(a, b, Steps(a, b, c, t - 1))
  }

  /** Steps amount to adding `b` that often, modulo `a + b`. */
  lemma {:induction false} StepsAre(a: nat, b: nat, c: nat, t: nat) returns (k: nat)
    requires c < a + b
    ensures Steps(a, b, c, t) == c + t * b - k * (a + b)
    ensures Steps(a, b, c, t) < a + b
  {
    if t == 0 {
      k := 0;
    } else {
      k := StepsAre(a, b, c, t - 1);
      assert t * b == (t - 1) * b + b;
      if Steps(a, b, c, t - 1) >= a {
        assert (k + 1) * (a + b) == k * (a + b) + a + b;
        k := k + 1;
      }
    }
  }

  /** A multiple of `n` less than `n` apart is zero. */
  lemma SmallMultiple(d: int, k: int, n: nat)
    requires d == k * n && d < n && -d < n
    ensures d == 0
  {
    if k > 0 {
      ProductGrows(0, k, n);
    } else if k < 0 {
      ProductGrows(0, -k, n);
    }
  }

  /** What gcd() and a division tell of the cycles: their number and length. */
  datatype Plan = Plan(a: nat, b: nat, g: nat, p: nat, q: nat, x: int, y: int) {
    ghost predicate Valid() {
      a > 0 && b > 0 && g > 0 && a == p * g && b == q * g && g == x * a + y * b
    }

    function Length(): nat {
      p + q
    }
  }

  lemma PlanSize(plan: Plan)
    requires plan.Valid()
    ensures plan.a + plan.b == plan.Length() * plan.g
    ensures (plan.a + plan.b) / plan.g == plan.Length() > 0
  {
    assert plan.Length() * plan.g == plan.p * plan.g + plan.q * plan.g;
    QuotientIs(plan.a + plan.b, plan.g, plan.Length(), 0);
  }

  /** Going round a whole number of times is a multiple of the step. */
  lemma RoundSteps(plan: Plan, h: int)
    requires plan.Valid()
    ensures h * plan.Length() * plan.b == h * plan.q * (plan.a + plan.b)
  {
    PlanSize(plan);
    var l, g, q := plan.Length(), plan.g, plan.q;
    assert l * (q * g) == q * (l * g);
    assert h * l * plan.b == h * (l * plan.b);
    assert h * q * (l * g) == h * (q * (l * g));
  }

  /** A cycle returns to its start after its length. */
  lemma Returns(plan: Plan, c: nat)
    requires plan.Valid() && c < plan.a + plan.b
    ensures Steps(plan.a, plan.b, c, plan.Length()) == c
  {
    hide Steps;
    var n, l := plan.a + plan.b, plan.Length();
    var k := StepsAre(plan.a, plan.b, c, l);
    RoundSteps(plan, 1);
    assert (plan.q - k) * n == plan.q * n - k * n;
    SmallMultiple(Steps(plan.a, plan.b, c, l) - c, plan.q - k, n);
  }

  /** And not before: its places are distinct. */
  lemma NoReturn(plan: Plan, c: nat, t: nat, u: nat)
    requires plan.Valid() && c < plan.a + plan.b && t < u < plan.Length()
    ensures Steps(plan.a, plan.b, c, t) != Steps(plan.a, plan.b, c, u)
  {
    hide Steps;
    var a, b, n := plan.a, plan.b, plan.a + plan.b;
    var k := StepsAre(a, b, c, t);
    var m := StepsAre(a, b, c, u);
    if Steps(a, b, c, t) == Steps(a, b, c, u) {
      assert (u - t) * b == u * b - t * b && (m - k) * n == m * n - k * n;
      NoSmallRound(plan, u - t, m - k);
    }
  }

  /** Fewer steps than the length add no multiple of the size. */
  lemma NoSmallRound(plan: Plan, d: int, j: int)
    requires plan.Valid() && d * plan.b == j * (plan.a + plan.b) && 0 <= d < plan.Length()
    ensures d == 0
  {
    PlanSize(plan);
    Combine(plan, d, j);
    var w := plan.x * d + (plan.y - plan.x) * j;
    CancelFactor(d, w, plan.Length(), plan.g);
    SmallMultiple(d, w, plan.Length());
  }

  lemma CancelFactor(d: int, w: int, l: int, g: nat)
    requires g > 0 && d * g == w * (l * g)
    ensures d == w * l
  {
    assert w * (l * g) == (w * l) * g;
    var e := d - w * l;
    assert e * g == d * g - (w * l) * g;
    if e > 0 {
      ProductGrows(0, e, g);
    }
  }

  lemma Combine(plan: Plan, d: int, j: int)
    requires plan.Valid() && d * plan.b == j * (plan.a + plan.b)
    ensures d * plan.g == (plan.x * d + (plan.y - plan.x) * j) * (plan.a + plan.b)
  {
    var a, b, n, x, y := plan.a, plan.b, plan.a + plan.b, plan.x, plan.y;
    assert plan.g == x * n + (y - x) * b;
    assert d * (x * n + (y - x) * b) == x * d * n + (y - x) * (d * b);
    assert (y - x) * (j * n) == (y - x) * j * n;
    assert (x * d + (y - x) * j) * n == x * d * n + (y - x) * j * n;
  }

  /** A cycle keeps to the places that differ by multiples of the divisor. */
  lemma StaysInClass(plan: Plan, c: nat, t: nat) returns (j: int)
    requires plan.Valid() && c < plan.a + plan.b
    ensures Steps(plan.a, plan.b, c, t) - c == j * plan.g
  {
    hide Steps;
    var k := StepsAre(plan.a, plan.b, c, t);
    PlanSize(plan);
    var q, l, g := plan.q, plan.Length(), plan.g;
    j := t * q - k * l;
    assert t * (q * g) == (t * q) * g && k * (l * g) == (k * l) * g;
    assert (t * q - k * l) * g == (t * q) * g - (k * l) * g;
  }

  /** And it visits all of them. */
  lemma Covers(plan: Plan, c: nat, p: nat, m: int) returns (t: nat)
    requires plan.Valid() && c < plan.a + plan.b && p < plan.a + plan.b && p - c == m * plan.g
    ensures t < plan.Length() && Steps(plan.a, plan.b, c, t) == p
  {
    PlanSize(plan);
    var h;
    h, t := Divided(m * (plan.y - plan.x), plan.Length());
    MultipleAs(plan, m, h, t);
    Reaches(plan, c, p, t, m * plan.x + h * plan.q);
  }

  lemma Divided(e: int, l: nat) returns (h: int, t: nat)
    requires l > 0
    ensures e == h * l + t && t < l
  {
    h, t := e / l, e % l;
  }

  lemma Reaches(plan: Plan, c: nat, p: nat, t: nat, v: int)
    requires c < plan.a + plan.b && p < plan.a + plan.b && p - c == v * (plan.a + plan.b) + t * plan.b
    ensures Steps(plan.a, plan.b, c, t) == p
  {
    hide Steps;
    var n := plan.a + plan.b;
    var k := StepsAre(plan.a, plan.b, c, t);
    assert (v + k) * n == v * n + k * n;
    SmallMultiple(p - Steps(plan.a, plan.b, c, t), v + k, n);
  }

  lemma MultipleAs(plan: Plan, m: int, h: int, t: int)
    requires plan.Valid() && m * (plan.y - plan.x) == h * plan.Length() + t
    ensures m * plan.g == (m * plan.x + h * plan.q) * (plan.a + plan.b) + t * plan.b
  {
    var b, n, x, z, l, q := plan.b, plan.a + plan.b, plan.x, plan.y - plan.x, plan.Length(), plan.q;
    RoundSteps(plan, h);
    assert plan.g == x * n + z * b;
    assert m * (x * n + z * b) == m * x * n + m * z * b;
    assert (h * l + t) * b == h * l * b + t * b;
    assert (m * x + h * q) * n == m * x * n + h * q * n;
  }

  /** The places of a cycle, in order, and the first of them again. */
  function Orbit(plan: Plan, c: nat): (orbit: seq<nat>)
    ensures |orbit| == plan.Length() + 1
  {
    seq(plan.Length() + 1, t requires t >= 0 => Steps(plan.a, plan.b, c, t))
  }

  ghost predicate SameClass(g: nat, p: nat, q: nat)
    requires g > 0
  {
    p % g == q % g
  }

  lemma ClassesDiffer(g: nat, p: nat, q: nat, m: int)
    requires g > 0 && p - q == m * g
    ensures SameClass(g, p, q)
  {
    var h, r := p / g, p % g;
    var k, s := q / g, q % g;
    assert (h - k - m) * g == h * g - k * g - m * g;
    SmallMultiple(s - r, h - k - m, g);
  }

  lemma ClassGap(g: nat, p: nat, q: nat) returns (m: int)
    requires g > 0 && SameClass(g, p, q)
    ensures p - q == m * g
  {
    m := p / g - q / g;
    assert m * g == p / g * g - q / g * g;
  }

  /** A cycle's places are distinct, and are those of its class. */
  lemma OrbitIs(plan: Plan, c: nat)
    requires plan.Valid() && c < plan.a + plan.b
    ensures var orbit := Orbit(plan, c);
            && orbit[0] == c == orbit[plan.Length()]
            && (forall t | 0 <= t < plan.Length() :: orbit[t + 1] == Step(plan.a, plan.b, orbit[t]))
            && (forall t, u | 0 <= t < u < plan.Length() :: orbit[t] != orbit[u])
            && (forall q: nat | q < plan.a + plan.b :: q in orbit <==> SameClass(plan.g, q, c))
            && (forall t | 0 <= t <= plan.Length() :: orbit[t] < plan.a + plan.b)
  {
    var orbit := Orbit(plan, c);
    Returns(plan, c);
    forall t | 0 <= t <= plan.Length()
      ensures orbit[t] < plan.a + plan.b && SameClass(plan.g, orbit[t], c)
    {
      var k := StepsAre(plan.a, plan.b, c, t);
      var j := StaysInClass(plan, c, t);
      ClassesDiffer(plan.g, orbit[t], c, j);
    }
    forall t, u | 0 <= t < u < plan.Length()
      ensures orbit[t] != orbit[u]
    {
      NoReturn(plan, c, t, u);
    }
    forall q: nat | q < plan.a + plan.b && SameClass(plan.g, q, c)
      ensures q in orbit
    {
      var m := ClassGap(plan.g, q, c);
      var t := Covers(plan, c, q, m);
      assert orbit[t] == q;
    }
  }
}
