/** The weighted round-robin wheel: weights divided by their greatest common divisor, one slot
    per unit, filled by always taking the target with most slots left. */
module Wheel {
  import opened Wrappers
  import opened Arithmetic

  // ---------------------------------------------------------------- greatest common divisor

  predicate Divides(d: nat, n: nat) {
    d > 0 && n % d == 0
  }

  function GcdOf(a: nat, b: nat): (g: nat)
    ensures a > 0 || b > 0 ==> g > 0
    decreases b
  {
    if b == 0 then a else GcdOf(b, a % b)
  }

  function Abs(x: int): nat {
    if x < 0 then -x else x
  }

  method Gcd(a: int, b: int) returns (g: nat)
    ensures g == GcdOf(Abs(a), Abs(b))
  {
    var x, y := Abs(a), Abs(b);
    while y != 0
      invariant GcdOf(Abs(a), Abs(b)) == GcdOf(x, y)
      decreases y
    {
      x, y := y, x % y;
    }
    g := x;
  }

  lemma MultipleDivides(d: nat, k: nat)
    requires d > 0
    ensures Divides(d, d * k) && (d * k) / d == k
  {
    DivisionIsUnique(d * k, d, k, 0);
  }

  lemma QuotientTimes(d: nat, n: nat)
    requires Divides(d, n)
    ensures n == d * (n / d)
  {
  }

  /** d divides a and b exactly when it divides b and a mod b. */
  lemma DividesStep(d: nat, a: nat, b: nat)
    requires d > 0 && b > 0
    ensures Divides(d, a) && Divides(d, b) <==> Divides(d, b) && Divides(d, a % b)
  {
    if Divides(d, b) {
      var k := b / d * (a / b);
      MultiplePlusRest(d, a, b, k);
      ModShift(d, k, a % b);
    }
  }

  lemma MultiplePlusRest(d: nat, a: nat, b: nat, k: nat)
    requires b > 0 && Divides(d, b) && k == b / d * (a / b)
    ensures a == d * k + a % b
  {
    QuotientTimes(d, b);
    Associate(d, b / d, a / b);
    assert a == b * (a / b) + a % b;
  }

  lemma Associate(x: nat, y: nat, z: nat)
    ensures x * y * z == x * (y * z)
  {
  }

  lemma ModShift(d: nat, k: nat, r: nat)
    requires d > 0
    ensures (d * k + r) % d == r % d
  {
    assert d * k + r == (k + r / d) * d + r % d by {
      assert r == (r / d) * d + r % d;
      assert (k + r / d) * d == k * d + (r / d) * d;
    }
    DivisionIsUnique(d * k + r, d, k + r / d, r % d);
  }

  /** The common divisors of a and b are the divisors of GcdOf(a, b): it is the greatest one. */
  lemma {:induction false} GcdIsGreatest(a: nat, b: nat, d: nat)
    requires d > 0
    ensures Divides(d, a) && Divides(d, b) <==> Divides(d, GcdOf(a, b))
    decreases b
  {
    if b != 0 {
      DividesStep(d, a, b);
      GcdIsGreatest(b, a % b, d);
    }
  }

  /** The fold over all weights, from 0. */
  function GcdAll(ws: seq<nat>): (g: nat)
    ensures (exists i :: 0 <= i < |ws| && ws[i] > 0) ==> g > 0
  {
    if ws == [] then 0 else GcdOf(GcdAll(ws[..|ws| - 1]), ws[|ws| - 1])
  }

  lemma {:induction false} GcdAllIsGreatest(ws: seq<nat>, d: nat)
    requires d > 0
    ensures (forall i :: 0 <= i < |ws| ==> Divides(d, ws[i])) <==> Divides(d, GcdAll(ws))
  {
    if ws != [] {
      var front := ws[..|ws| - 1];
      GcdAllIsGreatest(front, d);
      GcdIsGreatest(GcdAll(front), ws[|ws| - 1], d);
      assert forall i :: 0 <= i < |front| ==> front[i] == ws[i];
    }
  }

  function Sum(ws: seq<nat>): nat {
    if ws == [] then 0 else Sum(ws[..|ws| - 1]) + ws[|ws| - 1]
  }

  function Reduced(ws: seq<nat>, g: nat): (r: seq<nat>)
    requires g > 0
    ensures |r| == |ws| && forall i :: 0 <= i < |ws| ==> r[i] == ws[i] / g
  {
    seq(|ws|, i requires 0 <= i < |ws| => ws[i] / g)
  }

  /** Dividing every weight by the divisor divides the total: the wheel has exactly as many
      slots as the reduced weights ask for. */
  lemma {:induction false} SumReduced(ws: seq<nat>, g: nat)
    requires g > 0 && forall i :: 0 <= i < |ws| ==> Divides(g, ws[i])
    ensures Sum(ws) == g * Sum(Reduced(ws, g)) && Sum(ws) / g == Sum(Reduced(ws, g))
  {
    if ws != [] {
      var front, w := ws[..|ws| - 1], ws[|ws| - 1];
      SumReduced(front, g);
      assert Reduced(ws, g)[..|ws| - 1] == Reduced(front, g);
      QuotientTimes(g, w);
      assert g * (Sum(Reduced(front, g)) + w / g) == g * Sum(Reduced(front, g)) + g * (w / g);
    }
    MultipleDivides(g, Sum(Reduced(ws, g)));
  }

  // ---------------------------------------------------------------- filling the wheel

  /** The last of the largest entries, as max_by_key picks it. */
  ghost predicate LastMax(rem: seq<nat>, b: nat) {
    && b < |rem|
    && (forall j :: 0 <= j < |rem| ==> rem[j] <= rem[b])
    && (forall j :: b < j < |rem| ==> rem[j] < rem[b])
  }

  function Best(rem: seq<nat>): (b: nat)
    requires rem != []
    ensures LastMax(rem, b)
  {
    if |rem| == 1 then 0
    else
      var b := Best(rem[..|rem| - 1]);
      if rem[b] <= rem[|rem| - 1] then |rem| - 1 else b
  }

  method MaxByKey(rem: seq<nat>) returns (best: nat)
    requires rem != []
    ensures best == Best(rem)
  {
    best := 0;
    for i := 1 to |rem|
      invariant best == Best(rem[..i])
    {
      assert rem[..i + 1][..i] == rem[..i];
      if rem[best] <= rem[i] {
        best := i;
      }
    }
    assert rem[..|rem|] == rem;
  }

  /** The state after the target at b has given up one slot. */
  function Take(rem: seq<nat>, b: nat): (r: seq<nat>)
    requires b < |rem| && rem[b] > 0
    ensures |r| == |rem|
  {
    rem[b := rem[b] - 1]
  }

  /** The slots still to be filled, as positions in rem. */
  function Spin(rem: seq<nat>): (s: seq<nat>)
    requires rem != []
    ensures |s| == Sum(rem)
    decreases Sum(rem)
  {
    if Sum(rem) == 0 then []
    else
      var b := Best(rem);
      SumPositive(rem);
      SumTake(rem, b);
      [b] + Spin(Take(rem, b))
  }

  lemma {:induction false} SumPositive(rem: seq<nat>)
    ensures Sum(rem) > 0 <==> exists i :: 0 <= i < |rem| && rem[i] > 0
  {
    if rem != [] {
      SumPositive(rem[..|rem| - 1]);
      if Sum(rem[..|rem| - 1]) > 0 {
        var i :| 0 <= i < |rem| - 1 && rem[..|rem| - 1][i] > 0;
        assert rem[i] > 0;
      }
      if i :| 0 <= i < |rem| - 1 && rem[i] > 0 {
        assert rem[..|rem| - 1][i] > 0;
      }
    }
  }

  lemma {:induction false} SumTake(rem: seq<nat>, b: nat)
    requires b < |rem| && rem[b] > 0
    ensures Sum(Take(rem, b)) == Sum(rem) - 1
  {
    var front := rem[..|rem| - 1];
    if b == |rem| - 1 {
      assert Take(rem, b)[..|rem| - 1] == front;
    } else {
      assert Take(rem, b)[..|rem| - 1] == Take(front, b);
      SumTake(front, b);
    }
  }

  /** The wheel holds every target as often as its reduced weight says. */
  lemma {:induction false} SpinCounts(rem: seq<nat>, i: nat)
    requires rem != [] && i < |rem|
    ensures multiset(Spin(rem))[i] == rem[i]
    ensures forall k :: 0 <= k < |Spin(rem)| ==> Spin(rem)[k] < |rem|
    decreases Sum(rem)
  {
    SumPositive(rem);
    if Sum(rem) > 0 {
      var b := Best(rem);
      SumTake(rem, b);
      SpinCounts(Take(rem, b), i);
    }
  }

  // ---------------------------------------------------------------- interleaving

  ghost predicate Interleaved(s: seq<nat>) {
    forall k :: 0 <= k < |s| - 1 ==> s[k] != s[k + 1]
  }

  /** Whether the two next slots go to different targets. */
  predicate NextDiffer(rem: seq<nat>)
    requires rem != []
  {
    var b := Best(rem);
    rem[b] > 0 && Best(Take(rem, b)) != b
  }

  /** Once two neighbouring slots differ, so do the next two, and so on to the end. */
  lemma DifferenceLasts(rem: seq<nat>)
    requires rem != [] && NextDiffer(rem) && Sum(rem) >= 3
    ensures NextDiffer(Take(rem, Best(rem)))
  {
    var b := Best(rem);
    var rem' := Take(rem, b);
    var b' := Best(rem');
    SumTake(rem, b);
    SumPositive(rem');
    assert rem'[b'] == rem[b'];
    var rem'' := Take(rem', b');
    assert LastMax(rem'', Best(rem''));
    assert rem''[b] == rem[b] - 1 && rem''[b'] == rem[b'] - 1;
  }

  lemma {:induction false} InterleavedFrom(rem: seq<nat>)
    requires rem != [] && Sum(rem) >= 2
    ensures Interleaved(Spin(rem)) <==> NextDiffer(rem)
    decreases Sum(rem)
  {
    var b := Best(rem);
    SumPositive(rem);
    SumTake(rem, b);
    var rem' := Take(rem, b);
    SumPositive(rem');
    assert Spin(rem) == [b] + Spin(rem') && Spin(rem')[0] == Best(rem');
    assert Spin(rem)[0] == b && Spin(rem)[1] == Best(rem');
    if Best(rem') != b {
      if Sum(rem') >= 2 {
        DifferenceLasts(rem);
        InterleavedFrom(rem');
      }
      forall k | 0 <= k < |Spin(rem)| - 1
        ensures Spin(rem)[k] != Spin(rem)[k + 1]
      {
        if k > 0 {
          assert Spin(rem)[k] == Spin(rem')[k - 1] && Spin(rem)[k + 1] == Spin(rem')[k];
        }
      }
    }
  }

  /** The first target's slot count beats or meets a rival's closely enough for a turn to alternate. */
  predicate HasRival(rem: seq<nat>)
    requires rem != []
  {
    var b := Best(rem);
    exists j :: 0 <= j < |rem| && j != b && (rem[j] == rem[b] || (j > b && rem[j] == rem[b] - 1))
  }

  /** No two neighbouring slots of one turn are equal exactly when the target filled first has an
      equally heavy rival, or a later one only one unit lighter. */
  lemma InterleavesExactlyWhen(rem: seq<nat>)
    requires |rem| >= 2 && forall i :: 0 <= i < |rem| ==> rem[i] >= 1
    ensures Interleaved(Spin(rem)) <==> HasRival(rem)
  {
    var b := Best(rem);
    SumAtLeast(rem);
    InterleavedFrom(rem);
    var rem' := Take(rem, b);
    var c := Best(rem');
    assert LastMax(rem', c);
    if c != b {
      assert rem'[b] <= rem'[c] && rem'[c] == rem[c];
    } else {
      assert forall j :: 0 <= j < |rem| && j != b ==> rem'[j] == rem[j];
    }
  }

  /** The last slot of a turn belongs to the first target: on a tie every other is taken before it. */
  lemma {:induction false} FirstTargetIsLast(rem: seq<nat>)
    requires rem != [] && rem[0] >= 1
    ensures Sum(rem) >= 1 && Spin(rem)[Sum(rem) - 1] == 0
    decreases Sum(rem)
  {
    var b := Best(rem);
    SumPositive(rem);
    SumTake(rem, b);
    var rest := Take(rem, b);
    assert Spin(rem) == [b] + Spin(rest);
    SumPositive(rest);
    if Sum(rest) >= 1 {
      assert LastMax(rem, b);
      FirstTargetIsLast(rest);
    } else {
      assert rest[0] == 0 && b == 0;
      assert Spin(rest) == [];
    }
  }

  /** Picks i and i + 1 of a wheel that turns round and round are the same target. */
  predicate RepeatsAt(wheel: seq<nat>, i: nat)
    requires wheel != []
  {
    wheel[i % |wheel|] == wheel[(i + 1) % |wheel|]
  }

  ghost predicate NeverRepeats(wheel: seq<nat>)
    requires wheel != []
  {
    forall i: nat :: !RepeatsAt(wheel, i)
  }

  lemma NextSlot(i: nat, n: nat)
    requires n > 0
    ensures (i + 1) % n == if i % n == n - 1 then 0 else i % n + 1
  {
    var q, r := i / n, i % n;
    assert i == q * n + r;
    if r == n - 1 {
      assert i + 1 == (q + 1) * n + 0;
      DivisionIsUnique(i + 1, n, q + 1, 0);
    } else {
      DivisionIsUnique(i + 1, n, q, r + 1);
    }
  }

  /** A turning wheel never repeats exactly when one turn does not and its two ends differ. */
  lemma NeverRepeatsByTurn(wheel: seq<nat>)
    requires wheel != []
    ensures NeverRepeats(wheel) <==> Interleaved(wheel) && wheel[|wheel| - 1] != wheel[0]
  {
    var n := |wheel|;
    if NeverRepeats(wheel) {
      forall k | 0 <= k < n
        ensures wheel[k] != wheel[if k == n - 1 then 0 else k + 1]
      {
        assert !RepeatsAt(wheel, k);
        DivisionIsUnique(k, n, 0, k);
        NextSlot(k, n);
      }
    } else {
      var i: nat :| RepeatsAt(wheel, i);
      NextSlot(i, n);
      var k := i % n;
      assert k < n - 1 ==> wheel[k] == wheel[k + 1];
    }
  }

  /** No target is hit by two picks in a row, turn after turn, exactly when the target filled first
      is not the first one and has an equally heavy rival, or a later one only one unit lighter. */
  lemma NeverRepeatsExactlyWhen(rem: seq<nat>)
    requires |rem| >= 2 && forall i :: 0 <= i < |rem| ==> rem[i] >= 1
    ensures Spin(rem) != [] && (NeverRepeats(Spin(rem)) <==> Best(rem) != 0 && HasRival(rem))
  {
    TurnEnds(rem, Spin(rem));
    InterleavesExactlyWhen(rem);
    NeverRepeatsByTurn(Spin(rem));
  }

  lemma TurnEnds(rem: seq<nat>, wheel: seq<nat>)
    requires |rem| >= 2 && wheel == Spin(rem) && forall i :: 0 <= i < |rem| ==> rem[i] >= 1
    ensures wheel != [] && wheel[0] == Best(rem) && wheel[|wheel| - 1] == 0
  {
    SumAtLeast(rem);
    FirstTargetIsLast(rem);
    FirstSlot(rem);
  }

  lemma FirstSlot(rem: seq<nat>)
    requires rem != [] && Sum(rem) >= 1
    ensures Spin(rem)[0] == Best(rem)
  {
    SumPositive(rem);
    SumTake(rem, Best(rem));
    assert Spin(rem) == [Best(rem)] + Spin(Take(rem, Best(rem)));
  }

  lemma {:induction false} SumAtLeast(rem: seq<nat>)
    requires forall i :: 0 <= i < |rem| ==> rem[i] >= 1
    ensures Sum(rem) >= |rem|
  {
    if rem != [] {
      SumAtLeast(rem[..|rem| - 1]);
    }
  }

  /** Weights 3 and 1: the heavier target is hit twice in a row although "interleaving" is promised. */
  lemma ThreeToOneRepeats()
    ensures !Interleaved(Spin([3, 1]))
  {
    assert Best([3, 1]) == 0;
    InterleavesExactlyWhen([3, 1]);
  }

  /** Weights 2 and 1 alternate within a turn but not from turn to turn: the third pick and the fourth
      both hit the first target. So it goes for 3 and 2, the example given with the code. */
  lemma SeamRepeats()
    ensures Interleaved(Spin([2, 1])) && RepeatsAt(Spin([2, 1]), 2)
    ensures Interleaved(Spin([3, 2])) && RepeatsAt(Spin([3, 2]), 4)
  {
    SeamOf(2);
    SeamOf(3);
  }

  lemma SeamOf(n: nat)
    requires n >= 2
    ensures |Spin([n, n - 1])| == 2 * n - 1 && Interleaved(Spin([n, n - 1])) && RepeatsAt(Spin([n, n - 1]), 2 * n - 2)
  {
    var rem := [n, n - 1];
    assert Best(rem) == 0 && rem[1] == rem[0] - 1;
    InterleavesExactlyWhen(rem);
    FirstTargetIsLast(rem);
    assert rem[..1] == [n] && [n][..0] == [];
    assert Sum([n]) == n && Sum(rem) == Sum([n]) + (n - 1);
    var m := 2 * n - 1;
    DivisionIsUnique(m - 1, m, 0, m - 1);
    DivisionIsUnique(m, m, 1, 0);
    FirstSlot(rem);
  }

  // ---------------------------------------------------------------- fairness of consecutive picks

  /** How many of the n picks from index start on hit x, the wheel turning round and round. */
  function Hits(wheel: seq<nat>, start: nat, n: nat, x: nat): nat
    requires wheel != []
  {
    if n == 0 then 0
    else Hits(wheel, start, n - 1, x) + (if wheel[(start + n - 1) % |wheel|] == x then 1 else 0)
  }

  lemma {:induction false} HitsSplit(wheel: seq<nat>, start: nat, m: nat, n: nat, x: nat)
    requires wheel != []
    ensures Hits(wheel, start, m + n, x) == Hits(wheel, start, m, x) + Hits(wheel, start + m, n, x)
  {
    if n > 0 {
      HitsSplit(wheel, start, m, n - 1, x);
      assert start + m + n - 1 == start + (m + n) - 1;
    }
  }

  lemma SmallMod(i: nat, w: nat)
    requires i < w
    ensures i % w == i
  {
  }

  lemma {:induction false} HitsOfPrefix(wheel: seq<nat>, n: nat, x: nat)
    requires wheel != [] && n <= |wheel|
    ensures Hits(wheel, 0, n, x) == multiset(wheel[..n])[x]
  {
    if n > 0 {
      HitsOfPrefix(wheel, n - 1, x);
      assert wheel[..n] == wheel[..n - 1] + [wheel[n - 1]];
      SmallMod(n - 1, |wheel|);
      assert 0 + n - 1 == n - 1;
    }
  }

  /** One full turn, wherever it starts, hits x exactly as often as the wheel holds it. */
  lemma {:induction false} FullTurn(wheel: seq<nat>, start: nat, x: nat)
    requires wheel != []
    ensures Hits(wheel, start, |wheel|, x) == multiset(wheel)[x]
  {
    var w := |wheel|;
    if start == 0 {
      HitsOfPrefix(wheel, w, x);
      assert wheel[..w] == wheel;
    } else {
      FullTurn(wheel, start - 1, x);
      HitsSplit(wheel, start - 1, 1, w, x);
      HitsSplit(wheel, start - 1, w, 1, x);
      OneTurnLater(start - 1, w);
      assert Hits(wheel, start - 1, 1 + w, x) == Hits(wheel, start - 1, w + 1, x);
      assert Hits(wheel, start - 1, 1, x) == if wheel[(start - 1) % w] == x then 1 else 0;
      assert Hits(wheel, start - 1 + w, 1, x) == if wheel[(start - 1 + w) % w] == x then 1 else 0;
    }
  }

  lemma OneTurnLater(i: nat, w: nat)
    requires w > 0
    ensures (i + w) % w == i % w
  {
    ModShift(w, 1, i);
  }

  lemma OneMore(k: nat, c: nat)
    requires k > 0
    ensures k * c == (k - 1) * c + c && (k + 1) * c == k * c + c
  {
  }

  /** Over any n consecutive picks from any start, x is hit between floor(n/W) and ceil(n/W)
      times its share of a turn; exactly its share times n/W when n is a whole number of turns. */
  lemma {:induction false} FairShare(wheel: seq<nat>, start: nat, n: nat, x: nat, turns: nat, rest: nat)
    requires wheel != [] && n == turns * |wheel| + rest && rest < |wheel|
    ensures turns * multiset(wheel)[x] <= Hits(wheel, start, n, x)
    ensures Hits(wheel, start, n, x) <= (if rest == 0 then turns else turns + 1) * multiset(wheel)[x]
    decreases turns
  {
    var w, c := |wheel|, multiset(wheel)[x];
    if turns == 0 {
      FullTurn(wheel, start, x);
      HitsSplit(wheel, start, n, w - n, x);
    } else {
      var m := (turns - 1) * w + rest;
      OneMore(turns, w);
      HitsSplit(wheel, start, w, m, x);
      FullTurn(wheel, start, x);
      FairShare(wheel, start + w, m, x, turns - 1, rest);
      OneMore(turns, c);
    }
  }
}
