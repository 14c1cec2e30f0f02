/** Counting the edges of a quadrature encoder (avr/main.c): one encoder's share of
    the pin-change interrupt, and of the timer interrupt that hands the counts since
    its last run to the motor controller and starts counting anew. */
module Quadrature {
  datatype Pins = Pins(a: bool, b: bool)

  const U32: nat := 0x1_0000_0000
  const U16: nat := 0x1_0000

  /** `x` and `y` are congruent modulo `m`. */
  predicate Congruent(x: int, y: int, m: nat)
    requires m != 0
  {
    (x - y) % m == 0
  }

  lemma CongruentBy(x: int, y: int, m: nat, k: int)
    requires m != 0 && x - y == m * k
    ensures Congruent(x, y, m)
  {
    var j := k - (m * k) / m;
    assert (m * k) % m == m * j;
    if j >= 1 {
      AtLeast(m, j);
      assert false;
    } else if j <= -1 {
      AtLeast(m, -j);
      assert false;
    }
  }

  lemma AtLeast(m: int, j: int)
    requires m >= 0 && j >= 1
    ensures m * j >= m && m * -j <= -m
  {}

  lemma CongruentSum(x: int, y: int, x': int, y': int, m: nat)
    requires m != 0 && Congruent(x, y, m) && Congruent(x', y', m)
    ensures Congruent(x + x', y + y', m)
  {
    var k, k' := (x - y) / m, (x' - y') / m;
    assert x - y == m * k && x' - y' == m * k';
    assert x + x' - (y + y') == m * (k + k');
    CongruentBy(x + x', y + y', m, k + k');
  }

  /** Conversion to int16_t. */
  function ToInt16(x: int): (r: int)
    ensures -0x8000 <= r < 0x8000 && Congruent(r, x, U16)
  {
    var m := x % U16;
    var r := if m < 0x8000 then m else m - U16;
    assert Congruent(r, x, U16) by {
      CongruentBy(r, x, U16, if m < 0x8000 then -(x / U16) else -(x / U16) - 1);
    }
    r
  }

  // ------------------------------------------------------------------
  // What a change of the pins counts as
  // ------------------------------------------------------------------

  /** The two tests of enc_update; the pins are read inverted. */
  predicate CountsUp(old_: Pins, pin: Pins) {
    var a, b := !pin.a, !pin.b;
    var da, db := pin.a != old_.a, pin.b != old_.b;
    (da && a != b) || (db && a == b)
  }

  predicate CountsDown(old_: Pins, pin: Pins) {
    var a, b := !pin.a, !pin.b;
    var da, db := pin.a != old_.a, pin.b != old_.b;
    (da && a == b) || (db && a != b)
  }

  function One(c: bool): nat { if c then 1 else 0 }

  /** Pins that changed. */
  function Edges(old_: Pins, pin: Pins): nat {
    One(pin.a != old_.a) + One(pin.b != old_.b)
  }

  /** The position of the pins in the Gray code. */
  function Index(p: Pins): nat {
    if !p.a then (if !p.b then 0 else 3) else (if !p.b then 1 else 2)
  }

  function Net(old_: Pins, pin: Pins): int {
    One(CountsUp(old_, pin)) - One(CountsDown(old_, pin))
  }

  lemma StepCounts(p: Pins, q: Pins)
    ensures One(CountsUp(p, q)) + One(CountsDown(p, q)) == Edges(p, q)
    ensures Congruent(Net(p, q), Index(q) - Index(p) + 2 * (Edges(p, q) / 2), 4)
    ensures Edges(p, q) <= 1 ==> Net(q, p) == -Net(p, q)
  {}

  // ------------------------------------------------------------------
  // Paths
  // ------------------------------------------------------------------

  /** Sums over the steps of a path of pin samples. */
  function Ups(path: seq<Pins>): nat
    decreases |path|
  {
    if |path| < 2 then 0
    else Ups(path[..|path| - 1]) + One(CountsUp(path[|path| - 2], path[|path| - 1]))
  }

  function Downs(path: seq<Pins>): nat
    decreases |path|
  {
    if |path| < 2 then 0
    else Downs(path[..|path| - 1]) + One(CountsDown(path[|path| - 2], path[|path| - 1]))
  }

  function AllEdges(path: seq<Pins>): nat
    decreases |path|
  {
    if |path| < 2 then 0
    else AllEdges(path[..|path| - 1]) + Edges(path[|path| - 2], path[|path| - 1])
  }

  function Moved(path: seq<Pins>): int {
    Ups(path) - Downs(path)
  }

  /** Samples that change both pins. */
  function Doubles(path: seq<Pins>): nat
    decreases |path|
  {
    if |path| < 2 then 0
    else Doubles(path[..|path| - 1]) + Edges(path[|path| - 2], path[|path| - 1]) / 2
  }

  /** No sample changes both pins. */
  predicate SingleSteps(path: seq<Pins>)
    decreases |path|
  {
    |path| < 2 || (Edges(path[|path| - 2], path[|path| - 1]) <= 1 && SingleSteps(path[..|path| - 1]))
  }

  /** Every edge is counted once. */
  lemma {:induction false} EdgesAreCounted(path: seq<Pins>)
    ensures Ups(path) + Downs(path) == AllEdges(path)
    decreases |path|
  {
    if |path| >= 2 {
      EdgesAreCounted(path[..|path| - 1]);
      StepCounts(path[|path| - 2], path[|path| - 1]);
    }
  }

  /** The count follows the position in the Gray code, except that a sample that
      changes both pins is two places off. */
  lemma {:induction false} CountIsPosition(path: seq<Pins>)
    requires path != []
    ensures var d := Index(path[|path| - 1]) - Index(path[0]);
            Congruent(Moved(path), d + 2 * Doubles(path), 4)
    decreases |path|
  {
    hide CountsUp, CountsDown, Index, Edges, Congruent, Net;
    if |path| == 1 {
      CongruentBy(0, 0, 4, 0);
    } else {
      var init, p, q := path[..|path| - 1], path[|path| - 2], path[|path| - 1];
      CountIsPosition(init);
      StepCounts(p, q);
      MovedSnoc(path);
      var d, two := Index(p) - Index(path[0]), Edges(p, q) / 2;
      CongruentSum(Moved(init), d + 2 * Doubles(init), Net(p, q), Index(q) - Index(p) + 2 * two, 4);
    }
  }

  /** So the count is the position modulo 2 always, and modulo 4 if and only if an
      even number of samples changed both pins. */
  lemma PositionModuloFour(path: seq<Pins>)
    requires path != []
    ensures var d := Index(path[|path| - 1]) - Index(path[0]);
            && Congruent(Moved(path), d, 2)
            && (Congruent(Moved(path), d, 4) <==> Doubles(path) % 2 == 0)
            && (SingleSteps(path) ==> Doubles(path) == 0)
  {
    CountIsPosition(path);
    if SingleSteps(path) {
      NoDoubles(path);
    }
    hide Congruent, Doubles, Moved;
    Halves(Moved(path), Index(path[|path| - 1]) - Index(path[0]), Doubles(path));
  }

  lemma Halves(m: int, d: int, n: nat)
    requires Congruent(m, d + 2 * n, 4)
    ensures Congruent(m, d, 2)
    ensures Congruent(m, d, 4) <==> n % 2 == 0
  {
    var k, h := (m - (d + 2 * n)) / 4, n / 2;
    assert m - d == 4 * k + 2 * n && n == 2 * h + n % 2;
    hide Congruent;
    CongruentBy(m, d, 2, 2 * k + n);
    if n % 2 == 0 {
      CongruentBy(m, d, 4, k + h);
    } else if Congruent(m, d, 4) {
      NotCongruent(m, d, k + h);
    }
  }

  lemma NotCongruent(m: int, d: int, j: int)
    requires m - d == 4 * j + 2
    ensures !Congruent(m, d, 4)
  {}

  lemma {:induction false} NoDoubles(path: seq<Pins>)
    requires SingleSteps(path)
    ensures Doubles(path) == 0
    decreases |path|
  {
    if |path| >= 2 {
      NoDoubles(path[..|path| - 1]);
    }
  }

  /** One turn through the four states counts four up, and none down. */
  lemma OneTurn()
    ensures var path := [Pins(false, false), Pins(true, false), Pins(true, true), Pins(false, true), Pins(false, false)];
            Ups(path) == 4 && Downs(path) == 0
  {
    var p0, p1, p2, p3 := Pins(false, false), Pins(true, false), Pins(true, true), Pins(false, true);
    assert [p0, p1, p2, p3, p0][..4] == [p0, p1, p2, p3];
    assert [p0, p1, p2, p3][..3] == [p0, p1, p2] && [p0, p1, p2][..2] == [p0, p1] && [p0, p1][..1] == [p0];
    assert Ups([p0, p1]) == 1 && Downs([p0, p1]) == 0;
    assert Ups([p0, p1, p2]) == 2 && Downs([p0, p1, p2]) == 0;
    assert Ups([p0, p1, p2, p3]) == 3 && Downs([p0, p1, p2, p3]) == 0;
  }

  lemma MovedSnoc(path: seq<Pins>)
    requires |path| >= 2
    ensures Moved(path) == Moved(path[..|path| - 1]) + Net(path[|path| - 2], path[|path| - 1])
  {}

  function Reverse(path: seq<Pins>): (r: seq<Pins>)
    ensures |r| == |path|
    ensures path != [] ==> r[0] == path[|path| - 1] && r[|r| - 1] == path[0]
    decreases |path|
  {
    if |path| == 0 then [] else [path[|path| - 1]] + Reverse(path[..|path| - 1])
  }

  /** Counts add up along a path. */
  lemma {:induction false} MovedJoin(p: seq<Pins>, q: seq<Pins>)
    requires p != [] && q != [] && p[|p| - 1] == q[0]
    ensures Moved(p + q[1..]) == Moved(p) + Moved(q)
    decreases |q|
  {
    if |q| == 1 {
      assert p + q[1..] == p;
    } else {
      hide Moved, Net;
      MovedOfOne(q[..1]);
      var init, r := q[..|q| - 1], p + q[1..];
      MovedJoin(p, init);
      assert r[..|r| - 1] == p + init[1..];
      assert r[|r| - 1] == q[|q| - 1] && r[|r| - 2] == q[|q| - 2];
      MovedSnoc(q);
      MovedSnoc(r);
    }
  }

  lemma MovedOfOne(p: seq<Pins>)
    requires |p| == 1
    ensures Moved(p) == 0
  {}

  lemma Turn(p: Pins, q: Pins, r: seq<Pins>)
    requires r != [] && r[0] == p
    ensures Moved([q] + r) == Net(q, p) + Moved(r)
  {
    hide Moved, Net;
    assert [q] + r == [q, p] + r[1..];
    MovedJoin([q, p], r);
    MovedSnoc([q, p]);
    assert [q, p][..1] == [q];
    MovedOfOne([q]);
  }

  lemma {:induction false} MovedReverse(path: seq<Pins>)
    requires path != [] && SingleSteps(path)
    ensures Moved(Reverse(path)) == -Moved(path)
    decreases |path|
  {
    hide Moved, Net, Edges;
    if |path| == 1 {
      MovedOfOne(path);
      MovedOfOne(Reverse(path));
    } else {
      var init, p, q := path[..|path| - 1], path[|path| - 2], path[|path| - 1];
      MovedReverse(init);
      StepCounts(p, q);
      MovedSnoc(path);
      var r := Reverse(init);
      assert Reverse(path) == [q] + r;
      Turn(p, q, r);
    }
  }

  /** Going a way without double changes, and the same way back, restores the count. */
  lemma RetracingRestores(path: seq<Pins>)
    requires path != [] && SingleSteps(path)
    ensures Moved(path + Reverse(path)[1..]) == 0
  {
    MovedJoin(path, Reverse(path));
    MovedReverse(path);
  }

  // ------------------------------------------------------------------
  // The code
  // ------------------------------------------------------------------

  function Sum(s: seq<int>): int
    decreases |s|
  {
    if |s| == 0 then 0 else Sum(s[..|s| - 1]) + s[|s| - 1]
  }

  class Encoder {
    var ctP: nat
    var ctN: nat
    var ctLocal: int
    var oldPin: Pins
    ghost var path: seq<Pins>  // all samples, after the initial one
    ghost var handed: seq<int> // what was handed to the controller

    /** The 32-bit counters count the edges, and nothing that was counted is missing
        from what the controller got and the current local count. */
    ghost predicate Valid()
      reads this
    {
      && path != [] && oldPin == path[|path| - 1]
      && ctP == Ups(path) % U32 && ctN == Downs(path) % U32
      && -0x8000 <= ctLocal < 0x8000
      && Congruent(Moved(path), Sum(handed) + ctLocal, U16)
    }

    constructor ()
      ensures Valid() && path == [Pins(false, false)] && handed == []
    {
      ctP, ctN, ctLocal := 0, 0, 0;
      oldPin := Pins(false, false);
      path, handed := [Pins(false, false)], [];
      PowerUp([Pins(false, false)]);
      hide Congruent, Ups, Downs, Sum;
    }

    /** enc_update and the update of `old_pin` */
    method EncIsr(pin: Pins)
      requires Valid()
      modifies this`ctP, this`ctN, this`ctLocal, this`oldPin, this`path
      ensures Valid() && path == old(path) + [pin]
    {
      hide Congruent, ToInt16;
      var a, b := !pin.a, !pin.b;
      var da, db := pin.a != oldPin.a, pin.b != oldPin.b;
      ghost var sum, moved := Sum(handed), Moved(path);
      if (da && a != b) || (db && a == b) {
        CountOne(Ups(path));
        LocalFollows(moved, sum, ctLocal, 1);
        ctP := (ctP + 1) % U32;
        ctLocal := ToInt16(ctLocal + 1);
        moved := moved + 1;
      }
      if (da && a == b) || (db && a != b) {
        CountOne(Downs(path));
        LocalFollows(moved, sum, ctLocal, -1);
        ctN := (ctN + 1) % U32;
        ctLocal := ToInt16(ctLocal - 1);
        moved := moved - 1;
      }
      assert (path + [pin])[..|path|] == path;
      path := path + [pin];
      oldPin := pin;
    }

    /** pid_step, for an arbitrary controller. */
    method PidStep() returns (ct: int)
      requires Valid()
      modifies this
      ensures Valid() && path == old(path)
      ensures ct == old(ctLocal) && ctLocal == 0 && handed == old(handed) + [ct]
      ensures -0x8000 <= old(Moved(path) - Sum(handed)) < 0x8000 ==> ct == old(Moved(path) - Sum(handed))
    {
      CountersExact();
      ct := ctLocal;
      assert (handed + [ct])[..|handed|] == handed;
      handed := handed + [ct];
      ctLocal := 0;
    }

    /** The counters exactly: 32 bits of what was counted up and down, and of what is
        still to be handed over the 16-bit value, which is it as long as it fits. */
    lemma CountersExact()
      requires Valid()
      ensures ctP == Ups(path) % 0x1_0000_0000 && ctN == Downs(path) % 0x1_0000_0000
      ensures Ups(path) < 0x1_0000_0000 ==> ctP == Ups(path)
      ensures Downs(path) < 0x1_0000_0000 ==> ctN == Downs(path)
      ensures var due := Moved(path) - Sum(handed);
              && -0x8000 <= ctLocal < 0x8000 && (ctLocal - due) % 0x1_0000 == 0
              && (-0x8000 <= due < 0x8000 ==> ctLocal == due)
    {
      var due := Moved(path) - Sum(handed);
      hide Ups, Downs, Sum, Moved;
      LocalExact(due, ctLocal);
    }

    /** What the counters tell at any time: their sum is the number of pin edges,
        their difference what the controller was or will be given, and modulo 2 the
        position in the Gray code; modulo 4 exactly after an even number of samples
        that changed both pins. */
    lemma CountersTell()
      requires Valid()
      ensures Congruent(ctP + ctN, AllEdges(path), U32)
      ensures Congruent(ctP - ctN, Sum(handed) + ctLocal, U16)
      ensures var d := Index(oldPin) - Index(path[0]);
              && Congruent(ctP - ctN, d, 2)
              && (Congruent(ctP - ctN, d, 4) <==> Doubles(path) % 2 == 0)
    {
      hide Congruent, Ups, Downs, Sum, Index, AllEdges, Doubles;
      var p, n := Ups(path), Downs(path);
      var i, j := p / U32, n / U32;
      assert ctP == p - U32 * i && ctN == n - U32 * j;
      EdgesAreCounted(path);
      CongruentBy(ctP + ctN, p + n, U32, -i - j);
      CongruentBy(ctP - ctN, p - n, U16, U16 * (j - i));
      CongruentTrans(ctP - ctN, p - n, Sum(handed) + ctLocal, U16);
      PositionModuloFour(path);
      var d := Index(oldPin) - Index(path[0]);
      CongruentBy(ctP - ctN, p - n, 2, 0x8000_0000 * (j - i));
      CongruentTrans(ctP - ctN, p - n, d, 2);
      CongruentBy(ctP - ctN, p - n, 4, 0x4000_0000 * (j - i));
      CongruentBy(p - n, ctP - ctN, 4, 0x4000_0000 * (i - j));
      if Doubles(path) % 2 == 0 {
        CongruentTrans(ctP - ctN, p - n, d, 4);
      } else if Congruent(ctP - ctN, d, 4) {
        CongruentTrans(p - n, ctP - ctN, d, 4);
      }
    }
  }

  lemma LocalExact(due: int, local: int)
    requires -0x8000 <= local < 0x8000 && Congruent(due, local, U16)
    ensures (local - due) % 0x1_0000 == 0
    ensures -0x8000 <= due < 0x8000 ==> local == due
  {
    CongruentFlip(due, local);
  }

  lemma PowerUp(p: seq<Pins>)
    requires |p| == 1
    ensures Ups(p) == Downs(p) == Sum([]) == 0 && 0 % U32 == 0 && Congruent(0, 0, U16)
  {
    CongruentBy(0, 0, U16, 0);
  }

  lemma CountOne(n: nat)
    ensures (n % U32 + 1) % U32 == (n + 1) % U32
  {}

  /** One count up or down, wherever the local count wraps. */
  lemma LocalFollows(moved: int, sum: int, was: int, by_: int)
    requires Congruent(moved, sum + was, U16)
    ensures Congruent(moved + by_, sum + ToInt16(was + by_), U16)
  {
    hide Congruent, ToInt16;
    var now := ToInt16(was + by_);
    CongruentBy(by_, by_, U16, 0);
    CongruentSum(moved, sum + was, by_, by_, U16);
    CongruentFlip(now, was + by_);
    CongruentBy(sum, sum, U16, 0);
    CongruentSum(was + by_, now, sum, sum, U16);
    CongruentTrans(moved + by_, sum + was + by_, sum + now, U16);
  }

  lemma CongruentFlip(x: int, y: int)
    requires Congruent(x, y, U16)
    ensures Congruent(y, x, U16)
  {
    CongruentBy(y, x, U16, -((x - y) / U16));
  }

  lemma CongruentTrans(x: int, y: int, z: int, m: nat)
    requires m != 0 && Congruent(x, y, m) && Congruent(y, z, m)
    ensures Congruent(x, z, m)
  {
    var j, k := (x - y) / m, (y - z) / m;
    assert x - y == m * j && y - z == m * k;
    CongruentBy(x, z, m, j + k);
  }
}
