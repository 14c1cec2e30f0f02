/** What damage on the wire does, where frames are stuffed: a burst that hits no
    control byte and makes none is detected, and one flipped bit that makes a flag
    need not be. */
module Damage {
  import opened Crc
  import opened Wire

  /** The same bytes are flags, aborts and escapes. */
  predicate SameControls(x: seq<byte>, y: seq<byte>) {
    |x| == |y| && forall i :: 0 <= i < |x| ==> SameControl(x[i], y[i])
  }

  predicate SameControl(b: byte, c: byte) {
    EscCheck(b) || EscCheck(c) ==> b == c
  }

  function ErrorAt(x: seq<byte>, y: seq<byte>, i: nat): byte
    requires |x| == |y|
  {
    if i < |x| then Change(x[i], y[i]) else 0
  }

  /** Up to three neighbouring bytes differ within sixteen consecutive bits, counted
      from bit `k` of the first. */
  predicate Burst(x: seq<byte>, y: seq<byte>, k: bv8) {
    |x| == |y| <= 3 && InBurst(ErrorAt(x, y, 0), ErrorAt(x, y, 1), ErrorAt(x, y, 2), k)
  }

  // ------------------------------------------------------------------
  // Damage to stored bytes
  // ------------------------------------------------------------------

  lemma OneChangeDetected(a: seq<byte>, x: byte, y: byte, b: seq<byte>)
    requires Checks(a + [x] + b) && x != y
    ensures !Checks(a + [y] + b)
  {
    hide Update;
    FoldAppend(INIT, a + [x], b);
    FoldAppend(INIT, a + [y], b);
    FoldSnoc(INIT, a, x);
    FoldSnoc(INIT, a, y);
    if Checks(a + [y] + b) {
      FoldInjective(Update(Fold(INIT, a), x), Update(Fold(INIT, a), y), b);
      UpdateDataInjective(Fold(INIT, a), x, y);
    }
  }

  /** At most two neighbouring stored bytes changed, or three within a burst. */
  lemma StoredDamageDetected(a: seq<byte>, p: seq<byte>, q: seq<byte>, b: seq<byte>, k: bv8)
    requires |p| == |q| <= 3 && p != q && (|p| == 3 ==> Burst(p, q, k))
    requires Checks(a + p + b)
    ensures !Checks(a + q + b)
  {
    hide Checks, InBurst;
    if |p| == 1 {
      assert p == [p[0]] && q == [q[0]];
      OneChangeDetected(a, p[0], q[0], b);
    } else if |p| == 2 {
      assert p == [p[0], p[1]] && q == [q[0], q[1]];
      PairChangeDetected(a, p[0], p[1], q[0], q[1], b);
    } else {
      ThreeChanged(a, p, q, b, k);
    }
  }

  lemma ThreeChanged(a: seq<byte>, p: seq<byte>, q: seq<byte>, b: seq<byte>, k: bv8)
    requires |p| == |q| == 3 && p != q && Burst(p, q, k)
    requires Checks(a + p + b)
    ensures !Checks(a + q + b)
  {
    hide Checks, InBurst;
    assert p == [p[0], p[1], p[2]] && q == [q[0], q[1], q[2]];
    BurstBetween(a, p[0], p[1], p[2], q[0], q[1], q[2], b, k);
  }

  function Change(x: byte, y: byte): byte { x ^ y }

  lemma BurstBetween(a: seq<byte>, p0: byte, p1: byte, p2: byte, q0: byte, q1: byte, q2: byte,
                     b: seq<byte>, k: bv8)
    requires InBurst(Change(p0, q0), Change(p1, q1), Change(p2, q2), k)
    requires p0 != q0 || p1 != q1 || p2 != q2
    requires Checks(a + [p0, p1, p2] + b)
    ensures !Checks(a + [q0, q1, q2] + b)
  {
    hide Checks, InBurst, Change;
    var e0, e1, e2 := Change(p0, q0), Change(p1, q1), Change(p2, q2);
    ChangeIs(p0, q0);
    ChangeIs(p1, q1);
    ChangeIs(p2, q2);
    BurstDetected(a, p0, p1, p2, b, e0, e1, e2, k);
  }

  lemma ChangeIs(x: byte, y: byte)
    ensures x ^ Change(x, y) == y
    ensures Change(x, y) == 0 <==> x == y
  {}

  // ------------------------------------------------------------------
  // Damage on the wire
  // ------------------------------------------------------------------

  /** What a damaged byte is unstuffed to. */
  function One(escaped: bool, b: byte): seq<byte> {
    if b == ESC then [] else [if escaped then Masked(b) else b]
  }

  lemma UnstuffOne(escaped: bool, b: byte, t: seq<byte>)
    ensures Unstuff(escaped, [b] + t) == One(escaped, b) + Unstuff(b == ESC, t)
  {
    assert ([b] + t)[1..] == t;
  }

  lemma OneDiffers(escaped: bool, b: byte, c: byte)
    requires SameControl(b, c)
    ensures b == ESC <==> c == ESC
    ensures |One(escaped, b)| == |One(escaped, c)|
    ensures One(escaped, b) == One(escaped, c) <==> b == c
    ensures b != ESC ==> Change(One(escaped, b)[0], One(escaped, c)[0]) == Change(b, c)
  {
    SameEscape(b, c);
    MaskedChange(b, c);
    hide Masked, SameControl, Change;
    if b != ESC {
      assert One(escaped, b)[0] == One(escaped, c)[0] <==> b == c;
    }
  }

  lemma SameEscape(b: byte, c: byte)
    requires SameControl(b, c)
    ensures b == ESC <==> c == ESC
  {}

  lemma MaskedChange(b: byte, c: byte)
    ensures Change(Masked(b), Masked(c)) == Change(b, c)
    ensures Masked(b) == Masked(c) <==> b == c
  {}

  /** Damage that leaves the control bytes alone changes the stored bytes, not their
      number; and nothing but their places when there are escapes among them. */
  lemma {:induction false} UnstuffedDamage(escaped: bool, x: seq<byte>, y: seq<byte>)
    requires SameControls(x, y)
    ensures var p, q := Unstuff(escaped, x), Unstuff(escaped, y);
            && |p| == |q| <= |x| && (p == q <==> x == y)
            && (|p| == |x| ==> forall i :: 0 <= i < |x| ==> Change(p[i], q[i]) == Change(x[i], y[i]))
    ensures EscapedAfter(escaped, x) == EscapedAfter(escaped, y)
    decreases |x|
  {
    hide SameControl, Unstuff, One, Change;
    UnstuffNothing(escaped);
    if |x| == 0 {
      assert x == [] && y == [];
    } else {
      var b, c, s, t := x[0], y[0], x[1..], y[1..];
      assert x == [b] + s && y == [c] + t;
      assert SameControl(b, c);
      assert SameControls(s, t);
      OneDiffers(escaped, b, c);
      UnstuffOne(escaped, b, s);
      UnstuffOne(escaped, c, t);
      UnstuffedDamage(b == ESC, s, t);
      OneLength(escaped, b);
      EscapedCons(escaped, b, s);
      EscapedCons(escaped, c, t);
      Joined(One(escaped, b), Unstuff(b == ESC, s), One(escaped, c), Unstuff(b == ESC, t));
    }
  }

  lemma UnstuffNothing(escaped: bool)
    ensures Unstuff(escaped, []) == []
  {}

  lemma OneLength(escaped: bool, b: byte)
    ensures |One(escaped, b)| == if b == ESC then 0 else 1
  {}

  lemma Joined(p: seq<byte>, q: seq<byte>, r: seq<byte>, s: seq<byte>)
    requires |p| == |r|
    ensures p + q == r + s <==> p == r && q == s
  {
    if p + q == r + s {
      assert p == (p + q)[..|p|] && r == (r + s)[..|p|];
      assert q == (p + q)[|p|..] && s == (r + s)[|p|..];
    }
  }

  /** A burst of at most sixteen bits that leaves every flag, abort and escape where
      it is and makes no new one is detected: the frame is not carried, and all
      others are. */
  lemma WireBurstDetected(a: seq<byte>, x: seq<byte>, y: seq<byte>, b: seq<byte>, k: bv8,
                          rest: seq<byte>, cap: nat)
    requires x != y && SameControls(x, y) && Burst(x, y, k)
    requires FLAG !in a + x + b && Good(a + x + b, cap)
    ensures CarriedAfterFlag((a + x + b) + [FLAG] + rest, cap) == [Payload(a + x + b)] + CarriedAfterFlag(rest, cap)
    ensures CarriedAfterFlag((a + y + b) + [FLAG] + rest, cap) == CarriedAfterFlag(rest, cap)
  {
    hide CarriedAfterFlag, InBurst, Checks, Unstuff, EscapedAfter, EscCheck, Change;
    var e := EscapedAfter(false, a);
    var p, q := Unstuff(e, x), Unstuff(e, y);
    UnstuffThree(a, x, b);
    UnstuffThree(a, y, b);
    UnstuffedDamage(e, x, y);
    if |p| == 3 {
      assert ErrorAt(p, q, 0) == ErrorAt(x, y, 0) && ErrorAt(p, q, 1) == ErrorAt(x, y, 1) && ErrorAt(p, q, 2) == ErrorAt(x, y, 2);
    }
    StoredDamageDetected(Unstuff(false, a), p, q, Unstuff(EscapedAfter(e, x), b), k);
    NoNewFlag(a, x, y, b);
    CarriedCons(a + x + b, rest, cap);
    CarriedCons(a + y + b, rest, cap);
  }

  lemma UnstuffThree(a: seq<byte>, x: seq<byte>, b: seq<byte>)
    ensures var e := EscapedAfter(false, a);
            Unstuff(false, a + x + b) == Unstuff(false, a) + Unstuff(e, x) + Unstuff(EscapedAfter(e, x), b)
  {
    UnstuffAppend(false, a + x, b);
    UnstuffAppend(false, a, x);
    EscapedAppend(false, a, x);
  }

  lemma EscapedAppend(escaped: bool, a: seq<byte>, x: seq<byte>)
    ensures EscapedAfter(escaped, a + x) == EscapedAfter(EscapedAfter(escaped, a), x)
  {}

  lemma NoNewFlag(a: seq<byte>, x: seq<byte>, y: seq<byte>, b: seq<byte>)
    requires FLAG !in a + x + b && SameControls(x, y)
    ensures FLAG !in a + y + b
  {
    assert forall c :: c in a + x + b <==> c in a || c in x || c in b;
    assert forall c :: c in a + y + b <==> c in a || c in y || c in b;
    forall i | 0 <= i < |y|
      ensures y[i] != FLAG
    {
      assert SameControl(x[i], y[i]) && x[i] in x;
    }
  }

  // ------------------------------------------------------------------
  // Damage that makes a flag
  // ------------------------------------------------------------------

  /** One flipped bit can cut a packet out of a frame that was never sent: the third
      byte of this one becomes a flag, and what precedes it checks. */
  lemma FlippedBitWitness()
    ensures var sent: seq<byte> := [0xff, 0xff, 0x5e];
            var body := Stuff(Stored(sent));
            && |body| > 2 && body[2] == 0x5e
            && Carried([FLAG] + body + [FLAG], 63) == [sent]
            && [[]] <= Carried([FLAG] + body[2 := 0x5e ^ 0x20] + [FLAG], 63)
  {
    var sent: seq<byte> := [0xff, 0xff, 0x5e];
    var w := Stored(sent);
    var body, t := Stuff(w), Stuff(CheckBytes(sent));
    StuffTransparent(w);
    StuffTransparent(CheckBytes(sent));
    StuffAppend(sent, CheckBytes(sent));
    StuffPlain(sent);
    GoodStored(sent, 63);
    EmptyFrame();
    assert CarriedAfterFlag([], 63) == [] by { EmptyStream(63); }
    hide Stuff, Stored, CarriedAfterFlag, Unstuff, Checks, CheckBytes;
    assert [FLAG] + body + [FLAG] == [FLAG] + (body + [FLAG] + []);
    CarriedFromFlag(body + [FLAG] + [], 63);
    CarriedCons(body, [], 63);
    var cut: seq<byte> := [0xff, 0xff];
    FlagOfBits();
    assert body == sent + t;
    assert body[2 := 0x5e ^ 0x20] == cut + [FLAG] + t;
    assert [FLAG] + (cut + [FLAG] + t) + [FLAG] == [FLAG] + (cut + [FLAG] + (t + [FLAG]));
    CarriedFromFlag(cut + [FLAG] + (t + [FLAG]), 63);
    CarriedCons(cut, t + [FLAG], 63);
  }

  lemma FlagOfBits()
    ensures 0x5e ^ 0x20 == FLAG
  {}

  lemma StuffPlain(s: seq<byte>)
    requires |s| == 3 && !EscCheck(s[0]) && !EscCheck(s[1]) && !EscCheck(s[2])
    ensures Stuff(s) == s
  {
    assert s == [s[0]] + ([s[1]] + ([s[2]] + []));
    StuffOne(s[0], [s[1]] + ([s[2]] + []));
    StuffOne(s[1], [s[2]] + []);
    StuffOne(s[2], []);
  }

  lemma EmptyFrame()
    ensures Good([0xff, 0xff], 63) && Payload([0xff, 0xff]) == []
  {
    var x: seq<byte> := [0xff, 0xff];
    CheckBytesCheck([]);
    assert [] + CheckBytes([]) == x;
    assert x[1..] == [0xff] && [0xff as byte][1..] == [];
    assert Unstuff(false, x) == x;
  }
}
