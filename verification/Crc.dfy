/** The 16-bit frame check of the link (pc/crc.h). avr-libc's _crc_ccitt_update
    is taken to be the same function.

    The update is related to the shift register it abbreviates, and from that
    relation follow what a residue of zero means and which errors it reveals. */
module Crc {
  type byte = bv8

  const INIT: bv16 := 0xffff

  function Lo8(val: bv16): byte { (val & 0xff) as byte }

  function Hi8(val: bv16): byte { (val >> 8) as byte }

  /** The two nibble steps of the update, after the data byte has been combined
      with the low byte of the register; `h` is the register's high byte. */
  function Mix(d: byte, h: byte): bv16 {
    Combine(d ^ (d << 4), h)
  }

  function Combine(e: byte, h: byte): bv16 {
    (((e as bv16) << 8) | (h as bv16)) ^ ((e >> 4) as bv16) ^ ((e as bv16) << 3)
  }

  function Update(crc: bv16, data: byte): bv16 {
    Mix(data ^ Lo8(crc), Hi8(crc))
  }

  function Fold(crc: bv16, s: seq<byte>): bv16
    decreases |s|
  {
    if |s| == 0 then crc else Fold(Update(crc, s[0]), s[1..])
  }

  /** The two check bytes in the order in which a receiver wants them. */
  function CheckBytes(payload: seq<byte>): (r: seq<byte>)
    ensures |r| == 2
  {
    var c := Fold(INIT, payload);
    [Lo8(c), Hi8(c)]
  }

  /** `s` is a payload followed by check bytes that bring the register to zero. */
  predicate Checks(s: seq<byte>) {
    Fold(INIT, s) == 0
  }

  // ------------------------------------------------------------------
  // The shift register
  // ------------------------------------------------------------------

  function Tap(c: bv16): bv16 { if c & 1 == 1 then 0x8408 else 0 }

  function Half(c: bv16): bv16 { c >> 1 }

  /** One clock of the register with polynomial 0x8408 and no input. */
  function Shift(c: bv16): bv16 { Half(c) ^ Tap(c) }

  /** One clock of the register with an input bit. */
  function BitStep(c: bv16, bit: bool): bv16 {
    Shift(Xor(c, if bit then 1 else 0))
  }

  function Lfsr(c: bv16, bits: seq<bool>): bv16
    decreases |bits|
  {
    if |bits| == 0 then c else Lfsr(BitStep(c, bits[0]), bits[1..])
  }

  function Xor(a: bv16, b: bv16): bv16 { a ^ b }

  function Wide(d: byte): bv16 { d as bv16 }

  /** The low `n` bits of a byte, least significant first. */
  function LowBits(d: byte, n: nat): seq<bool>
    decreases n
  {
    if n == 0 then [] else [d & 1 == 1] + LowBits(d >> 1, n - 1)
  }

  function MessageBits(s: seq<byte>): seq<bool>
    decreases |s|
  {
    if |s| == 0 then [] else LowBits(s[0], 8) + MessageBits(s[1..])
  }

  function Clock(c: bv16, n: nat): bv16
    decreases n
  {
    if n == 0 then c else Clock(Shift(c), n - 1)
  }

  function Unsent(d: byte, n: nat): byte
    decreases n
  {
    if n == 0 then d else Unsent(d >> 1, n - 1)
  }

  lemma ShiftIsXor(c: bv16)
    ensures Shift(c) == Xor(Half(c), Tap(c))
  {}

  lemma XorAssoc(a: bv16, b: bv16, c: bv16)
    ensures Xor(Xor(a, b), c) == Xor(a, Xor(b, c))
  {}

  lemma XorComm(a: bv16, b: bv16)
    ensures Xor(a, b) == Xor(b, a)
  {}

  lemma TapTakesBit(c: bv16, e: byte)
    ensures Tap(Xor(c, Wide(e))) == Tap(Xor(c, if e & 1 == 1 then 1 else 0))
  {}

  lemma HalfTakesRest(c: bv16, e: byte)
    ensures Half(Xor(c, Wide(e))) == Xor(Half(Xor(c, if e & 1 == 1 then 1 else 0)), Wide(e >> 1))
  {}

  lemma TakeBit(c: bv16, e: byte)
    ensures Shift(Xor(c, Wide(e))) == Xor(BitStep(c, e & 1 == 1), Wide(e >> 1))
  {
    hide Shift, Half, Tap, Xor, Wide;
    var k := Xor(c, if e & 1 == 1 then 1 else 0);
    TapTakesBit(c, e);
    HalfTakesRest(c, e);
    ShiftIsXor(Xor(c, Wide(e)));
    ShiftIsXor(k);
    XorAssoc(Half(k), Wide(e >> 1), Tap(k));
    XorComm(Wide(e >> 1), Tap(k));
    XorAssoc(Half(k), Tap(k), Wide(e >> 1));
  }

  /** Clocking the register with a byte already combined into it is the same as
      feeding the byte bit by bit; what is left of the byte stays combined. */
  lemma {:induction false} ClockIsLfsr(c: bv16, d: byte, n: nat, rest: seq<bool>) returns (r: bv16)
    ensures Clock(Xor(c, Wide(d)), n) == Xor(r, Wide(Unsent(d, n)))
    ensures Lfsr(c, LowBits(d, n) + rest) == Lfsr(r, rest)
    decreases n
  {
    hide Shift, BitStep, Xor, Wide;
    if n == 0 {
      r := c;
      assert LowBits(d, n) + rest == rest;
    } else {
      var bit := d & 1 == 1;
      TakeBit(c, d);
      r := ClockIsLfsr(BitStep(c, bit), d >> 1, n - 1, rest);
      assert (LowBits(d, n) + rest)[1..] == LowBits(d >> 1, n - 1) + rest;
    }
  }

  lemma UnsentNothing(d: byte)
    ensures Unsent(d, 8) == 0
  {
    assert Unsent(d, 8) == Unsent(d >> 1 >> 1 >> 1 >> 1, 4);
    assert d >> 1 >> 1 >> 1 >> 1 >> 1 >> 1 >> 1 >> 1 == 0;
  }

  function Shift4(c: bv16): bv16 { Shift(Shift(Shift(Shift(c)))) }

  lemma ClockEight(c: bv16)
    ensures Clock(c, 8) == Shift4(Shift4(c))
  {
    assert Clock(c, 8) == Clock(Shift4(c), 4);
  }

  lemma ShiftLinear(a: bv16, b: bv16)
    ensures Shift(Xor(a, b)) == Xor(Shift(a), Shift(b))
  {
    hide Tap, Half, Xor;
    TapLinear(a, b);
    HalfLinear(a, b);
    ShiftIsXor(a);
    ShiftIsXor(b);
    ShiftIsXor(Xor(a, b));
    XorExchange(Half(a), Half(b), Tap(a), Tap(b));
  }

  lemma TapLinear(a: bv16, b: bv16)
    ensures Tap(Xor(a, b)) == Xor(Tap(a), Tap(b))
  {}

  lemma HalfLinear(a: bv16, b: bv16)
    ensures Half(Xor(a, b)) == Xor(Half(a), Half(b))
  {}

  lemma XorExchange(a: bv16, b: bv16, c: bv16, d: bv16)
    ensures Xor(Xor(a, b), Xor(c, d)) == Xor(Xor(a, c), Xor(b, d))
  {
    hide *;
    XorAssoc(a, b, Xor(c, d));
    XorAssoc(b, c, d);
    XorComm(b, c);
    XorAssoc(c, b, d);
    XorAssoc(a, c, Xor(b, d));
  }

  lemma Shift4Linear(a: bv16, b: bv16)
    ensures Shift4(Xor(a, b)) == Xor(Shift4(a), Shift4(b))
  {
    hide Shift, Xor;
    ShiftLinear(a, b);
    ShiftLinear(Shift(a), Shift(b));
    ShiftLinear(Shift(Shift(a)), Shift(Shift(b)));
    ShiftLinear(Shift(Shift(Shift(a))), Shift(Shift(Shift(b))));
  }

  /** What four clocks make of a low nibble. */
  function Feedback(n: bv16): bv16 { (n << 12) ^ (n << 7) ^ n }

  lemma Shift4Low(n: bv16)
    requires n < 16
    ensures Shift4(n) == Feedback(n)
  {}

  lemma Shift4High(x: bv16)
    requires x & 0xf == 0
    ensures Shift4(x) == x >> 4
  {}

  lemma Nibbles(x: bv16)
    ensures x == Xor(x & 0xfff0, x & 0xf) && x & 0xf < 16 && (x & 0xfff0) & 0xf == 0
    ensures (x & 0xfff0) >> 4 == x >> 4
  {}

  lemma Shift4Nibble(x: bv16)
    ensures Shift4(x) == Xor(x >> 4, Feedback(x & 0xf))
  {
    hide Shift4, Xor, Feedback;
    Nibbles(x);
    Shift4Linear(x & 0xfff0, x & 0xf);
    Shift4Low(x & 0xf);
    Shift4High(x & 0xfff0);
  }

  /** The low nibble after the first four clocks. */
  lemma SecondNibble(x: bv16)
    ensures Xor(x >> 4, Feedback(x & 0xf)) & 0xf == ((x >> 4) ^ x) & 0xf
  {}

  lemma SecondRest(x: bv16)
    ensures Xor(x >> 4, Feedback(x & 0xf)) >> 4 == Lift(x >> 8, x & 0xf)
  {}

  function Spread(d: byte): bv16 { (d ^ (d << 4)) as bv16 }

  lemma SpreadNibbles(x: bv16)
    ensures Spread(Lo8(x)) == (x & 0xf) ^ ((((x >> 4) ^ x) & 0xf) << 4)
  {}

  function Join(h: bv16, e: bv16): bv16 { h ^ (e << 8) ^ (e >> 4) ^ (e << 3) }

  function Lift(h: bv16, n: bv16): bv16 { h ^ (n << 8) ^ (n << 3) }

  lemma JoinBytes(e: byte, h: byte)
    ensures Combine(e, h) == Join(h as bv16, e as bv16)
  {
    OrIsXor(e, h);
  }

  lemma OrIsXor(e: byte, h: byte)
    ensures ((e as bv16) << 8) | (h as bv16) == (h as bv16) ^ ((e as bv16) << 8)
    ensures (e >> 4) as bv16 == (e as bv16) >> 4
  {}

  lemma MixSpread(d: byte, h: byte)
    ensures Mix(d, h) == Join(h as bv16, Spread(d))
  {
    hide Join, Combine;
    JoinBytes(d ^ (d << 4), h);
  }

  lemma JoinNibbles(e: bv16, n: bv16, m: bv16, h: bv16)
    requires n < 16 && m < 16 && e == n ^ (m << 4)
    ensures Join(h, e) == Xor(Lift(h, n), Feedback(m))
  {}

  lemma HighWide(x: bv16)
    ensures Hi8(x) as bv16 == x >> 8 && x & 0xf < 16 && ((x >> 4) ^ x) & 0xf < 16
  {}

  lemma MixNibbles(x: bv16)
    ensures Mix(Lo8(x), Hi8(x)) == Xor(Lift(x >> 8, x & 0xf), Feedback(((x >> 4) ^ x) & 0xf))
  {
    hide Mix, Lo8, Hi8, Xor, Feedback, Spread, Join, Lift;
    SpreadNibbles(x);
    MixSpread(Lo8(x), Hi8(x));
    HighWide(x);
    JoinNibbles(Spread(Lo8(x)), x & 0xf, ((x >> 4) ^ x) & 0xf, x >> 8);
  }

  lemma MixIsShifts(x: bv16)
    ensures Mix(Lo8(x), Hi8(x)) == Shift4(Shift4(x))
  {
    hide Shift4, Mix, Lo8, Hi8, Xor, Feedback, Lift;
    var y := Shift4(x);
    Shift4Nibble(x);
    Shift4Nibble(y);
    SecondNibble(x);
    SecondRest(x);
    MixNibbles(x);
  }

  lemma DataJoinsLowByte(c: bv16, d: byte)
    ensures Lo8(Xor(c, Wide(d))) == d ^ Lo8(c) && Hi8(Xor(c, Wide(d))) == Hi8(c)
  {}

  /** The update is eight clocks of the register holding `c ^ d`. */
  lemma UpdateIsClock(c: bv16, d: byte)
    ensures Update(c, d) == Clock(Xor(c, Wide(d)), 8)
  {
    hide Mix, Lo8, Hi8, Xor, Wide, Shift4, Clock;
    DataJoinsLowByte(c, d);
    MixIsShifts(Xor(c, Wide(d)));
    ClockEight(Xor(c, Wide(d)));
  }

  lemma XorZero(c: bv16)
    ensures Xor(c, Wide(0)) == c
  {}

  /** Folding the update over a message is the bit-at-a-time register. */
  lemma {:induction false} FoldIsLfsr(c: bv16, s: seq<byte>)
    ensures Fold(c, s) == Lfsr(c, MessageBits(s))
    decreases |s|
  {
    hide Xor, Wide, Update, Clock, Unsent;
    if |s| != 0 {
      var r := ClockIsLfsr(c, s[0], 8, MessageBits(s[1..]));
      UnsentNothing(s[0]);
      XorZero(r);
      UpdateIsClock(c, s[0]);
      FoldIsLfsr(r, s[1..]);
    }
  }

  // ------------------------------------------------------------------
  // The residue
  // ------------------------------------------------------------------

  lemma {:induction false} FoldAppend(c: bv16, a: seq<byte>, b: seq<byte>)
    ensures Fold(c, a + b) == Fold(Fold(c, a), b)
    decreases |a|
  {
    if |a| == 0 {
      assert a + b == b;
    } else {
      assert (a + b)[1..] == a[1..] + b;
      FoldAppend(Update(c, a[0]), a[1..], b);
    }
  }

  lemma FoldSnoc(c: bv16, a: seq<byte>, d: byte)
    ensures Fold(c, a + [d]) == Update(Fold(c, a), d)
  {
    FoldAppend(c, a, [d]);
    assert Fold(Fold(c, a), [d]) == Fold(Update(Fold(c, a), d), []);
  }

  lemma FoldTwo(c: bv16, a: seq<byte>, d: byte, e: byte)
    ensures Fold(c, a + [d, e]) == Update(Update(Fold(c, a), d), e)
  {
    hide *;
    FoldSnoc(c, a, d);
    FoldSnoc(c, a + [d], e);
    assert a + [d] + [e] == a + [d, e];
  }

  lemma ResidueOfOne(c: bv16, d: byte)
    ensures Update(c, d) == 0 <==> Hi8(c) == 0 && d == Lo8(c)
  {}

  lemma ResidueOfTwo(c: bv16, x: byte, y: byte)
    ensures Update(Update(c, x), y) == 0 <==> x == Lo8(c) && y == Hi8(c)
  {
    hide *;
    ResidueOfOne(Update(c, x), y);
    UpdateBytes(c, x);
    TopZero(x, Lo8(c), Hi8(c));
  }

  lemma UpdateBytes(c: bv16, x: byte)
    ensures Hi8(Update(c, x)) == Top(x ^ Lo8(c)) && Lo8(Update(c, x)) == Hi8(c) ^ Low(x ^ Lo8(c))
  {
    hide Mix, Lo8, Hi8, Top, Low;
    MixBytes(x ^ Lo8(c), Hi8(c));
  }

  lemma TopZero(x: byte, z: byte, h: byte)
    ensures Top(x ^ z) == 0 <==> x == z
    ensures x == z ==> h ^ Low(x ^ z) == h
  {}

  /** A stored frame checks exactly when it has at least two bytes and ends in the
      check bytes of what precedes them. In particular no single byte checks. */
  lemma ChecksIff(s: seq<byte>)
    ensures |s| != 0 ==> (Checks(s) <==> |s| >= 2 && s[|s| - 2..] == CheckBytes(s[..|s| - 2]))
  {
    if |s| == 1 {
      ResidueOfOne(INIT, s[0]);
      assert s == [] + [s[0]];
      FoldSnoc(INIT, [], s[0]);
    } else if |s| >= 2 {
      var p, x, y := s[..|s| - 2], s[|s| - 2], s[|s| - 1];
      assert s == (p + [x]) + [y];
      FoldSnoc(INIT, p + [x], y);
      FoldSnoc(INIT, p, x);
      ResidueOfTwo(Fold(INIT, p), x, y);
      assert s[|s| - 2..] == [x, y];
    }
  }

  lemma CheckBytesCheck(p: seq<byte>)
    ensures Checks(p + CheckBytes(p))
  {
    var s := p + CheckBytes(p);
    assert s[..|s| - 2] == p && s[|s| - 2..] == CheckBytes(p);
    ChecksIff(s);
  }

  /** Check bytes in the other order are accepted only when they are equal. */
  lemma SwappedCheckBytes(p: seq<byte>)
    ensures Checks(p + [CheckBytes(p)[1], CheckBytes(p)[0]]) <==> CheckBytes(p)[0] == CheckBytes(p)[1]
  {
    var s := p + [CheckBytes(p)[1], CheckBytes(p)[0]];
    assert s[..|s| - 2] == p && s[|s| - 2..] == [CheckBytes(p)[1], CheckBytes(p)[0]];
    ChecksIff(s);
  }

  // ------------------------------------------------------------------
  // Error detection
  // ------------------------------------------------------------------

  function Top(d: byte): byte {
    var e := d ^ (d << 4);
    e ^ (e >> 5)
  }

  function Low(d: byte): byte {
    var e := d ^ (d << 4);
    (e >> 4) ^ (e << 3)
  }

  lemma MixBytes(d: byte, h: byte)
    ensures Hi8(Mix(d, h)) == Top(d) && Lo8(Mix(d, h)) == h ^ Low(d)
  {}

  lemma TopInjective(d1: byte, d2: byte)
    requires Top(d1) == Top(d2)
    ensures d1 == d2
  {}

  lemma XorCancel(x: byte, y: byte, z: byte)
    requires x ^ z == y ^ z
    ensures x == y
  {}

  lemma XorCancelLeft(z: byte, x: byte, y: byte)
    requires z ^ x == z ^ y
    ensures x == y
  {}

  lemma WordOfBytes(c1: bv16, c2: bv16)
    requires Lo8(c1) == Lo8(c2) && Hi8(c1) == Hi8(c2)
    ensures c1 == c2
  {}

  lemma MixInjective(d1: byte, h1: byte, d2: byte, h2: byte)
    requires Mix(d1, h1) == Mix(d2, h2)
    ensures d1 == d2 && h1 == h2
  {
    hide *;
    MixBytes(d1, h1);
    MixBytes(d2, h2);
    TopInjective(d1, d2);
    XorCancel(h1, h2, Low(d1));
  }

  lemma UpdateParts(c1: bv16, d1: byte, c2: bv16, d2: byte)
    requires Update(c1, d1) == Update(c2, d2)
    ensures d1 ^ Lo8(c1) == d2 ^ Lo8(c2) && Hi8(c1) == Hi8(c2)
  {
    hide Mix, Lo8, Hi8;
    MixInjective(d1 ^ Lo8(c1), Hi8(c1), d2 ^ Lo8(c2), Hi8(c2));
  }

  /** For a fixed byte the update is a bijection of the register. */
  lemma UpdateInjective(c1: bv16, c2: bv16, d: byte)
    requires Update(c1, d) == Update(c2, d)
    ensures c1 == c2
  {
    hide *;
    UpdateParts(c1, d, c2, d);
    XorCancelLeft(d, Lo8(c1), Lo8(c2));
    WordOfBytes(c1, c2);
  }

  lemma {:induction false} FoldInjective(c1: bv16, c2: bv16, s: seq<byte>)
    requires Fold(c1, s) == Fold(c2, s)
    ensures c1 == c2
    decreases |s|
  {
    if |s| != 0 {
      FoldInjective(Update(c1, s[0]), Update(c2, s[0]), s[1..]);
      UpdateInjective(c1, c2, s[0]);
    }
  }

  lemma HighByteInjective(c: bv16, x1: byte, x2: byte)
    requires Hi8(Update(c, x1)) == Hi8(Update(c, x2))
    ensures x1 == x2
  {
    hide *;
    UpdateBytes(c, x1);
    UpdateBytes(c, x2);
    TopCancel(x1, x2, Lo8(c));
  }

  lemma TopCancel(x: byte, y: byte, z: byte)
    requires Top(x ^ z) == Top(y ^ z)
    ensures x == y
  {
    hide Top;
    TopInjective(x ^ z, y ^ z);
    XorCancel(x, y, z);
  }

  lemma UpdateDataInjective(c: bv16, d1: byte, d2: byte)
    requires Update(c, d1) == Update(c, d2)
    ensures d1 == d2
  {
    hide *;
    UpdateParts(c, d1, c, d2);
    XorCancel(d1, d2, Lo8(c));
  }

  lemma FirstOfPair(c: bv16, x1: byte, y1: byte, x2: byte, y2: byte)
    requires Update(Update(c, x1), y1) == Update(Update(c, x2), y2)
    ensures x1 == x2
  {
    hide *;
    UpdateParts(Update(c, x1), y1, Update(c, x2), y2);
    HighByteInjective(c, x1, x2);
  }

  /** Two updates are injective in the pair of bytes. */
  lemma PairInjective(c: bv16, x1: byte, y1: byte, x2: byte, y2: byte)
    requires Update(Update(c, x1), y1) == Update(Update(c, x2), y2)
    ensures x1 == x2 && y1 == y2
  {
    hide *;
    FirstOfPair(c, x1, y1, x2, y2);
    UpdateDataInjective(Update(c, x1), y1, y2);
  }

  /** Changing one byte, or two adjacent bytes, of a frame that checks leaves a
      frame of the same length that does not. */
  lemma PairChangeDetected(a: seq<byte>, x: byte, y: byte, x': byte, y': byte, b: seq<byte>)
    requires Checks(a + [x, y] + b)
    requires x != x' || y != y'
    ensures !Checks(a + [x', y'] + b)
  {
    FoldPair(a, x, y, b);
    FoldPair(a, x', y', b);
    if Checks(a + [x', y'] + b) {
      var c := Fold(INIT, a);
      FoldInjective(Update(Update(c, x), y), Update(Update(c, x'), y'), b);
      PairInjective(c, x, y, x', y');
    }
  }

  lemma FoldPair(a: seq<byte>, x: byte, y: byte, b: seq<byte>)
    ensures Fold(INIT, a + [x, y] + b) == Fold(Update(Update(Fold(INIT, a), x), y), b)
  {
    FoldAppend(INIT, a + [x, y], b);
    assert a + [x, y] == (a + [x]) + [y];
    FoldSnoc(INIT, a + [x], y);
    FoldSnoc(INIT, a, x);
  }

  /** The check of the nine digits "123456789", the usual sample. */
  lemma KnownAnswer()
    ensures Fold(INIT, [0x31, 0x32, 0x33, 0x34, 0x35, 0x36, 0x37, 0x38, 0x39]) == 0x6f91
  {
    var c3, c6 := Fold3(INIT, 0x31, 0x32, 0x33), Fold3(Fold3(INIT, 0x31, 0x32, 0x33), 0x34, 0x35, 0x36);
    FoldThree(INIT, 0x31, 0x32, 0x33, [0x34, 0x35, 0x36, 0x37, 0x38, 0x39]);
    FoldThree(c3, 0x34, 0x35, 0x36, [0x37, 0x38, 0x39]);
    FoldThree(c6, 0x37, 0x38, 0x39, []);
    assert [0x31, 0x32, 0x33] + [0x34, 0x35, 0x36, 0x37, 0x38, 0x39]
        == [0x31 as byte, 0x32, 0x33, 0x34, 0x35, 0x36, 0x37, 0x38, 0x39];
    assert [0x34, 0x35, 0x36] + [0x37, 0x38, 0x39] == [0x34 as byte, 0x35, 0x36, 0x37, 0x38, 0x39];
    assert [0x37, 0x38, 0x39] + [] == [0x37 as byte, 0x38, 0x39];
  }

  lemma FoldThree(c: bv16, x0: byte, x1: byte, x2: byte, rest: seq<byte>)
    ensures Fold(c, [x0, x1, x2] + rest) == Fold(Fold3(c, x0, x1, x2), rest)
  {
    hide Update;
    var t1, t2 := [x1, x2] + rest, [x2] + rest;
    assert ([x0, x1, x2] + rest)[1..] == t1 && t1[1..] == t2 && t2[1..] == rest;
    assert Fold(c, [x0, x1, x2] + rest) == Fold(Update(c, x0), t1);
    assert Fold(Update(c, x0), t1) == Fold(Update(Update(c, x0), x1), t2);
  }

  // A burst: the register is linear over exclusive or, so the change of the
  // residue is the residue of the change.

  lemma {:induction false} ClockLinear(a: bv16, b: bv16, n: nat)
    ensures Clock(Xor(a, b), n) == Xor(Clock(a, n), Clock(b, n))
    decreases n
  {
    hide Shift, Xor;
    if n != 0 {
      ShiftLinear(a, b);
      ClockLinear(Shift(a), Shift(b), n - 1);
    }
  }

  lemma WidenXor(d: byte, e: byte)
    ensures Wide(d ^ e) == Xor(Wide(d), Wide(e))
  {}

  lemma UpdateLinear(c: bv16, k: bv16, d: byte, e: byte)
    ensures Update(Xor(c, k), d ^ e) == Xor(Update(c, d), Update(k, e))
  {
    hide *;
    UpdateIsClock(Xor(c, k), d ^ e);
    UpdateIsClock(c, d);
    UpdateIsClock(k, e);
    WidenXor(d, e);
    XorExchange(c, k, Wide(d), Wide(e));
    ClockLinear(Xor(c, Wide(d)), Xor(k, Wide(e)), 8);
  }

  /** The change `e0, e1, e2` of three adjacent bytes lies within sixteen
      consecutive bits, counted least significant bit first from bit `k`. */
  predicate InBurst(e0: byte, e1: byte, e2: byte, k: bv8) {
    k <= 8 && (e0 as bv16 >> k) << k == e0 as bv16 && (e2 as bv16) >> k == 0
  }

  lemma BurstAt(k: bv8, e0: byte, e1: byte, e2: byte)
    requires InBurst(e0, e1, e2, k)
    requires Update(Update(Update(0, e0), e1), e2) == 0
    ensures e0 == 0 && e1 == 0 && e2 == 0
  {}

  lemma BurstResidue(c: bv16, x0: byte, x1: byte, x2: byte, e0: byte, e1: byte, e2: byte)
    ensures Update(Update(Update(c, x0 ^ e0), x1 ^ e1), x2 ^ e2)
         == Xor(Update(Update(Update(c, x0), x1), x2), Update(Update(Update(0, e0), e1), e2))
  {
    hide *;
    var a0, b0 := Update(c, x0), Update(0, e0);
    var a1, b1 := Update(a0, x1), Update(b0, e1);
    XorNothing(c);
    UpdateLinear(c, 0, x0, e0);
    UpdateLinear(a0, b0, x1, e1);
    UpdateLinear(a1, b1, x2, e2);
  }

  lemma XorNothing(c: bv16)
    ensures Xor(c, 0) == c
  {}

  lemma XorFixes(c: bv16, k: bv16)
    requires Xor(c, k) == c
    ensures k == 0
  {}

  function Fold3(c: bv16, x0: byte, x1: byte, x2: byte): bv16 {
    Update(Update(Update(c, x0), x1), x2)
  }

  lemma FoldTriple(a: seq<byte>, x0: byte, x1: byte, x2: byte, b: seq<byte>)
    ensures Fold(INIT, a + [x0, x1, x2] + b) == Fold(Fold3(Fold(INIT, a), x0, x1, x2), b)
  {
    hide Update;
    FoldPair(a, x0, x1, [x2] + b);
    assert a + [x0, x1] + ([x2] + b) == a + [x0, x1, x2] + b;
    assert ([x2] + b)[1..] == b;
  }

  /** Every error burst of at most sixteen bits is detected. */
  lemma BurstDetected(a: seq<byte>, x0: byte, x1: byte, x2: byte, b: seq<byte>,
                      e0: byte, e1: byte, e2: byte, k: bv8)
    requires Checks(a + [x0, x1, x2] + b)
    requires InBurst(e0, e1, e2, k) && !(e0 == 0 && e1 == 0 && e2 == 0)
    ensures !Checks(a + [x0 ^ e0, x1 ^ e1, x2 ^ e2] + b)
  {
    hide Update, Xor, InBurst, Fold;
    var c := Fold(INIT, a);
    FoldTriple(a, x0, x1, x2, b);
    FoldTriple(a, x0 ^ e0, x1 ^ e1, x2 ^ e2, b);
    if Checks(a + [x0 ^ e0, x1 ^ e1, x2 ^ e2] + b) {
      FoldInjective(Fold3(c, x0, x1, x2), Fold3(c, x0 ^ e0, x1 ^ e1, x2 ^ e2), b);
      BurstResidue(c, x0, x1, x2, e0, e1, e2);
      XorFixes(Fold3(c, x0, x1, x2), Fold3(0, e0, e1, e2));
      BurstAt(k, e0, e1, e2);
      assert false;
    }
  }
}
