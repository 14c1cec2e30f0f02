/** The byte stream on the wire (frame/frame_proto.h): flags, escapes and aborts,
    and what a stream carries, stated without reference to either decoder. */
module Wire {
  import opened Crc

  const FLAG: byte := 0x7e
  const RESET: byte := 0x7f
  const ESC: byte := 0x7d
  const MASK: byte := 0x20

  /** Bytes of a check. */
  const FRAME_CRC_SZ: nat := 2

  predicate EscCheck(c: byte) {
    c == FLAG || c == RESET || c == ESC
  }

  /** A byte as it is sent behind an escape, and back. */
  function Masked(c: byte): byte { c ^ MASK }

  lemma MaskTwice(c: byte)
    ensures Masked(Masked(c)) == c
    ensures EscCheck(c) ==> !EscCheck(Masked(c))
  {}

  // ------------------------------------------------------------------
  // Stuffing
  // ------------------------------------------------------------------

  function StuffByte(c: byte): seq<byte> {
    if EscCheck(c) then [ESC, Masked(c)] else [c]
  }

  function Stuff(s: seq<byte>): seq<byte>
    decreases |s|
  {
    if |s| == 0 then [] else StuffByte(s[0]) + Stuff(s[1..])
  }

  /** The bytes a run of stuffed bytes stands for; `escaped` says that an escape
      precedes it. A second escape has no effect, and one that nothing follows is
      lost. */
  function Unstuff(escaped: bool, s: seq<byte>): seq<byte>
    decreases |s|
  {
    if |s| == 0 then []
    else if s[0] == ESC then Unstuff(true, s[1..])
    else [if escaped then Masked(s[0]) else s[0]] + Unstuff(false, s[1..])
  }

  function EscapedAfter(escaped: bool, s: seq<byte>): bool {
    if |s| == 0 then escaped else s[|s| - 1] == ESC
  }

  lemma EscapedCons(escaped: bool, b: byte, t: seq<byte>)
    ensures EscapedAfter(escaped, [b] + t) == EscapedAfter(b == ESC, t)
  {}

  lemma {:induction false} UnstuffAppend(escaped: bool, s: seq<byte>, t: seq<byte>)
    ensures Unstuff(escaped, s + t) == Unstuff(escaped, s) + Unstuff(EscapedAfter(escaped, s), t)
    decreases |s|
  {
    if |s| == 0 {
      assert s + t == t;
    } else {
      assert (s + t)[1..] == s[1..] + t;
      UnstuffAppend(s[0] == ESC, s[1..], t);
    }
  }

  lemma {:induction false} StuffAppend(s: seq<byte>, t: seq<byte>)
    ensures Stuff(s + t) == Stuff(s) + Stuff(t)
    decreases |s|
  {
    if |s| == 0 {
      assert s + t == t;
    } else {
      assert (s + t)[1..] == s[1..] + t;
      StuffAppend(s[1..], t);
    }
  }

  /** Stuffing is transparent: it can be undone, it never produces a flag or an
      abort, and it never ends in an escape. */
  lemma {:induction false} StuffTransparent(s: seq<byte>)
    ensures Unstuff(false, Stuff(s)) == s
    ensures FLAG !in Stuff(s) && RESET !in Stuff(s)
    ensures !EscapedAfter(false, Stuff(s))
    ensures |s| <= |Stuff(s)| <= 2 * |s|
    decreases |s|
  {
    if |s| == 0 {
      assert s == [];
    } else {
      hide StuffByte, Unstuff;
      var c, t := s[0], Stuff(s[1..]);
      StuffTransparent(s[1..]);
      OneByte(c);
      UnstuffAppend(false, StuffByte(c), t);
      assert Stuff(s) == StuffByte(c) + t;
      hide Stuff;
      assert s == [c] + s[1..];
    }
  }

  lemma OneByte(c: byte)
    ensures var b := StuffByte(c);
            && Unstuff(false, b) == [c] && !EscapedAfter(false, b)
            && FLAG !in b && RESET !in b && 1 <= |b| <= 2
  {
    MaskTwice(c);
    if EscCheck(c) {
      var m := Masked(c);
      assert [ESC, m][1..] == [m] && [m][1..] == [];
      assert Unstuff(true, [m]) == [c] + Unstuff(false, []);
    } else {
      assert [c][1..] == [];
    }
  }

  lemma StuffOne(b: byte, p: seq<byte>)
    ensures Stuff([b] + p) == StuffByte(b) + Stuff(p)
  {
    assert ([b] + p)[1..] == p;
  }

  /** The bytes that are sent escaped, and no others. */
  function Specials(s: seq<byte>): nat
    decreases |s|
  {
    if |s| == 0 then 0
    else (if s[0] == 0x7d || s[0] == 0x7e || s[0] == 0x7f then 1 else 0) + Specials(s[1..])
  }

  /** Exactly three bytes are escaped, each by one more byte; so what has none of them
      is sent as it is. */
  lemma {:induction false} StuffLength(s: seq<byte>)
    ensures |Stuff(s)| == |s| + Specials(s)
    ensures Specials(s) == 0 ==> Stuff(s) == s
    decreases |s|
  {
    if |s| == 0 {
      assert s == [];
    } else {
      StuffLength(s[1..]);
      hide Stuff;
      StuffOne(s[0], s[1..]);
      assert s == [s[0]] + s[1..];
    }
  }

  /** The alphabet of the line: how the three are sent. */
  lemma Alphabet()
    ensures FLAG == 0x7e && RESET == 0x7f && ESC == 0x7d
    ensures StuffByte(0x7d) == [0x7d, 0x5d] && StuffByte(0x7e) == [0x7d, 0x5e] && StuffByte(0x7f) == [0x7d, 0x5f]
  {}

  lemma StuffInjective(s: seq<byte>, t: seq<byte>)
    requires Stuff(s) == Stuff(t)
    ensures s == t
  {
    StuffTransparent(s);
    StuffTransparent(t);
  }

  // ------------------------------------------------------------------
  // What a stream carries
  // ------------------------------------------------------------------

  /** The length of the longest prefix without a flag. */
  function FlagAt(s: seq<byte>): (i: nat)
    ensures i <= |s|
    ensures FLAG !in s[..i]
    ensures i < |s| ==> s[i] == FLAG
    decreases |s|
  {
    if |s| == 0 || s[0] == FLAG then 0
    else
      var i := 1 + FlagAt(s[1..]);
      assert s[..i] == [s[0]] + s[1..][..i - 1];
      i
  }

  /** The runs of bytes that are closed by a flag, for a stream that follows one. */
  function Segments(s: seq<byte>): seq<seq<byte>>
    decreases |s|
  {
    var i := FlagAt(s);
    if i == |s| then [] else [s[..i]] + Segments(s[i + 1..])
  }

  /** A run between flags that holds a frame: no abort in it, no more than `cap`
      bytes after unstuffing, not empty, and its check bytes right. */
  predicate Good(segment: seq<byte>, cap: nat) {
    var u := Unstuff(false, segment);
    RESET !in segment && 0 < |u| <= cap && Checks(u)
  }

  /** Stored bytes without the two check bytes. */
  function Trim(u: seq<byte>): seq<byte> {
    if |u| < 2 then [] else u[..|u| - 2]
  }

  function Payload(segment: seq<byte>): seq<byte> {
    Trim(Unstuff(false, segment))
  }

  /** The payload of one run, if it holds a frame. */
  function FromSegment(segment: seq<byte>, cap: nat): seq<seq<byte>> {
    if Good(segment, cap) then [Payload(segment)] else []
  }

  function Payloads(segments: seq<seq<byte>>, cap: nat): seq<seq<byte>>
    decreases |segments|
  {
    if |segments| == 0 then []
    else FromSegment(segments[0], cap) + Payloads(segments[1..], cap)
  }

  /** The payloads in a stream that follows a flag. */
  function CarriedAfterFlag(s: seq<byte>, cap: nat): seq<seq<byte>> {
    Payloads(Segments(s), cap)
  }

  /** The payloads in a stream: whatever precedes the first flag is noise. */
  function Carried(s: seq<byte>, cap: nat): seq<seq<byte>> {
    var i := FlagAt(s);
    if i == |s| then [] else CarriedAfterFlag(s[i + 1..], cap)
  }

  lemma FlagAtIs(s: seq<byte>, t: seq<byte>)
    requires FLAG !in s
    ensures FlagAt(s + [FLAG] + t) == |s|
  {
    var x := s + [FLAG] + t;
    assert forall j | 0 <= j < |s| :: x[j] == s[j] && s[j] in s;
    assert x[|s|] == FLAG;
    var i := FlagAt(x);
    assert forall j | 0 <= j < i :: x[j] in x[..i];
  }

  lemma SegmentsCons(s: seq<byte>, t: seq<byte>)
    requires FLAG !in s
    ensures Segments(s + [FLAG] + t) == [s] + Segments(t)
  {
    var x := s + [FLAG] + t;
    FlagAtIs(s, t);
    assert x[..|s|] == s && x[|s| + 1..] == t;
  }

  lemma CarriedCons(s: seq<byte>, t: seq<byte>, cap: nat)
    requires FLAG !in s
    ensures CarriedAfterFlag(s + [FLAG] + t, cap)
         == FromSegment(s, cap) + CarriedAfterFlag(t, cap)
  {
    hide FromSegment;
    SegmentsCons(s, t);
    assert ([s] + Segments(t))[1..] == Segments(t);
  }

  /** The stored bytes of a frame: a payload and its check bytes. */
  function Stored(payload: seq<byte>): seq<byte> {
    payload + CheckBytes(payload)
  }

  lemma GoodStored(payload: seq<byte>, cap: nat)
    ensures Good(Stuff(Stored(payload)), cap) <==> |payload| + 2 <= cap
    ensures Payload(Stuff(Stored(payload))) == payload
  {
    StuffTransparent(Stored(payload));
    CheckBytesCheck(payload);
  }

  // ------------------------------------------------------------------
  // What a decoder has still to expect
  // ------------------------------------------------------------------

  /** The payload of stored bytes, if a receiver with room for `cap` of them can
      accept them. */
  function FromStored(u: seq<byte>, cap: nat): seq<seq<byte>> {
    if 0 < |u| <= cap && Checks(u) then [Trim(u)] else []
  }

  /** What a frame under way, of which `cur` is stored, carries if `segment`
      completes it. */
  function Completed(escaped: bool, cur: seq<byte>, segment: seq<byte>, cap: nat): seq<seq<byte>> {
    if RESET in segment then [] else FromStored(cur + Unstuff(escaped, segment), cap)
  }

  /** What the stream `s` carries for a decoder that may be within a frame. */
  function Expected(started: bool, escaped: bool, cur: seq<byte>, s: seq<byte>, cap: nat): seq<seq<byte>> {
    if !started then Carried(s, cap)
    else
      var i := FlagAt(s);
      if i == |s| then [] else Completed(escaped, cur, s[..i], cap) + CarriedAfterFlag(s[i + 1..], cap)
  }

  lemma FlagAtCons(b: byte, s: seq<byte>)
    ensures b == FLAG ==> FlagAt([b] + s) == 0
    ensures b != FLAG ==> FlagAt([b] + s) == 1 + FlagAt(s)
  {
    assert ([b] + s)[1..] == s;
  }

  lemma ExpectedIdle(escaped: bool, cur: seq<byte>, s: seq<byte>, cap: nat)
    ensures Expected(false, escaped, cur, s, cap) == Carried(s, cap)
  {}

  lemma CarriedFromFlag(s: seq<byte>, cap: nat)
    ensures Carried([FLAG] + s, cap) == CarriedAfterFlag(s, cap)
  {
    hide CarriedAfterFlag;
    FlagAtCons(FLAG, s);
    assert ([FLAG] + s)[1..] == s;
  }

  lemma ExpectedOnFlag(escaped: bool, cur: seq<byte>, s: seq<byte>, cap: nat)
    ensures Expected(true, escaped, cur, [FLAG] + s, cap) == FromStored(cur, cap) + CarriedAfterFlag(s, cap)
  {
    hide FromStored, CarriedAfterFlag;
    FlagAtCons(FLAG, s);
    assert ([FLAG] + s)[1..] == s && ([FLAG] + s)[..0] == [];
    assert cur + Unstuff(escaped, []) == cur;
  }

  lemma ExpectedAfterFlag(s: seq<byte>, cap: nat)
    ensures Expected(true, false, [], s, cap) == CarriedAfterFlag(s, cap)
  {
    hide CarriedAfterFlag;
    var i := FlagAt(s);
    if i < |s| {
      var u := Unstuff(false, s[..i]);
      assert [] + u == u;
      assert s == s[..i] + [FLAG] + s[i + 1..];
      CarriedCons(s[..i], s[i + 1..], cap);
    } else {
      NothingCarried(s, cap);
    }
  }

  lemma NothingCarried(s: seq<byte>, cap: nat)
    requires FlagAt(s) == |s|
    ensures CarriedAfterFlag(s, cap) == []
  {}

  lemma ExpectedShift(escaped: bool, cur: seq<byte>, b: byte, s: seq<byte>, cap: nat)
    requires b != FLAG
    ensures var i := FlagAt(s);
            Expected(true, escaped, cur, [b] + s, cap)
              == if i == |s| then []
                 else Completed(escaped, cur, [b] + s[..i], cap) + CarriedAfterFlag(s[i + 1..], cap)
  {
    hide Completed, CarriedAfterFlag, FlagAt;
    FlagAtCons(b, s);
    ShiftSlices(b, s, FlagAt(s));
    if FlagAt(s) == |s| {
      assert FlagAt([b] + s) == |[b] + s|;
    } else {
      assert FlagAt([b] + s) < |[b] + s|;
    }
  }

  lemma ShiftSlices(b: byte, s: seq<byte>, i: nat)
    requires i <= |s|
    ensures ([b] + s)[..1 + i] == [b] + s[..i]
    ensures i < |s| ==> ([b] + s)[1 + i + 1..] == s[i + 1..]
  {}

  lemma CarriedOnNoise(b: byte, s: seq<byte>, cap: nat)
    requires b != FLAG
    ensures Carried([b] + s, cap) == Carried(s, cap)
  {
    hide CarriedAfterFlag;
    FlagAtCons(b, s);
    var i := FlagAt(s);
    if i < |s| {
      assert ([b] + s)[1 + i + 1..] == s[i + 1..];
    }
  }

  lemma ExpectedOnReset(escaped: bool, cur: seq<byte>, s: seq<byte>, cap: nat)
    ensures Expected(true, escaped, cur, [RESET] + s, cap) == Carried(s, cap)
  {
    hide CarriedAfterFlag;
    ExpectedShift(escaped, cur, RESET, s, cap);
  }

  lemma ExpectedOnEscape(escaped: bool, cur: seq<byte>, s: seq<byte>, cap: nat)
    ensures Expected(true, escaped, cur, [ESC] + s, cap) == Expected(true, true, cur, s, cap)
  {
    hide CarriedAfterFlag, FromStored, Unstuff;
    ExpectedShift(escaped, cur, ESC, s, cap);
    UnstuffEscape(escaped, s[..FlagAt(s)]);
  }

  lemma UnstuffEscape(escaped: bool, t: seq<byte>)
    ensures Unstuff(escaped, [ESC] + t) == Unstuff(true, t)
  {
    assert ([ESC] + t)[1..] == t;
  }

  lemma UnstuffData(escaped: bool, b: byte, t: seq<byte>)
    requires b != ESC
    ensures Unstuff(escaped, [b] + t) == [if escaped then Masked(b) else b] + Unstuff(false, t)
  {
    assert ([b] + t)[1..] == t;
  }

  /** A byte of a frame joins what is stored of it. */
  lemma ExpectedOnData(escaped: bool, cur: seq<byte>, b: byte, s: seq<byte>, cap: nat)
    requires b != FLAG && b != RESET && b != ESC
    ensures Expected(true, escaped, cur, [b] + s, cap)
         == Expected(true, false, cur + [if escaped then Masked(b) else b], s, cap)
  {
    hide CarriedAfterFlag, FromStored, Unstuff;
    var t := s[..FlagAt(s)];
    ExpectedShift(escaped, cur, b, s, cap);
    UnstuffData(escaped, b, t);
    var d := if escaped then Masked(b) else b;
    assert cur + ([d] + Unstuff(false, t)) == cur + [d] + Unstuff(false, t);
  }

  /** A frame that has outgrown the receiver carries nothing. */
  lemma ExpectedOnFull(cur: seq<byte>, escaped: bool, s: seq<byte>, cap: nat)
    requires |cur| > cap
    ensures Expected(true, escaped, cur, s, cap) == Carried(s, cap)
  {
    hide CarriedAfterFlag;
  }

  // ------------------------------------------------------------------
  // Transmissions
  // ------------------------------------------------------------------

  /** One frame as it was sent: its stored bytes, and whether it had an opening
      flag of its own or shares the closing flag of the frame before it. */
  datatype Sent = Sent(stored: seq<byte>, flagged: bool)

  function Encode(x: Sent): seq<byte> {
    (if x.flagged then [FLAG] else []) + Stuff(x.stored) + [FLAG]
  }

  function Transmission(log: seq<Sent>): seq<byte>
    decreases |log|
  {
    if |log| == 0 then [] else Encode(log[0]) + Transmission(log[1..])
  }

  lemma {:induction false} TransmissionAppend(a: seq<Sent>, b: seq<Sent>)
    ensures Transmission(a + b) == Transmission(a) + Transmission(b)
    decreases |a|
  {
    if |a| == 0 {
      assert a + b == b;
    } else {
      assert (a + b)[1..] == a[1..] + b;
      TransmissionAppend(a[1..], b);
    }
  }

  lemma TransmissionSnoc(log: seq<Sent>, x: Sent)
    ensures Transmission(log + [x]) == Transmission(log) + Encode(x)
  {
    TransmissionAppend(log, [x]);
    assert [x][1..] == [];
    assert Transmission([x]) == Encode(x) + [];
  }

  function Acceptable(log: seq<Sent>, cap: nat): seq<seq<byte>>
    decreases |log|
  {
    if |log| == 0 then [] else FromStored(log[0].stored, cap) + Acceptable(log[1..], cap)
  }

  lemma StuffedSegment(u: seq<byte>, cap: nat)
    ensures FromSegment(Stuff(u), cap) == FromStored(u, cap)
  {
    hide Checks;
    StuffTransparent(u);
  }

  lemma CarriedEncode(x: Sent, t: seq<byte>, cap: nat)
    ensures CarriedAfterFlag(Encode(x) + t, cap) == FromStored(x.stored, cap) + CarriedAfterFlag(t, cap)
  {
    hide FromSegment, FromStored, CarriedAfterFlag, Stuff;
    var body := Stuff(x.stored);
    StuffTransparent(x.stored);
    StuffedSegment(x.stored, cap);
    CarriedCons(body, t, cap);
    if x.flagged {
      CarriedCons([], body + [FLAG] + t, cap);
      EmptySegment(cap);
      assert Encode(x) + t == [] + [FLAG] + (body + [FLAG] + t);
    } else {
      assert Encode(x) + t == body + [FLAG] + t;
    }
  }

  lemma EmptyStream(cap: nat)
    ensures CarriedAfterFlag([], cap) == []
  {}

  lemma EmptySegment(cap: nat)
    ensures FromSegment([], cap) == []
  {}

  lemma {:induction false} CarriedTransmission(log: seq<Sent>, cap: nat)
    ensures CarriedAfterFlag(Transmission(log), cap) == Acceptable(log, cap)
    decreases |log|
  {
    hide FromStored, CarriedAfterFlag;
    EmptyStream(cap);
    if |log| != 0 {
      CarriedEncode(log[0], Transmission(log[1..]), cap);
      CarriedTransmission(log[1..], cap);
    }
  }

  /** A transmission that starts with a flag is read back frame by frame: sharing
      or doubling the flags between frames makes no difference. */
  lemma TransmissionCarries(log: seq<Sent>, cap: nat)
    requires |log| != 0 ==> log[0].flagged
    ensures Carried(Transmission(log), cap) == Acceptable(log, cap)
  {
    if |log| != 0 {
      hide FromStored, CarriedAfterFlag, Carried, Stuff;
      var closed := Sent(log[0].stored, false);
      var t := Transmission(log[1..]);
      assert Transmission(log) == [FLAG] + (Encode(closed) + t);
      CarriedFromFlag(Encode(closed) + t, cap);
      CarriedEncode(closed, t, cap);
      CarriedTransmission(log[1..], cap);
    }
  }

  /** The stored bytes of a transmission, and what is found of them on the wire: the
      runs between flags that are not empty. */
  function StoredOf(log: seq<Sent>): seq<seq<byte>>
    decreases |log|
  {
    if |log| == 0 then [] else [log[0].stored] + StoredOf(log[1..])
  }

  function Found(segments: seq<seq<byte>>): seq<seq<byte>>
    decreases |segments|
  {
    if |segments| == 0 then []
    else (if segments[0] == [] then [] else [Unstuff(false, segments[0])]) + Found(segments[1..])
  }

  lemma FoundCons(s: seq<byte>, t: seq<byte>)
    requires FLAG !in s
    ensures Found(Segments(s + [FLAG] + t))
         == (if s == [] then [] else [Unstuff(false, s)]) + Found(Segments(t))
  {
    SegmentsCons(s, t);
    assert ([s] + Segments(t))[1..] == Segments(t);
  }

  lemma FoundEncode(x: Sent, t: seq<byte>)
    requires x.stored != []
    ensures Found(Segments(Encode(x) + t)) == [x.stored] + Found(Segments(t))
  {
    var body := Stuff(x.stored);
    StuffTransparent(x.stored);
    hide Segments, Found, Stuff, Unstuff;
    FoundCons(body, t);
    if x.flagged {
      FoundCons([], body + [FLAG] + t);
      assert Encode(x) + t == [] + [FLAG] + (body + [FLAG] + t);
    } else {
      assert Encode(x) + t == body + [FLAG] + t;
    }
  }

  lemma {:induction false} FramesAreFound(log: seq<Sent>)
    requires forall x :: x in log ==> x.stored != []
    ensures Found(Segments(Transmission(log))) == StoredOf(log)
    decreases |log|
  {
    hide Encode;
    if |log| != 0 {
      hide Segments, Found;
      FramesAreFound(log[1..]);
      FoundEncode(log[0], Transmission(log[1..]));
    }
  }

  /** Frames that hold anything are split in one way only, wherever they share flags:
      equal transmissions are of equal frames. */
  lemma TransmissionUnique(a: seq<Sent>, b: seq<Sent>)
    requires forall x :: x in a || x in b ==> x.stored != []
    requires Transmission(a) == Transmission(b)
    ensures StoredOf(a) == StoredOf(b)
  {
    FramesAreFound(a);
    FramesAreFound(b);
  }

  // ------------------------------------------------------------------
  // Runs that are still going on
  // ------------------------------------------------------------------

  lemma {:induction false} CarriedAfterFlagPrefix(s: seq<byte>, t: seq<byte>, cap: nat)
    ensures CarriedAfterFlag(s, cap) <= CarriedAfterFlag(s + t, cap)
    decreases |s|
  {
    hide FromSegment, CarriedAfterFlag;
    var i := FlagAt(s);
    if i == |s| {
      NothingCarried(s, cap);
    } else {
      assert s == s[..i] + [FLAG] + s[i + 1..];
      assert s + t == s[..i] + [FLAG] + (s[i + 1..] + t);
      CarriedCons(s[..i], s[i + 1..], cap);
      CarriedCons(s[..i], s[i + 1..] + t, cap);
      CarriedAfterFlagPrefix(s[i + 1..], t, cap);
    }
  }

  /** A stream carries at least what its beginning carries. */
  lemma {:induction false} CarriedPrefix(s: seq<byte>, t: seq<byte>, cap: nat)
    ensures Carried(s, cap) <= Carried(s + t, cap)
    decreases |s|
  {
    hide CarriedAfterFlag;
    if |s| == 0 {
      assert Carried(s, cap) == [];
    } else {
      var b, rest := s[0], s[1..];
      assert s == [b] + rest && s + t == [b] + (rest + t);
      if b == FLAG {
        CarriedFromFlag(rest, cap);
        CarriedFromFlag(rest + t, cap);
        CarriedAfterFlagPrefix(rest, t, cap);
      } else {
        CarriedOnNoise(b, rest, cap);
        CarriedOnNoise(b, rest + t, cap);
        CarriedPrefix(rest, t, cap);
      }
    }
  }
}
