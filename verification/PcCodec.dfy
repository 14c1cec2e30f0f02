/** The PC side (pc/frame_async.c): frame_send onto a stream and frame_recv from
    one. A stream is a sequence of bytes with a position. */
module PcCodec {
  import opened Crc
  import opened Wire

  const EOF: int := -1
  const ENOSPC: int := 28

  // ------------------------------------------------------------------
  // frame_recv on values
  // ------------------------------------------------------------------

  /** The local variables of frame_recv; `got` is the filled part of the buffer. */
  datatype Recv = Recv(started: bool, escaped: bool, got: seq<byte>, crc: bv16)

  const START := Recv(false, false, [], INIT)

  /** How a call ends, what it has left in the buffer, and what is still to be read. */
  datatype Outcome = Success(stored: seq<byte>, left: seq<byte>)
                   | NoSpace(stored: seq<byte>, left: seq<byte>)
                   | AtEnd(stored: seq<byte>, left: seq<byte>)

  /** The value returned to the caller. */
  function Code(o: Outcome): int {
    match o
    case Success(stored, _) => |stored| - 2
    case NoSpace(_, _) => -ENOSPC
    case AtEnd(_, _) => EOF
  }

  /** What one byte makes of the call: it goes on, returns the buffer, or finds the
      buffer full. */
  datatype Verdict = Go(st: Recv) | Done | Full

  function OnByte(data: byte, st: Recv, cap: nat): Verdict {
    if data == FLAG then
      if st.started && st.got != [] then
        if st.crc == 0 then Done else Go(st.(got := [], crc := INIT))
      else Go(st.(started := true))
    else if !st.started then Go(st)
    else if data == RESET then Go(st.(got := []))
    else if data == ESC then Go(st.(escaped := true))
    else if |st.got| < cap then
      var d := if st.escaped then Masked(data) else data;
      Go(Recv(true, false, st.got + [d], Update(st.crc, d)))
    else Full
  }

  function Receive(s: seq<byte>, st: Recv, cap: nat): (o: Outcome)
    ensures |o.left| <= |s|
    ensures !st.started && !o.AtEnd? ==> |o.left| < |s|
    ensures o.NoSpace? ==> |o.left| < |s|
    ensures o.Success? ==> o.left != [] && o.left[0] == FLAG && o.stored != []
    decreases |s|
  {
    if |s| == 0 then AtEnd(st.got, s)
    else
      match OnByte(s[0], st, cap)
      case Go(st') => Receive(s[1..], st', cap)
      case Done => Success(st.got, s)
      case Full => NoSpace(st.got, s[1..])
  }

  /** The payloads a caller gets that calls until the end of the stream and goes on
      after -ENOSPC. It sees the returned value only. */
  function ReceiveAll(s: seq<byte>, st: Recv, cap: nat): seq<seq<byte>>
    decreases |s|, st.started
  {
    var o := Receive(s, st, cap);
    if Code(o) == EOF then []
    else if Code(o) < 0 then ReceiveAll(o.left, START, cap)
    else [o.stored[..Code(o)]] + ReceiveAll(o.left, START, cap)
  }

  // ------------------------------------------------------------------
  // What the calls return
  // ------------------------------------------------------------------

  /** No abort, and no escape directly before a flag. */
  predicate Clean(escaped: bool, s: seq<byte>)
    decreases |s|
  {
    |s| == 0 || (s[0] != RESET && (escaped ==> s[0] != FLAG) && Clean(s[0] == ESC, s[1..]))
  }

  lemma {:induction false} CleanAppend(escaped: bool, s: seq<byte>, t: seq<byte>)
    ensures Clean(escaped, s + t) <==> Clean(escaped, s) && Clean(EscapedAfter(escaped, s), t)
    decreases |s|
  {
    if |s| == 0 {
      assert s + t == t;
    } else {
      assert (s + t)[1..] == s[1..] + t;
      CleanAppend(s[0] == ESC, s[1..], t);
    }
  }

  lemma {:induction false} CleanBody(escaped: bool, s: seq<byte>)
    requires FLAG !in s && RESET !in s
    ensures Clean(escaped, s)
    decreases |s|
  {
    if |s| != 0 {
      assert forall b :: b in s[1..] ==> b in s;
      CleanBody(s[0] == ESC, s[1..]);
    }
  }

  lemma CleanFlag()
    ensures Clean(false, [FLAG]) && Clean(false, []) && !EscapedAfter(false, [FLAG])
  {
    assert [FLAG][1..] == [];
  }

  predicate Consistent(st: Recv, cap: nat) {
    && st.crc == Fold(INIT, st.got) && |st.got| <= cap
    && (!st.started ==> st == START)
  }

  lemma SameReceive(s: seq<byte>, st: Recv, t: seq<byte>, st': Recv, cap: nat)
    requires Receive(s, st, cap) == Receive(t, st', cap)
    ensures ReceiveAll(s, st, cap) == ReceiveAll(t, st', cap)
  {}

  /** What the calls return is what the stream carries, whatever state the first of
      them is in. */
  lemma {:induction false} ReceivesExpected(s: seq<byte>, st: Recv, cap: nat)
    requires Consistent(st, cap) && Clean(st.escaped, s)
    ensures ReceiveAll(s, st, cap) == Expected(st.started, st.escaped, st.got, s, cap)
    decreases |s|, st.started
  {
    hide Expected, Carried, CarriedAfterFlag, Update;
    if |s| == 0 {
      ExpectedNothing(st.started, st.escaped, st.got, cap);
    } else {
      var data, t := s[0], s[1..];
      assert s == [data] + t;
      if data == FLAG {
        ReceivesFlag(t, st, cap);
      } else if !st.started {
        SameReceive(s, st, t, st, cap);
        ReceivesExpected(t, st, cap);
        ExpectedIdle(st.escaped, st.got, s, cap);
        ExpectedIdle(st.escaped, st.got, t, cap);
        CarriedOnNoise(data, t, cap);
      } else if data == ESC {
        SameReceive(s, st, t, st.(escaped := true), cap);
        ReceivesExpected(t, st.(escaped := true), cap);
        ExpectedOnEscape(st.escaped, st.got, t, cap);
      } else {
        var d := if st.escaped then Masked(data) else data;
        ExpectedOnData(st.escaped, st.got, data, t, cap);
        if |st.got| < cap {
          var st' := Recv(true, false, st.got + [d], Update(st.crc, d));
          FoldSnoc(INIT, st.got, d);
          SameReceive(s, st, t, st', cap);
          ReceivesExpected(t, st', cap);
        } else {
          ReceivesExpected(t, START, cap);
          ExpectedIdle(false, [], t, cap);
          ExpectedOnFull(st.got + [d], false, t, cap);
        }
      }
    }
  }

  lemma {:induction false} ReceivesFlag(t: seq<byte>, st: Recv, cap: nat)
    requires Consistent(st, cap) && Clean(st.escaped, [FLAG] + t)
    ensures ReceiveAll([FLAG] + t, st, cap) == Expected(st.started, st.escaped, st.got, [FLAG] + t, cap)
    decreases |t| + 1, st.started, 0
  {
    hide Expected, Carried, CarriedAfterFlag, Update;
    var s := [FLAG] + t;
    assert s[1..] == t;
    CarriedFromFlag(t, cap);
    ExpectedAfterFlag(t, cap);
    if st.started {
      ExpectedOnFlag(st.escaped, st.got, t, cap);
    } else {
      ExpectedIdle(st.escaped, st.got, s, cap);
    }
    if st.started && st.got != [] && st.crc == 0 {
      ChecksIff(st.got);
      assert Receive(s, st, cap) == Success(st.got, s);
      ReceivesExpected(s, START, cap);
      ExpectedIdle(false, [], s, cap);
    } else {
      var st' := Recv(true, false, [], INIT);
      SameReceive(s, st, t, st', cap);
      ReceivesExpected(t, st', cap);
    }
  }

  lemma ExpectedNothing(started: bool, escaped: bool, cur: seq<byte>, cap: nat)
    ensures Expected(started, escaped, cur, [], cap) == []
  {}

  /** On every stream without an abort and without an escape directly before a
      flag, calling frame_recv until the end of the stream returns exactly the
      payloads the stream carries. */
  lemma ReceivesCarried(s: seq<byte>, cap: nat)
    requires Clean(false, s)
    ensures ReceiveAll(s, START, cap) == Carried(s, cap)
  {
    ReceivesExpected(s, START, cap);
    ExpectedIdle(false, [], s, cap);
  }

  /** Without aborts the check covers exactly the buffer. So a call that succeeds
      has found the check bytes there, and its result is not negative. */
  lemma {:induction false} SuccessChecks(s: seq<byte>, st: Recv, cap: nat)
    requires RESET !in s && st.crc == Fold(INIT, st.got)
    ensures var o := Receive(s, st, cap);
            o.Success? ==> |o.stored| >= 2 && o.stored[|o.stored| - 2..] == CheckBytes(o.stored[..|o.stored| - 2])
    decreases |s|
  {
    hide Update, Fold, CheckBytes;
    if |s| != 0 {
      match OnByte(s[0], st, cap) {
        case Go(st') =>
          assert forall b :: b in s[1..] ==> b in s;
          FoldNothing();
          if |st'.got| > |st.got| {
            FoldSnoc(INIT, st.got, st'.got[|st.got|]);
          }
          SuccessChecks(s[1..], st', cap);
        case Done => ChecksIff(st.got);
        case Full =>
      }
    }
  }

  lemma FoldNothing()
    ensures Fold(INIT, []) == INIT
  {}

  // ------------------------------------------------------------------
  // The code
  // ------------------------------------------------------------------

  class OutStream {
    var written: seq<byte>

    constructor ()
      ensures written == []
    {
      written := [];
    }

    method Fputc(c: byte)
      modifies this
      ensures written == old(written) + [c]
    {
      written := written + [c];
    }

    /** SEND_BYTE */
    method SendByte(c: byte)
      modifies this
      ensures written == old(written) + StuffByte(c)
    {
      if c == FLAG || c == ESC || c == RESET {
        Fputc(ESC);
        Fputc(MASK ^ c);
        assert MASK ^ c == Masked(c);
      } else {
        Fputc(c);
      }
    }
  }

  /** htons on a host of either byte order. */
  function Htons(x: bv16, littleEndian: bool): bv16 {
    if littleEndian then (x << 8) | (x >> 8) else x
  }

  lemma HtonsBytes(x: bv16)
    ensures Hi8(Htons(x, true)) == Lo8(x) && Lo8(Htons(x, true)) == Hi8(x)
    ensures Htons(x, false) == x
  {}

  /** The check bytes in the order in which the host sends them. */
  function SentCheck(data: seq<byte>, littleEndian: bool): seq<byte> {
    if littleEndian then CheckBytes(data) else [CheckBytes(data)[1], CheckBytes(data)[0]]
  }

  lemma StuffSnoc(s: seq<byte>, c: byte)
    ensures Stuff(s + [c]) == Stuff(s) + StuffByte(c)
  {
    StuffAppend(s, [c]);
    assert [c][1..] == [];
    assert Stuff([c]) == StuffByte(c) + [];
  }

  /** frame_send */
  method FrameSend(out: OutStream, data: seq<byte>, littleEndian: bool) returns (n: nat)
    modifies out
    ensures n == |data|
    ensures out.written == old(out.written) + Encode(Sent(data + SentCheck(data, littleEndian), true))
  {
    hide Update, StuffByte, Stuff, Htons, Lo8, Hi8, SentCheck;
    var crc := INIT;
    out.Fputc(FLAG);
    var i := 0;
    assert Stuff([]) == [] by { StuffTransparent([]); }
    while i < |data|
      invariant i <= |data| && crc == Fold(INIT, data[..i])
      invariant out.written == old(out.written) + [FLAG] + Stuff(data[..i])
    {
      var c := data[i];
      assert data[..i + 1] == data[..i] + [c];
      FoldSnoc(INIT, data[..i], c);
      StuffSnoc(data[..i], c);
      crc := Update(crc, c);
      out.SendByte(c);
      i := i + 1;
    }
    assert data[..i] == data;
    CheckSent(data, littleEndian);
    crc := Htons(crc, littleEndian);
    out.SendByte(Hi8(crc));
    out.SendByte(Lo8(crc));
    out.Fputc(FLAG);
    return |data|;
  }

  /** The check bytes behind the data, both stuffed. */
  lemma CheckSent(data: seq<byte>, littleEndian: bool)
    ensures var c := Htons(Fold(INIT, data), littleEndian);
            Stuff(data + SentCheck(data, littleEndian)) == Stuff(data) + StuffByte(Hi8(c)) + StuffByte(Lo8(c))
  {
    hide StuffByte, Stuff, Htons, Lo8, Hi8, Fold;
    HtonsBytes(Fold(INIT, data));
    var c := Htons(Fold(INIT, data), littleEndian);
    StuffSnoc(data, Hi8(c));
    StuffSnoc(data + [Hi8(c)], Lo8(c));
    assert data + [Hi8(c)] + [Lo8(c)] == data + SentCheck(data, littleEndian);
  }

  class InStream {
    const bytes: seq<byte>
    var pos: nat

    ghost predicate Valid()
      reads this
    {
      pos <= |bytes|
    }

    ghost function Rest(): seq<byte>
      requires Valid()
      reads this
    {
      bytes[pos..]
    }

    constructor (bytes: seq<byte>)
      ensures Valid() && Rest() == bytes
    {
      this.bytes, pos := bytes, 0;
    }

    /** fgetc: `eof` stands for a negative result. */
    method Fgetc() returns (eof: bool, data: byte)
      requires Valid()
      modifies this
      ensures Valid()
      ensures eof == (old(Rest()) == [])
      ensures eof ==> Rest() == []
      ensures !eof ==> data == old(Rest())[0] && Rest() == old(Rest())[1..]
    {
      eof, data := pos == |bytes|, 0;
      if !eof {
        data := bytes[pos];
        pos := pos + 1;
      }
    }

    /** ungetc of the byte just read. */
    method Ungetc(data: byte)
      requires Valid() && pos != 0 && data == bytes[pos - 1]
      modifies this
      ensures Valid() && Rest() == [data] + old(Rest())
    {
      pos := pos - 1;
    }
  }

  lemma ReceiveUnfold(s: seq<byte>, st: Recv, cap: nat)
    ensures s == [] ==> Receive(s, st, cap) == AtEnd(st.got, s)
    ensures s != [] ==>
              Receive(s, st, cap) == match OnByte(s[0], st, cap)
                                     case Go(st') => Receive(s[1..], st', cap)
                                     case Done => Success(st.got, s)
                                     case Full => NoSpace(st.got, s[1..])
  {}

  /** frame_recv */
  method FrameRecv(input: InStream, buf: array<byte>, nbytes: nat) returns (r: int)
    requires input.Valid() && nbytes <= buf.Length
    modifies input, buf
    ensures input.Valid()
    ensures var o := Receive(old(input.Rest()), START, nbytes);
            && r == Code(o) && input.Rest() == o.left
            && |o.stored| <= nbytes && buf[..|o.stored|] == o.stored
    ensures buf[nbytes..] == old(buf[nbytes..])
  {
    hide Update, Receive;
    var crc := INIT;
    var i := 0;
    var recvStarted := false;
    var isEscaped := false;
    assert buf[..0] == [];
    while true
      invariant input.Valid() && i <= nbytes && buf[nbytes..] == old(buf[nbytes..])
      invariant Receive(old(input.Rest()), START, nbytes)
             == Receive(input.Rest(), Recv(recvStarted, isEscaped, buf[..i], crc), nbytes)
      decreases |input.Rest()|
    {
      ghost var s, st := input.Rest(), Recv(recvStarted, isEscaped, buf[..i], crc);
      ReceiveUnfold(s, st, nbytes);
      var eof, data := input.Fgetc();
      if eof {
        return EOF;
      }
      ghost var v := OnByte(data, st, nbytes);
      if data == FLAG {
        if recvStarted {
          if i != 0 {
            if crc == 0 {
              input.Ungetc(data);
              assert input.Rest() == s;
              return i - 2;
            } else {
              i := 0;
              crc := INIT;
              assert v == Go(Recv(recvStarted, isEscaped, buf[..i], crc));
              continue;
            }
          }
        } else {
          recvStarted := true;
        }
        assert v == Go(Recv(recvStarted, isEscaped, buf[..i], crc));
        continue;
      }
      if !recvStarted {
        continue;
      }
      if data == RESET {
        i := 0;
        assert v == Go(Recv(recvStarted, isEscaped, buf[..i], crc));
        continue;
      }
      if data == ESC {
        isEscaped := true;
        continue;
      }
      if isEscaped {
        isEscaped := false;
        data := data ^ MASK;
      }
      crc := Update(crc, data);
      if i < nbytes {
        buf[i] := data;
        i := i + 1;
        assert buf[..i] == st.got + [data];
      } else {
        return -ENOSPC;
      }
    }
  }
}
