/**
 How a cluster session cuts the byte stream of a connection into messages: it asks for the first eight bytes,
 then for the rest of the message, and takes whatever part of that the socket delivers. However the stream is
 broken up, the messages that come out are those that were sent.
 */
module BusFraming {
  import opened Names
  import opened Bytes
  import opened WireFields
  import opened BusMessage

  const MIN_LEN := 100

  /** `pkgSize` is -1 before the first message and otherwise that of the latest one. */
  datatype Session = Session(buf: Buf, pkgSize: int, packets: seq<Buf>, open: bool)

  const FRESH := Session([], -1, [], true)

  /** The message length is read when exactly eight bytes are there; a bad start closes the session. */
  function Drain(s: Session): Session
  {
    if |s.buf| != 8 then s
    else if s.buf[..4] != SIGNATURE || FromBe(s.buf[4..8]) < MIN_LEN then s.(open := false)
    else s.(pkgSize := FromBe(s.buf[4..8]))
  }

  /** How many bytes are asked for. */
  function Wanted(s: Session): int
  {
    if |s.buf| < 8 then 8 - |s.buf| else Drain(s).pkgSize - |s.buf|
  }

  /** A piece has arrived; a message that is not `good`, because it cannot be decoded, closes the session. */
  function Received(s: Session, piece: Buf, good: Buf -> bool): Session
  {
    var t := Drain(s);
    var buf := s.buf + piece;
    if !s.open || !t.open then t
    else if |buf| >= 8 && |buf| == t.pkgSize
    then Session([], t.pkgSize, t.packets + [buf], good(buf))
    else t.(buf := buf)
  }

  function ReceivedAll(s: Session, pieces: seq<Buf>, good: Buf -> bool): Session
    decreases |pieces|
  {
    if pieces == [] then s else ReceivedAll(Received(s, pieces[0], good), pieces[1..], good)
  }

  /** Every piece has at least one byte and no more than was asked for. */
  ghost predicate Deliverable(s: Session, pieces: seq<Buf>, good: Buf -> bool)
    decreases |pieces|
  {
    pieces == [] || (0 < |pieces[0]| <= Wanted(s) && Deliverable(Received(s, pieces[0], good), pieces[1..], good))
  }

  function Joined(parts: seq<Buf>): Buf
  {
    if parts == [] then [] else parts[0] + Joined(parts[1..])
  }

  ghost predicate Framed(p: Buf, good: Buf -> bool)
  {
    |p| >= MIN_LEN && p[..4] == SIGNATURE && FromBe(p[4..8]) == |p| && good(p)
  }

  /** In the middle of the messages `todo`, with part of the first one in the buffer. */
  ghost predicate Midway(s: Session, todo: seq<Buf>, good: Buf -> bool)
  {
    && s.open && (forall i | 0 <= i < |todo| :: Framed(todo[i], good))
    && (todo == [] ==> s.buf == [])
    && (todo != [] ==> |s.buf| < |todo[0]| && s.buf == todo[0][..|s.buf|])
    && (if |s.buf| > 8 then todo != [] && s.pkgSize == |todo[0]| else s.pkgSize < 0 || s.pkgSize >= MIN_LEN)
  }

  lemma PieceFits(s: Session, todo: seq<Buf>, piece: Buf, rest: Buf, good: Buf -> bool)
    requires Midway(s, todo, good) && 0 < |piece| <= Wanted(s) && s.buf + (piece + rest) == Joined(todo)
    ensures todo != [] && |s.buf| + |piece| <= |todo[0]| && s.buf + piece == todo[0][..|s.buf| + |piece|]
    ensures |s.buf| == 8 ==> Drain(s).open && Drain(s).pkgSize == |todo[0]|
  {
    assert |s.buf + (piece + rest)| > 0;
    assert todo != [];
    var p, n := todo[0], |s.buf| + |piece|;
    if |s.buf| == 8 { assert s.buf[..4] == p[..4] && s.buf[4..8] == p[4..8]; }
    assert n <= |p|;
    Regroup(s.buf, piece, rest);
    assert s.buf + piece == (s.buf + (piece + rest))[..n] == (p + Joined(todo[1..]))[..n] == p[..n];
  }

  lemma ReceiveStep(s: Session, todo: seq<Buf>, piece: Buf, rest: Buf, good: Buf -> bool) returns (left: seq<Buf>)
    requires Midway(s, todo, good) && 0 < |piece| <= Wanted(s) && s.buf + (piece + rest) == Joined(todo)
    ensures var t := Received(s, piece, good);
            Midway(t, left, good) && t.packets + left == s.packets + todo && t.buf + rest == Joined(left)
  {
    PieceFits(s, todo, piece, rest, good);
    Regroup(s.buf, piece, rest);
    var p, t := todo[0], Received(s, piece, good);
    if |s.buf| + |piece| == |p| {
      left := todo[1..];
      assert s.buf + piece == p;
      WholePacket(s, p, left, rest);
    } else {
      left := todo;
    }
  }

  lemma WholePacket(s: Session, p: Buf, left: seq<Buf>, rest: Buf)
    requires p + rest == p + Joined(left)
    ensures rest == Joined(left)
    ensures (s.packets + [p]) + left == s.packets + ([p] + left)
  {
    assert rest == (p + rest)[|p|..] == (p + Joined(left))[|p|..] == Joined(left);
  }

  lemma {:induction false} PiecesMakePackets(s: Session, todo: seq<Buf>, pieces: seq<Buf>, good: Buf -> bool)
    requires Midway(s, todo, good) && Deliverable(s, pieces, good) && s.buf + Joined(pieces) == Joined(todo)
    ensures var r := ReceivedAll(s, pieces, good); r.open && r.buf == [] && r.packets == s.packets + todo
    decreases |pieces|
  {
    if pieces == [] {
      assert s.buf + [] == s.buf;
      assert todo == [];
    } else {
      var left := ReceiveStep(s, todo, pieces[0], Joined(pieces[1..]), good);
      PiecesMakePackets(Received(s, pieces[0], good), left, pieces[1..], good);
    }
  }

  predicate Decodes(p: Buf)
  {
    MsgDecode(p).Some?
  }

  function Encoded(ms: seq<Msg>): seq<Buf>
  {
    seq(|ms|, i requires 0 <= i < |ms| => MsgEncode(ms[i]))
  }

  lemma GoodMsgIsFramed(m: Msg)
    requires GoodMsg(m)
    ensures Framed(MsgEncode(m), Decodes)
  {
    MsgStart(m);
    MsgRoundTrip(m);
    FieldRoundTrip(Num(TotalLength(m), 4), NumOf(4)) by { assert Fits(PrefixFields(m)[1], PREFIX_SHAPE[1]); }
  }

  /**
   However the stream of some messages is broken into pieces, the session hands over exactly these messages,
   in order, each of which decodes to what was encoded.
   */
  lemma MessagesArrive(ms: seq<Msg>, pieces: seq<Buf>)
    requires forall i | 0 <= i < |ms| :: GoodMsg(ms[i])
    requires Deliverable(FRESH, pieces, Decodes) && Joined(pieces) == Joined(Encoded(ms))
    ensures var r := ReceivedAll(FRESH, pieces, Decodes);
            r.open && r.packets == Encoded(ms)
            && forall i | 0 <= i < |ms| :: MsgDecode(r.packets[i]) == Some((ms[i], |r.packets[i]|))
  {
    EncodedAreFramed(ms);
    StartOfStream(Encoded(ms), pieces, Decodes);
    EncodedDecode(ms);
  }

  lemma EncodedAreFramed(ms: seq<Msg>)
    requires forall i | 0 <= i < |ms| :: GoodMsg(ms[i])
    ensures forall i | 0 <= i < |Encoded(ms)| :: Framed(Encoded(ms)[i], Decodes)
  {
    forall i | 0 <= i < |ms| ensures Framed(Encoded(ms)[i], Decodes) { GoodMsgIsFramed(ms[i]); }
  }

  lemma EncodedDecode(ms: seq<Msg>)
    requires forall i | 0 <= i < |ms| :: GoodMsg(ms[i])
    ensures forall i | 0 <= i < |ms| :: MsgDecode(Encoded(ms)[i]) == Some((ms[i], |Encoded(ms)[i]|))
  {
    forall i | 0 <= i < |ms| ensures MsgDecode(Encoded(ms)[i]) == Some((ms[i], |Encoded(ms)[i]|)) { MsgRoundTrip(ms[i]); }
  }

  lemma StartOfStream(packets: seq<Buf>, pieces: seq<Buf>, good: Buf -> bool)
    requires forall i | 0 <= i < |packets| :: Framed(packets[i], good)
    requires Deliverable(FRESH, pieces, good) && Joined(pieces) == Joined(packets)
    ensures var r := ReceivedAll(FRESH, pieces, good); r.open && r.packets == packets
  {
    assert [] + Joined(pieces) == Joined(pieces) && [] + packets == packets;
    PiecesMakePackets(FRESH, packets, pieces, good);
  }

  /** The session with its buffer; `good` stands for the processing of a message. */
  class ClusterSession {
    const good: Buf -> bool
    var queryBuf: Buf
    var pkgSize: int
    var packets: seq<Buf>
    var open: bool

    constructor (good: Buf -> bool)
      ensures State() == FRESH && this.good == good
    {
      this.good := good;
      queryBuf, pkgSize, packets, open := [], -1, [], true;
    }

    ghost function State(): Session
      reads this
    {
      Session(queryBuf, pkgSize, packets, open)
    }

    method DrainReqNet() returns (readlen: int)
      requires open
      modifies this`pkgSize, this`open
      ensures State() == Drain(old(State())) && (open ==> readlen == Wanted(old(State())))
    {
      if |queryBuf| < 8 { return 8 - |queryBuf|; }
      if |queryBuf| == 8 {
        var size := FromBe(queryBuf[4..8]);
        if queryBuf[..4] != SIGNATURE || size < MIN_LEN {
          open := false;
          return 0;
        }
        pkgSize := size;
      }
      return pkgSize - |queryBuf|;
    }

    method DrainReqCallback(piece: Buf)
      requires open && Drain(State()) == State()
      modifies this`queryBuf, this`packets, this`open
      ensures State() == Received(old(State()), piece, good)
    {
      queryBuf := queryBuf + piece;
      if |queryBuf| >= 8 && |queryBuf| == pkgSize {
        packets := packets + [queryBuf];
        open := good(queryBuf);
        queryBuf := [];
      }
    }
  }
}
