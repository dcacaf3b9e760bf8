/** Cluster bus messages: what is encoded is decoded again, and the sizes say how many bytes were used. */
module BusMessage {
  import opened Names
  import opened Bytes
  import opened ClusterView
  import opened BitsetCodec
  import opened WireFields

  const NAME_LENGTH := 40
  const PROTO_VER := 1
  const TYPE_COUNT := 9
  const SIGNATURE: Buf := ['R' as int, 'C' as int, 'm' as int, 'b' as int]

  // ---------------------------------------------------------------- the header

  datatype BusHeader = BusHeader(
    port: nat, count: nat, currentEpoch: nat, configEpoch: nat, offset: nat,
    sender: Buf, slaveOf: Buf, cport: nat, flags: nat, healthy: bool, ip: Buf, slots: set<nat>)

  const HEADER_SHAPE: seq<Shape> :=
    [NumOf(2), NumOf(2), NumOf(2), NumOf(8), NumOf(8), NumOf(8),
     RawOf(NAME_LENGTH), RawOf(NAME_LENGTH), NumOf(2), NumOf(2), NumOf(1)]

  function HeaderFields(h: BusHeader): seq<Field>
  {
    [Num(PROTO_VER, 2), Num(h.port, 2), Num(h.count, 2), Num(h.currentEpoch, 8), Num(h.configEpoch, 8), Num(h.offset, 8),
     Raw(h.sender), Raw(h.slaveOf), Num(h.cport, 2), Num(h.flags, 2), Num(if h.healthy then 1 else 0, 1)]
  }

  ghost predicate GoodHeader(h: BusHeader)
  {
    AllFit(HeaderFields(h), HEADER_SHAPE) && forall j | j in h.slots :: j < SLOTS
  }

  function HeadEncode(h: BusHeader): Buf
  {
    EncodeFields(HeaderFields(h)) + (LenStr(h.ip) + BitsetEncode(h.slots))
  }

  function HeaderSize(h: BusHeader): nat
  {
    SizeOf(HEADER_SHAPE) + LenStrSize(h.ip) + BitsetEncodeSize(h.slots)
  }

  function FromFields(fs: seq<Field>, ip: Buf, slots: set<nat>): Option<BusHeader>
  {
    if |fs| == 11 && fs[0].Num? && fs[1].Num? && fs[2].Num? && fs[3].Num? && fs[4].Num? && fs[5].Num?
       && fs[6].Raw? && fs[7].Raw? && fs[8].Num? && fs[9].Num? && fs[10].Num? && fs[0].n == PROTO_VER
    then Some(BusHeader(fs[1].n, fs[2].n, fs[3].n, fs[4].n, fs[5].n, fs[6].bytes, fs[7].bytes, fs[8].n, fs[9].n,
                        fs[10].n != 0, ip, slots))
    else None
  }

  function HeadDecode(b: Buf): Option<BusHeader>
  {
    var fs := DecodeFields(HEADER_SHAPE, b);
    if fs.None? then None
    else
      var ip := LenStrDecode(fs.value.1);
      if ip.None? then None
      else
        var slots := BitsetDecode(ip.value.1);
        if slots.None? then None else FromFields(fs.value.0, ip.value.0, slots.value)
  }

  lemma HeadRoundTrip(h: BusHeader, rest: Buf)
    requires GoodHeader(h)
    ensures HeadDecode(HeadEncode(h) + rest) == Some(h) && |HeadEncode(h)| == HeaderSize(h)
  {
    var ip, slots := LenStr(h.ip), BitsetEncode(h.slots);
    Regroup(EncodeFields(HeaderFields(h)), ip + slots, rest);
    Regroup(ip, slots, rest);
    FieldsRoundTrip(HeaderFields(h), HEADER_SHAPE, ip + (slots + rest));
    LenStrRoundTrip(h.ip, slots + rest);
    BitsetRoundTrip(h.slots, rest);
    FieldsOfHeader(h);
  }

  lemma FieldsOfHeader(h: BusHeader)
    ensures FromFields(HeaderFields(h), h.ip, h.slots) == Some(h)
  {
    var fs := HeaderFields(h);
    assert fs[0].n == PROTO_VER && fs[1].n == h.port && fs[2].n == h.count && fs[3].n == h.currentEpoch;
    assert fs[4].n == h.configEpoch && fs[5].n == h.offset && fs[6].bytes == h.sender && fs[7].bytes == h.slaveOf;
    assert fs[8].n == h.cport && fs[9].n == h.flags;
  }

  // ---------------------------------------------------------------- the data

  datatype Gossip = Gossip(name: Buf, pingSent: nat, pongReceived: nat, port: nat, cport: nat, flags: nat, ip: Buf)

  /** The bytes of an entry apart from its address. */
  const GOSSIP_FIXED := 62

  const GOSSIP_SHAPE: seq<Shape> := [RawOf(NAME_LENGTH), NumOf(8), NumOf(8), NumOf(2), NumOf(2), NumOf(2)]

  function GossipFields(g: Gossip): seq<Field>
  {
    [Raw(g.name), Num(g.pingSent, 8), Num(g.pongReceived, 8), Num(g.port, 2), Num(g.cport, 2), Num(g.flags, 2)]
  }

  function GossipEncode(g: Gossip): Buf
  {
    EncodeFields(GossipFields(g)) + LenStr(g.ip)
  }

  function GossipSize(g: Gossip): (n: nat)
    ensures n > GOSSIP_FIXED
  {
    GOSSIP_FIXED + LenStrSize(g.ip)
  }

  lemma GossipFixedSize()
    ensures SizeOf(GOSSIP_SHAPE) == GOSSIP_FIXED
  {
    SizeOfCons(RawOf(40), [NumOf(8), NumOf(8), NumOf(2), NumOf(2), NumOf(2)]);
    SizeOfCons(NumOf(8), [NumOf(8), NumOf(2), NumOf(2), NumOf(2)]);
    SizeOfCons(NumOf(8), [NumOf(2), NumOf(2), NumOf(2)]);
    SizeOfCons(NumOf(2), [NumOf(2), NumOf(2)]);
    SizeOfCons(NumOf(2), [NumOf(2)]);
    SizeOfCons(NumOf(2), []);
  }

  lemma SizeOfCons(sh: Shape, shs: seq<Shape>)
    ensures SizeOf([sh] + shs) == Size(sh) + SizeOf(shs)
  {
    assert ([sh] + shs)[1..] == shs;
  }

  function GossipDecode(b: Buf): Option<Gossip>
  {
    var fs := DecodeFields(GOSSIP_SHAPE, b);
    if fs.None? then None
    else
      var ip := LenStrDecode(fs.value.1);
      if ip.None? then None else GossipFrom(fs.value.0, ip.value.0)
  }

  function GossipFrom(fs: seq<Field>, ip: Buf): Option<Gossip>
  {
    if |fs| == 6 && fs[0].Raw? && fs[1].Num? && fs[2].Num? && fs[3].Num? && fs[4].Num? && fs[5].Num?
    then Some(Gossip(fs[0].bytes, fs[1].n, fs[2].n, fs[3].n, fs[4].n, fs[5].n, ip))
    else None
  }

  lemma GossipRoundTrip(g: Gossip, rest: Buf)
    requires AllFit(GossipFields(g), GOSSIP_SHAPE)
    ensures GossipDecode(GossipEncode(g) + rest) == Some(g) && |GossipEncode(g)| == GossipSize(g)
  {
    Regroup(EncodeFields(GossipFields(g)), LenStr(g.ip), rest);
    FieldsRoundTrip(GossipFields(g), GOSSIP_SHAPE, LenStr(g.ip) + rest);
    GossipFixedSize();
    LenStrRoundTrip(g.ip, rest);
    assert GossipFrom(GossipFields(g), g.ip) == Some(g);
  }

  function GossipsEncode(gs: seq<Gossip>): Buf
  {
    if gs == [] then [] else GossipEncode(gs[0]) + GossipsEncode(gs[1..])
  }

  /** Entries up to the end of the message; one that would reach beyond it is an error. */
  function GossipsDecode(b: Buf): Option<seq<Gossip>>
    decreases |b|
  {
    if b == [] then Some([])
    else
      var g := GossipDecode(b);
      if g.None? || GossipSize(g.value) > |b| then None
      else
        var more := GossipsDecode(b[GossipSize(g.value)..]);
        if more.None? then None else Some([g.value] + more.value)
  }

  lemma {:induction false} GossipsRoundTrip(gs: seq<Gossip>)
    requires forall i | 0 <= i < |gs| :: AllFit(GossipFields(gs[i]), GOSSIP_SHAPE)
    ensures GossipsDecode(GossipsEncode(gs)) == Some(gs) && |GossipsEncode(gs)| >= GOSSIP_FIXED * |gs|
    decreases |gs|
  {
    if gs != [] {
      var later := GossipsEncode(gs[1..]);
      GossipRoundTrip(gs[0], later);
      GossipsRoundTrip(gs[1..]);
      FirstGossip(GossipEncode(gs[0]), later, gs[0], gs[1..]);
      assert gs == [gs[0]] + gs[1..];
    }
  }

  lemma FirstGossip(a: Buf, later: Buf, g: Gossip, gs: seq<Gossip>)
    requires GossipDecode(a + later) == Some(g) && |a| == GossipSize(g) && GossipsDecode(later) == Some(gs)
    ensures GossipsDecode(a + later) == Some([g] + gs)
  {
    Cut(a, later);
  }

  datatype Data =
    | GossipData(entries: seq<Gossip>)
    | UpdateData(configEpoch: nat, name: Buf, slots: set<nat>)
    | FailData(name: Buf)
    | Nothing

  const UPDATE_SHAPE: seq<Shape> := [NumOf(8), RawOf(NAME_LENGTH)]

  function DataEncode(d: Data): Buf
  {
    match d
    case GossipData(gs) => GossipsEncode(gs)
    case UpdateData(e, name, slots) => EncodeFields([Num(e, 8), Raw(name)]) + BitsetEncode(slots)
    case FailData(name) => name
    case Nothing => []
  }

  /** PING, PONG and MEET carry gossip; UPDATE a claim; FAIL a name; votes and the manual failover nothing. */
  predicate IsGossip(kind: nat)
  {
    kind <= 2
  }

  predicate IsBare(kind: nat)
  {
    kind == 5 || kind == 6 || kind == 8
  }

  function UpdateDecode(b: Buf): Option<Data>
  {
    var fs := DecodeFields(UPDATE_SHAPE, b);
    if fs.None? || |fs.value.0| != 2 || !fs.value.0[0].Num? || !fs.value.0[1].Raw? then None
    else
      var slots := BitsetDecode(fs.value.1);
      if slots.None? then None else Some(UpdateData(fs.value.0[0].n, fs.value.0[1].bytes, slots.value))
  }

  function DataDecode(kind: nat, count: nat, b: Buf): Option<Data>
  {
    if IsGossip(kind) then
      if |b| < count * GOSSIP_FIXED then None
      else
        var gs := GossipsDecode(b);
        if gs.None? then None else Some(GossipData(gs.value))
    else if kind == 7 then UpdateDecode(b)
    else if kind == 3 then Some(FailData(b))
    else if IsBare(kind) then Some(Nothing)
    else None
  }

  ghost predicate GoodData(kind: nat, count: nat, d: Data)
  {
    match d
    case GossipData(gs) =>
      IsGossip(kind) && count == |gs| && forall i | 0 <= i < |gs| :: AllFit(GossipFields(gs[i]), GOSSIP_SHAPE)
    case UpdateData(e, name, slots) =>
      kind == 7 && AllFit([Num(e, 8), Raw(name)], UPDATE_SHAPE) && forall j | j in slots :: j < SLOTS
    case FailData(name) => kind == 3
    case Nothing => IsBare(kind)
  }

  lemma UpdateRoundTrip(e: nat, name: Buf, slots: set<nat>)
    requires AllFit([Num(e, 8), Raw(name)], UPDATE_SHAPE) && forall j | j in slots :: j < SLOTS
    ensures UpdateDecode(DataEncode(UpdateData(e, name, slots))) == Some(UpdateData(e, name, slots))
  {
    var bits := BitsetEncode(slots);
    FieldsRoundTrip([Num(e, 8), Raw(name)], UPDATE_SHAPE, bits);
    BitsetRoundTrip(slots, []);
    assert bits + [] == bits;
  }

  lemma DataRoundTrip(kind: nat, count: nat, d: Data)
    requires GoodData(kind, count, d)
    ensures DataDecode(kind, count, DataEncode(d)) == Some(d)
  {
    match d
    case GossipData(gs) => GossipsRoundTrip(gs);
    case UpdateData(e, name, slots) => UpdateRoundTrip(e, name, slots);
    case FailData(_) =>
    case Nothing =>
  }

  // ---------------------------------------------------------------- the message

  datatype Msg = Msg(kind: nat, mflags: nat, header: BusHeader, data: Data)

  const PREFIX_SHAPE: seq<Shape> := [RawOf(4), NumOf(4), NumOf(2), NumOf(4)]
  const PREFIX_SIZE := 14

  function TotalLength(m: Msg): nat
  {
    PREFIX_SIZE + |HeadEncode(m.header)| + |DataEncode(m.data)|
  }

  function PrefixFields(m: Msg): seq<Field>
  {
    [Raw(SIGNATURE), Num(TotalLength(m), 4), Num(m.kind, 2), Num(m.mflags, 4)]
  }

  function MsgEncode(m: Msg): Buf
  {
    EncodeFields(PrefixFields(m)) + (HeadEncode(m.header) + DataEncode(m.data))
  }

  ghost predicate GoodMsg(m: Msg)
  {
    && AllFit(PrefixFields(m), PREFIX_SHAPE) && m.kind < TYPE_COUNT
    && GoodHeader(m.header) && GoodData(m.kind, m.header.count, m.data)
  }

  /** The message and the length it claims to have. */
  function MsgDecode(b: Buf): Option<(Msg, nat)>
  {
    var fs := DecodeFields(PREFIX_SHAPE, b);
    if fs.None? || |fs.value.0| != 4 || fs.value.0[0] != Raw(SIGNATURE)
       || !fs.value.0[1].Num? || !fs.value.0[2].Num? || !fs.value.0[3].Num? || fs.value.0[2].n >= TYPE_COUNT then None
    else
      var m := BodyDecode(fs.value.0[2].n, fs.value.0[3].n, fs.value.1);
      if m.None? then None else Some((m.value, fs.value.0[1].n))
  }

  function BodyDecode(kind: nat, mflags: nat, b: Buf): Option<Msg>
  {
    var h := HeadDecode(b);
    if h.None? || HeaderSize(h.value) > |b| then None
    else
      var d := DataDecode(kind, h.value.count, b[HeaderSize(h.value)..]);
      if d.None? then None else Some(Msg(kind, mflags, h.value, d.value))
  }

  lemma BodyRoundTrip(m: Msg)
    requires GoodHeader(m.header) && GoodData(m.kind, m.header.count, m.data)
    ensures BodyDecode(m.kind, m.mflags, HeadEncode(m.header) + DataEncode(m.data)) == Some(m)
  {
    var head, data := HeadEncode(m.header), DataEncode(m.data);
    HeadRoundTrip(m.header, data);
    Cut(head, data);
    DataRoundTrip(m.kind, m.header.count, m.data);
  }

  lemma PrefixFixedSize()
    ensures SizeOf(PREFIX_SHAPE) == PREFIX_SIZE
  {
    SizeOfCons(RawOf(4), [NumOf(4), NumOf(2), NumOf(4)]);
    SizeOfCons(NumOf(4), [NumOf(2), NumOf(4)]);
    SizeOfCons(NumOf(2), [NumOf(4)]);
    SizeOfCons(NumOf(4), []);
  }

  /** Every well-formed message is decoded to itself, and its length field counts its bytes. */
  lemma MsgRoundTrip(m: Msg)
    requires GoodMsg(m)
    ensures MsgDecode(MsgEncode(m)) == Some((m, |MsgEncode(m)|)) && |MsgEncode(m)| == TotalLength(m)
  {
    var head, data := HeadEncode(m.header), DataEncode(m.data);
    FieldsRoundTrip(PrefixFields(m), PREFIX_SHAPE, head + data);
    PrefixFixedSize();
    BodyRoundTrip(m);
    PrefixThenBody(m, MsgEncode(m), head + data);
  }

  lemma PrefixThenBody(m: Msg, b: Buf, rest: Buf)
    requires DecodeFields(PREFIX_SHAPE, b) == Some((PrefixFields(m), rest)) && m.kind < TYPE_COUNT
    requires BodyDecode(m.kind, m.mflags, rest) == Some(m)
    ensures MsgDecode(b) == Some((m, TotalLength(m)))
  {
    var fs := PrefixFields(m);
    assert fs[0] == Raw(SIGNATURE) && fs[1].n == TotalLength(m) && fs[2].n == m.kind && fs[3].n == m.mflags;
  }

  lemma HeaderFixedSize()
    ensures SizeOf(HEADER_SHAPE) == 115
  {
    SizeOfCons(NumOf(2), HEADER_SHAPE[1..]);
    SizeOfCons(NumOf(2), HEADER_SHAPE[2..]);
    SizeOfCons(NumOf(2), HEADER_SHAPE[3..]);
    SizeOfCons(NumOf(8), HEADER_SHAPE[4..]);
    SizeOfCons(NumOf(8), HEADER_SHAPE[5..]);
    SizeOfCons(NumOf(8), HEADER_SHAPE[6..]);
    SizeOfCons(RawOf(NAME_LENGTH), HEADER_SHAPE[7..]);
    SizeOfCons(RawOf(NAME_LENGTH), HEADER_SHAPE[8..]);
    SizeOfCons(NumOf(2), HEADER_SHAPE[9..]);
    SizeOfCons(NumOf(2), HEADER_SHAPE[10..]);
    SizeOfCons(NumOf(1), []);
  }

  /** A message starts with the signature and its length. */
  lemma MsgStart(m: Msg)
    requires GoodMsg(m)
    ensures |MsgEncode(m)| >= 129 && MsgEncode(m)[..4] == SIGNATURE && MsgEncode(m)[4..8] == Be(|MsgEncode(m)|, 4)
  {
    MsgRoundTrip(m);
    HeaderFixedSize();
    HeadRoundTrip(m.header, []);
    var fs := PrefixFields(m);
    var later := EncodeFields(fs[2..]);
    assert fs[1..][0] == fs[1] && fs[1..][1..] == fs[2..];
    assert EncodeFields(fs) == SIGNATURE + (Be(TotalLength(m), 4) + later);
    StartOf(SIGNATURE, Be(TotalLength(m), 4), later, HeadEncode(m.header) + DataEncode(m.data));
  }

  lemma StartOf(a: Buf, b: Buf, c: Buf, d: Buf)
    requires |a| == |b| == 4
    ensures var all := a + (b + c) + d; |all| >= 8 && all[..4] == a && all[4..8] == b
  {
  }
}
