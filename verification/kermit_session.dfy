// A whole Kermit reception: the receiver's state over a sequence of
// transmissions, and what it has delivered at the end of it.
module KermitSession {
  import opened Wrappers
  import opened KermitCodec
  import opened KermitPacket

  // What the sender asked for in its last accepted send-initiate packet.
  datatype Link = Link(eol: Byte, padCount: nat, padChar: Byte, quote: Byte)

  const DefaultLink := Link(END_CHAR, 0, 0, K_ESCAPE)

  // cur is live, saved is the checkpoint taken when sequence number lastN
  // was first seen; n is the last sequence number read at all, and sent is
  // everything written back to the sender.
  datatype Rx = Rx(cur: Decoder, saved: Decoder, lastN: int, n: nat, link: Link, sent: seq<Byte>)

  const Start := Rx(Empty, Empty, -1, 0, DefaultLink, [])

  function Pad(link: Link): seq<Byte> {
    seq(link.padCount, _ => link.padChar)
  }

  // A reply packet as it leaves: a frame body, its check, and the line end
  // the sender asked for (a zero line end terminates the string instead).
  function Reply(link: Link, body: seq<Byte>): seq<Byte> {
    Pad(link) + [START_CHAR] + body + [BlockCheck(Sum(body))] + (if link.eol == 0 then [] else [link.eol])
  }

  function AckBody(n: nat, kind: Byte, data: seq<Byte>): seq<Byte> {
    [ToChar(|data| + 3), ToChar(n), kind] + data
  }

  // The send-initiate data is kept in a 20-character buffer whose last
  // place is never read.
  function ParmCount(data: seq<Byte>): nat {
    if |data| >= 19 then 18 else |data|
  }

  function LinkFrom(data: seq<Byte>): Link {
    var k := ParmCount(data);
    Link(if k >= 5 then UnToChar(data[4]) else END_CHAR,
         if k >= 3 then UnToChar(data[2]) else 0,
         if k >= 4 then KTrans(data[3]) else 0,
         if k >= 6 then data[5] else K_ESCAPE)
  }

  // The receiver's own parameters: 94-character packets, 1 second, no
  // padding, CR, '#', no 8-bit prefix, check type 1, no repeat prefix, long
  // packets without windows.
  const OurParms: seq<Byte> :=
    [126, 33, 32, 0x40, 45, 0x23, 0x4E, 0x31, 0x4E, 34, 32, 126, 126]

  function ParmReply(data: seq<Byte>): seq<Byte> {
    OurParms[..if ParmCount(data) >= 10 then 13 else ParmCount(data)]
  }

  // A repeated sequence number rolls back to the checkpoint, a new one
  // takes a checkpoint.
  function Checkpoint(r: Rx, n: nat): Rx {
    if n == r.lastN then r.(cur := r.saved, n := n)
    else r.(saved := r.cur, lastN := n, n := n)
  }

  function Receive(r: Rx, ev: Event): Rx {
    match ev
    case Garbled => r.(cur := r.saved)
    case Rejected(n) => var r1 := Checkpoint(r, n); r1.(cur := r1.saved)
    case Accepted(n, kind, data) =>
      var r1 := Checkpoint(r, n);
      if kind == SEND_TYPE then r1.(link := LinkFrom(data))
      else if kind == DATA_TYPE then r1.(cur := Decode(r1.link.quote, r1.cur, data))
      else r1
  }

  // The answer to a transmission, given the state it led to.
  function Answer(r: Rx, ev: Event): seq<Byte> {
    var body :=
      if !ev.Accepted? then AckBody(r.n, NACK_TYPE, [])
      else AckBody(r.n, ACK_TYPE, if ev.kind == SEND_TYPE then ParmReply(ev.data) else []);
    Reply(r.link, body)
  }

  function Step(r: Rx, ev: Event): Rx {
    var r1 := Receive(r, ev);
    r1.(sent := r.sent + Answer(r1, ev))
  }

  function Run(evs: seq<Event>): Rx {
    if evs == [] then Start else Step(Run(evs[..|evs| - 1]), evs[|evs| - 1])
  }

  lemma ReplyIsFrame(link: Link, n: nat, kind: Byte, data: seq<Byte>)
    requires link.eol == END_CHAR && |data| <= 91
    ensures Reply(link, AckBody(n, kind, data)) == Pad(link) + ShortFrame(n, kind, data)
  {
    var body := AckBody(n, kind, data);
    assert [START_CHAR] + body + [BlockCheck(Sum(body)), END_CHAR] == Frame(body);
  }

  // What the receiver answers is itself a packet it would accept, with the
  // type and sequence number meant.
  lemma {:induction false} AnswerIsFrame(link: Link, n: nat, kind: Byte, data: seq<Byte>, rest: seq<Byte>)
    requires link.eol == END_CHAR && IsNoise(Pad(link))
    requires n <= 223 && |data| <= 91 && !IsControl(kind) && Printable(data)
    ensures ScanPacket(Reply(link, AckBody(n, kind, data)) + rest) == Packet(Accepted(n, kind, data), rest)
  {
    ShortFrameIsAccepted(Pad(link), n, kind, data, rest);
    ReplyIsFrame(link, n, kind, data);
  }

  // How a reception ends: end of transmission, ^C, or a line gone silent.
  datatype End = Finished | Aborted | LineSilent

  predicate IsBreak(ev: Event) {
    ev.Accepted? && ev.kind == BREAK_TYPE
  }

  lemma {:induction false} ScanShortens(s: seq<Byte>)
    ensures ScanPacket(s).Packet? ==> |ScanPacket(s).rest| < |s|
  {
    if s != [] {
      if s[0] == START_CHAR {
        var t := s[1..];
        if |t| >= 3 {
          assert t[2..][1..] == t[3..];
          ScanDataShortens(t[3..], UnToChar(t[1]), t[2], UnToChar(t[0]) - 2, t[0] as int + t[1] + t[2], []);
          if |t| >= 6 {
            var sum := t[0] as int + t[1] + t[2] + t[3] + t[4] + t[5];
            ScanDataShortens(t[3..][3..], UnToChar(t[1]), t[2], LongLength(t), sum, []);
          }
        }
      } else {
        ScanShortens(s[1..]);
      }
    }
  }

  lemma {:induction false} ScanDataShortens(s: seq<Byte>, n: nat, kind: Byte, length: int, sum: nat, data: seq<Byte>)
    ensures ScanData(s, n, kind, length, sum, data).Packet? ==> |ScanData(s, n, kind, length, sum, data).rest| < |s|
    decreases length
  {
    if length > 1 && s != [] && !IsControl(s[0]) {
      ScanDataShortens(s[1..], n, kind, length - 1, sum + s[0] as int, data + [s[0]]);
    }
  }

  // The transmissions on the line, up to the accepted BREAK packet.
  function Transmissions(line: seq<Byte>): (seq<Event>, End)
    decreases |line|
  {
    ScanShortens(line);
    match ScanPacket(line)
    case Silent => ([], LineSilent)
    case Abort => ([], Aborted)
    case Packet(ev, rest) =>
      if IsBreak(ev) then ([ev], Finished)
      else var (evs, end) := Transmissions(rest); ([ev] + evs, end)
  }

  // ------------------------------------------------------------------------
  // What a reception delivers, stated without checkpoints. Consecutive
  // transmissions with one sequence number form a group (a garbled one
  // belongs to the group it interrupts), and only the last transmission of
  // each group remains, with the quote character that applied to it.

  datatype Reception = Reception(event: Event, quote: Byte)

  function CurrentSeq(evs: seq<Event>): int {
    if evs == [] then -1
    else match evs[|evs| - 1]
      case Garbled => CurrentSeq(evs[..|evs| - 1])
      case Rejected(n) => n
      case Accepted(n, _, _) => n
  }

  predicate Continues(evs: seq<Event>, ev: Event) {
    ev.Garbled? || ev.seqNo == CurrentSeq(evs)
  }

  // The quote announced by the latest accepted send-initiate packet.
  function QuoteAfter(evs: seq<Event>): Byte {
    if evs == [] then K_ESCAPE
    else
      var ev := evs[|evs| - 1];
      if ev.Accepted? && ev.kind == SEND_TYPE then LinkFrom(ev.data).quote
      else QuoteAfter(evs[..|evs| - 1])
  }

  function Finals(evs: seq<Event>): (r: seq<Reception>)
    ensures evs != [] ==> r != []
  {
    if evs == [] then []
    else
      var before := evs[..|evs| - 1];
      var f := Finals(before);
      var last := Reception(evs[|evs| - 1], QuoteAfter(before));
      if f != [] && Continues(before, last.event) then f[..|f| - 1] + [last] else f + [last]
  }

  predicate IsData(ev: Event) {
    ev.Accepted? && ev.kind == DATA_TYPE
  }

  function Deliver(d: Decoder, r: Reception): Decoder {
    if IsData(r.event) then Decode(r.quote, d, r.event.data) else d
  }

  function DeliverAll(rs: seq<Reception>): Decoder {
    if rs == [] then Empty else Deliver(DeliverAll(rs[..|rs| - 1]), rs[|rs| - 1])
  }

  // The group that is still open may yet be repeated; everything before it
  // is the checkpoint.
  function Closed(rs: seq<Reception>): seq<Reception> {
    if rs == [] then [] else rs[..|rs| - 1]
  }

  // The receiver's state agrees with the transmissions seen so far.
  ghost predicate Agrees(r: Rx, evs: seq<Event>) {
    && r.cur == DeliverAll(Finals(evs))
    && r.saved == DeliverAll(Closed(Finals(evs)))
    && r.lastN == CurrentSeq(evs)
    && r.link.quote == QuoteAfter(evs)
  }

  lemma {:induction false} OneMore(evs: seq<Event>, ev: Event)
    ensures (evs + [ev])[..|evs|] == evs && (evs + [ev])[|evs|] == ev
    ensures CurrentSeq(evs + [ev]) == if ev.Garbled? then CurrentSeq(evs) else ev.seqNo
    ensures QuoteAfter(evs + [ev]) ==
            if ev.Accepted? && ev.kind == SEND_TYPE then LinkFrom(ev.data).quote else QuoteAfter(evs)
    ensures var f := Finals(evs);
            Finals(evs + [ev]) ==
            (if f != [] && Continues(evs, ev) then f[..|f| - 1] else f) + [Reception(ev, QuoteAfter(evs))]
    ensures Run(evs + [ev]) == Step(Run(evs), ev)
  {
    assert (evs + [ev])[..|evs|] == evs;
  }

  lemma {:induction false} OneMoreDelivered(rs: seq<Reception>, r: Reception)
    ensures Closed(rs + [r]) == rs
    ensures DeliverAll(rs + [r]) == Deliver(DeliverAll(rs), r)
  {
    assert (rs + [r])[..|rs|] == rs;
  }

  // One step, without checkpoints: a group goes on from where it began, a new
  // one from what is there.
  lemma StepState(r: Rx, ev: Event, base: Decoder)
    requires base == if ev.Garbled? || ev.seqNo == r.lastN then r.saved else r.cur
    ensures var s := Step(r, ev);
            && s.saved == base && s.cur == Deliver(base, Reception(ev, r.link.quote))
            && s.lastN == (if ev.Garbled? then r.lastN else ev.seqNo)
            && s.link.quote == if ev.Accepted? && ev.kind == SEND_TYPE then LinkFrom(ev.data).quote else r.link.quote
  {
  }

  lemma StepAgrees(r: Rx, evs: seq<Event>, ev: Event)
    requires Agrees(r, evs)
    ensures Agrees(Step(r, ev), evs + [ev])
  {
    var f := Finals(evs);
    var base := if f != [] && Continues(evs, ev) then f[..|f| - 1] else f;
    OneMore(evs, ev);
    OneMoreDelivered(base, Reception(ev, QuoteAfter(evs)));
    assert f == [] ==> evs == [];
    StepState(r, ev, DeliverAll(base));
  }

  // Delivery over every run, whatever was garbled, rejected or repeated.
  lemma {:induction false} RunDelivers(evs: seq<Event>)
    ensures Agrees(Run(evs), evs)
  {
    if evs != [] {
      var before, ev := evs[..|evs| - 1], evs[|evs| - 1];
      assert evs == before + [ev];
      RunDelivers(before);
      StepAgrees(Run(before), before, ev);
    }
  }

  // The payloads of the data packets that remain.
  function Payload(rs: seq<Reception>): seq<Byte> {
    if rs == [] then []
    else
      var last := rs[|rs| - 1].event;
      Payload(rs[..|rs| - 1]) + if IsData(last) then last.data else []
  }

  predicate QuotedBy(rs: seq<Reception>, quote: Byte) {
    forall r | r in rs && IsData(r.event) :: r.quote == quote
  }

  lemma {:induction false} DeliverAllDecodes(rs: seq<Reception>, quote: Byte)
    requires QuotedBy(rs, quote)
    ensures DeliverAll(rs) == Decode(quote, Empty, Payload(rs))
  {
    if rs != [] {
      var before := rs[..|rs| - 1];
      DeliverAllDecodes(before, quote);
      var last := rs[|rs| - 1];
      assert last in rs;
      if IsData(last.event) {
        DecodeAppend(quote, Empty, Payload(before), last.event.data);
      } else {
        assert Payload(rs) == Payload(before);
      }
    }
  }

  // A file sent in quoted form, cut into packets anywhere (even between a
  // quote and its character), arrives unchanged as long as the remaining
  // data packets carry it.
  lemma {:induction false} FileArrives(evs: seq<Event>, quote: Byte, file: seq<Byte>)
    requires LegalQuote(quote) && QuotedBy(Finals(evs), quote)
    requires Payload(Finals(evs)) == Quote(quote, file)
    ensures Run(evs).cur == Decoder(false, file)
  {
    RunDelivers(evs);
    DeliverAllDecodes(Finals(evs), quote);
    UnquoteQuote(quote, [], file);
    assert [] + file == file;
  }

  // ------------------------------------------------------------------------
  // A sender that numbers its packets modulo 64 and repeats each one until it
  // is acknowledged.

  datatype Sent = Sent(kind: Byte, data: seq<Byte>)

  function DataIn(p: Sent): seq<Byte> {
    if p.kind == DATA_TYPE then p.data else []
  }

  function DataOf(packets: seq<Sent>): seq<Byte> {
    if packets == [] then [] else DataOf(packets[..|packets| - 1]) + DataIn(packets[|packets| - 1])
  }

  // The transmissions of one packet: it arrives in the end, and what happens
  // in between does not matter.
  predicate IsGroup(group: seq<Event>, n: nat, p: Sent) {
    && group != [] && group[|group| - 1] == Accepted(n, p.kind, p.data)
    && forall ev | ev in group :: ev.Garbled? || ev == Rejected(n) || ev == Accepted(n, p.kind, p.data)
  }

  predicate AreGroups(groups: seq<seq<Event>>, packets: seq<Sent>) {
    |groups| == |packets| && forall i | 0 <= i < |groups| :: IsGroup(groups[i], i % 64, packets[i])
  }

  function AllEvents(groups: seq<seq<Event>>): seq<Event> {
    if groups == [] then [] else AllEvents(groups[..|groups| - 1]) + groups[|groups| - 1]
  }

  // The packet's number is not read the first time it is sent.
  predicate StartsGarbled(groups: seq<seq<Event>>, i: nat) {
    i < |groups| && groups[i] != [] && groups[i][0].Garbled?
  }

  // The data of the first n packets without those that are followed by such a
  // packet.
  function Kept(packets: seq<Sent>, groups: seq<seq<Event>>, n: nat): seq<Byte>
    requires n <= |packets|
  {
    if n == 0 then []
    else Kept(packets, groups, n - 1) + if StartsGarbled(groups, n) then [] else DataIn(packets[n - 1])
  }

  ghost predicate NothingLost(packets: seq<Sent>, groups: seq<seq<Event>>)
    requires |packets| == |groups|
  {
    forall i | 0 < i < |groups| && StartsGarbled(groups, i) :: DataIn(packets[i - 1]) == []
  }

  // How many garbled transmissions a group starts with.
  function GarbledStart(group: seq<Event>): (k: nat)
    ensures k <= |group| && (forall i | 0 <= i < k :: group[i].Garbled?)
    ensures k < |group| ==> !group[k].Garbled?
  {
    if group == [] || !group[0].Garbled? then 0 else 1 + GarbledStart(group[1..])
  }

  // A garbled transmission takes the place of the last one so far.
  lemma {:induction false} OneMoreGarbled(evs: seq<Event>)
    ensures CurrentSeq(evs + [Garbled]) == CurrentSeq(evs) && QuoteAfter(evs + [Garbled]) == QuoteAfter(evs)
    ensures Finals(evs + [Garbled]) == Closed(Finals(evs)) + [Reception(Garbled, QuoteAfter(evs))]
  {
    OneMore(evs, Garbled);
  }

  lemma ClosedOfMore(f: seq<Reception>, r: Reception)
    ensures Closed(f + [r]) == f
  {
  }

  // So do several.
  lemma {:induction false} AfterGarbled(evs: seq<Event>, group: seq<Event>)
    requires forall i | 0 <= i < |group| :: group[i].Garbled?
    ensures CurrentSeq(evs + group) == CurrentSeq(evs) && QuoteAfter(evs + group) == QuoteAfter(evs)
    ensures Finals(evs + group) ==
            if group == [] then Finals(evs) else Closed(Finals(evs)) + [Reception(Garbled, QuoteAfter(evs))]
    decreases |group|
  {
    if group == [] {
      assert evs + group == evs;
    } else {
      var init := group[..|group| - 1];
      var before := evs + init;
      assert evs + group == before + [Garbled];
      AfterGarbled(evs, init);
      OneMoreGarbled(before);
      ClosedOfMore(Closed(Finals(evs)), Reception(Garbled, QuoteAfter(evs)));
    }
  }

  // Once the number is read: one more entry, which is the last transmission
  // so far.
  lemma {:induction false} WithinGroup(evs: seq<Event>, group: seq<Event>, n: nat, p: Sent, k: nat) returns (q: Byte)
    requires IsGroup(group, n, p) && !group[0].Garbled? && CurrentSeq(evs) != n && 0 < k <= |group|
    ensures CurrentSeq(evs + group[..k]) == n
    ensures Finals(evs + group[..k]) == Finals(evs) + [Reception(group[k - 1], q)]
    ensures p.kind != SEND_TYPE ==> q == QuoteAfter(evs) == QuoteAfter(evs + group[..k])
    ensures group[k - 1] == Accepted(n, SEND_TYPE, p.data) ==>
              QuoteAfter(evs + group[..k]) == LinkFrom(p.data).quote
  {
    var before, ev := evs + group[..k - 1], group[k - 1];
    assert ev in group;
    assert evs + group[..k] == before + [ev];
    OneMore(before, ev);
    q := QuoteAfter(before);
    if k == 1 {
      assert before == evs;
    } else {
      var q0 := WithinGroup(evs, group, n, p, k - 1);
      var f := Finals(before);
      assert f[..|f| - 1] == Finals(evs);
    }
  }

  lemma AfterGroup(evs: seq<Event>, group: seq<Event>, n: nat, p: Sent) returns (q: Byte)
    requires IsGroup(group, n, p) && !group[0].Garbled? && CurrentSeq(evs) != n
    ensures CurrentSeq(evs + group) == n
    ensures Finals(evs + group) == Finals(evs) + [Reception(Accepted(n, p.kind, p.data), q)]
    ensures p.kind != SEND_TYPE ==> q == QuoteAfter(evs) == QuoteAfter(evs + group)
    ensures p.kind == SEND_TYPE ==> QuoteAfter(evs + group) == LinkFrom(p.data).quote
  {
    assert group[..|group|] == group;
    q := WithinGroup(evs, group, n, p, |group|);
  }

  lemma {:induction false} OneMorePayload(f: seq<Reception>, r: Reception, quote: Byte)
    requires QuotedBy(f, quote) && (IsData(r.event) ==> r.quote == quote)
    ensures QuotedBy(f + [r], quote) && Closed(f + [r]) == f
    ensures Payload(f + [r]) == Payload(f) + if IsData(r.event) then r.event.data else []
  {
    assert (f + [r])[..|f|] == f;
  }

  // The packets start with the one that announces the quote.
  predicate Announces(packets: seq<Sent>, quote: Byte) {
    && packets != [] && packets[0].kind == SEND_TYPE && quote == LinkFrom(packets[0].data).quote
    && forall i | 0 < i < |packets| :: packets[i].kind != SEND_TYPE
  }

  // The events of a sender: the payload without the open group, and all of it.
  ghost predicate Carries(evs: seq<Event>, quote: Byte, closed: seq<Byte>, payload: seq<Byte>) {
    && QuotedBy(Finals(evs), quote)
    && Payload(Closed(Finals(evs))) == closed && Payload(Finals(evs)) == payload
  }

  // A garbled start gives up the open group.
  lemma {:induction false} GroupStart(evs: seq<Event>, group: seq<Event>, quote: Byte, closed: seq<Byte>,
                                      payload: seq<Byte>)
    requires Carries(evs, quote, closed, payload) && forall i | 0 <= i < |group| :: group[i].Garbled?
    ensures CurrentSeq(evs + group) == CurrentSeq(evs) && QuoteAfter(evs + group) == QuoteAfter(evs)
    ensures QuotedBy(Finals(evs + group), quote)
    ensures Payload(Finals(evs + group)) == if group == [] then payload else closed
  {
    AfterGarbled(evs, group);
    if group != [] {
      var c := Closed(Finals(evs));
      assert forall r | r in c :: r in Finals(evs);
      OneMorePayload(c, Reception(Garbled, QuoteAfter(evs)), quote);
    }
  }

  // The rest of the group.
  lemma {:induction false} GroupEnd(evs: seq<Event>, group: seq<Event>, n: nat, p: Sent, quote: Byte, base: seq<Byte>)
    requires IsGroup(group, n, p) && !group[0].Garbled? && CurrentSeq(evs) != n
    requires QuotedBy(Finals(evs), quote) && Payload(Finals(evs)) == base
    requires if p.kind == SEND_TYPE then quote == LinkFrom(p.data).quote else QuoteAfter(evs) == quote
    ensures CurrentSeq(evs + group) == n && QuoteAfter(evs + group) == quote
    ensures Carries(evs + group, quote, base, base + DataIn(p))
  {
    var q := AfterGroup(evs, group, n, p);
    OneMorePayload(Finals(evs), Reception(Accepted(n, p.kind, p.data), q), quote);
  }

  lemma GroupSplits(group: seq<Event>, n: nat, p: Sent) returns (start: seq<Event>, rest: seq<Event>)
    requires IsGroup(group, n, p)
    ensures group == start + rest && (forall i | 0 <= i < |start| :: start[i].Garbled?)
    ensures IsGroup(rest, n, p) && !rest[0].Garbled? && (start == [] <==> !group[0].Garbled?)
  {
    var k := GarbledStart(group);
    start, rest := group[..k], group[k..];
    assert rest[|rest| - 1] == group[|group| - 1];
  }

  lemma {:induction false} OneMoreGroup(evs: seq<Event>, group: seq<Event>, n: nat, p: Sent, quote: Byte,
                     closed: seq<Byte>, payload: seq<Byte>, base: seq<Byte>)
    requires IsGroup(group, n, p) && CurrentSeq(evs) != n && Carries(evs, quote, closed, payload)
    requires if p.kind == SEND_TYPE then quote == LinkFrom(p.data).quote else QuoteAfter(evs) == quote
    requires base == if group[0].Garbled? then closed else payload
    ensures CurrentSeq(evs + group) == n && QuoteAfter(evs + group) == quote
    ensures Carries(evs + group, quote, base, base + DataIn(p))
  {
    var start, rest := GroupSplits(group, n, p);
    var before := evs + start;
    assert evs + group == before + rest;
    GroupStart(evs, start, quote, closed, payload);
    GroupEnd(before, rest, n, p, quote, base);
  }

  lemma OneGroupMore(groups: seq<seq<Event>>, n: nat)
    requires 0 < n <= |groups|
    ensures AllEvents(groups[..n]) == AllEvents(groups[..n - 1]) + groups[n - 1]
  {
    assert groups[..n][..n - 1] == groups[..n - 1];
  }

  // The transmissions of the first n packets.
  ghost predicate Stand(packets: seq<Sent>, groups: seq<seq<Event>>, quote: Byte, n: nat, evs: seq<Event>)
    requires 0 < n <= |packets|
  {
    && CurrentSeq(evs) == (n - 1) % 64 && QuoteAfter(evs) == quote
    && Carries(evs, quote, Kept(packets, groups, n - 1), Kept(packets, groups, n - 1) + DataIn(packets[n - 1]))
  }

  lemma FirstGroup(packets: seq<Sent>, groups: seq<seq<Event>>, quote: Byte)
    requires AreGroups(groups, packets) && Announces(packets, quote)
    ensures Stand(packets, groups, quote, 1, groups[0])
  {
    OneMoreGroup([], groups[0], 0, packets[0], quote, [], [], []);
    assert [] + groups[0] == groups[0];
  }

  lemma NextGroup(packets: seq<Sent>, groups: seq<seq<Event>>, quote: Byte, n: nat, evs: seq<Event>)
    requires AreGroups(groups, packets) && Announces(packets, quote) && 0 < n < |packets|
    requires Stand(packets, groups, quote, n, evs)
    ensures Stand(packets, groups, quote, n + 1, evs + groups[n])
  {
    var closed, data := Kept(packets, groups, n - 1), DataIn(packets[n - 1]);
    var base := Kept(packets, groups, n);
    NumbersDiffer(n);
    assert base == if groups[n][0].Garbled? then closed else closed + data;
    OneMoreGroup(evs, groups[n], n % 64, packets[n], quote, closed, closed + data, base);
  }

  // What remains of them.
  lemma {:induction false} SenderFinals(packets: seq<Sent>, groups: seq<seq<Event>>, quote: Byte, n: nat)
    requires AreGroups(groups, packets) && Announces(packets, quote) && 0 < n <= |packets|
    ensures Stand(packets, groups, quote, n, AllEvents(groups[..n]))
  {
    OneGroupMore(groups, n);
    if n == 1 {
      assert [] + groups[0] == groups[0];
      FirstGroup(packets, groups, quote);
    } else {
      SenderFinals(packets, groups, quote, n - 1);
      NextGroup(packets, groups, quote, n - 1, AllEvents(groups[..n - 1]));
    }
  }

  lemma NumbersDiffer(n: nat)
    requires n > 0
    ensures (n - 1) % 64 != n % 64
  {
  }

  // All in all: the data of the packets, in order, each once, without those
  // whose successor starts garbled.
  lemma {:induction false} SenderPayload(packets: seq<Sent>, groups: seq<seq<Event>>, quote: Byte)
    requires AreGroups(groups, packets) && Announces(packets, quote)
    ensures QuotedBy(Finals(AllEvents(groups)), quote)
    ensures Payload(Finals(AllEvents(groups))) == Kept(packets, groups, |packets|)
    ensures CurrentSeq(AllEvents(groups)) == (|packets| - 1) % 64
  {
    var n := |packets|;
    SenderFinals(packets, groups, quote, n);
    assert groups[..n] == groups;
    LastIsKept(packets, groups);
  }

  lemma {:induction false} LastIsKept(packets: seq<Sent>, groups: seq<seq<Event>>)
    requires 0 < |packets| == |groups|
    ensures var n := |packets|;
            Kept(packets, groups, n) == Kept(packets, groups, n - 1) + DataIn(packets[n - 1])
  {
    assert !StartsGarbled(groups, |packets|);
  }

  lemma {:induction false} KeptIsAll(packets: seq<Sent>, groups: seq<seq<Event>>, n: nat)
    requires n <= |packets|
    ensures |Kept(packets, groups, n)| <= |DataOf(packets[..n])|
    ensures |Kept(packets, groups, n)| == |DataOf(packets[..n])| ==>
              Kept(packets, groups, n) == DataOf(packets[..n])
    ensures |Kept(packets, groups, n)| == |DataOf(packets[..n])|
            <==> forall i | 0 < i <= n && StartsGarbled(groups, i) :: DataIn(packets[i - 1]) == []
    ensures forall c | c in Kept(packets, groups, n) :: c in DataOf(packets[..n])
  {
    if n > 0 {
      KeptIsAll(packets, groups, n - 1);
      assert packets[..n][..n - 1] == packets[..n - 1];
    }
  }

  // The data arrives complete exactly if every packet whose first transmission
  // is garbled is preceded by one without data.
  lemma {:induction false} SenderPayloadExactly(packets: seq<Sent>, groups: seq<seq<Event>>, quote: Byte)
    requires AreGroups(groups, packets) && Announces(packets, quote)
    ensures Payload(Finals(AllEvents(groups))) == DataOf(packets) <==> NothingLost(packets, groups)
  {
    SenderPayload(packets, groups, quote);
    KeptIsAll(packets, groups, |packets|);
    assert packets[..|packets|] == packets;
  }

  lemma {:induction false} KeptArrives(packets: seq<Sent>, groups: seq<seq<Event>>, quote: Byte)
    requires AreGroups(groups, packets) && Announces(packets, quote)
    ensures Run(AllEvents(groups)).cur == Decode(quote, Empty, Kept(packets, groups, |packets|))
  {
    SenderPayload(packets, groups, quote);
    RunDelivers(AllEvents(groups));
    DeliverAllDecodes(Finals(AllEvents(groups)), quote);
  }

  // So a file that a sender quotes with the character it announced, and cuts
  // into data packets anywhere, arrives.
  lemma {:induction false} SenderDelivers(packets: seq<Sent>, groups: seq<seq<Event>>, quote: Byte, file: seq<Byte>)
    requires AreGroups(groups, packets) && Announces(packets, quote) && LegalQuote(quote)
    requires DataOf(packets) == Quote(quote, file) && NothingLost(packets, groups)
    ensures Run(AllEvents(groups)).cur == Decoder(false, file)
  {
    SenderPayload(packets, groups, quote);
    SenderPayloadExactly(packets, groups, quote);
    FileArrives(AllEvents(groups), quote, file);
  }

  // And only then, if the file is without the one byte that is quoted although
  // it need not be: the quote character with its eighth bit set.
  lemma {:induction false} SenderDeliversExactly(packets: seq<Sent>, groups: seq<seq<Event>>, quote: Byte,
                                                 file: seq<Byte>)
    requires AreGroups(groups, packets) && Announces(packets, quote) && LegalQuote(quote)
    requires DataOf(packets) == Quote(quote, file) && quote + 128 !in file
    ensures Run(AllEvents(groups)).cur.out == file <==> NothingLost(packets, groups)
  {
    if NothingLost(packets, groups) {
      SenderDelivers(packets, groups, quote, file);
    } else {
      var kept := Kept(packets, groups, |packets|);
      KeptArrives(packets, groups, quote);
      KeptIsAll(packets, groups, |packets|);
      assert packets[..|packets|] == packets;
      QuotedIsClean(quote, file);
      QuotedIsShortest(quote, kept);
    }
  }

  // The assumption the receiver states about itself is needed: a packet
  // rejected before its sequence byte takes the current group along, even if
  // that group was acknowledged, and the next group is appended to what was
  // delivered before it.
  lemma {:induction false} GarbledDropsGroup(evs: seq<Event>, n: nat, data: seq<Byte>)
    requires evs != [] && n != CurrentSeq(evs)
    ensures var before := DeliverAll(Closed(Finals(evs)));
            && Run(evs + [Garbled]).cur == before
            && Run(evs + [Garbled] + [Accepted(n, DATA_TYPE, data)]).cur == Decode(QuoteAfter(evs), before, data)
  {
    RunDelivers(evs);
    OneMore(evs, Garbled);
    RunDelivers(evs + [Garbled]);
    OneMore(evs + [Garbled], Accepted(n, DATA_TYPE, data));
  }

  lemma FirstPacket(n: nat, data: seq<Byte>)
    ensures var evs := [Accepted(n, DATA_TYPE, data)];
            CurrentSeq(evs) == n && QuoteAfter(evs) == K_ESCAPE && DeliverAll(Closed(Finals(evs))) == Empty
  {
    var ev := Accepted(n, DATA_TYPE, data);
    OneMore([], ev);
    assert [] + [ev] == [ev];
    assert Finals([ev]) == [Reception(ev, K_ESCAPE)];
  }

  lemma {:induction false} OneByte(quote: Byte, c: Byte)
    requires c != quote
    ensures Decode(quote, Empty, [c]) == Decoder(false, [c])
  {
    assert [c][..0] == [];
  }

  lemma {:induction false} DataOfThree(packets: seq<Sent>)
    requires |packets| == 3
    ensures DataOf(packets) == DataIn(packets[0]) + DataIn(packets[1]) + DataIn(packets[2])
  {
    var two := packets[..2];
    assert two[..1][..0] == [];
    assert DataOf(two[..1]) == DataIn(packets[0]);
    assert DataOf(two) == DataOf(two[..1]) + DataIn(packets[1]);
  }

  lemma {:induction false} KeptOfThree(packets: seq<Sent>, groups: seq<seq<Event>>)
    requires |packets| == |groups| == 3 && !StartsGarbled(groups, 1) && StartsGarbled(groups, 2)
    ensures Kept(packets, groups, 3) == DataIn(packets[0]) + DataIn(packets[2])
  {
    assert Kept(packets, groups, 1) == DataIn(packets[0]);
    assert Kept(packets, groups, 2) == Kept(packets, groups, 1);
  }

  lemma {:induction false} QuotedByteAlone(quote: Byte)
    requires LegalQuote(quote) && quote < 128
    ensures Quote(quote, [quote + 128]) == [quote, quote + 128]
    ensures Decode(quote, Empty, [quote + 128]) == Decoder(false, [quote + 128])
  {
    var s := [quote + 128];
    assert s[..0] == [];
    OneByte(quote, quote + 128);
  }

  // Three packets, of which the number of the third is not read at first.
  lemma ThreeGroups(p: Sent, q: Sent, r: Sent) returns (groups: seq<seq<Event>>)
    ensures AreGroups(groups, [p, q, r])
    ensures !StartsGarbled(groups, 1) && StartsGarbled(groups, 2)
  {
    groups := [[Accepted(0, p.kind, p.data)], [Accepted(1, q.kind, q.data)], [Garbled, Accepted(2, r.kind, r.data)]];
  }

  lemma LostBefore(packets: seq<Sent>, groups: seq<seq<Event>>, i: nat)
    requires 0 < i < |packets| == |groups| && StartsGarbled(groups, i) && DataIn(packets[i - 1]) != []
    ensures !NothingLost(packets, groups)
  {
  }

  // That byte can arrive although a data packet is lost: without the quote in
  // front it stands for itself.
  lemma EighthBitHidesLoss(packets: seq<Sent>, quote: Byte) returns (groups: seq<seq<Event>>)
    requires LegalQuote(quote) && Announces(packets, quote) && |packets| == 3
    requires DataIn(packets[1]) == [quote] && DataIn(packets[2]) == [quote + 128]
    ensures AreGroups(groups, packets) && DataOf(packets) == Quote(quote, [quote + 128])
    ensures !NothingLost(packets, groups) && Run(AllEvents(groups)).cur == Decoder(false, [quote + 128])
  {
    var p, q, r := packets[0], packets[1], packets[2];
    assert packets == [p, q, r];
    groups := ThreeGroups(p, q, r);
    EighthBitTexts(packets, groups, quote, quote + 128);
    KeptArrives(packets, groups, quote);
    LostBefore(packets, groups, 2);
  }

  lemma {:induction false} EighthBitTexts(packets: seq<Sent>, groups: seq<seq<Event>>, quote: Byte, b: Byte)
    requires LegalQuote(quote) && b == quote + 128 && |packets| == |groups| == 3
    requires DataIn(packets[0]) == [] && DataIn(packets[1]) == [quote] && DataIn(packets[2]) == [b]
    requires !StartsGarbled(groups, 1) && StartsGarbled(groups, 2)
    ensures DataOf(packets) == Quote(quote, [b])
    ensures Decode(quote, Empty, Kept(packets, groups, 3)) == Decoder(false, [b])
  {
    DataOfThree(packets);
    KeptOfThree(packets, groups);
    QuotedByteAlone(quote);
    assert [] + [b] == [b] && [] + [quote] + [b] == [quote, b];
  }

  // Concretely: of two acknowledged data packets only the second arrives.
  lemma AcknowledgedDataLost()
    ensures var evs := [Accepted(0, DATA_TYPE, [65]), Garbled, Accepted(1, DATA_TYPE, [66])];
            Run(evs).cur.out == [66] && CurrentSeq(evs) == 1
  {
    var first, second := [Accepted(0, DATA_TYPE, [65])], Accepted(1, DATA_TYPE, [66]);
    FirstPacket(0, [65]);
    GarbledDropsGroup(first, 1, [66]);
    OneByte(K_ESCAPE, 66);
    OneMore(first + [Garbled], second);
    assert [first[0], Garbled, second] == first + [Garbled] + [second];
  }

  // And for the bytes on the line: two data packets and the end of the
  // transmission, all of them well-formed, with a broken start in between.
  lemma {:induction false} AcknowledgedBytesLost(line: seq<Byte>, rest: seq<Byte>, second: seq<Byte>, last: seq<Byte>)
    requires last == ShortFrame(2, BREAK_TYPE, []) + [] && second == ShortFrame(1, DATA_TYPE, [66]) + last
    requires rest == [START_CHAR, 0] + second && line == ShortFrame(0, DATA_TYPE, [65]) + rest
    ensures Transmissions(line).1 == Finished && Run(Transmissions(line).0).cur.out == [66]
  {
    BytesAreEvents(line, rest, second, last, [65], [66], 0);
    AcknowledgedDataLost();
    var evs, end := [Accepted(0, DATA_TYPE, [65]), Garbled, Accepted(1, DATA_TYPE, [66])], Accepted(2, BREAK_TYPE, []);
    assert evs + [end] == [evs[0]] + ([evs[1]] + ([evs[2]] + [end]));
    BreakKeepsOutput(evs, 2);
  }

  lemma {:induction false} BytesAreEvents(line: seq<Byte>, rest: seq<Byte>, second: seq<Byte>, last: seq<Byte>,
                       a: seq<Byte>, b: seq<Byte>, n: nat)
    requires n <= 200 && |a| <= 91 && |b| <= 91 && Printable(a) && Printable(b)
    requires last == ShortFrame(n + 2, BREAK_TYPE, []) + [] && second == ShortFrame(n + 1, DATA_TYPE, b) + last
    requires rest == [START_CHAR, 0] + second && line == ShortFrame(n, DATA_TYPE, a) + rest
    ensures Transmissions(line)
            == ([Accepted(n, DATA_TYPE, a)]
                + ([Garbled] + ([Accepted(n + 1, DATA_TYPE, b)] + [Accepted(n + 2, BREAK_TYPE, [])])), Finished)
  {
    var evs := SecondAndLast(second, last, b, n + 1);
    OnBrokenStart(second, rest, evs);
    OnData(n, a, rest, line, [Garbled] + evs);
  }

  lemma SecondAndLast(second: seq<Byte>, last: seq<Byte>, b: seq<Byte>, n: nat) returns (evs: seq<Event>)
    requires n <= 201 && |b| <= 91 && Printable(b)
    requires last == ShortFrame(n + 1, BREAK_TYPE, []) + [] && second == ShortFrame(n, DATA_TYPE, b) + last
    ensures Transmissions(second) == (evs, Finished)
    ensures evs == [Accepted(n, DATA_TYPE, b)] + [Accepted(n + 1, BREAK_TYPE, [])]
  {
    OnFrame(n + 1, BREAK_TYPE, [], []);
    OnData(n, b, last, second, [Accepted(n + 1, BREAK_TYPE, [])]);
    evs := [Accepted(n, DATA_TYPE, b)] + [Accepted(n + 1, BREAK_TYPE, [])];
  }

  lemma {:induction false} OnData(n: nat, data: seq<Byte>, rest: seq<Byte>, line: seq<Byte>, evs: seq<Event>)
    requires n <= 223 && |data| <= 91 && Printable(data) && line == ShortFrame(n, DATA_TYPE, data) + rest
    requires Transmissions(rest) == (evs, Finished)
    ensures Transmissions(line) == ([Accepted(n, DATA_TYPE, data)] + evs, Finished)
  {
    OnFrame(n, DATA_TYPE, data, rest);
  }

  lemma {:induction false} BreakKeepsOutput(evs: seq<Event>, n: nat)
    requires CurrentSeq(evs) != n
    ensures Run(evs + [Accepted(n, BREAK_TYPE, [])]).cur == Run(evs).cur
  {
    RunDelivers(evs);
    OneMore(evs, Accepted(n, BREAK_TYPE, []));
  }

  lemma {:induction false} OnBrokenStart(rest: seq<Byte>, line: seq<Byte>, evs: seq<Event>)
    requires line == [START_CHAR, 0] + rest && Transmissions(rest) == (evs, Finished)
    ensures Transmissions(line) == ([Garbled] + evs, Finished)
  {
    assert line[1..][1..] == rest;
  }

  // The first transmission of a line that starts with a packet.
  lemma {:induction false} OnFrame(n: nat, kind: Byte, data: seq<Byte>, rest: seq<Byte>)
    requires n <= 223 && |data| <= 91 && !IsControl(kind) && Printable(data)
    ensures var ev := Accepted(n, kind, data);
            Transmissions(ShortFrame(n, kind, data) + rest)
            == if kind == BREAK_TYPE then ([ev], Finished)
               else ([ev] + Transmissions(rest).0, Transmissions(rest).1)
  {
    ShortFrameIsAccepted([], n, kind, data, rest);
    assert [] + ShortFrame(n, kind, data) + rest == ShortFrame(n, kind, data) + rest;
  }
}
