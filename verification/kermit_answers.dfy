// What the receiver writes back, as the sender at the other end reads it.
module KermitAnswers {
  import opened Wrappers
  import opened KermitCodec
  import opened KermitPacket
  import opened KermitSession

  // The last sequence number that was read at all; 0 before the first one.
  function NumberRead(evs: seq<Event>): nat {
    if evs == [] then 0
    else
      var ev := evs[|evs| - 1];
      if ev.Garbled? then NumberRead(evs[..|evs| - 1]) else ev.seqNo
  }

  // The parameters of the latest packet that announced some.
  function LinkAfter(evs: seq<Event>): Link {
    if evs == [] then DefaultLink
    else
      var ev := evs[|evs| - 1];
      if ev.Accepted? && ev.kind == 0x53 then LinkFrom(ev.data) else LinkAfter(evs[..|evs| - 1])
  }

  // A number on the line is a printable character.
  predicate Numbered(evs: seq<Event>) {
    forall ev | ev in evs && !ev.Garbled? :: ev.seqNo <= 223
  }

  lemma {:induction false} DataNumber(s: seq<Byte>, n: nat, kind: Byte, length: int, sum: nat, data: seq<Byte>)
    ensures var r := ScanData(s, n, kind, length, sum, data);
            r.Packet? ==> !r.event.Garbled? && r.event.seqNo == n
    decreases length
  {
    if length > 1 && s != [] && !IsControl(s[0]) {
      DataNumber(s[1..], n, kind, length - 1, sum + s[0] as int, data + [s[0]]);
    }
  }

  lemma {:induction false} LongNumber(s: seq<Byte>, n: nat, kind: Byte, sum: nat)
    ensures var r := ScanLongHeader(s, n, kind, sum); r.Packet? ==> !r.event.Garbled? && r.event.seqNo == n
  {
    if |s| > 2 {
      var sum' := sum + s[0] + s[1];
      DataNumber(s[3..], n, kind, UnToChar(s[0]) * 95 + UnToChar(s[1]), sum' + s[2], []);
    }
  }

  lemma {:induction false} TypeNumber(s: seq<Byte>, n: nat, len: nat, sum: nat)
    ensures var r := ScanType(s, n, len, sum); r.Packet? ==> !r.event.Garbled? && r.event.seqNo == n
  {
    if s != [] {
      var kind, t := s[0], s[1..];
      LongNumber(t, n, kind, sum + kind);
      DataNumber(t, n, kind, len - 2, sum + kind, []);
    }
  }

  lemma {:induction false} PacketNumber(s: seq<Byte>)
    ensures ScanPacket(s).Packet? ==> Numbered([ScanPacket(s).event])
  {
    if s != [] {
      if s[0] == START_CHAR {
        var t := s[1..];
        if |t| > 1 {
          TypeNumber(t[2..], UnToChar(t[1]), UnToChar(t[0]), t[0] as int + t[1]);
        }
      } else {
        PacketNumber(s[1..]);
      }
    }
  }

  // Whatever is on a line, its transmissions are numbered like that.
  lemma {:induction false} LineIsNumbered(line: seq<Byte>)
    ensures Numbered(Transmissions(line).0)
    decreases |line|
  {
    PacketNumber(line);
    ScanShortens(line);
    if ScanPacket(line).Packet? && !IsBreak(ScanPacket(line).event) {
      LineIsNumbered(ScanPacket(line).rest);
    }
  }

  lemma {:induction false} StateAfter(evs: seq<Event>)
    ensures Run(evs).n == NumberRead(evs) && Run(evs).link == LinkAfter(evs)
  {
    if evs != [] {
      StateAfter(evs[..|evs| - 1]);
    }
  }

  lemma {:induction false} NumberIsPrintable(evs: seq<Event>)
    requires Numbered(evs)
    ensures NumberRead(evs) <= 223
  {
    if evs != [] {
      assert evs[|evs| - 1] in evs;
      NumberIsPrintable(evs[..|evs| - 1]);
    }
  }

  // What one more transmission adds to the output.
  function Added(evs: seq<Event>, ev: Event): seq<Byte> {
    var was, now := Run(evs).sent, Run(evs + [ev]).sent;
    if was <= now then now[|was|..] else []
  }

  lemma {:induction false} OneAnswer(evs: seq<Event>, ev: Event, answer: seq<Byte>)
    requires Run(evs + [ev]).sent == Run(evs).sent + answer
    ensures Run(evs).sent <= Run(evs + [ev]).sent && Added(evs, ev) == answer
  {
  }

  // Every transmission is answered by one packet, at the end of a line that
  // the sender asked for: a refusal (N) of the number read last unless the
  // transmission was accepted, else an acknowledgement (Y) of its number, with
  // the own parameters if it announced some.
  lemma {:induction false} AnswerIsRead(evs: seq<Event>, ev: Event, rest: seq<Byte>)
    requires Numbered(evs + [ev])
    requires LinkAfter(evs + [ev]).eol == END_CHAR && IsNoise(Pad(LinkAfter(evs + [ev])))
    ensures Run(evs).sent <= Run(evs + [ev]).sent
    ensures ScanPacket(Added(evs, ev) + rest) ==
            if !ev.Accepted? then Packet(Accepted(NumberRead(evs + [ev]), 0x4E, []), rest)
            else Packet(Accepted(ev.seqNo, 0x59, if ev.kind == 0x53 then ParmReply(ev.data) else []), rest)
  {
    var all := evs + [ev];
    OneMore(evs, ev);
    StateAfter(all);
    NumberIsPrintable(all);
    AnswerInState(evs, ev, rest, Run(all).link, Run(all).n);
  }

  lemma SentInStep(r: Rx, ev: Event, link: Link, n: nat)
    requires link == Step(r, ev).link && n == Step(r, ev).n
    ensures ev.Accepted? ==> n == ev.seqNo
    ensures Step(r, ev).sent == r.sent +
            if !ev.Accepted? then Reply(link, AckBody(n, 0x4E, []))
            else Reply(link, AckBody(n, 0x59, if ev.kind == 0x53 then ParmReply(ev.data) else []))
  {
  }

  lemma {:induction false} AnswerInState(evs: seq<Event>, ev: Event, rest: seq<Byte>, link: Link, n: nat)
    requires Run(evs + [ev]) == Step(Run(evs), ev) && link == Run(evs + [ev]).link && n == Run(evs + [ev]).n
    requires n <= 223 && link.eol == END_CHAR && IsNoise(Pad(link))
    ensures Run(evs).sent <= Run(evs + [ev]).sent
    ensures ScanPacket(Added(evs, ev) + rest) ==
            if !ev.Accepted? then Packet(Accepted(n, 0x4E, []), rest)
            else Packet(Accepted(ev.seqNo, 0x59, if ev.kind == 0x53 then ParmReply(ev.data) else []), rest)
  {
    var r := Run(evs);
    SentInStep(r, ev, link, n);
    if ev.Accepted? {
      AnswerOfKind(evs, ev, rest, link, n, 0x59, if ev.kind == 0x53 then ParmReply(ev.data) else []);
    } else {
      AnswerOfKind(evs, ev, rest, link, n, 0x4E, []);
    }
  }

  lemma {:induction false} AnswerOfKind(evs: seq<Event>, ev: Event, rest: seq<Byte>, link: Link, n: nat, kind: Byte,
                                        data: seq<Byte>)
    requires Run(evs + [ev]).sent == Run(evs).sent + Reply(link, AckBody(n, kind, data))
    requires n <= 223 && link.eol == END_CHAR && IsNoise(Pad(link)) && !IsControl(kind) && data <= OurParms
    ensures Run(evs).sent <= Run(evs + [ev]).sent
    ensures ScanPacket(Added(evs, ev) + rest) == Packet(Accepted(n, kind, data), rest)
  {
    ParmsArePrintable(data);
    OneAnswer(evs, ev, Reply(link, AckBody(n, kind, data)));
    AnswerIsFrame(link, n, kind, data, rest);
  }

  lemma ParmsArePrintable(data: seq<Byte>)
    requires data <= OurParms
    ensures |data| <= 91 && Printable(data)
  {
    assert forall c | c in data :: c in OurParms;
  }

  // What the receiver announces: 94 characters, one second, no padding, CR,
  // '#', no eighth-bit prefix, block check type 1, no repeat prefix, long
  // packets of up to 94 * 95 + 94 characters without windows. To a sender that
  // sends fewer fields it announces as many.
  lemma OurParmsMean(data: seq<Byte>)
    ensures ParmReply(data) <= OurParms
    ensures |ParmReply(data)| == if |data| < 10 then |data| else 13
    ensures UnToChar(OurParms[0]) == 94 && UnToChar(OurParms[1]) == 1 && UnToChar(OurParms[2]) == 0
    ensures UnToChar(OurParms[4]) == 13 && OurParms[5] == '#' as int && OurParms[6] == 'N' as int
    ensures OurParms[7] == '1' as int && OurParms[8] == 'N' as int && UnToChar(OurParms[9]) == 2
    ensures UnToChar(OurParms[10]) == 0 && UnToChar(OurParms[11]) == 94 && UnToChar(OurParms[12]) == 94
  {
  }

  // ------------------------------------------------------------------------
  // What a sender announces (Kermit Protocol Manual, 6th edition, section on
  // the send-initiate packet): maximum length, time-out, number and kind of
  // padding characters, line end, and quote.

  function Ctl(c: Byte): Byte {
    if c / 64 % 2 == 0 then c + 64 else c - 64
  }

  function Announcement(maxl: nat, time: nat, padCount: nat, padChar: Byte, eol: nat, quote: Byte): seq<Byte> {
    [ToChar(maxl), ToChar(time), ToChar(padCount), Ctl(padChar), ToChar(eol), quote]
  }

  // The receiver takes over exactly what was meant, whatever fields follow,
  // and keeps its own defaults for fields that are not there.
  lemma AnnouncedIsTaken(maxl: nat, time: nat, padCount: nat, padChar: Byte, eol: nat, quote: Byte, more: seq<Byte>,
                         k: nat)
    requires padCount <= 94 && eol <= 94 && (padChar < 32 || padChar == 127) && k <= 6
    ensures var all := Announcement(maxl, time, padCount, padChar, eol, quote);
            && LinkFrom(all + more) == Link(eol, padCount, padChar, quote)
            && LinkFrom(all[..k]) == Link(if k > 4 then eol else 13, if k > 2 then padCount else 0,
                                          if k > 3 then padChar else 0, if k > 5 then quote else 0x23)
  {
    ToCharFacts(padCount);
    ToCharFacts(eol);
  }

  // ------------------------------------------------------------------------
  // The block check.

  // A single wrong bit changes it, whatever else is in the packet.
  lemma BitErrorIsDetected(sum: nat, bit: nat)
    requires bit in {1, 2, 4, 8, 16, 32, 64, 128}
    ensures BlockCheck(sum) != BlockCheck(sum + bit)
  {
    var wrong := sum + bit;
    CheckOfParts(sum);
    CheckOfParts(wrong);
    if bit < 64 {
      LowBits(sum, bit);
    } else {
      HighBits(sum, bit / 64);
    }
    PartsDiffer(sum % 64, sum / 64 % 4, wrong % 64, wrong / 64 % 4, bit);
  }

  lemma PartsDiffer(l: nat, h: nat, l': nat, h': nat, bit: nat)
    requires l < 64 && l' < 64 && h < 4 && h' < 4 && bit in {1, 2, 4, 8, 16, 32, 64, 128}
    requires if bit >= 64 then l' == l && h' == (h + bit / 64) % 4
             else if l + bit < 64 then l' == l + bit && h' == h
             else l' == l + bit - 64 && h' == (h + 1) % 4
    ensures (l + h) % 64 != (l' + h') % 64
  {
    SmallRemainder(l + h);
    SmallRemainder(l' + h');
  }

  lemma SmallRemainder(x: nat)
    requires x < 128
    ensures x % 64 == if x < 64 then x else x - 64
  {
  }

  // With a carry into the upper two bits or without one.
  lemma LowBits(sum: nat, bit: nat)
    requires bit < 64
    ensures var l, h := sum % 64, sum / 64 % 4;
            if l + bit < 64 then (sum + bit) % 64 == l + bit && (sum + bit) / 64 % 4 == h
            else (sum + bit) % 64 == l + bit - 64 && (sum + bit) / 64 % 4 == (h + 1) % 4
  {
    var k, l := sum / 64, sum % 64;
    assert sum == 64 * k + l;
    if l + bit < 64 {
      assert (sum + bit) / 64 == k;
    } else {
      assert (sum + bit) / 64 == k + 1;
    }
  }

  lemma HighBits(sum: nat, d: nat)
    ensures (sum + 64 * d) % 64 == sum % 64 && (sum + 64 * d) / 64 % 4 == (sum / 64 % 4 + d) % 4
  {
    var k, l := sum / 64, sum % 64;
    assert sum + 64 * d == 64 * (k + d) + l;
    assert (sum + 64 * d) / 64 == k + d;
  }

  lemma CheckOfParts(sum: nat)
    ensures BlockCheck(sum) == 32 + (sum % 64 + sum / 64 % 4) % 64
  {
    var l, k := sum % 64, sum / 64;
    assert sum + k % 4 == 64 * k + (l + k % 4);
    SameRemainder(k, l + k % 4);
  }

  lemma SameRemainder(k: nat, x: nat)
    ensures (64 * k + x) % 64 == x % 64
  {
  }

  // As the source computes it.
  lemma CheckAsBits(sum: bv16)
    requires sum < 0xFF00
    ensures (sum + ((sum >> 6) & 0x03)) & 0x3F == (sum + sum / 64 % 4) % 64
  {
  }

  lemma SumOfThree(a: Byte, b: Byte, c: Byte)
    ensures Sum([a, b, c]) == a + b + c
  {
    assert [a, b, c][..2] == [a, b] && [a, b][..1] == [a] && [a][..0] == [];
    assert Sum([a]) == a;
    assert Sum([a, b]) == a + b;
  }

  // The protocol's best-known packet: SOH, "# N3", CR refuses packet 0. It is
  // the answer to a packet with that number that is not in order.
  lemma RefusalOfPacketZero()
    ensures Run([Rejected(0)]).sent == [1, '#' as int, ' ' as int, 'N' as int, '3' as int, 13]
  {
    var ev := Rejected(0);
    OneMore([], ev);
    assert [] + [ev] == [ev];
    SumOfThree(35, 32, 78);
    assert AckBody(0, NACK_TYPE, []) == [35, 32, 78];
    assert Pad(DefaultLink) == [];
  }

  // ------------------------------------------------------------------------
  // Packets as a sender builds them, in plain numbers.

  function Check(s: seq<Byte>): Byte {
    32 + (Sum(s) % 64 + Sum(s) / 64 % 4) % 64
  }

  lemma {:induction false} FrameInNumbers(body: seq<Byte>, n: nat, kind: Byte, data: seq<Byte>, rest: seq<Byte>)
    requires IsBody(body, n, kind, data)
    ensures ScanPacket([1] + body + [Check(body), 13] + rest) == Packet(Accepted(n, kind, data), rest)
  {
    CheckOfParts(Sum(body));
    var s := body + [Check(body), 13] + rest;
    assert [] + [START_CHAR] + s == [1] + body + [Check(body), 13] + rest;
    NoiseIsSkipped([], s);
    assert s[..|body|] == body;
    FrameIsAccepted(s, body, n, kind, data, rest);
  }

  lemma {:induction false} PacketIsRead(n: nat, kind: Byte, data: seq<Byte>, rest: seq<Byte>)
    requires n < 64 && 32 <= kind && |data| <= 91 && forall c | c in data :: 32 <= c
    ensures var body := [35 + |data|, 32 + n, kind] + data;
            ScanPacket([1] + body + [Check(body), 13] + rest) == Packet(Accepted(n, kind, data), rest)
  {
    var body := [35 + |data|, 32 + n, kind] + data;
    assert body[3..] == data;
    FrameInNumbers(body, n, kind, data, rest);
  }

  // Extended length: the number of characters behind the header, check
  // included, to the base 95.
  lemma {:induction false} LongPacketIsRead(n: nat, kind: Byte, data: seq<Byte>, rest: seq<Byte>)
    requires n < 64 && 32 <= kind && |data| + 1 < 95 * 95 && forall c | c in data :: 32 <= c
    ensures var header := [32, 32 + n, kind, 32 + (|data| + 1) / 95, 32 + (|data| + 1) % 95];
            var body := header + [Check(header)] + data;
            ScanPacket([1] + body + [Check(body), 13] + rest) == Packet(Accepted(n, kind, data), rest)
  {
    var l := |data| + 1;
    var header: seq<Byte> := [32, 32 + n, kind, 32 + l / 95, 32 + l % 95];
    var body := header + [Check(header)] + data;
    LongBodyInNumbers(n, kind, data, header, body, l / 95, l % 95);
    FrameInNumbers(body, n, kind, data, rest);
  }

  lemma {:induction false} LongBodyInNumbers(n: nat, kind: Byte, data: seq<Byte>, header: seq<Byte>, body: seq<Byte>,
                                             l1: nat, l2: nat)
    requires n < 64 && 32 <= kind && (forall c | c in data :: 32 <= c) && l1 < 95 && l2 < 95
    requires 95 * l1 + l2 == |data| + 1
    requires header == [32, 32 + n, kind, 32 + l1, 32 + l2] && body == header + [Check(header)] + data
    ensures IsBody(body, n, kind, data)
  {
    CheckOfParts(Sum(header));
    assert body[..5] == header && body[6..] == data;
    assert UnToChar(body[3]) * 95 + UnToChar(body[4]) == |data| + 1;
  }

  // The packet types that matter to the receiver: 'S' takes over parameters
  // and 'D' delivers, 'B' ends the reception; no other one changes anything.
  lemma {:induction false} PacketTypes(r: Rx, ev: Event)
    requires ev.Accepted?
    ensures ev.kind == 'S' as int ==> Receive(r, ev).link == LinkFrom(ev.data)
    ensures ev.kind != 'S' as int ==> Receive(r, ev).link == r.link
    ensures ev.kind == 'D' as int ==>
              var d := if ev.seqNo == r.lastN then r.saved else r.cur;
              Receive(r, ev).cur == Decode(r.link.quote, d, ev.data)
    ensures ev.kind != 'D' as int ==> Receive(r, ev).cur == if ev.seqNo == r.lastN then r.saved else r.cur
    ensures IsBreak(ev) <==> ev.kind == 'B' as int
  {
  }
}
