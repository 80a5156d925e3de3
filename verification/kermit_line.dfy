// A sender's packets as bytes on the line, with noise and damage in between,
// and the file in memory that comes of them.
module KermitLine {
  import opened Wrappers
  import opened KermitCodec
  import opened KermitPacket
  import opened KermitSession
  import opened KermitReceiver

  // One transmission, behind line noise. Broken: a control character stands
  // for the length or the number. Spoiled: length and number arrive, and then
  // something goes wrong. Whole: a packet.
  datatype Piece =
    | Broken(noise: seq<Byte>, head: seq<Byte>, c: Byte)
    | Spoiled(noise: seq<Byte>, length: nat, number: nat, body: seq<Byte>, tail: seq<Byte>)
    | Whole(noise: seq<Byte>, number: nat, kind: Byte, data: seq<Byte>)

  // A control character too early, another block check, or another character
  // behind it.
  predicate Spoils(tail: seq<Byte>, complete: bool, check: Byte) {
    || (|tail| == 1 && (IsControl(tail[0]) || (complete && tail[0] != check)))
    || (|tail| == 2 && complete && tail[0] == check && tail[1] != END_CHAR)
  }

  predicate IsPiece(p: Piece) {
    IsNoise(p.noise) &&
    match p
    case Broken(_, head, c) => |head| <= 1 && Printable(head) && IsControl(c)
    case Spoiled(_, length, number, body, tail) =>
      && 0 < length <= 94 && number <= 223 && Printable(body) && |body| <= 1 + DataLength(length - 2)
      && Spoils(tail, |body| == 1 + DataLength(length - 2),
                BlockCheck(Sum([ToChar(length), ToChar(number)] + body)))
    case Whole(_, number, kind, data) =>
      number <= 223 && |data| <= 91 && !IsControl(kind) && Printable(data)
  }

  // What is sent behind the noise.
  function Sending(p: Piece): seq<Byte> {
    match p
    case Broken(_, head, c) => [START_CHAR] + (head + [c])
    case Spoiled(_, length, number, body, tail) => [START_CHAR] + ([ToChar(length), ToChar(number)] + (body + tail))
    case Whole(_, number, kind, data) => ShortFrame(number, kind, data)
  }

  function EventOf(p: Piece): Event {
    match p
    case Broken(_, _, _) => Garbled
    case Spoiled(_, _, number, _, _) => Rejected(number)
    case Whole(_, number, kind, data) => Accepted(number, kind, data)
  }

  function LineOf(pieces: seq<Piece>): seq<Byte> {
    if pieces == [] then [] else pieces[0].noise + Sending(pieces[0]) + LineOf(pieces[1..])
  }

  function EventsOf(pieces: seq<Piece>): seq<Event> {
    if pieces == [] then [] else [EventOf(pieces[0])] + EventsOf(pieces[1..])
  }

  lemma {:induction false} BrokenIsGarbled(head: seq<Byte>, c: Byte, s: seq<Byte>, rest: seq<Byte>)
    requires |head| <= 1 && Printable(head) && IsControl(c) && s == head + [c] + rest
    ensures ScanHeader(s) == Packet(Garbled, rest)
  {
    if head == [] {
      assert s[0] == c && s[1..] == rest;
    } else {
      assert head[0] in head;
      assert s[0] == head[0] && s[1] == c && s[2..] == rest;
    }
  }

  lemma {:induction false} SumOfFirst(s: seq<Byte>)
    requires s != []
    ensures Sum(s) == s[0] + Sum(s[1..])
  {
    var first := [s[0]];
    assert s == first + s[1..];
    SumAppend(first, s[1..]);
    assert first[..0] == [];
  }

  lemma {:induction false} SpoiledEnd(tail: seq<Byte>, s: seq<Byte>, rest: seq<Byte>, complete: bool, n: nat,
                                      kind: Byte, length: int, sum: nat, data: seq<Byte>)
    requires s == tail + rest && Spoils(tail, complete, BlockCheck(sum)) && (complete <==> length <= 1)
    ensures ScanData(s, n, kind, length, sum, data) == Packet(Rejected(n), rest)
  {
    BlockCheckIsPrintable(sum);
    assert s[0] == tail[0];
    if |tail| == 1 {
      assert s[1..] == rest;
    } else {
      assert s[1] == tail[1] && s[2..] == rest;
    }
  }

  lemma FirstOfThree(body: seq<Byte>, tail: seq<Byte>, rest: seq<Byte>, s: seq<Byte>, t: seq<Byte>)
    requires body != [] && s == body + (tail + rest) && t == s[1..]
    ensures s[0] == body[0] && t == body[1..] + (tail + rest)
  {
  }

  lemma {:induction false} OneData(c: Byte, t: seq<Byte>, s: seq<Byte>, n: nat, kind: Byte, length: int, sum: nat,
                                   data: seq<Byte>, r: Scan)
    requires length > 1 && s != [] && s[0] == c && t == s[1..] && !IsControl(c)
    requires ScanData(t, n, kind, length - 1, sum + c, data + [c]) == r
    ensures ScanData(s, n, kind, length, sum, data) == r
  {
  }

  // Some of the data, or all of it, and then something goes wrong.
  lemma {:induction false} SpoiledData(d: seq<Byte>, tail: seq<Byte>, s: seq<Byte>, rest: seq<Byte>, n: nat, kind: Byte,
                                       length: int, sum: nat, data: seq<Byte>, total: nat)
    requires s == d + (tail + rest) && Printable(d) && |d| <= DataLength(length) && total == sum + Sum(d)
    requires Spoils(tail, |d| == DataLength(length), BlockCheck(total))
    ensures ScanData(s, n, kind, length, sum, data) == Packet(Rejected(n), rest)
    decreases |d|
  {
    if d == [] {
      assert s == tail + rest;
      SpoiledEnd(tail, s, rest, length <= 1, n, kind, length, sum, data);
    } else {
      var c, e := d[0], d[1..];
      assert c in d;
      assert forall b | b in e :: b in d;
      var t := s[1..];
      FirstOfThree(d, tail, rest, s, t);
      SumOfFirst(d);
      SpoiledData(e, tail, t, rest, n, kind, length - 1, sum + c, data + [c], total);
      OneData(c, t, s, n, kind, length, sum, data, Packet(Rejected(n), rest));
    }
  }

  lemma {:induction false} SumOfPair(a: Byte, b: Byte, body: seq<Byte>)
    ensures Sum([a, b] + body) == a + b + Sum(body)
  {
    var head := [a, b];
    SumAppend(head, body);
    SumOfFirst(head);
    SumOfFirst(head[1..]);
  }

  lemma {:induction false} TypeBehind(a: Byte, b: Byte, t: seq<Byte>, s: seq<Byte>)
    requires s == [a, b] + t && !IsControl(a) && !IsControl(b)
    ensures ScanHeader(s) == ScanType(t, UnToChar(b), UnToChar(a), a + b)
  {
    assert s[2..] == t;
  }

  lemma {:induction false} DataBehind(kind: Byte, t: seq<Byte>, s: seq<Byte>, n: nat, length: nat, sum: nat)
    requires s != [] && s[0] == kind && s[1..] == t && !IsControl(kind) && 0 < length
    ensures ScanType(s, n, length, sum) == ScanData(t, n, kind, length - 2, sum + kind, [])
  {
  }

  lemma {:induction false} NoTypeBehind(c: Byte, rest: seq<Byte>, s: seq<Byte>, n: nat, length: nat, sum: nat)
    requires s == [c] + rest && IsControl(c)
    ensures ScanType(s, n, length, sum) == Packet(Rejected(n), rest)
  {
    assert s[1..] == rest;
  }

  lemma {:induction false} SpoiledIsRejected(length: nat, n: nat, body: seq<Byte>, tail: seq<Byte>, s: seq<Byte>,
                                             rest: seq<Byte>)
    requires 0 < length <= 94 && n <= 223 && Printable(body) && |body| <= 1 + DataLength(length - 2)
    requires Spoils(tail, |body| == 1 + DataLength(length - 2),
                    BlockCheck(Sum([ToChar(length), ToChar(n)] + body)))
    requires s == [ToChar(length), ToChar(n)] + (body + (tail + rest))
    ensures ScanHeader(s) == Packet(Rejected(n), rest)
  {
    ToCharFacts(length);
    ToCharFacts(n);
    SpoiledHeader(ToChar(length), ToChar(n), body, tail, s, rest);
  }

  lemma {:induction false} SpoiledHeader(a: Byte, b: Byte, body: seq<Byte>, tail: seq<Byte>, s: seq<Byte>,
                                         rest: seq<Byte>)
    requires !IsControl(a) && !IsControl(b) && 0 < UnToChar(a)
    requires Printable(body) && |body| <= 1 + DataLength(UnToChar(a) - 2)
    requires Spoils(tail, |body| == 1 + DataLength(UnToChar(a) - 2), BlockCheck(Sum([a, b] + body)))
    requires s == [a, b] + (body + (tail + rest))
    ensures ScanHeader(s) == Packet(Rejected(UnToChar(b)), rest)
  {
    var t := body + (tail + rest);
    SumOfPair(a, b, body);
    SpoiledType(body, tail, t, rest, UnToChar(b), UnToChar(a), a + b, Sum([a, b] + body));
    TypeBehind(a, b, t, s);
  }

  lemma {:induction false} SpoiledType(body: seq<Byte>, tail: seq<Byte>, s: seq<Byte>, rest: seq<Byte>, n: nat,
                                       length: nat, sum: nat, total: nat)
    requires 0 < length && s == body + (tail + rest) && Printable(body) && |body| <= 1 + DataLength(length - 2)
    requires total == sum + Sum(body) && Spoils(tail, |body| == 1 + DataLength(length - 2), BlockCheck(total))
    ensures ScanType(s, n, length, sum) == Packet(Rejected(n), rest)
  {
    if body == [] {
      assert tail == [tail[0]] && s == tail + rest;
      NoTypeBehind(tail[0], rest, s, n, length, sum);
    } else {
      var kind, d := body[0], body[1..];
      var t := s[1..];
      assert kind in body;
      assert forall c | c in d :: c in body;
      FirstOfThree(body, tail, rest, s, t);
      SumOfFirst(body);
      SpoiledData(d, tail, t, rest, n, kind, length - 2, sum + kind, [], total);
      DataBehind(kind, t, s, n, length, sum);
    }
  }

  // Each piece is one transmission, whatever follows.
  lemma {:induction false} PieceIsEvent(p: Piece, rest: seq<Byte>)
    requires IsPiece(p)
    ensures ScanPacket(p.noise + Sending(p) + rest) == Packet(EventOf(p), rest)
  {
    match p
    case Broken(noise, head, c) =>
      var s := head + [c] + rest;
      assert noise + Sending(p) + rest == noise + [START_CHAR] + s;
      NoiseIsSkipped(noise, s);
      BrokenIsGarbled(head, c, s, rest);
    case Spoiled(noise, length, number, body, tail) =>
      var s := [ToChar(length), ToChar(number)] + (body + (tail + rest));
      assert noise + Sending(p) + rest == noise + [START_CHAR] + s;
      NoiseIsSkipped(noise, s);
      SpoiledIsRejected(length, number, body, tail, s, rest);
    case Whole(noise, number, kind, data) =>
      ShortFrameIsAccepted(noise, number, kind, data, rest);
  }

  // The line is read as these transmissions up to the end of the file, and
  // what comes behind it is not read.
  lemma {:induction false} LineIsEvents(pieces: seq<Piece>, rest: seq<Byte>)
    requires pieces != [] && forall i | 0 <= i < |pieces| :: IsPiece(pieces[i])
    requires forall i | 0 <= i < |pieces| :: IsBreak(EventOf(pieces[i])) <==> i == |pieces| - 1
    ensures Transmissions(LineOf(pieces) + rest) == (EventsOf(pieces), Finished)
  {
    var p, others := pieces[0], pieces[1..];
    var more := LineOf(others) + rest;
    assert LineOf(pieces) + rest == p.noise + Sending(p) + more;
    PieceIsEvent(p, more);
    assert IsBreak(EventOf(p)) <==> |pieces| == 1;
    if |pieces| == 1 {
      assert EventsOf(pieces) == [EventOf(p)] + [] == [EventOf(p)];
    } else {
      assert forall i | 0 <= i < |others| :: others[i] == pieces[i + 1];
      LineIsEvents(others, rest);
    }
  }

  // What the receiver has got of such a sender.
  lemma {:induction false} SenderIsHeard(packets: seq<Sent>, groups: seq<seq<Event>>, quote: Byte, file: seq<Byte>,
                                         out: seq<Byte>)
    requires AreGroups(groups, packets) && LegalQuote(quote) && Announces(packets, quote)
    requires DataOf(packets) == Quote(quote, file) && out == DeliverAll(Finals(AllEvents(groups))).out
    ensures NothingLost(packets, groups) ==> out == file
    ensures quote + 128 !in file ==> (out == file <==> NothingLost(packets, groups))
  {
    RunDelivers(AllEvents(groups));
    if NothingLost(packets, groups) {
      SenderDelivers(packets, groups, quote, file);
    }
    if quote + 128 !in file {
      SenderDeliversExactly(packets, groups, quote, file);
    }
  }

  // A sender that repeats each packet until it is acknowledged, over a line
  // with noise and damage: the file is in memory if no garbled start takes
  // data along, and, but for the byte that is quoted without need, only then.
  method ReceiveFromSender(r: Receiver, ghost pieces: seq<Piece>, ghost rest: seq<Byte>, ghost packets: seq<Sent>,
                           ghost groups: seq<seq<Event>>, ghost quote: Byte, ghost file: seq<Byte>)
    returns (size: Option<int>)
    requires r.send_parms.Length == SEND_DATA_SIZE && r.line == LineOf(pieces) + rest
    requires pieces != [] && forall i | 0 <= i < |pieces| :: IsPiece(pieces[i])
    requires forall i | 0 <= i < |pieces| :: IsBreak(EventOf(pieces[i])) <==> i == |pieces| - 1
    requires EventsOf(pieces) == AllEvents(groups) && AreGroups(groups, packets)
    requires LegalQuote(quote) && Announces(packets, quote) && DataOf(packets) == Quote(quote, file)
    modifies r, r.send_parms
    ensures r.Valid() && size == Some(|Bytes(r.mem, r.bin_start_address, r.os_data_addr)|)
    ensures NothingLost(packets, groups) ==> Bytes(r.mem, r.bin_start_address, r.os_data_addr) == file
    ensures quote + 128 !in file ==>
            (Bytes(r.mem, r.bin_start_address, r.os_data_addr) == file <==> NothingLost(packets, groups))
  {
    LineIsEvents(pieces, rest);
    ghost var evs, end;
    size, evs, end := r.KRecv();
    SenderIsHeard(packets, groups, quote, file, Bytes(r.mem, r.bin_start_address, r.os_data_addr));
  }
}
