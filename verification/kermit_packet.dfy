// Packet level of the Kermit receiver: how the byte stream from the line is
// cut into transmissions, and which of them are accepted.
module KermitPacket {
  import opened Wrappers
  import opened KermitCodec

  // What became of one transmission. Garbled: rejected before its sequence
  // byte was read. Rejected: the sequence number is known, the rest is not
  // trusted. Accepted: both checks passed and END_CHAR arrived.
  datatype Event =
    | Garbled
    | Rejected(seqNo: nat)
    | Accepted(seqNo: nat, kind: Byte, data: seq<Byte>)

  datatype Scan = Silent | Abort | Packet(event: Event, rest: seq<Byte>)

  // Waits for START_CHAR; ETX_CHAR gives up; anything else is line noise.
  function ScanPacket(s: seq<Byte>): Scan {
    if s == [] then Silent
    else if s[0] == START_CHAR then ScanHeader(s[1..])
    else if s[0] == ETX_CHAR then Abort
    else ScanPacket(s[1..])
  }

  function ScanHeader(s: seq<Byte>): Scan {
    if |s| == 0 then Silent
    else if IsControl(s[0]) then Packet(Garbled, s[1..])
    else if |s| == 1 then Silent
    else if IsControl(s[1]) then Packet(Garbled, s[2..])
    else ScanType(s[2..], UnToChar(s[1]), UnToChar(s[0]), s[0] as int + s[1])
  }

  // Behind length and sequence number: the packet type.
  function ScanType(s: seq<Byte>, n: nat, len: nat, sum: nat): Scan {
    if |s| == 0 then Silent
    else if IsControl(s[0]) then Packet(Rejected(n), s[1..])
    else if len == 0 then ScanLongHeader(s[1..], n, s[0], sum + s[0])
    else ScanData(s[1..], n, s[0], len - 2, sum + s[0], [])
  }

  // Extended length: two length characters and a header check.
  function ScanLongHeader(s: seq<Byte>, n: nat, kind: Byte, sum: nat): Scan {
    if |s| == 0 then Silent
    else if IsControl(s[0]) then Packet(Rejected(n), s[1..])
    else if |s| == 1 then Silent
    else if IsControl(s[1]) then Packet(Rejected(n), s[2..])
    else if |s| == 2 then Silent
    else
      var sum' := sum + s[0] + s[1];
      if IsControl(s[2]) || s[2] != BlockCheck(sum') then Packet(Rejected(n), s[3..])
      else
        var length := UnToChar(s[0]) * 95 + UnToChar(s[1]);
        ScanData(s[3..], n, kind, length, sum' + s[2], [])
  }

  function ScanData(s: seq<Byte>, n: nat, kind: Byte, length: int, sum: nat, data: seq<Byte>): Scan {
    if length > 1 then
      if s == [] then Silent
      else if IsControl(s[0]) then Packet(Rejected(n), s[1..])
      else ScanData(s[1..], n, kind, length - 1, sum + s[0], data + [s[0]])
    else if |s| == 0 then Silent
    else if IsControl(s[0]) || s[0] != BlockCheck(sum) then Packet(Rejected(n), s[1..])
    else if |s| == 1 then Silent
    else if s[1] != END_CHAR then Packet(Rejected(n), s[2..])
    else Packet(Accepted(n, kind, data), s[2..])
  }

  // ------------------------------------------------------------------------
  // The packet format, stated without reference to the scanner (Kermit
  // Protocol Manual, 6th edition, packet format and extended-length packets):
  // a body of printable characters between START_CHAR and its block check.

  predicate ShortBody(body: seq<Byte>, n: nat, kind: Byte, data: seq<Byte>) {
    && |body| >= 3 && body[0] != 32
    && UnToChar(body[1]) == n && body[2] == kind && body[3..] == data
    && (UnToChar(body[0]) == |data| + 3 || (data == [] && UnToChar(body[0]) < 3))
  }

  predicate LongBody(body: seq<Byte>, n: nat, kind: Byte, data: seq<Byte>) {
    && |body| >= 6 && body[0] == 32
    && UnToChar(body[1]) == n && body[2] == kind && body[6..] == data
    && body[5] == BlockCheck(Sum(body[..5]))
    && var length := UnToChar(body[3]) * 95 + UnToChar(body[4]);
       length == |data| + 1 || (data == [] && length == 0)
  }

  predicate IsBody(body: seq<Byte>, n: nat, kind: Byte, data: seq<Byte>) {
    && Printable(body)
    && (ShortBody(body, n, kind, data) || LongBody(body, n, kind, data))
  }

  function Frame(body: seq<Byte>): seq<Byte> {
    [START_CHAR] + body + [BlockCheck(Sum(body)), END_CHAR]
  }

  // s is the body, its block check, END_CHAR, and then rest.
  predicate FrameThen(s: seq<Byte>, body: seq<Byte>, rest: seq<Byte>) {
    && |s| >= |body| + 2 && s[..|body|] == body
    && s[|body|] == BlockCheck(Sum(body)) && s[|body| + 1] == END_CHAR
    && s[|body| + 2..] == rest
  }

  predicate IsNoise(s: seq<Byte>) {
    START_CHAR !in s && ETX_CHAR !in s
  }

  lemma BlockCheckIsPrintable(sum: nat)
    ensures !IsControl(BlockCheck(sum))
  {
    ToCharFacts((sum + sum / 64 % 4) % 64);
  }

  predicate Printable(s: seq<Byte>) {
    forall c | c in s :: !IsControl(c)
  }

  // k printable characters, the block check of everything summed, END_CHAR.
  predicate GoodTail(s: seq<Byte>, k: nat, sum: nat) {
    && |s| >= k + 2 && Printable(s[..k])
    && s[k] == BlockCheck(sum + Sum(s[..k])) && s[k + 1] == END_CHAR
  }

  function DataLength(length: int): nat {
    if length > 1 then length - 1 else 0
  }

  predicate IsAccepted(r: Scan) {
    r.Packet? && r.event.Accepted?
  }

  // The data loop accepts exactly the announced number of printable
  // characters, then their check, then END_CHAR.
  lemma {:induction false} ScanDataExactly(s: seq<Byte>, n: nat, kind: Byte, length: int, sum: nat, data: seq<Byte>)
    ensures var k := DataLength(length);
            if GoodTail(s, k, sum) then
              ScanData(s, n, kind, length, sum, data) == Packet(Accepted(n, kind, data + s[..k]), s[k + 2..])
            else
              !IsAccepted(ScanData(s, n, kind, length, sum, data))
    decreases length
  {
    var k := DataLength(length);
    if length <= 1 {
      DataDone(s, n, kind, length, sum, data);
    } else if |s| > 0 && !IsControl(s[0]) {
      ScanDataExactly(s[1..], n, kind, length - 1, sum + s[0], data + [s[0]]);
      GoodTailStep(s, k, sum);
      if GoodTail(s, k, sum) {
        OneMoreData(s, k, data);
      }
    } else if |s| >= k + 2 {
      assert s[0] in s[..k];
    }
  }

  lemma {:induction false} DataDone(s: seq<Byte>, n: nat, kind: Byte, length: int, sum: nat, data: seq<Byte>)
    requires length <= 1
    ensures if GoodTail(s, 0, sum) then
              ScanData(s, n, kind, length, sum, data) == Packet(Accepted(n, kind, data + s[..0]), s[2..])
            else
              !IsAccepted(ScanData(s, n, kind, length, sum, data))
  {
    if |s| >= 2 {
      assert s[..0] == [] && data + s[..0] == data;
      BlockCheckIsPrintable(sum);
    }
  }

  lemma OneMoreData(s: seq<Byte>, k: nat, data: seq<Byte>)
    requires 0 < k && k + 2 <= |s|
    ensures data + [s[0]] + s[1..][..k - 1] == data + s[..k] && s[1..][k - 1 + 2..] == s[k + 2..]
  {
  }

  lemma GoodTailStep(s: seq<Byte>, k: nat, sum: nat)
    requires k > 0 && |s| > 0 && !IsControl(s[0])
    ensures GoodTail(s, k, sum) <==> GoodTail(s[1..], k - 1, sum + s[0])
  {
    if |s| >= k + 2 {
      var t := s[1..][..k - 1];
      assert s[..k] == [s[0]] + t;
      SumAppend([s[0]], t);
      assert [s[0]][..0] == [];
      assert Sum([s[0]]) == s[0];
    }
  }

  lemma SumOf3(s: seq<Byte>)
    requires |s| >= 3
    ensures Sum(s[..3]) == s[0] as int + s[1] + s[2]
  {
    var t := s[..3];
    assert t[..2][..1] == t[..1] && t[..1][..0] == [];
    assert Sum(t[..1]) == s[0];
    assert Sum(t[..2]) == s[0] as int + s[1];
  }

  lemma SumOf6(s: seq<Byte>)
    requires |s| >= 6
    ensures Sum(s[..5]) == s[0] as int + s[1] + s[2] + s[3] + s[4]
    ensures Sum(s[..6]) == Sum(s[..5]) + s[5]
  {
    SumOf3(s);
    assert s[..6][..5] == s[..5] && s[..5][..4] == s[..4] && s[..4][..3] == s[..3];
  }

  // Behind a header of h characters, the rest is a good tail of k data
  // characters exactly when the whole is a frame with h + k body characters.
  lemma TailIsFrameEnd(s: seq<Byte>, h: nat, k: nat)
    requires h + k + 2 <= |s| && Printable(s[..h])
    ensures GoodTail(s[h..], k, Sum(s[..h])) <==>
            Printable(s[..h + k]) && FrameThen(s, s[..h + k], s[h..][k + 2..])
  {
    var body := s[..h + k];
    assert body == s[..h] + s[h..][..k];
    SumAppend(s[..h], s[h..][..k]);
    assert s[h + k] == s[h..][k] && s[h + k + 1] == s[h..][k + 1];
    assert s[h + k + 2..] == s[h..][k + 2..];
    if Printable(body) {
      forall c | c in s[h..][..k] ensures !IsControl(c) {
        assert c in body;
      }
    }
  }

  // Behind three printable characters.
  lemma HeaderStart(s: seq<Byte>)
    requires |s| >= 3 && Printable(s[..3])
    ensures ScanHeader(s) ==
            if s[0] == 32 then ScanLongHeader(s[3..], UnToChar(s[1]), s[2], Sum(s[..3]))
            else ScanData(s[3..], UnToChar(s[1]), s[2], UnToChar(s[0]) - 2, Sum(s[..3]), [])
  {
    SumOf3(s);
    assert s[0] in s[..3] && s[1] in s[..3] && s[2] in s[..3];
    assert s[2..][1..] == s[3..];
  }

  lemma ShortHeader(s: seq<Byte>)
    requires |s| >= 3 && Printable(s[..3]) && s[0] != 32
    ensures ScanHeader(s) == ScanData(s[3..], UnToChar(s[1]), s[2], UnToChar(s[0]) - 2, Sum(s[..3]), [])
  {
    HeaderStart(s);
  }

  // The extended length and its check.
  lemma {:induction false} LongHeaderEnd(s: seq<Byte>, n: nat, kind: Byte, sum: nat)
    requires |s| >= 3 && Printable(s[..3]) && s[2] == BlockCheck(sum + s[0] + s[1])
    ensures ScanLongHeader(s, n, kind, sum) ==
            ScanData(s[3..], n, kind, UnToChar(s[0]) * 95 + UnToChar(s[1]), sum + s[0] + s[1] + s[2], [])
  {
    assert s[0] in s[..3] && s[1] in s[..3] && s[2] in s[..3];
  }

  lemma PrintablePart(s: seq<Byte>, a: nat, b: nat)
    requires a <= b <= |s| && Printable(s[..b])
    ensures Printable(s[..a]) && Printable(s[a..][..b - a])
  {
    assert forall c | c in s[..a] :: c in s[..b];
    assert forall c | c in s[a..][..b - a] :: c in s[..b];
  }

  lemma LongHeader(s: seq<Byte>)
    requires |s| >= 6 && Printable(s[..6]) && s[0] == 32 && s[5] == BlockCheck(Sum(s[..5]))
    ensures ScanHeader(s) == ScanData(s[6..], UnToChar(s[1]), s[2], LongLength(s), Sum(s[..6]), [])
  {
    PrintablePart(s, 3, 6);
    HeaderStart(s);
    SumOf3(s);
    SumOf6(s);
    LongHeaderEnd(s[3..], UnToChar(s[1]), s[2], Sum(s[..3]));
    assert s[3..][3..] == s[6..];
  }

  function LongLength(s: seq<Byte>): nat
    requires |s| >= 5
  {
    UnToChar(s[3]) * 95 + UnToChar(s[4])
  }

  // If the scanner accepts, then through one of those two headers.
  lemma AcceptedHeader(s: seq<Byte>)
    requires IsAccepted(ScanHeader(s))
    ensures |s| >= 3 && Printable(s[..3])
    ensures s[0] == 32 ==> |s| >= 6 && Printable(s[..6]) && s[5] == BlockCheck(Sum(s[..5]))
  {
    if s[0] == 32 {
      SumOf6(s);
    }
  }

  lemma AcceptedShort(s: seq<Byte>, n: nat, kind: Byte, data: seq<Byte>, rest: seq<Byte>)
    returns (body: seq<Byte>)
    requires ScanHeader(s) == Packet(Accepted(n, kind, data), rest) && s[0] != 32
    ensures Printable(body) && ShortBody(body, n, kind, data) && FrameThen(s, body, rest)
  {
    AcceptedHeader(s);
    ShortHeader(s);
    var length := UnToChar(s[0]) - 2;
    var k := DataLength(length);
    ScanDataExactly(s[3..], UnToChar(s[1]), s[2], length, Sum(s[..3]), []);
    assert GoodTail(s[3..], k, Sum(s[..3]));
    TailIsFrameEnd(s, 3, k);
    body := s[..3 + k];
    assert body[3..] == s[3..][..k] == data;
  }

  lemma AcceptedLong(s: seq<Byte>, n: nat, kind: Byte, data: seq<Byte>, rest: seq<Byte>)
    returns (body: seq<Byte>)
    requires ScanHeader(s) == Packet(Accepted(n, kind, data), rest) && s[0] == 32
    ensures Printable(body) && LongBody(body, n, kind, data) && FrameThen(s, body, rest)
  {
    AcceptedHeader(s);
    LongHeader(s);
    var k := DataLength(LongLength(s));
    ScanDataExactly(s[6..], UnToChar(s[1]), s[2], LongLength(s), Sum(s[..6]), []);
    assert GoodTail(s[6..], k, Sum(s[..6]));
    TailIsFrameEnd(s, 6, k);
    body := s[..6 + k];
    assert body[..5] == s[..5] && body[6..] == s[6..][..k] == data;
  }

  // Accepted means well-formed: whatever the scanner accepts behind a
  // START_CHAR is a body, its block check, and END_CHAR.
  lemma AcceptedIsFrame(s: seq<Byte>, n: nat, kind: Byte, data: seq<Byte>, rest: seq<Byte>)
    returns (body: seq<Byte>)
    requires ScanHeader(s) == Packet(Accepted(n, kind, data), rest)
    ensures IsBody(body, n, kind, data) && FrameThen(s, body, rest)
  {
    if s[0] == 32 {
      body := AcceptedLong(s, n, kind, data, rest);
    } else {
      body := AcceptedShort(s, n, kind, data, rest);
    }
  }

  lemma FrameSplits(s: seq<Byte>, body: seq<Byte>, h: nat, rest: seq<Byte>)
    requires Printable(body) && FrameThen(s, body, rest) && h <= |body|
    ensures s[..h] == body[..h] && Printable(s[..h]) && s[h..][..|body| - h] == body[h..]
    ensures GoodTail(s[h..], |body| - h, Sum(s[..h])) && s[h..][|body| - h + 2..] == rest
  {
    assert s[..h] == body[..h];
    assert forall c | c in body[..h] :: c in body;
    TailIsFrameEnd(s, h, |body| - h);
    assert s[h..][|body| - h + 2..] == s[|body| + 2..];
  }

  lemma ShortIsAccepted(s: seq<Byte>, body: seq<Byte>, n: nat, kind: Byte, data: seq<Byte>, rest: seq<Byte>)
    requires Printable(body) && ShortBody(body, n, kind, data) && FrameThen(s, body, rest)
    ensures ScanHeader(s) == Packet(Accepted(n, kind, data), rest)
  {
    FrameSplits(s, body, 3, rest);
    ShortHeader(s);
    assert body[0] in body;
    assert DataLength(UnToChar(s[0]) - 2) == |data|;
    assert [] + s[3..][..|data|] == data;
    ScanDataExactly(s[3..], n, kind, UnToChar(s[0]) - 2, Sum(s[..3]), []);
  }

  lemma LongIsAccepted(s: seq<Byte>, body: seq<Byte>, n: nat, kind: Byte, data: seq<Byte>, rest: seq<Byte>)
    requires Printable(body) && LongBody(body, n, kind, data) && FrameThen(s, body, rest)
    ensures ScanHeader(s) == Packet(Accepted(n, kind, data), rest)
  {
    FrameSplits(s, body, 6, rest);
    assert s[..5] == body[..5];
    LongHeader(s);
    assert DataLength(LongLength(s)) == |data|;
    assert [] + s[6..][..|data|] == data;
    ScanDataExactly(s[6..], n, kind, LongLength(s), Sum(s[..6]), []);
  }

  // Well-formed means accepted, with exactly its own fields, and the scan
  // resumes right behind the frame.
  lemma FrameIsAccepted(s: seq<Byte>, body: seq<Byte>, n: nat, kind: Byte, data: seq<Byte>, rest: seq<Byte>)
    requires IsBody(body, n, kind, data) && FrameThen(s, body, rest)
    ensures ScanHeader(s) == Packet(Accepted(n, kind, data), rest)
  {
    if body[0] == 32 {
      LongIsAccepted(s, body, n, kind, data, rest);
    } else {
      ShortIsAccepted(s, body, n, kind, data, rest);
    }
  }

  lemma {:induction false} NoiseIsSkipped(noise: seq<Byte>, s: seq<Byte>)
    requires IsNoise(noise)
    ensures ScanPacket(noise + [START_CHAR] + s) == ScanHeader(s)
  {
    var all := noise + [START_CHAR] + s;
    if noise == [] {
      assert all[1..] == s;
    } else {
      assert all[1..] == noise[1..] + [START_CHAR] + s;
      assert all[0] == noise[0] && noise[0] in noise;
      NoiseIsSkipped(noise[1..], s);
    }
  }

  // A packet a sender would build: short form, up to 91 data characters.
  function ShortFrame(n: nat, kind: Byte, data: seq<Byte>): seq<Byte> {
    Frame([ToChar(|data| + 3), ToChar(n), kind] + data)
  }

  lemma {:induction false} ShortFrameIsAccepted(noise: seq<Byte>, n: nat, kind: Byte, data: seq<Byte>, rest: seq<Byte>)
    requires IsNoise(noise) && n <= 223 && |data| <= 91 && !IsControl(kind)
    requires forall c | c in data :: !IsControl(c)
    ensures ScanPacket(noise + ShortFrame(n, kind, data) + rest) == Packet(Accepted(n, kind, data), rest)
  {
    ToCharFacts(n);
    ToCharFacts(|data| + 3);
    var body := [ToChar(|data| + 3), ToChar(n), kind] + data;
    assert body[3..] == data;
    assert body[0] != 32;
    assert ShortBody(body, n, kind, data);
    var s := body + [BlockCheck(Sum(body)), END_CHAR] + rest;
    assert noise + ShortFrame(n, kind, data) + rest == noise + [START_CHAR] + s;
    NoiseIsSkipped(noise, s);
    assert s[..|body|] == body;
    FrameIsAccepted(s, body, n, kind, data, rest);
  }
}
