// The receiver itself: global decoder state and its saved copy, the
// send-parameter buffer, and the packet loop.
module KermitReceiver {
  import opened Wrappers
  import opened KermitCodec
  import opened KermitPacket
  import opened KermitSession

  const SEND_DATA_SIZE := 20

  // The bytes of memory in [lo, hi).
  function Bytes(mem: map<int, Byte>, lo: int, hi: int): (r: seq<Byte>)
    requires forall i | lo <= i < hi :: i in mem
    ensures lo <= hi ==> |r| == hi - lo
    decreases hi - lo
  {
    if lo >= hi then [] else Bytes(mem, lo, hi - 1) + [mem[hi - 1]]
  }

  lemma {:induction false} BytesUnchanged(mem: map<int, Byte>, lo: int, hi: int, at: int, c: Byte)
    requires forall i | lo <= i < hi :: i in mem
    requires hi <= at
    ensures Bytes(mem[at := c], lo, hi) == Bytes(mem, lo, hi)
    decreases hi - lo
  {
    if lo < hi {
      BytesUnchanged(mem, lo, hi - 1, at, c);
    }
  }

  class Receiver {
    // The serial line: what getc will still return, and what putc was given.
    var line: seq<Byte>
    var sent: seq<Byte>

    var his_eol: Byte
    var his_pad_count: nat
    var his_pad_char: Byte
    var his_quote: Byte

    var mem: map<int, Byte>
    const bin_start_address: int
    var os_data_addr: int
    var os_data_addr_saved: int
    var k_data_escape: bool
    var k_data_escape_saved: bool

    const send_parms: array<Byte>
    var send_ptr: nat

    var n: nat
    var last_n: int

    ghost predicate Valid()
      reads this, send_parms
    {
      && send_parms.Length == SEND_DATA_SIZE
      && bin_start_address <= os_data_addr_saved && bin_start_address <= os_data_addr
      && (forall i | bin_start_address <= i < os_data_addr :: i in mem)
      && (forall i | bin_start_address <= i < os_data_addr_saved :: i in mem)
    }

    ghost function Cur(): Decoder
      requires Valid()
      reads this, send_parms
    {
      Decoder(k_data_escape, Bytes(mem, bin_start_address, os_data_addr))
    }

    ghost function Saved(): Decoder
      requires Valid()
      reads this, send_parms
    {
      Decoder(k_data_escape_saved, Bytes(mem, bin_start_address, os_data_addr_saved))
    }

    ghost function TheLink(): Link
      reads this
    {
      Link(his_eol, his_pad_count, his_pad_char, his_quote)
    }

    ghost function State(): Rx
      requires Valid()
      reads this, send_parms
    {
      Rx(Cur(), Saved(), last_n, n, TheLink(), sent)
    }

    constructor (start: int, mem: map<int, Byte>, line: seq<Byte>)
      ensures send_parms.Length == SEND_DATA_SIZE && fresh(send_parms)
      ensures this.line == line && this.mem == mem && bin_start_address == start
    {
      bin_start_address := start;
      this.mem := mem;
      this.line := line;
      send_parms := new Byte[SEND_DATA_SIZE];
    }

    method Getc() returns (c: Option<Byte>)
      modifies this`line
      ensures old(line) == [] ==> c == None && line == []
      ensures old(line) != [] ==> c == Some(old(line)[0]) && line == old(line)[1..]
    {
      if line == [] {
        return None;
      }
      c := Some(line[0]);
      line := line[1..];
    }

    method SendPad()
      modifies this`sent
      ensures sent == old(sent) + Pad(TheLink())
    {
      var count := his_pad_count;
      while count > 0
        invariant 0 <= count <= his_pad_count
        invariant sent == old(sent) + Pad(TheLink())[..his_pad_count - count]
      {
        sent := sent + [his_pad_char];
        count := count - 1;
      }
      assert Pad(TheLink())[..his_pad_count] == Pad(TheLink());
    }

    // Builds and sends a reply packet from its body; the packet is a string,
    // so a zero line end ends it early.
    method SendReply(body: seq<Byte>)
      modifies this`sent
      ensures sent == old(sent) + Reply(TheLink(), body)
    {
      SendPad();
      sent := sent + [START_CHAR] + body + [BlockCheck(Sum(body))];
      if his_eol != 0 {
        sent := sent + [his_eol];
      }
      assert sent == old(sent) + Reply(TheLink(), body);
    }

    method SendAck(k: nat)
      modifies this`sent
      ensures sent == old(sent) + Reply(TheLink(), AckBody(k, ACK_TYPE, []))
    {
      SendReply([ToChar(3), ToChar(k), ACK_TYPE]);
      assert [ToChar(3), ToChar(k), ACK_TYPE] == AckBody(k, ACK_TYPE, []);
    }

    method SendNack(k: nat)
      modifies this`sent
      ensures sent == old(sent) + Reply(TheLink(), AckBody(k, NACK_TYPE, []))
    {
      SendReply([ToChar(3), ToChar(k), NACK_TYPE]);
      assert [ToChar(3), ToChar(k), NACK_TYPE] == AckBody(k, NACK_TYPE, []);
    }

    method KDataSave()
      requires Valid()
      modifies this`k_data_escape_saved, this`os_data_addr_saved
      ensures Valid() && State() == old(State()).(saved := old(Cur()))
      ensures os_data_addr_saved == os_data_addr
    {
      k_data_escape_saved := k_data_escape;
      os_data_addr_saved := os_data_addr;
    }

    method KDataRestore()
      requires Valid()
      modifies this`k_data_escape, this`os_data_addr
      ensures Valid() && State() == old(State()).(cur := old(Saved()))
      ensures os_data_addr_saved == os_data_addr
    {
      k_data_escape := k_data_escape_saved;
      os_data_addr := os_data_addr_saved;
    }

    method BinDataChar(c: Byte)
      requires Valid() && os_data_addr_saved <= os_data_addr
      modifies this`mem, this`os_data_addr
      ensures Valid() && os_data_addr_saved <= os_data_addr
      ensures Cur() == old(Cur()).(out := old(Cur()).out + [c]) && Saved() == old(Saved())
    {
      BytesUnchanged(mem, bin_start_address, os_data_addr, os_data_addr, c);
      BytesUnchanged(mem, bin_start_address, os_data_addr_saved, os_data_addr, c);
      mem := mem[os_data_addr := c];
      os_data_addr := os_data_addr + 1;
    }

    method KDataChar(c: Byte)
      requires Valid() && os_data_addr_saved <= os_data_addr
      modifies this`mem, this`os_data_addr, this`k_data_escape
      ensures Valid() && os_data_addr_saved <= os_data_addr
      ensures Cur() == DecodeChar(his_quote, old(Cur()), c) && Saved() == old(Saved())
    {
      if k_data_escape {
        BinDataChar(KTrans(c));
        k_data_escape := false;
      } else if c == his_quote {
        k_data_escape := true;
      } else {
        BinDataChar(c);
      }
    }

    // Takes the sender's parameters from the buffer; parms is what to answer.
    method TakeParms(bytes: nat, ghost data: seq<Byte>) returns (parms: seq<Byte>)
      requires send_parms.Length == SEND_DATA_SIZE && bytes == ParmCount(data)
      requires forall i | 0 <= i < bytes :: send_parms[i] == data[i]
      modifies this`his_eol, this`his_pad_count, this`his_pad_char, this`his_quote
      ensures TheLink() == LinkFrom(data) && parms == ParmReply(data)
    {
      his_eol, his_pad_count, his_pad_char, his_quote := END_CHAR, 0, 0, K_ESCAPE;
      parms := [];
      label parsed: {
        if bytes <= 0 { break parsed; }
        parms := parms + [ToChar(94)];
        assert parms == OurParms[..1];
        if bytes <= 1 { break parsed; }
        parms := parms + [ToChar(1)];
        assert parms == OurParms[..2];
        if bytes <= 2 { break parsed; }
        his_pad_count := UnToChar(send_parms[2]);
        parms := parms + [ToChar(0)];
        assert parms == OurParms[..3];
        if bytes <= 3 { break parsed; }
        his_pad_char := KTrans(send_parms[3]);
        parms := parms + [0x40];
        assert parms == OurParms[..4];
        if bytes <= 4 { break parsed; }
        his_eol := UnToChar(send_parms[4]);
        parms := parms + [ToChar(END_CHAR)];
        assert parms == OurParms[..5];
        if bytes <= 5 { break parsed; }
        his_quote := send_parms[5];
        parms := parms + [0x23];
        assert parms == OurParms[..6];
        if bytes <= 6 { break parsed; }
        parms := parms + [0x4E];
        assert parms == OurParms[..7];
        if bytes <= 7 { break parsed; }
        parms := parms + [0x31];
        assert parms == OurParms[..8];
        if bytes <= 8 { break parsed; }
        parms := parms + [0x4E];
        assert parms == OurParms[..9];
        if bytes <= 9 { break parsed; }
        parms := parms + [ToChar(2), ToChar(0), ToChar(94), ToChar(94)];
        assert parms == OurParms[..13];
      }
    }

    // Cracks the send-initiate packet and acknowledges it with our parameters.
    method HandleSendPacket(k: nat, ghost data: seq<Byte>)
      requires Valid()
      requires send_ptr == if |data| >= 19 then 19 else |data|
      requires forall i | 0 <= i < send_ptr :: send_parms[i] == data[i]
      modifies this`send_ptr, this`his_eol, this`his_pad_count, this`his_pad_char, this`his_quote, this`sent
      ensures Valid() && TheLink() == LinkFrom(data)
      ensures sent == old(sent) + Reply(TheLink(), AckBody(k, ACK_TYPE, ParmReply(data)))
    {
      // the last place of the buffer is ignored
      if send_ptr == SEND_DATA_SIZE - 1 {
        send_ptr := send_ptr - 1;
      }
      var parms := TakeParms(send_ptr, data);
      SendReply([ToChar(|parms| + 3), ToChar(k), ACK_TYPE] + parms);
    }

    // The send buffer holds the start of data.
    ghost predicate Buffered(data: seq<Byte>)
      reads this, send_parms
    {
      && send_parms.Length == SEND_DATA_SIZE
      && send_ptr == (if |data| >= 19 then 19 else |data|)
      && forall i | 0 <= i < send_ptr :: send_parms[i] == data[i]
    }

    // Send-initiate data is kept as is; the last place is overwritten by
    // whatever does not fit.
    method SaveParm(c: Byte, ghost data: seq<Byte>)
      requires Buffered(data)
      modifies this`send_ptr, send_parms
      ensures Buffered(data + [c])
    {
      send_parms[send_ptr] := c;
      send_ptr := send_ptr + 1;
      if send_ptr >= SEND_DATA_SIZE {
        send_ptr := send_ptr - 1;
      }
    }

    // What a data character does, by the type of its packet.
    method TakeData(c: Byte, k_state: Byte, ghost data: seq<Byte>)
      requires Valid() && os_data_addr_saved <= os_data_addr && (k_state == SEND_TYPE ==> Buffered(data))
      modifies this`mem, this`os_data_addr, this`k_data_escape, this`send_ptr, send_parms
      ensures Valid() && os_data_addr_saved <= os_data_addr && Saved() == old(Saved())
      ensures Cur() == if k_state == DATA_TYPE then DecodeChar(his_quote, old(Cur()), c) else old(Cur())
      ensures k_state == SEND_TYPE ==> Buffered(data + [c])
    {
      if k_state == DATA_TYPE {
        KDataChar(c);
      } else if k_state == SEND_TYPE {
        SaveParm(c, data);
      }
    }

    // The data characters of a packet, its block check, and END_CHAR. The
    // characters are acted upon before the check is seen.
    method ReadData(length: int, sum: nat, k_state: Byte) returns (ok: Option<bool>, ghost ev: Event)
      requires Valid() && os_data_addr_saved <= os_data_addr && Buffered([])
      modifies this`line, this`mem, this`os_data_addr, this`k_data_escape, this`send_ptr, send_parms
      ensures Valid() && Saved() == old(Saved())
      ensures ScanData(old(line), n, k_state, length, sum, []) == if ok.Some? then Packet(ev, line) else Silent
      ensures ok.Some? ==> (ok.value <==> ev.Accepted?)
      ensures ok.Some? ==> ev == if ok.value then Accepted(n, k_state, ev.data) else Rejected(n)
      ensures ok == Some(true) && k_state == DATA_TYPE ==> Cur() == Decode(his_quote, old(Cur()), ev.data)
      ensures ok == Some(true) && k_state != DATA_TYPE ==> Cur() == old(Cur())
      ensures ok == Some(true) && k_state == SEND_TYPE ==> Buffered(ev.data)
    {
      var left: int := length;
      var total: nat := sum;
      ghost var data: seq<Byte> := [];
      ev := Garbled;
      while left > 1
        invariant Valid() && os_data_addr_saved <= os_data_addr && Saved() == old(Saved())
        invariant ScanData(old(line), n, k_state, length, sum, []) == ScanData(line, n, k_state, left, total, data)
        invariant Cur() == if k_state == DATA_TYPE then Decode(his_quote, old(Cur()), data) else old(Cur())
        invariant k_state == SEND_TYPE ==> Buffered(data)
        decreases left
      {
        var c :- Getc();
        if IsControl(c) {
          ev := Rejected(n);
          return Some(false), ev;
        }
        total := total + c;
        left := left - 1;
        TakeData(c, k_state, data);
        data := data + [c];
      }
      ok := ReadCheck(total);
      ev := if ok == Some(true) then Accepted(n, k_state, data) else Rejected(n);
    }

    method ReadCheck(sum: nat) returns (ok: Option<bool>)
      modifies this`line
      ensures (forall k: nat, kind: Byte, length: int, data: seq<Byte> | length <= 1 ::
                  ScanData(old(line), k, kind, length, sum, data) ==
                  if ok.None? then Silent
                  else Packet(if ok.value then Accepted(k, kind, data) else Rejected(k), line))
    {
      var check :- Getc();
      if IsControl(check) || check != BlockCheck(sum) {
        return Some(false);
      }
      var end :- Getc();
      return Some(end == END_CHAR);
    }

    // The sequence number decides between rolling back and checkpointing.
    method CheckSequence()
      requires Valid()
      modifies this`last_n, this`k_data_escape, this`k_data_escape_saved, this`os_data_addr, this`os_data_addr_saved
      ensures Valid() && os_data_addr_saved == os_data_addr
      ensures State() == Checkpoint(old(State()), n)
    {
      if n == last_n {
        KDataRestore();
      } else {
        last_n := n;
        KDataSave();
      }
    }

    // One packet behind its START_CHAR. k_state is its type, once accepted.
    method ReadPacket() returns (ok: Option<bool>, k_state: Byte, ghost ev: Event)
      requires Valid()
      modifies this`line, this`n, this`last_n, this`mem, this`os_data_addr, this`os_data_addr_saved,
               this`k_data_escape, this`k_data_escape_saved, this`send_ptr, send_parms
      ensures Valid()
      ensures ScanHeader(old(line)) == if ok.Some? then Packet(ev, line) else Silent
      ensures ok.Some? ==> PacketRead(old(State()), ok.value, k_state, ev)
    {
      send_ptr := 0;
      k_state := 0;
      ev := Garbled;
      var len :- Getc();
      assert State() == old(State());
      if IsControl(len) {
        return Some(false), 0, ev;
      }
      var seqNo :- Getc();
      assert State() == old(State());
      if IsControl(seqNo) {
        return Some(false), 0, ev;
      }
      ok, k_state, ev := ReadSequenced(UnToChar(seqNo), UnToChar(len), len as int + seqNo);
    }

    // The state packet_error leaves: everything as now, rolled back.
    ghost function RolledBack(): Rx
      requires Valid()
      reads this, send_parms
    {
      State().(cur := Saved())
    }

    // From state r the packet ev was read; k_state is its type if it passed.
    ghost predicate PacketRead(r: Rx, passed: bool, k_state: Byte, ev: Event)
      reads this, send_parms
    {
      && Valid()
      && if passed then
           && ev.Accepted? && k_state == ev.kind && (k_state == SEND_TYPE ==> Buffered(ev.data))
           && State() == Receive(r, ev).(link := r.link)
         else
           !ev.Accepted? && RolledBack() == Receive(r, ev)
    }

    // The packet from its sequence number on.
    method ReadSequenced(seqNo: nat, len: nat, sum: nat) returns (ok: Option<bool>, k_state: Byte, ghost ev: Event)
      requires Valid() && Buffered([])
      modifies this`line, this`n, this`last_n, this`mem, this`os_data_addr, this`os_data_addr_saved,
               this`k_data_escape, this`k_data_escape_saved, this`send_ptr, send_parms
      ensures Valid()
      ensures ScanType(old(line), seqNo, len, sum) == if ok.Some? then Packet(ev, line) else Silent
      ensures ok.Some? ==> PacketRead(old(State()), ok.value, k_state, ev)
    {
      ghost var r := Checkpoint(State(), seqNo);
      n := seqNo;
      CheckSequence();
      assert State() == r && r.saved == r.cur;
      ok, k_state, ev := ReadType(len, sum);
      assert State() == r.(cur := Cur());
      assert RolledBack() == r.(cur := r.saved);
    }

    // The packet from its type on, after the sequence number was dealt with.
    method ReadType(len: nat, sum: nat) returns (ok: Option<bool>, k_state: Byte, ghost ev: Event)
      requires Valid() && os_data_addr_saved <= os_data_addr && Buffered([])
      modifies this`line, this`mem, this`os_data_addr, this`k_data_escape, this`send_ptr, send_parms
      ensures Valid() && Saved() == old(Saved())
      ensures ScanType(old(line), n, len, sum) == if ok.Some? then Packet(ev, line) else Silent
      ensures ok.Some? ==> (ok.value <==> ev.Accepted?)
      ensures ok.Some? ==> ev == if ok.value then Accepted(n, k_state, ev.data) else Rejected(n)
      ensures ok == Some(true) && k_state == DATA_TYPE ==> Cur() == Decode(his_quote, old(Cur()), ev.data)
      ensures ok == Some(true) && k_state != DATA_TYPE ==> Cur() == old(Cur())
      ensures ok == Some(true) && k_state == SEND_TYPE ==> Buffered(ev.data)
    {
      k_state := 0;
      ev := Rejected(n);
      k_state :- Getc();
      if IsControl(k_state) {
        return Some(false), 0, ev;
      }
      var length, total: nat := len - 2, sum + k_state;
      if length == -2 {
        var header :- ReadLongHeader(total);
        if header.None? {
          return Some(false), 0, ev;
        }
        length, total := header.value.0, header.value.1;
      }
      ok, ev := ReadData(length, total, k_state);
    }

    // Extended length and its header check: the new length and byte sum.
    method ReadLongHeader(sum: nat) returns (r: Option<Option<(nat, nat)>>)
      modifies this`line
      ensures (forall k: nat, kind: Byte ::
                  ScanLongHeader(old(line), k, kind, sum) ==
                  if r.None? then Silent
                  else if r.value.None? then Packet(Rejected(k), line)
                  else ScanData(line, k, kind, r.value.value.0, r.value.value.1, []))
    {
      var hi :- Getc();
      if IsControl(hi) {
        return Some(None);
      }
      var lo :- Getc();
      if IsControl(lo) {
        return Some(None);
      }
      var total := sum + hi as int + lo;
      var check :- Getc();
      if IsControl(check) || check != BlockCheck(total) {
        return Some(None);
      }
      return Some(Some((UnToChar(hi) * 95 + UnToChar(lo), total + check)));
    }

    // Rolls back and refuses, or acknowledges.
    method AnswerPacket(passed: bool, k_state: Byte, ghost r: Rx, ghost ev: Event)
      requires PacketRead(r, passed, k_state, ev)
      modifies this`k_data_escape, this`os_data_addr, this`send_ptr,
               this`his_eol, this`his_pad_count, this`his_pad_char, this`his_quote, this`sent
      ensures Valid() && State() == Step(r, ev)
    {
      if !passed {
        KDataRestore();
        SendNack(n);
        assert State() == Step(r, ev);
      } else if k_state == SEND_TYPE {
        HandleSendPacket(n, ev.data);
        assert State() == Step(r, ev);
      } else {
        SendAck(n);
      }
    }

    // Skips to the next START_CHAR; false after ETX_CHAR.
    method WaitForStart() returns (r: Option<bool>)
      modifies this`line
      ensures r == None ==> ScanPacket(old(line)) == Silent
      ensures r == Some(false) ==> ScanPacket(old(line)) == Abort
      ensures r == Some(true) ==> ScanPacket(old(line)) == ScanHeader(line)
    {
      while true
        invariant ScanPacket(line) == ScanPacket(old(line))
        decreases |line|
      {
        var c :- Getc();
        if c == START_CHAR {
          return Some(true);
        } else if c == ETX_CHAR {
          return Some(false);
        }
      }
    }

    // One round of the loop: wait for a packet, take it in, and answer it.
    // None: the line went silent; Some(None): ^C; otherwise the packet type
    // if the packet passed.
    method ReceiveOne() returns (r: Option<Option<Option<Byte>>>, ghost ev: Event)
      requires Valid()
      modifies this, send_parms
      ensures r.None? ==> ScanPacket(old(line)) == Silent
      ensures r.Some? && r.value.None? ==> ScanPacket(old(line)) == Abort && Valid() && State() == old(State())
      ensures r.Some? && r.value.Some? ==>
        && ScanPacket(old(line)) == Packet(ev, line)
        && Valid() && State() == Step(old(State()), ev)
        && r.value.value == if ev.Accepted? then Some(ev.kind) else None
    {
      ev := Garbled;
      var started :- WaitForStart();
      assert State() == old(State());
      if !started {
        return Some(None), ev;
      }
      ghost var before := State();
      var passed, k_state;
      passed, k_state, ev := ReadPacket();
      if passed == None {
        return None, ev;
      }
      AnswerPacket(passed.value, k_state, before, ev);
      return Some(Some(if passed.value then Some(k_state) else None)), ev;
    }

    method Reset()
      requires send_parms.Length == SEND_DATA_SIZE
      modifies this
      ensures Valid() && State() == Start == Run([]) && line == old(line)
    {
      his_eol, his_pad_count, his_pad_char, his_quote := END_CHAR, 0, 0, K_ESCAPE;
      sent, k_data_escape, os_data_addr := [], false, bin_start_address;
      k_data_escape_saved, os_data_addr_saved := k_data_escape, os_data_addr;
      n, last_n := 0, -1;
    }

    // One round, in terms of all transmissions of the call: line0 is what the
    // line held at first, evs what has been received since.
    method ReceiveRound(ghost line0: seq<Byte>, ghost evs0: seq<Event>)
      returns (r: Option<Option<Option<Byte>>>, ghost evs: seq<Event>)
      requires Valid() && State() == Run(evs0) && Continuation(line0, evs0, line)
      modifies this, send_parms
      ensures r.None? ==> evs == evs0 && Transmissions(line0) == (evs, LineSilent)
      ensures r.Some? ==> Valid() && State() == Run(evs)
      ensures r == Some(None) ==> Transmissions(line0) == (evs, Aborted)
      ensures r == Some(Some(Some(BREAK_TYPE))) ==> Transmissions(line0) == (evs, Finished)
      ensures r.Some? && r.value.Some? && r.value.value != Some(BREAK_TYPE) ==>
                Continuation(line0, evs, line) && |line| < |old(line)|
    {
      ghost var before := line;
      ScanShortens(line);
      ghost var ev;
      evs := evs0;
      r, ev := ReceiveOne();
      if r.None? || r.value.None? {
        ContinueEnd(line0, evs, before);
        return;
      }
      ContinueOne(line0, evs, before, ev, line);
      OneMore(evs, ev);
      evs := evs + [ev];
    }

    // The memory holds what the last transmissions of the data packets carry.
    lemma {:induction false} Delivered(evs: seq<Event>)
      requires Valid() && State() == Run(evs)
      ensures os_data_addr - bin_start_address == |DeliverAll(Finals(evs)).out|
      ensures Bytes(mem, bin_start_address, os_data_addr) == DeliverAll(Finals(evs)).out
    {
      RunDelivers(evs);
    }

    // Receives a file: None if the line went silent, 0 after an interrupt,
    // otherwise the size; evs are the transmissions, end is how they ended.
    method KRecv() returns (size: Option<int>, ghost evs: seq<Event>, ghost end: End)
      requires send_parms.Length == SEND_DATA_SIZE
      modifies this, send_parms
      ensures Transmissions(old(line)) == (evs, end)
      ensures size == None <==> end == LineSilent
      ensures end == Aborted ==> size == Some(0)
      ensures end != LineSilent ==> Valid() && State() == Run(evs)
      ensures end == Finished ==> size == Some(|DeliverAll(Finals(evs)).out|)
      ensures end == Finished ==> Bytes(mem, bin_start_address, os_data_addr) == DeliverAll(Finals(evs)).out
    {
      ghost var line0 := line;
      Reset();
      ContinueNone(line0);
      var how;
      how, evs := ReceiveAll(line0);
      end := how;
      size := FileSize(how, evs);
    }

    method FileSize(how: End, ghost evs: seq<Event>) returns (size: Option<int>)
      requires how != LineSilent ==> Valid() && State() == Run(evs)
      ensures size == None <==> how == LineSilent
      ensures how == Aborted ==> size == Some(0)
      ensures how == Finished ==> size == Some(|DeliverAll(Finals(evs)).out|)
      ensures how == Finished ==> Bytes(mem, bin_start_address, os_data_addr) == DeliverAll(Finals(evs)).out
    {
      if how == LineSilent {
        return None;
      }
      Delivered(evs);
      size := Some(if how == Aborted then 0 else os_data_addr - bin_start_address);
    }

    // Rounds until the line is silent, the user interrupts, or a BREAK packet
    // ends the transmission.
    method ReceiveAll(ghost line0: seq<Byte>) returns (end: End, ghost evs: seq<Event>)
      requires Valid() && State() == Run([]) && Continuation(line0, [], line)
      modifies this, send_parms
      ensures Transmissions(line0) == (evs, end)
      ensures end != LineSilent ==> Valid() && State() == Run(evs)
    {
      evs := [];
      while true
        invariant Valid() && State() == Run(evs)
        invariant Continuation(line0, evs, line)
        decreases |line|
      {
        var round;
        round, evs := ReceiveRound(line0, evs);
        if round == None {
          return LineSilent, evs;
        }
        if round.value == None {
          return Aborted, evs;
        }
        if round.value.value == Some(BREAK_TYPE) {
          return Finished, evs;
        }
      }
    }
  }

  // After the transmissions evs, none of them a BREAK, rest is left of line.
  ghost predicate Continuation(line: seq<Byte>, evs: seq<Event>, rest: seq<Byte>) {
    Transmissions(line) == (evs + Transmissions(rest).0, Transmissions(rest).1)
  }

  lemma ContinueNone(line: seq<Byte>)
    ensures Continuation(line, [], line)
  {
    assert [] + Transmissions(line).0 == Transmissions(line).0;
  }

  lemma {:induction false} ContinueEnd(line: seq<Byte>, evs: seq<Event>, before: seq<Byte>)
    requires Continuation(line, evs, before) && !ScanPacket(before).Packet?
    ensures Transmissions(line) == (evs, if ScanPacket(before) == Silent then LineSilent else Aborted)
  {
    assert evs + [] == evs;
  }

  lemma {:induction false} ContinueOne(line: seq<Byte>, evs: seq<Event>, before: seq<Byte>, ev: Event, rest: seq<Byte>)
    requires Continuation(line, evs, before) && ScanPacket(before) == Packet(ev, rest)
    ensures if IsBreak(ev) then Transmissions(line) == (evs + [ev], Finished)
            else Continuation(line, evs + [ev], rest)
  {
    if !IsBreak(ev) {
      var (more, end) := Transmissions(rest);
      assert evs + ([ev] + more) == (evs + [ev]) + more;
    }
  }

  // The whole way: a file quoted with the announced character arrives in
  // memory whatever was garbled, rejected or repeated, as long as the data
  // packets that remain carry it.
  method ReceiveFile(r: Receiver, quote: Byte, ghost file: seq<Byte>) returns (size: Option<int>)
    requires r.send_parms.Length == SEND_DATA_SIZE
    requires LegalQuote(quote)
    requires var (evs, end) := Transmissions(r.line);
             && end == Finished && QuotedBy(Finals(evs), quote)
             && Payload(Finals(evs)) == Quote(quote, file)
    modifies r, r.send_parms
    ensures r.Valid() && size == Some(|file|)
    ensures Bytes(r.mem, r.bin_start_address, r.os_data_addr) == file
  {
    ghost var evs, end;
    size, evs, end := r.KRecv();
    FileArrives(evs, quote, file);
    RunDelivers(evs);
  }
}
