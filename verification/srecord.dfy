// Memory upload as Motorola S-records: S3 records of at most 16 bytes.
module SRecord {
  import Arithmetic
  import opened Wrappers

  const SREC_BYTES_PER_RECORD: nat := 16
  const RECORD_BUFFER: nat := 48  // 2 * 16 + 16
  const SREC3_START: string := "S0030000FC\n"
  const SREC3_END: string := "S70500000000FA\n"

  // ------------------------------------------------------------------------
  // Hexadecimal text.

  function HexDigit(n: nat): (c: char)
    requires n < 16
  {
    if n < 10 then ('0' as int + n) as char else ('A' as int + (n - 10)) as char
  }

  function DigitValue(c: char): Option<nat> {
    if '0' <= c <= '9' then Some(c as int - '0' as int)
    else if 'A' <= c <= 'F' then Some(c as int - 'A' as int + 10)
    else None
  }

  function HexByte(b: Byte): (s: string)
    ensures |s| == 2
  {
    [HexDigit(b / 16), HexDigit(b % 16)]
  }

  function Hex(bytes: seq<Byte>): (s: string)
    ensures |s| == 2 * |bytes|
  {
    if bytes == [] then [] else Hex(bytes[..|bytes| - 1]) + HexByte(bytes[|bytes| - 1])
  }

  function Unhex(s: string): Option<seq<Byte>> {
    if s == [] then Some([])
    else if |s| == 1 then None
    else
      var rest := Unhex(s[..|s| - 2]);
      var hi, lo := DigitValue(s[|s| - 2]), DigitValue(s[|s| - 1]);
      if rest.None? || hi.None? || lo.None? || hi.value >= 16 || lo.value >= 16 then None
      else Some(rest.value + [hi.value * 16 + lo.value])
  }

  lemma DigitRoundTrip(n: nat)
    requires n < 16
    ensures DigitValue(HexDigit(n)) == Some(n)
  {
  }

  lemma {:induction false} UnhexMore(s: string, init: seq<Byte>, b: Byte)
    requires Unhex(s) == Some(init)
    ensures Unhex(s + HexByte(b)) == Some(init + [b])
  {
    DigitRoundTrip(b / 16);
    DigitRoundTrip(b % 16);
    assert (s + HexByte(b))[..|s|] == s;
  }

  lemma {:induction false} HexOneMore(bytes: seq<Byte>, c: Byte)
    ensures Hex(bytes + [c]) == Hex(bytes) + HexByte(c)
  {
    assert (bytes + [c])[..|bytes|] == bytes;
  }

  lemma {:induction false} UnhexStep(init: seq<Byte>, b: Byte)
    requires Unhex(Hex(init)) == Some(init)
    ensures Unhex(Hex(init + [b])) == Some(init + [b])
  {
    HexOneMore(init, b);
    UnhexMore(Hex(init), init, b);
  }

  lemma {:induction false} UnhexHex(bytes: seq<Byte>)
    ensures Unhex(Hex(bytes)) == Some(bytes)
  {
    if bytes != [] {
      var init, last := bytes[..|bytes| - 1], bytes[|bytes| - 1];
      UnhexHex(init);
      UnhexStep(init, last);
      assert bytes == init + [last];
    }
  }

  // ------------------------------------------------------------------------
  // Records.

  type Address = a: nat | a < 0x1_0000_0000

  // Most significant byte first.
  function AddressBytes(address: Address): (s: seq<Byte>)
    ensures |s| == 4
  {
    [address / 0x100_0000 % 256, address / 0x1_0000 % 256, address / 256 % 256, address % 256]
  }

  function AddressOf(s: seq<Byte>): Address
    requires |s| == 4
  {
    s[0] as int * 0x100_0000 + s[1] as int * 0x1_0000 + s[2] as int * 256 + s[3] as int
  }

  lemma AddressRoundTrip(address: Address)
    ensures AddressOf(AddressBytes(address)) == address
  {
    var q1 := address / 256;
    var q2 := q1 / 256;
    assert address / 0x1_0000 == q2 && address / 0x100_0000 == q2 / 256 < 256;
  }

  function Checksum(sum: nat): Byte {
    255 - sum % 256  // ~sum & 0xff
  }

  // Length, address and data; the length counts address, data and checksum.
  function Counted(address: Address, data: seq<Byte>): seq<Byte>
    requires |data| <= SREC_BYTES_PER_RECORD
  {
    [4 + |data| + 1] + AddressBytes(address) + data
  }

  function Record(address: Address, data: seq<Byte>): string
    requires |data| <= SREC_BYTES_PER_RECORD
  {
    var body := Counted(address, data);
    "S3" + Hex(body + [Checksum(Sum(body))]) + "\n"
  }

  // The format: type, hexadecimal bytes, a length that fits, and bytes that
  // sum up to 0xFF modulo 256.
  datatype Data = Data(address: Address, data: seq<Byte>)

  function Decode(record: string): Option<Data> {
    if |record| < 3 || record[..2] != "S3" || record[|record| - 1] != '\n' then None
    else
      var bytes := Unhex(record[2..|record| - 1]);
      if bytes.None? || |bytes.value| < 6 then None
      else if bytes.value[0] != |bytes.value| - 1 || Sum(bytes.value) % 256 != 255 then None
      else Some(Data(AddressOf(bytes.value[1..5]), bytes.value[5..|bytes.value| - 1]))
  }

  lemma {:induction false} ChecksumCompletes(body: seq<Byte>)
    ensures Sum(body + [Checksum(Sum(body))]) % 256 == 255
  {
    SumAppend(body, [Checksum(Sum(body))]);
    assert [Checksum(Sum(body))][..0] == [];
  }

  // Each record decodes to the bytes it was made of, and fits its buffer with
  // the terminating NUL.
  lemma RecordDecodes(address: Address, data: seq<Byte>)
    requires |data| <= SREC_BYTES_PER_RECORD
    ensures Decode(Record(address, data)) == Some(Data(address, data))
    ensures |Record(address, data)| + 1 <= RECORD_BUFFER
  {
    var body := Counted(address, data);
    var bytes := body + [Checksum(Sum(body))];
    var record := Record(address, data);
    UnhexHex(bytes);
    ChecksumCompletes(body);
    AddressRoundTrip(address);
    assert record[..2] == "S3" && record[2..|record| - 1] == Hex(bytes);
    assert bytes[1..5] == AddressBytes(address);
    assert bytes[5..|bytes| - 1] == data;
  }

  // ------------------------------------------------------------------------
  // A whole upload. Addresses wrap around at 32 bits.

  // The address n bytes further.
  function Advance(address: Address, n: nat): Address {
    if n == 0 then address
    else
      var a := Advance(address, n - 1);
      if a == 0xFFFF_FFFF then 0 else a + 1
  }

  lemma {:induction false} AdvanceIsSum(address: Address, n: nat)
    ensures Advance(address, n) == (address + n) % 0x1_0000_0000
  {
    if n > 0 {
      AdvanceIsSum(address, n - 1);
      NextRemainder(address + n - 1);
    }
  }

  lemma NextRemainder(x: nat)
    ensures (x + 1) % 0x1_0000_0000 == if x % 0x1_0000_0000 == 0xFFFF_FFFF then 0 else x % 0x1_0000_0000 + 1
  {
    var q, r := x / 0x1_0000_0000, x % 0x1_0000_0000;
    if r == 0xFFFF_FFFF {
      Arithmetic.RemainderIs(x + 1, q + 1, 0);
    } else {
      Arithmetic.RemainderIs(x + 1, q, r + 1);
    }
  }

  function Bytes(mem: Address -> Byte, address: Address, n: nat): (s: seq<Byte>)
    ensures |s| == n
  {
    if n == 0 then [] else Bytes(mem, address, n - 1) + [mem(Advance(address, n - 1))]
  }

  function Piece(count: nat): nat {
    if count < SREC_BYTES_PER_RECORD then count else SREC_BYTES_PER_RECORD
  }

  function Records(mem: Address -> Byte, address: Address, count: nat): seq<string>
    decreases count
  {
    if count == 0 then []
    else
      var n := Piece(count);
      [Record(address, Bytes(mem, address, n))] + Records(mem, Advance(address, n), count - n)
  }

  function Store(memory: map<Address, Byte>, address: Address, data: seq<Byte>): map<Address, Byte> {
    if data == [] then memory
    else Store(memory, address, data[..|data| - 1])[Advance(address, |data| - 1) := data[|data| - 1]]
  }

  // What a receiver of the records has in memory afterwards.
  function Load(memory: map<Address, Byte>, records: seq<string>): map<Address, Byte>
    decreases |records|
  {
    if records == [] then memory
    else
      var d := Decode(records[0]);
      Load(if d.Some? then Store(memory, d.value.address, d.value.data) else memory, records[1..])
  }

  lemma {:induction false} AdvanceTwice(address: Address, m: nat, n: nat)
    ensures Advance(Advance(address, m), n) == Advance(address, m + n)
  {
    if n > 0 {
      AdvanceTwice(address, m, n - 1);
    }
  }

  lemma {:induction false} BytesAppend(mem: Address -> Byte, address: Address, m: nat, n: nat)
    ensures Bytes(mem, address, m + n) == Bytes(mem, address, m) + Bytes(mem, Advance(address, m), n)
  {
    if n > 0 {
      BytesAppend(mem, address, m, n - 1);
      AdvanceTwice(address, m, n - 1);
    }
  }

  lemma {:induction false} StoreAppend(memory: map<Address, Byte>, address: Address, x: seq<Byte>, y: seq<Byte>)
    ensures Store(Store(memory, address, x), Advance(address, |x|), y) == Store(memory, address, x + y)
  {
    if y == [] {
      assert x + y == x;
    } else {
      StoreAppend(memory, address, x, y[..|y| - 1]);
      assert (x + y)[..|x + y| - 1] == x + y[..|y| - 1];
      AdvanceTwice(address, |x|, |y| - 1);
    }
  }

  lemma {:induction false} LoadFirst(memory: map<Address, Byte>, address: Address, data: seq<Byte>, rest: seq<string>)
    requires |data| <= SREC_BYTES_PER_RECORD
    ensures Load(memory, [Record(address, data)] + rest) == Load(Store(memory, address, data), rest)
  {
    RecordDecodes(address, data);
    assert ([Record(address, data)] + rest)[1..] == rest;
  }

  lemma StoreInTwo(memory: map<Address, Byte>, mem: Address -> Byte, address: Address, m: nat, n: nat)
    ensures Store(Store(memory, address, Bytes(mem, address, m)), Advance(address, m),
                  Bytes(mem, Advance(address, m), n))
            == Store(memory, address, Bytes(mem, address, m + n))
  {
    BytesAppend(mem, address, m, n);
    StoreAppend(memory, address, Bytes(mem, address, m), Bytes(mem, Advance(address, m), n));
  }

  // What a record and the rest of an upload load, if the rest loads as a copy.
  lemma {:induction false} LoadMore(memory: map<Address, Byte>, mem: Address -> Byte, address: Address, n: nat,
                                    rest: nat,
                 records: seq<string>, bytes: seq<Byte>)
    requires n <= SREC_BYTES_PER_RECORD && bytes == Bytes(mem, address, n)
    requires Load(Store(memory, address, bytes), records)
             == Store(Store(memory, address, bytes), Advance(address, n), Bytes(mem, Advance(address, n), rest))
    ensures Load(memory, [Record(address, bytes)] + records) == Store(memory, address, Bytes(mem, address, n + rest))
  {
    LoadFirst(memory, address, bytes, records);
    StoreInTwo(memory, mem, address, n, rest);
  }

  // All records together load as one copy of the memory.
  lemma {:induction false} RecordsLoad(memory: map<Address, Byte>, mem: Address -> Byte, address: Address, count: nat)
    ensures Load(memory, Records(mem, address, count)) == Store(memory, address, Bytes(mem, address, count))
    decreases count
  {
    if count > 0 {
      var n := Piece(count);
      var bytes, next := Bytes(mem, address, n), Advance(address, n);
      var rest: nat := count - n;
      RecordsLoad(Store(memory, address, bytes), mem, next, rest);
      LoadMore(memory, mem, address, n, rest, Records(mem, next, rest), bytes);
      assert n + rest == count;
      assert Records(mem, address, count) == [Record(address, bytes)] + Records(mem, next, rest);
    }
  }

  // Distance from one address up to another, around the address space.
  function Distance(address: Address, a: Address): (d: nat)
    ensures d < 0x1_0000_0000
  {
    if address <= a then a - address else a + 0x1_0000_0000 - address
  }

  lemma {:induction false} DistanceIs(address: Address, a: Address, n: nat)
    ensures Advance(address, n) == a ==> Distance(address, a) <= n
    ensures Distance(address, a) == n ==> Advance(address, n) == a
  {
    AdvanceIsSum(address, n);
  }

  lemma {:induction false} StoreLast(memory: map<Address, Byte>, mem: Address -> Byte, address: Address, n: nat)
    ensures Store(memory, address, Bytes(mem, address, n + 1))
            == Store(memory, address, Bytes(mem, address, n))[Advance(address, n) := mem(Advance(address, n))]
  {
    assert Bytes(mem, address, n + 1)[..n] == Bytes(mem, address, n);
  }

  // What is at an address after a copy: the byte copied if it is inside, else
  // what was there.
  ghost predicate CopiedAt(after: map<Address, Byte>, memory: map<Address, Byte>, mem: Address -> Byte,
                           inside: bool, a: Address) {
    if inside then a in after && after[a] == mem(a)
    else (a in after <==> a in memory) && (a in memory ==> after[a] == memory[a])
  }

  // Exactly the count addresses from `address` on are copied.
  lemma {:induction false} CopiedExactly(memory: map<Address, Byte>, mem: Address -> Byte, address: Address,
                                         count: nat, a: Address)
    ensures CopiedAt(Store(memory, address, Bytes(mem, address, count)), memory, mem, Distance(address, a) < count, a)
    decreases count
  {
    if count > 0 {
      var n := count - 1;
      CopiedExactly(memory, mem, address, n, a);
      DistanceIs(address, a, n);
      StoreLast(memory, mem, address, n);
      OneMoreCopied(memory, mem, Store(memory, address, Bytes(mem, address, n)), Advance(address, n),
                    Distance(address, a), n, a);
    }
  }

  lemma OneMoreCopied(memory: map<Address, Byte>, mem: Address -> Byte, before: map<Address, Byte>, last: Address,
                      d: nat, n: nat, a: Address)
    requires CopiedAt(before, memory, mem, d < n, a) && (last == a ==> d <= n) && (d == n ==> last == a)
    ensures CopiedAt(before[last := mem(last)], memory, mem, d < n + 1, a)
  {
  }

  // ------------------------------------------------------------------------

  // Builds a record from the collected digits, the checksum of the data bytes
  // so far, and the address.
  method BuildRecord(data: array<char>, reclen: nat, address: Address, checksum0: nat, ghost pending: seq<Byte>)
    returns (record: string)
    requires data.Length == 2 * SREC_BYTES_PER_RECORD + 1 && reclen <= SREC_BYTES_PER_RECORD
    requires |pending| == reclen && data[..2 * reclen] == Hex(pending) && checksum0 == Sum(pending)
    ensures record == Record(address, pending)
  {
    var length := 4 + reclen + 1;
    var checksum := checksum0;
    checksum := checksum + length % 256 + length / 256 % 256;
    var bytes := AddressBytes(address);
    checksum := checksum + bytes[3] + bytes[2] + bytes[1] + bytes[0];
    CountedSum(address, pending);
    OneByteLength(length);
    assert checksum == Sum(Counted(address, pending));
    checksum := 255 - checksum % 256;
    ghost var text := data[..2 * reclen];
    RecordText(address, pending, checksum, text);
    record := "S3" + (HexByte(length) + Hex(bytes) + data[..2 * reclen] + HexByte(checksum)) + "\n";
  }

  lemma OneByteLength(length: nat)
    requires length < 256
    ensures length % 256 + length / 256 % 256 == length
  {
  }

  lemma {:induction false} RecordText(address: Address, data: seq<Byte>, checksum: Byte, text: string)
    requires |data| <= SREC_BYTES_PER_RECORD && text == Hex(data)
    requires checksum == 255 - Sum(Counted(address, data)) % 256
    ensures "S3" + (HexByte(4 + |data| + 1) + Hex(AddressBytes(address)) + text + HexByte(checksum)) + "\n"
            == Record(address, data)
  {
    CountedHex(address, data, checksum);
  }

  lemma {:induction false} HexAppend(a: seq<Byte>, b: seq<Byte>)
    ensures Hex(a + b) == Hex(a) + Hex(b)
    decreases |b|
  {
    if b == [] {
      assert a + b == a;
    } else {
      HexAppend(a, b[..|b| - 1]);
      assert (a + b)[..|a + b| - 1] == a + b[..|b| - 1];
    }
  }

  lemma HexOne(b: Byte)
    ensures Hex([b]) == HexByte(b) && Sum([b]) == b
  {
    assert [b][..0] == [];
  }

  lemma {:induction false} SumOfFour(b: seq<Byte>)
    requires |b| == 4
    ensures Sum(b) == b[0] as int + b[1] as int + b[2] as int + b[3] as int
  {
    SumAppend(b[..1], b[1..2]);
    SumAppend(b[..2], b[2..3]);
    SumAppend(b[..3], b[3..]);
    HexOne(b[0]);
    HexOne(b[1]);
    HexOne(b[2]);
    HexOne(b[3]);
    assert b[..1] == [b[0]] && b[1..2] == [b[1]] && b[2..3] == [b[2]] && b[3..] == [b[3]];
    assert b[..1] + b[1..2] == b[..2] && b[..2] + b[2..3] == b[..3] && b[..3] + b[3..] == b;
  }

  lemma {:induction false} CountedSum(address: Address, data: seq<Byte>)
    requires |data| <= SREC_BYTES_PER_RECORD
    ensures var b := AddressBytes(address);
            Sum(Counted(address, data)) ==
            Sum(data) + (4 + |data| + 1) + b[3] as int + b[2] as int + b[1] as int + b[0] as int
  {
    var head, b := [4 + |data| + 1], AddressBytes(address);
    SumAppend(head + b, data);
    SumAppend(head, b);
    HexOne(4 + |data| + 1);
    SumOfFour(b);
  }

  lemma {:induction false} CountedHex(address: Address, data: seq<Byte>, checksum: Byte)
    requires |data| <= SREC_BYTES_PER_RECORD
    ensures Hex(Counted(address, data) + [checksum])
            == HexByte(4 + |data| + 1) + Hex(AddressBytes(address)) + Hex(data) + HexByte(checksum)
  {
    HexOne(4 + |data| + 1);
    HexOne(checksum);
    HexOfFour([4 + |data| + 1], AddressBytes(address), data, [checksum]);
  }

  lemma {:induction false} HexOfFour(a: seq<Byte>, b: seq<Byte>, c: seq<Byte>, d: seq<Byte>)
    ensures Hex(a + b + c + d) == Hex(a) + Hex(b) + Hex(c) + Hex(d)
  {
    HexAppend(a + b + c, d);
    HexAppend(a + b, c);
    HexAppend(a, b);
  }

  // ------------------------------------------------------------------------
  // The records as the format prints them.

  // %02X and %08lX: as many digits as the width says, the last one first.
  function Padded(n: nat, width: nat): (s: string)
    ensures |s| == width
  {
    if width == 0 then "" else Padded(n / 16, width - 1) + ["0123456789ABCDEF"[n % 16]]
  }

  lemma {:induction false} HexByteIsPadded(b: Byte)
    ensures HexByte(b) == Padded(b, 2)
  {
    DigitIs(b / 16);
    DigitIs(b % 16);
    PaddedOne(b / 16);
    assert Padded(b, 2) == Padded(b / 16, 1) + ["0123456789ABCDEF"[b % 16]];
  }

  lemma DigitIs(n: nat)
    requires n < 16
    ensures HexDigit(n) == "0123456789ABCDEF"[n]
  {
  }

  lemma {:induction false} PaddedOne(n: nat)
    requires n < 16
    ensures Padded(n, 1) == ["0123456789ABCDEF"[n]]
  {
    assert Padded(n / 16, 0) == "";
  }

  lemma {:induction false} PaddedTwo(n: nat, width: nat)
    ensures Padded(n, width + 2) == Padded(n / 256, width) + HexByte(n % 256)
  {
    DigitIs(n % 256 / 16);
    DigitIs(n % 256 % 16);
    assert n / 16 / 16 == n / 256 && n / 16 % 16 == n % 256 / 16 && n % 16 == n % 256 % 16;
    assert Padded(n, width + 2) == Padded(n / 16, width + 1) + ["0123456789ABCDEF"[n % 16]];
  }

  lemma {:induction false} AddressIsPadded(address: Address)
    ensures Hex(AddressBytes(address)) == Padded(address, 8)
  {
    var b, q := AddressBytes(address), address / 256;
    PaddedTwo(address, 6);
    PaddedTwo(q, 4);
    PaddedTwo(q / 256, 2);
    PaddedTwo(q / 256 / 256, 0);
    assert Padded(q / 256 / 256 / 256, 0) == "";
    HexOne(b[0]);
    HexOne(b[1]);
    HexOne(b[2]);
    HexOne(b[3]);
    HexOfFour([b[0]], [b[1]], [b[2]], [b[3]]);
    assert [b[0]] + [b[1]] + [b[2]] + [b[3]] == b;
    assert q / 256 == address / 0x1_0000 && q / 256 / 256 == address / 0x100_0000;
  }

  lemma {:induction false} HexAt(bytes: seq<Byte>, i: nat)
    requires i < |bytes|
    ensures Hex(bytes)[2 * i..2 * i + 2] == HexByte(bytes[i])
  {
    if i < |bytes| - 1 {
      HexAt(bytes[..|bytes| - 1], i);
    }
  }

  lemma RecordSlices(r: string, length: string, digits: string, text: string, last: string)
    requires r == "S3" + (length + digits + text + last) + "\n" && |length| == 2 && |digits| == 8 && |last| == 2
    ensures |r| == 15 + |text| && r[..2] == "S3" && r[14 + |text|] == '\n'
    ensures r[2..4] == length && r[4..12] == digits && r[12..12 + |text|] == text
  {
  }

  // Where the fields of a record stand: the length, the address, every byte
  // of the data, and the line end behind the checksum.
  lemma {:induction false} RecordFields(address: Address, data: seq<Byte>, i: nat)
    requires |data| <= SREC_BYTES_PER_RECORD
    ensures var r := Record(address, data);
            && |r| == 15 + 2 * |data| && r[..2] == "S3" && r[14 + 2 * |data|] == '\n'
            && r[2..4] == Padded(|data| + 5, 2) && r[4..12] == Padded(address, 8)
            && (i < |data| ==> r[12 + 2 * i..14 + 2 * i] == Padded(data[i], 2))
  {
    var r, text, checksum := Record(address, data), Hex(data), Checksum(Sum(Counted(address, data)));
    RecordText(address, data, checksum, text);
    RecordSlices(r, HexByte(4 + |data| + 1), Hex(AddressBytes(address)), text, HexByte(checksum));
    AddressIsPadded(address);
    HexByteIsPadded(4 + |data| + 1);
    if i < |data| {
      HexAt(data, i);
      HexByteIsPadded(data[i]);
      SliceOfSlice(r, text, 2 * i);
    }
  }

  lemma SliceOfSlice(r: string, text: string, i: nat)
    requires i + 2 <= |text| && |r| == 15 + |text| && r[12..12 + |text|] == text
    ensures r[12 + i..14 + i] == text[i..i + 2]
  {
    assert r[12 + i] == r[12..12 + |text|][i];
    assert r[13 + i] == r[12..12 + |text|][i + 1];
  }

  // Records are cut every 16 bytes.
  lemma {:induction false} RecordCount(mem: Address -> Byte, address: Address, count: nat)
    ensures |Records(mem, address, count)| == (count + 15) / 16
    decreases count
  {
    if count > 0 {
      var n := Piece(count);
      var next, rest := Advance(address, n), count - n;
      RecordCount(mem, next, rest);
      OneMoreCut(count, rest);
    }
  }

  lemma OneMoreCut(count: nat, rest: nat)
    requires count > 0 && rest == if count < 16 then 0 else count - 16
    ensures (count + 15) / 16 == 1 + (rest + 15) / 16
  {
  }

  // The bytes of a header or end record: its length, its address of `width`
  // bytes, which is 0, and a check that completes the sum.
  ghost predicate IsEmptyRecord(record: string, kind: char, width: nat) {
    && |record| == 7 + 2 * width && record[0] == 'S' && record[1] == kind && record[|record| - 1] == '\n'
    && var bytes := Unhex(record[2..|record| - 1]);
       && bytes.Some? && |bytes.value| == width + 2 && bytes.value[0] == width + 1
       && (forall i | 1 <= i <= width :: bytes.value[i] == 0)
       && Sum(bytes.value) % 256 == 255
  }

  lemma {:induction false} HexIsUnhexed(text: string, bytes: seq<Byte>)
    requires text == Hex(bytes)
    ensures Unhex(text) == Some(bytes)
  {
    UnhexHex(bytes);
  }

  lemma {:induction false} HexFirst(b: Byte, bytes: seq<Byte>, text: string)
    requires text == Hex(bytes)
    ensures Hex([b] + bytes) == HexByte(b) + text && Sum([b] + bytes) == b + Sum(bytes)
  {
    HexOne(b);
    HexAppend([b], bytes);
    SumAppend([b], bytes);
  }

  lemma {:induction false} EmptyRecordIs(record: string, kind: char, text: string, bytes: seq<Byte>, width: nat)
    requires record == ['S', kind] + text + ['\n'] && text == Hex(bytes) && |bytes| == width + 2
    requires bytes[0] == width + 1 && (forall i | 1 <= i <= width :: bytes[i] == 0) && Sum(bytes) % 256 == 255
    ensures IsEmptyRecord(record, kind, width)
  {
    assert record[2..|record| - 1] == text;
    HexIsUnhexed(text, bytes);
  }

  function Zeros(n: nat): (s: seq<Byte>)
    ensures |s| == n && forall i | 0 <= i < n :: s[i] == 0
  {
    if n == 0 then [] else [0] + Zeros(n - 1)
  }

  lemma HexByteOfZero()
    ensures HexByte(0) == "00"
  {
  }

  lemma {:induction false} HexOfZeros(n: nat, b: Byte, text: string)
    requires |text| == 2 * n + 2 && text[2 * n..] == HexByte(b) && forall i | 0 <= i < 2 * n :: text[i] == '0'
    ensures text == Hex(Zeros(n) + [b]) && Sum(Zeros(n) + [b]) == b
  {
    if n == 0 {
      HexOne(b);
      assert Zeros(0) + [b] == [b];
    } else {
      var z, rest := Zeros(n - 1) + [b], text[2..];
      ZerosMore(n, b, z);
      HexOfZeros(n - 1, b, rest);
      HexFirst(0, z, rest);
      ZerosText(text, rest);
    }
  }

  lemma {:induction false} ZerosMore(n: nat, b: Byte, z: seq<Byte>)
    requires n > 0 && z == Zeros(n - 1) + [b]
    ensures [0] + z == Zeros(n) + [b]
  {
    assert Zeros(n) == [0] + Zeros(n - 1);
  }

  lemma ZerosText(text: string, rest: string)
    requires |text| >= 2 && rest == text[2..] && text[0] == '0' && text[1] == '0'
    ensures text == HexByte(0) + rest
  {
    HexByteOfZero();
    assert text[..2] == "00";
  }

  lemma {:induction false} EmptyRecordHas(record: string, kind: char, width: nat, check: Byte, body: string,
                                          text: string)
    requires width < 255 && (width + 1 + check) % 256 == 255
    requires record == ['S', kind] + text + ['\n'] && text == HexByte(width + 1) + body && |body| == 2 * width + 2
    requires body[2 * width..] == HexByte(check) && forall i | 0 <= i < 2 * width :: body[i] == '0'
    ensures IsEmptyRecord(record, kind, width)
  {
    var bytes := Zeros(width) + [check];
    HexOfZeros(width, check, body);
    BytesOfEmpty(width, check, bytes, body, text, [width + 1] + bytes);
    EmptyRecordIs(record, kind, text, [width + 1] + bytes, width);
  }

  lemma {:induction false} BytesOfEmpty(width: nat, check: Byte, bytes: seq<Byte>, body: string, text: string,
                                        all: seq<Byte>)
    requires width < 255 && (width + 1 + check) % 256 == 255
    requires bytes == Zeros(width) + [check] && body == Hex(bytes) && Sum(bytes) == check
    requires text == HexByte(width + 1) + body && all == [width + 1] + bytes
    ensures |all| == width + 2 && all[0] == width + 1 && (forall i | 1 <= i <= width :: all[i] == 0)
    ensures text == Hex(all) && Sum(all) % 256 == 255
  {
    HexFirst(width + 1, bytes, body);
  }

  // The upload starts with an S0 record ...
  lemma {:induction false} HeaderRecord(width: nat)
    requires width == 2
    ensures IsEmptyRecord(SREC3_START, '0', width)
  {
    EmptyRecordHas(SREC3_START, '0', width, 0xFC, "0000FC", "030000FC");
  }

  // ... and ends with an S7 record, which says to start at address 0.
  lemma {:induction false} EndRecord(width: nat)
    requires width == 4
    ensures IsEmptyRecord(SREC3_END, '7', width)
  {
    EmptyRecordHas(SREC3_END, '7', width, 0xFA, "00000000FA", "0500000000FA");
  }

  // reclen bytes are collected for the record at `address`, as digits and in
  // the checksum.
  ghost predicate Collected(mem: Address -> Byte, address: Address, reclen: nat, checksum: int, digits: string)
    decreases reclen
  {
    && 2 * reclen <= |digits|
    && if reclen == 0 then checksum == 0
       else
         var c := mem(Advance(address, reclen - 1));
         digits[2 * reclen - 2] == HexDigit(c / 16) && digits[2 * reclen - 1] == HexDigit(c % 16)
         && Collected(mem, address, reclen - 1, checksum - c, digits)
  }

  lemma {:induction false} CollectedIsHex(mem: Address -> Byte, address: Address, reclen: nat, checksum: int,
                                          digits: string)
    requires Collected(mem, address, reclen, checksum, digits)
    ensures digits[..2 * reclen] == Hex(Bytes(mem, address, reclen)) && checksum == Sum(Bytes(mem, address, reclen))
    decreases reclen
  {
    if reclen > 0 {
      CollectedIsHex(mem, address, reclen - 1, checksum - mem(Advance(address, reclen - 1)), digits);
      CollectedOneMore(mem, address, reclen, checksum, digits);
    }
  }

  lemma {:induction false} CollectedOneMore(mem: Address -> Byte, address: Address, reclen: nat, checksum: int,
                                            digits: string)
    requires reclen > 0 && Collected(mem, address, reclen, checksum, digits)
    requires digits[..2 * (reclen - 1)] == Hex(Bytes(mem, address, reclen - 1))
    requires checksum - mem(Advance(address, reclen - 1)) == Sum(Bytes(mem, address, reclen - 1))
    ensures digits[..2 * reclen] == Hex(Bytes(mem, address, reclen)) && checksum == Sum(Bytes(mem, address, reclen))
  {
    var init, c, n := Bytes(mem, address, reclen - 1), mem(Advance(address, reclen - 1)), 2 * (reclen - 1);
    OneMoreByte(init, c, digits, n, Bytes(mem, address, reclen), 2 * reclen);
  }

  lemma {:induction false} OneMoreByte(init: seq<Byte>, c: Byte, digits: string, n: nat, bytes: seq<Byte>, m: nat)
    requires m == n + 2 <= |digits| && digits[..n] == Hex(init) && bytes == init + [c]
    requires digits[n] == HexDigit(c / 16) && digits[n + 1] == HexDigit(c % 16)
    ensures digits[..m] == Hex(bytes) && Sum(bytes) == Sum(init) + c
  {
    SumOne(init, c);
    HexOneMore(init, c);
    TwoMore(digits, n, HexByte(c));
  }

  lemma TwoMore(digits: string, n: nat, two: string)
    requires n + 2 <= |digits| && |two| == 2 && digits[n] == two[0] && digits[n + 1] == two[1]
    ensures digits[..n + 2] == digits[..n] + two
  {
  }

  // Digits written behind the collected ones do not touch them.
  lemma {:induction false} CollectedKept(mem: Address -> Byte, address: Address, reclen: nat, checksum: int,
                                         digits: string, digits': string)
    requires Collected(mem, address, reclen, checksum, digits)
    requires |digits'| == |digits| && forall i | 0 <= i < 2 * reclen :: digits'[i] == digits[i]
    ensures Collected(mem, address, reclen, checksum, digits')
    decreases reclen
  {
    if reclen > 0 {
      CollectedKept(mem, address, reclen - 1, checksum - mem(Advance(address, reclen - 1)), digits, digits');
    }
  }

  method Collect(mem: Address -> Byte, address: Address, data: array<char>, reclen: nat, checksum0: nat)
    returns (checksum: nat)
    requires data.Length == 2 * SREC_BYTES_PER_RECORD + 1 && reclen < SREC_BYTES_PER_RECORD
    requires Collected(mem, address, reclen, checksum0, data[..])
    modifies data
    ensures Collected(mem, address, reclen + 1, checksum, data[..])
  {
    ghost var digits := data[..];
    var c := mem(Advance(address, reclen));
    checksum := checksum0 + c;
    data[2 * reclen] := HexDigit(c / 16);
    data[2 * reclen + 1] := HexDigit(c % 16);
    data[2 * reclen + 2] := '\0';
    CollectedKept(mem, address, reclen, checksum0, digits, data[..]);
  }

  // A full record, or the last one, comes first in the rest of the upload.
  lemma {:induction false} FlushOne(mem: Address -> Byte, address: Address, reclen: nat, count: nat, total: nat)
    requires total == reclen + count
    requires 0 < reclen <= SREC_BYTES_PER_RECORD && (reclen == SREC_BYTES_PER_RECORD || count == 0)
    ensures Records(mem, address, total)
            == [Record(address, Bytes(mem, address, reclen))] + Records(mem, Advance(address, reclen), count)
  {
    assert reclen == Piece(total) && total - reclen == count;
    var record, rest := Record(address, Bytes(mem, address, reclen)), Records(mem, Advance(address, reclen), count);
    FirstRecord(mem, address, total, reclen, record, rest);
  }

  lemma FirstRecord(mem: Address -> Byte, address: Address, total: nat, n: nat, record: string, rest: seq<string>)
    requires total > 0 && n == Piece(total) && record == Record(address, Bytes(mem, address, n))
    requires rest == Records(mem, Advance(address, n), total - n)
    ensures Records(mem, address, total) == [record] + rest
  {
  }

  // What is still to be sent before the bytes collected at `address`.
  ghost predicate Remaining(mem: Address -> Byte, address: Address, n: nat, out: seq<string>, all: seq<string>) {
    |out| <= |all| && out == all[..|out|] && all[|out|..] == Records(mem, address, n)
  }

  // Where an upload stands: the bytes collected for the next record, the bytes
  // not yet collected, and what has been sent.
  datatype Upload = Upload(address: Address, reclen: nat, checksum: nat, count: nat, out: seq<string>)

  // The collected bytes are in the digits, and `left` bytes are still to be
  // sent of all records.
  ghost predicate Stands(mem: Address -> Byte, u: Upload, digits: string, all: seq<string>, left: nat) {
    && |digits| == 2 * SREC_BYTES_PER_RECORD + 1 && u.reclen <= SREC_BYTES_PER_RECORD && left == u.reclen + u.count
    && Collected(mem, u.address, u.reclen, u.checksum, digits) && Remaining(mem, u.address, left, u.out, all)
  }

  // Sends the collected record.
  method Send(mem: Address -> Byte, data: array<char>, u: Upload, ghost all: seq<string>, ghost left: nat)
    returns (v: Upload)
    requires Stands(mem, u, data[..], all, left)
    requires 0 < u.reclen && (u.reclen == SREC_BYTES_PER_RECORD || u.count == 0)
    ensures Stands(mem, v, data[..], all, u.count)
    ensures v == Upload(Advance(u.address, u.reclen), 0, 0, u.count, v.out) && |v.out| == |u.out| + 1
  {
    ghost var bytes := Bytes(mem, u.address, u.reclen);
    CollectedIsHex(mem, u.address, u.reclen, u.checksum, data[..]);
    assert data[..][..2 * u.reclen] == data[..2 * u.reclen];
    var record := BuildRecord(data, u.reclen, u.address, u.checksum, bytes);
    RemainingAfter(mem, u.address, u.reclen, u.count, u.out, all, left);
    v := Upload(Advance(u.address, u.reclen), 0, 0, u.count, u.out + [record]);
  }

  lemma {:induction false} RemainingAfter(mem: Address -> Byte, address: Address, reclen: nat, count: nat,
                       out: seq<string>, all: seq<string>, total: nat)
    requires total == reclen + count && Remaining(mem, address, total, out, all)
    requires 0 < reclen <= SREC_BYTES_PER_RECORD && (reclen == SREC_BYTES_PER_RECORD || count == 0)
    ensures Remaining(mem, Advance(address, reclen), count, out + [Record(address, Bytes(mem, address, reclen))], all)
  {
    FlushOne(mem, address, reclen, count, total);
    Shift(all, |out|, Record(address, Bytes(mem, address, reclen)), Records(mem, Advance(address, reclen), count));
  }

  lemma Shift(all: seq<string>, n: nat, record: string, rest: seq<string>)
    requires n <= |all| && all[n..] == [record] + rest
    ensures n < |all| && all[..n + 1] == all[..n] + [record] && all[n + 1..] == rest
  {
    assert all[n] == all[n..][0];
    assert all[n + 1..] == all[n..][1..];
  }

  // The part of an upload that is sent when the console interrupts after
  // record number `stop`.
  function Interrupted(all: seq<string>, stop: nat): seq<string> {
    if stop < |all| then all[..stop + 1] else all
  }

  // Takes the next byte, if there is one, and sends the record once it is full
  // or the last byte has been collected.
  method Step(mem: Address -> Byte, data: array<char>, u: Upload, ghost all: seq<string>, ghost left0: nat)
    returns (v: Upload, ghost left: nat)
    requires Stands(mem, u, data[..], all, left0) && u.reclen < SREC_BYTES_PER_RECORD
             && (u.count == 0 ==> u.reclen == 0)
    modifies data
    ensures Stands(mem, v, data[..], all, left) && v.reclen < SREC_BYTES_PER_RECORD && (v.count == 0 ==> v.reclen == 0)
    ensures v.count == (if u.count == 0 then 0 else u.count - 1) && |u.out| <= |v.out| <= |u.out| + 1
  {
    v, left := u, left0;
    if v.count > 0 {
      var checksum := Collect(mem, v.address, data, v.reclen, v.checksum);
      v := v.(reclen := v.reclen + 1, checksum := checksum, count := v.count - 1);
    }
    if v.reclen == SREC_BYTES_PER_RECORD || v.count == 0 {
      if v.reclen > 0 {
        left := v.count;
        v := Send(mem, data, v, all, left0);
      } else {
        v := v.(checksum := 0);
      }
    }
  }

  // Sends the data records after those already sent.
  method SaveData(mem: Address -> Byte, address: Address, count: nat, stop: nat, out0: seq<string>)
    returns (ok: bool, out: seq<string>)
    requires |out0| <= stop
    ensures out == Interrupted(out0 + Records(mem, address, count), stop)
    ensures ok <==> |out0 + Records(mem, address, count)| <= stop
  {
    var data := new char[2 * SREC_BYTES_PER_RECORD + 1];
    var u := Upload(address, 0, 0, count, out0);
    ghost var all, left := out0 + Records(mem, address, count), count;
    assert all[|out0|..] == Records(mem, address, count);
    var more := true;
    while more
      invariant Stands(mem, u, data[..], all, left) && u.reclen < SREC_BYTES_PER_RECORD && |u.out| <= stop
      invariant (!more ==> u.count == 0) && (u.count == 0 ==> u.reclen == 0)
      decreases more, u.count
    {
      u, left := Step(mem, data, u, all, left);
      if |u.out| - 1 == stop {
        return false, u.out;
      }
      more := u.count > 0;
    }
    assert Records(mem, u.address, 0) == [];
    return true, u.out;
  }

  // Uploads count bytes. The console interrupts after record number `stop`,
  // if there are that many; out is what has been sent.
  method SaveSerial(mem: Address -> Byte, address: Address, count: nat, stop: nat) returns (rc: int, out: seq<string>)
    ensures var all := [SREC3_START] + Records(mem, address, count) + [SREC3_END];
            out == Interrupted(all, stop) && rc == if stop < |all| then -1 else 0
  {
    rc, out := -1, [SREC3_START];
    if stop == 0 {
      return;
    }
    var ok;
    ok, out := SaveData(mem, address, count, stop, out);
    if ok {
      out := out + [SREC3_END];
      rc := if |out| - 1 == stop then -1 else 0;
    }
  }

  lemma {:induction false} SumOne(s: seq<Byte>, c: Byte)
    ensures Sum(s + [c]) == Sum(s) + c
  {
    assert (s + [c])[..|s|] == s;
  }

  // The whole upload, records without data included.
  lemma {:induction false} UploadLoads(memory: map<Address, Byte>, mem: Address -> Byte, address: Address, count: nat)
    ensures Load(memory, [SREC3_START] + Records(mem, address, count) + [SREC3_END])
            == Store(memory, address, Bytes(mem, address, count))
  {
    var records := Records(mem, address, count);
    assert SREC3_START[1] == '0' && SREC3_END[1] == '7';
    assert Decode(SREC3_START).None? && Decode(SREC3_END).None?;
    LoadAppend(memory, [SREC3_START] + records, [SREC3_END]);
    LoadAppend(memory, [SREC3_START], records);
    RecordsLoad(memory, mem, address, count);
  }

  lemma {:induction false} LoadAppend(memory: map<Address, Byte>, a: seq<string>, b: seq<string>)
    ensures Load(memory, a + b) == Load(Load(memory, a), b)
    decreases |a|
  {
    if a == [] {
      assert a + b == b;
    } else {
      assert (a + b)[1..] == a[1..] + b;
      var d := Decode(a[0]);
      LoadAppend(if d.Some? then Store(memory, d.value.address, d.value.data) else memory, a[1..], b);
    }
  }
}
