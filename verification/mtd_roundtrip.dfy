// Parsing what the printer wrote rebuilds the devices.
module MtdRoundTrip {
  import opened Wrappers
  import opened MtdNumbers
  import opened MtdGrammar
  import opened MtdSorting

  predicate NameOk(name: Option<string>) {
    name.Some? ==> name.value != "" && ')' !in name.value
  }

  // A partition as the partition manager keeps it on device id.
  ghost predicate PartOk(id: MtdId, p: Part) {
    NameOk(p.name) && PartValidate(id, p) == Some(p)
  }

  ghost predicate EachPartOk(id: MtdId, parts: seq<Part>) {
    parts == [] || (PartOk(id, parts[0]) && EachPartOk(id, parts[1..]))
  }

  // No two of them are the same in everything.
  ghost predicate PartsOk(id: MtdId, parts: seq<Part>) {
    EachPartOk(id, parts) && AllDifferent(parts)
  }

  ghost predicate DeviceOk(ids: seq<MtdId>, d: Device) {
    && ':' !in d.id.mtdId && FindId(ids, d.id.mtdId) == Some(d.id)
    && d.parts != [] && PartsOk(d.id, d.parts)
  }

  ghost predicate DevicesOk(ids: seq<MtdId>, devs: seq<Device>) {
    && (forall i | 0 <= i < |devs| :: DeviceOk(ids, devs[i]))
    && (forall i, j | 0 <= i < j < |devs| :: !SameDevice(devs[i].id, devs[j].id))
  }

  // A size that reads as "all remaining space" must be the last one, and a
  // size below the least one is not read at all.
  predicate IsRead(parts: seq<Part>) {
    && (forall i | 0 <= i < |parts| - 1 :: parts[i].size != SIZE_REMAINING)
    && (forall i | 0 <= i < |parts| :: parts[i].size >= MIN_PART_SIZE)
  }

  // Partitions with one offset would change places.
  predicate IsReadBack(parts: seq<Part>) {
    IsRead(parts) && NoTies(parts)
  }

  // ------------------------------------------------------------------------

  lemma {:induction false} SplitAtFirst(a: string, c: char, b: string)
    requires c !in a
    ensures SplitAt(a + [c] + b, c) == Some((a, b))
  {
    var s := a + [c] + b;
    if a == "" {
      assert s[1..] == b;
    } else {
      assert s[0] == a[0] && s[1..] == a[1..] + [c] + b;
      SplitAtFirst(a[1..], c, b);
      assert [a[0]] + a[1..] == a;
    }
  }

  lemma FormatStart(size: u32)
    ensures IsDigit(MemsizeFormat(size)[0])
  {
    DecimalStart(size / GB);
    DecimalStart(size / MB);
    DecimalStart(size / KB);
    DecimalStart(size);
  }

  predicate EndsPart(rest: string) {
    rest == "" || rest[0] == ',' || rest[0] == ';'
  }

  function RoText(ro: bool): string {
    if ro then "ro" else ""
  }

  function OffsetText(offset: u32, implied: u32): string {
    if offset == implied then "" else "@" + MemsizeFormat(offset)
  }

  lemma ParseRoText(ro: bool, rest: string)
    requires EndsPart(rest)
    ensures ParseRo(RoText(ro) + rest) == (ro, rest)
  {
    if ro {
      assert ("ro" + rest)[2..] == rest;
    } else {
      assert "" + rest == rest;
    }
  }

  lemma ParseNameText(name: Option<string>, tail: string)
    requires NameOk(name) && (tail == "" || tail[0] != '(')
    ensures ParseName(PrintName(name) + tail) == Some((name, tail))
  {
    match name
    case None => assert "" + tail == tail;
    case Some(n) =>
      assert PrintName(name) + tail == "(" + (n + [')'] + tail);
      assert ("(" + (n + [')'] + tail))[1..] == n + [')'] + tail;
      SplitAtFirst(n, ')', tail);
  }

  lemma ParseOffsetText(offset: u32, implied: u32, tail: string)
    requires EndsNumber(tail) && (tail == "" || tail[0] != '@')
    ensures ParseOffset(OffsetText(offset, implied) + tail) ==
            (if offset == implied then OFFSET_NOT_SPECIFIED else offset, tail)
  {
    if offset == implied {
      assert "" + tail == tail;
    } else {
      var s := "@" + MemsizeFormat(offset) + tail;
      assert s[1..] == MemsizeFormat(offset) + tail;
      MemsizeRoundTrip(offset, tail);
    }
  }

  lemma JoinFromRight(a: string, b: string, c: string, d: string, e: string)
    ensures a + b + c + d + e == a + (b + (c + (d + e)))
  {
  }

  // The pieces of a printed partition, joined from the right.
  lemma PartText(p: Part, implied: u32, rest: string)
    ensures PrintPart(p, implied) + rest ==
            MemsizeFormat(p.size) + (OffsetText(p.offset, implied) + (PrintName(p.name) + (RoText(p.ro) + rest)))
  {
    JoinFromRight(MemsizeFormat(p.size), OffsetText(p.offset, implied), PrintName(p.name), RoText(p.ro), rest);
  }

  // Everything of one partition but the check of what follows it.
  lemma PartFields(p: Part, implied: u32, rest: string)
    requires NameOk(p.name) && EndsPart(rest)
    ensures var offset := if p.offset == implied then OFFSET_NOT_SPECIFIED else p.offset;
            PartParse(PrintPart(p, implied) + rest) ==
            if p.size < MIN_PART_SIZE || ParseSeparator(p.size, rest).None? then None
            else Some((p.(offset := offset), ParseSeparator(p.size, rest).value))
  {
    var t4 := RoText(p.ro) + rest;
    var t3 := PrintName(p.name) + t4;
    var t2 := OffsetText(p.offset, implied) + t3;
    PartText(p, implied, rest);
    RoTextStart(p.ro, rest);
    NameTextStart(p.name, t4);
    assert EndsNumber(t2);
    ParseSizeText(p.size, t2);
    ParseOffsetText(p.offset, implied, t3);
    ParseNameText(p.name, t4);
    ParseRoText(p.ro, rest);
  }

  lemma RoTextStart(ro: bool, rest: string)
    requires EndsPart(rest)
    ensures var t := RoText(ro) + rest; EndsNumber(t) && (t == "" || t[0] == 'r' || t[0] == ',' || t[0] == ';')
  {
  }

  lemma NameTextStart(name: Option<string>, tail: string)
    requires EndsNumber(tail) && (tail == "" || tail[0] != '@')
    ensures var t := PrintName(name) + tail; EndsNumber(t) && (t == "" || t[0] != '@')
  {
    assert name.None? ==> PrintName(name) + tail == tail;
  }

  lemma ParseSizeText(size: u32, tail: string)
    requires EndsNumber(tail)
    ensures ParseSize(MemsizeFormat(size) + tail) == if size < MIN_PART_SIZE then None else Some((size, tail))
  {
    FormatStart(size);
    assert (MemsizeFormat(size) + tail)[0] == MemsizeFormat(size)[0];
    MemsizeRoundTrip(size, tail);
  }

  lemma PrintPartStart(p: Part, implied: u32, rest: string)
    ensures var s := PrintPart(p, implied) + rest; s != "" && s[0] != ';'
  {
    FormatStart(p.size);
    assert (PrintPart(p, implied) + rest)[0] == MemsizeFormat(p.size)[0];
  }

  lemma ValidOffset(id: MtdId, p: Part)
    requires PartValidate(id, p) == Some(p)
    ensures p.offset != OFFSET_NOT_SPECIFIED
  {
  }

  lemma {:induction false} PartStep(id: MtdId, p: Part, implied: u32, acc: seq<Part>, tail: string)
    requires PartOk(id, p) && EndsPart(tail)
    ensures ParseParts(id, PrintPart(p, implied) + tail, implied, acc) ==
            if p.size < MIN_PART_SIZE || ParseSeparator(p.size, tail).None? then None
            else ParseParts(id, ParseSeparator(p.size, tail).value, Add32(p.offset, p.size), acc + [p])
  {
    PrintPartStart(p, implied, tail);
    PartFields(p, implied, tail);
    ValidOffset(id, p);
  }

  // The only partition of a list.
  lemma {:induction false} OnePart(id: MtdId, p: Part, implied: u32, acc: seq<Part>, rest: string)
    requires PartOk(id, p) && (rest == "" || rest[0] == ';')
    ensures ParseParts(id, PrintParts([p], implied) + rest, implied, acc) ==
            if p.size < MIN_PART_SIZE then None else Some((acc + [p], rest))
  {
    assert PrintParts([p], implied) == PrintPart(p, implied);
    PartStep(id, p, implied, acc, rest);
    LastPart(id, rest, Add32(p.offset, p.size), acc + [p]);
  }

  lemma FirstText(first: string, others: string, rest: string, tail: string)
    requires tail == "," + (others + rest)
    ensures first + "," + others + rest == first + tail && tail[1..] == others + rest
  {
  }

  // The first of several partitions.
  lemma {:induction false} FirstPart(id: MtdId, parts: seq<Part>, implied: u32, acc: seq<Part>, rest: string)
    requires |parts| > 1 && PartOk(id, parts[0])
    ensures var p, next := parts[0], Add32(parts[0].offset, parts[0].size);
            ParseParts(id, PrintParts(parts, implied) + rest, implied, acc) ==
            if p.size < MIN_PART_SIZE || p.size == SIZE_REMAINING then None
            else ParseParts(id, PrintParts(parts[1..], next) + rest, next, acc + [p])
  {
    var p, next := parts[0], Add32(parts[0].offset, parts[0].size);
    var more := PrintParts(parts[1..], next) + rest;
    var tail := "," + more;
    FirstText(PrintPart(p, implied), PrintParts(parts[1..], next), rest, tail);
    PartStep(id, p, implied, acc, tail);
  }

  // The list of partitions: rebuilt exactly if each one can be read.
  lemma {:induction false} PartsRoundTrip(id: MtdId, parts: seq<Part>, implied: u32, acc: seq<Part>, rest: string)
    requires parts != [] && (rest == "" || rest[0] == ';')
    requires EachPartOk(id, parts)
    ensures ParseParts(id, PrintParts(parts, implied) + rest, implied, acc) ==
            if IsRead(parts) then Some((acc + parts, rest)) else None
    decreases |parts|
  {
    var p, next := parts[0], Add32(parts[0].offset, parts[0].size);
    if |parts| == 1 {
      assert parts == [p];
      OnePart(id, p, implied, acc, rest);
    } else {
      FirstPart(id, parts, implied, acc, rest);
      IsReadSplit(parts);
      if MIN_PART_SIZE <= p.size != SIZE_REMAINING {
        PartsRoundTrip(id, parts[1..], next, acc + [p], rest);
        MoveFirst(acc, parts);
      }
    }
  }

  lemma {:induction false} LastPart(id: MtdId, rest: string, offset: u32, acc: seq<Part>)
    requires rest == "" || rest[0] == ';'
    ensures ParseParts(id, rest, offset, acc) == Some((acc, rest))
  {
  }

  lemma IsReadSplit(parts: seq<Part>)
    requires |parts| > 1
    ensures IsRead(parts) <==> MIN_PART_SIZE <= parts[0].size != SIZE_REMAINING && IsRead(parts[1..])
  {
    assert forall i | 0 < i < |parts| :: parts[i] == parts[1..][i - 1];
    if IsRead(parts) {
      assert forall i | 0 <= i < |parts| - 1 :: parts[1..][i] == parts[i + 1];
    }
  }

  lemma DeviceText(d: Device, rest: string, t: string)
    requires t == PrintParts(d.parts, 0) + rest
    ensures PrintDevice(d) + rest == d.id.mtdId + [':'] + t
  {
  }

  // What the parser makes of a device once its name is split off.
  lemma {:induction false} NewDevice(ids: seq<MtdId>, devs: seq<Device>, s: string, id: MtdId, t: string)
    requires SplitAt(s, ':') == Some((id.mtdId, t)) && FindId(ids, id.mtdId) == Some(id)
    requires FindDevice(devs, id) == None
    ensures ParseParts(id, t, 0, []).None? ==> DeviceParse(ids, devs, s) == None
    ensures forall parts, u | ParseParts(id, t, 0, []) == Some((parts, u)) && parts != [] ::
              DeviceParse(ids, devs, s) == Placed(id, parts, u)
  {
    assert StartOffset(devs, id) == 0;
  }

  // The device with its partitions sorted, and the text behind it.
  function Placed(id: MtdId, parts: seq<Part>, u: string): Option<(Device, string)> {
    var sorted :- SortAddAll(parts);
    Some((Device(id, sorted), AfterSeparator(u)))
  }

  function AfterSeparator(u: string): string {
    if u == "" then u else u[1..]
  }

  lemma {:induction false} AllParts(id: MtdId, parts: seq<Part>, rest: string)
    requires parts != [] && EachPartOk(id, parts) && (rest == "" || rest[0] == ';')
    ensures ParseParts(id, PrintParts(parts, 0) + rest, 0, []) ==
            if IsRead(parts) then Some((parts, rest)) else None
  {
    PartsRoundTrip(id, parts, 0, [], rest);
    assert [] + parts == parts;
  }

  lemma {:induction false} DeviceRoundTrip(ids: seq<MtdId>, devs: seq<Device>, d: Device, rest: string)
    requires DeviceOk(ids, d) && FindDevice(devs, d.id) == None
    requires rest == "" || rest[0] == ';'
    ensures var r := DeviceParse(ids, devs, PrintDevice(d) + rest);
            && (r == Some((d, AfterSeparator(rest))) <==> IsReadBack(d.parts))
            && (r.Some? ==> r.value.0.id == d.id && r.value.1 == AfterSeparator(rest))
  {
    var t := PrintParts(d.parts, 0) + rest;
    var s := PrintDevice(d) + rest;
    DeviceText(d, rest, t);
    SplitAtFirst(d.id.mtdId, ':', t);
    NewDevice(ids, devs, s, d.id, t);
    AllParts(d.id, d.parts, rest);
    SortAddAllExactly(d.parts);
  }

  lemma {:induction false} FindDeviceNone(devs: seq<Device>, id: MtdId)
    ensures FindDevice(devs, id) == None <==> forall i | 0 <= i < |devs| :: !SameDevice(devs[i].id, id)
  {
    if devs != [] {
      FindDeviceNone(devs[1..], id);
      if FindDevice(devs, id) == None {
        forall i | 0 <= i < |devs| ensures !SameDevice(devs[i].id, id) {
          assert i > 0 ==> devs[i] == devs[1..][i - 1];
        }
      }
    }
  }

  ghost predicate AllReadBack(devs: seq<Device>) {
    forall i | 0 <= i < |devs| :: IsReadBack(devs[i].parts)
  }

  lemma AllReadBackSplit(devs: seq<Device>)
    requires devs != []
    ensures AllReadBack(devs) <==> IsReadBack(devs[0].parts) && AllReadBack(devs[1..])
  {
    if IsReadBack(devs[0].parts) && AllReadBack(devs[1..]) {
      forall i | 0 <= i < |devs| ensures IsReadBack(devs[i].parts) {
        assert i > 0 ==> devs[i] == devs[1..][i - 1];
      }
    }
  }

  // The text of the first of several devices.
  lemma FirstDevice(ids: seq<MtdId>, done: seq<Device>, d: Device, rest: string) returns (e: Option<Device>)
    requires DeviceOk(ids, d) && FindDevice(done, d.id) == None && (rest == "" || rest[0] == ';')
    ensures ParseDevices(ids, PrintDevice(d) + rest, done) ==
            if e.None? then None else ParseDevices(ids, AfterSeparator(rest), done + [e.value])
    ensures e == Some(d) <==> IsReadBack(d.parts)
  {
    var s := PrintDevice(d) + rest;
    DeviceRoundTrip(ids, done, d, rest);
    assert s != "";
    e := if DeviceParse(ids, done, s).None? then None else Some(DeviceParse(ids, done, s).value.0);
  }

  // What was parsed first stays in front.
  lemma {:induction false} ParsedStay(ids: seq<MtdId>, s: string, devs: seq<Device>)
    ensures var r := ParseDevices(ids, s, devs); r.Some? ==> devs <= r.value
    decreases |s|
  {
    if s != "" && DeviceParse(ids, devs, s).Some? {
      var (d, rest) := DeviceParse(ids, devs, s).value;
      ParsedStay(ids, rest, devs + [d]);
    }
  }

  lemma {:induction false} NextDeviceIsNew(ids: seq<MtdId>, done: seq<Device>, todo: seq<Device>)
    requires DevicesOk(ids, done + todo) && todo != []
    ensures DeviceOk(ids, todo[0]) && FindDevice(done, todo[0].id) == None
  {
    assert todo[0] == (done + todo)[|done|];
    assert forall i | 0 <= i < |done| :: done[i] == (done + todo)[i];
    FindDeviceNone(done, todo[0].id);
  }

  function AfterFirst(todo: seq<Device>): string
    requires todo != []
  {
    if |todo| == 1 then "" else ";" + PrintDevices(todo[1..])
  }

  lemma DropSeparator(s: string)
    ensures (";" + s)[1..] == s
  {
  }

  lemma FirstOfSeveral(a: string, b: string)
    ensures a + ";" + b == a + (";" + b)
  {
  }

  // The rest of the text behind its separator is that of the other devices.
  lemma {:induction false} DevicesText(todo: seq<Device>)
    requires todo != []
    ensures PrintDevices(todo) == PrintDevice(todo[0]) + AfterFirst(todo)
    ensures AfterSeparator(AfterFirst(todo)) == PrintDevices(todo[1..])
  {
    var first := PrintDevice(todo[0]);
    if |todo| == 1 {
      assert first + "" == first;
    } else {
      var others := PrintDevices(todo[1..]);
      FirstOfSeveral(first, others);
      DropSeparator(others);
    }
  }

  // A device that comes back otherwise stays so.
  lemma {:induction false} OtherDeviceStays(ids: seq<MtdId>, s: string, done: seq<Device>, todo: seq<Device>, e: Device)
    requires todo != [] && e != todo[0]
    ensures ParseDevices(ids, s, done + [e]) != Some(done + todo)
  {
    ParsedStay(ids, s, done + [e]);
    assert (done + [e])[|done|] == e && (done + todo)[|done|] == todo[0];
  }

  // Devices done are parsed, devices todo are still text.
  lemma {:induction false} DevicesRoundTrip(ids: seq<MtdId>, done: seq<Device>, todo: seq<Device>)
    requires DevicesOk(ids, done + todo)
    ensures ParseDevices(ids, PrintDevices(todo), done) == Some(done + todo) <==> AllReadBack(todo)
    decreases |todo|
  {
    if todo == [] {
      assert done + todo == done;
    } else {
      var d := todo[0];
      NextDeviceIsNew(ids, done, todo);
      DevicesText(todo);
      var e := FirstDevice(ids, done, d, AfterFirst(todo));
      AllReadBackSplit(todo);
      if e == Some(d) {
        MoveFirst(done, todo);
        DevicesRoundTrip(ids, done + [d], todo[1..]);
      } else if e.Some? {
        OtherDeviceStays(ids, PrintDevices(todo[1..]), done, todo, e.value);
      }
    }
  }

  // The main theorem: the text rebuilds the devices exactly if every
  // partition has the least size at least, those that read as "all remaining
  // space" are the last of their devices, and no two start at one offset.
  lemma RoundTrip(ids: seq<MtdId>, devs: seq<Device>)
    requires DevicesOk(ids, devs) && devs != []
    ensures ParseMtdparts(ids, GenerateMtdparts(devs)) == Some(devs) <==> AllReadBack(devs)
  {
    var s := GenerateMtdparts(devs);
    assert [] + devs == devs;
    assert s[|PREFIX|..] == PrintDevices(devs);
    assert PrintDevices(devs) != "";
    DevicesRoundTrip(ids, [], devs);
  }

  // One device alone.
  lemma OneDevice(d: Device)
    requires DeviceOk([d.id], d)
    ensures ParseMtdparts([d.id], GenerateMtdparts([d])) == Some([d]) <==> IsReadBack(d.parts)
  {
    RoundTrip([d.id], [d]);
    assert AllReadBack([d]) <==> IsReadBack([d][0].parts);
  }

  // The exceptions exist. On a 4 GiB - 1 chip a first partition that covers
  // everything is printed as a number that reads as "all remaining space".
  lemma EarlyFillUpIsLost()
    ensures var id := MtdId(Nor([0, 4096]), 0, 0xFFFF_FFFF, "nor");
            var d := Device(id, [Part(0xFFFF_FFFF, 0, None, false), Part(0xFFFF_EFFF, 4096, None, false)]);
            DeviceOk([id], d) && ParseMtdparts([id], GenerateMtdparts([d])) != Some([d])
  {
    var id := MtdId(Nor([0, 4096]), 0, 0xFFFF_FFFF, "nor");
    var p, q := Part(0xFFFF_FFFF, 0, None, false), Part(0xFFFF_EFFF, 4096, None, false);
    var d := Device(id, [p, q]);
    assert PartOk(id, p) && PartOk(id, q);
    TwoPartsOk(id, p, q);
    OneDevice(d);
    assert d.parts[0].size == SIZE_REMAINING;
  }

  // All remaining space can be less than the least size.
  lemma SmallFillUpIsLost()
    ensures var id := MtdId(Nand(2048), 0, 6144, "nand");
            var d := Device(id, [Part(2048, 4096, None, false)]);
            && PartValidate(id, Part(SIZE_REMAINING, 4096, None, false)) == Some(d.parts[0])
            && DeviceOk([id], d) && ParseMtdparts([id], GenerateMtdparts([d])) != Some([d])
  {
    var id := MtdId(Nand(2048), 0, 6144, "nand");
    var p := Part(2048, 4096, None, false);
    var d := Device(id, [p]);
    assert PartOk(id, p) && [p][1..] == [];
    OneDevice(d);
    assert d.parts[0].size < MIN_PART_SIZE;
  }

  // Partitions with one offset come back in reverse order.
  lemma TiedAreMoved()
    ensures var id := MtdId(Nand(4096), 0, 16384, "nand");
            var d := Device(id, [Part(4096, 4096, None, false), Part(8192, 4096, None, false)]);
            DeviceOk([id], d) && ParseMtdparts([id], GenerateMtdparts([d])) != Some([d])
  {
    var id := MtdId(Nand(4096), 0, 16384, "nand");
    var p, q := Part(4096, 4096, None, false), Part(8192, 4096, None, false);
    var d := Device(id, [p, q]);
    assert PartOk(id, p) && PartOk(id, q);
    TwoPartsOk(id, p, q);
    OneDevice(d);
    assert d.parts[0].offset == d.parts[1].offset;
  }

  lemma TwoPartsOk(id: MtdId, p: Part, q: Part)
    requires PartOk(id, p) && PartOk(id, q) && p != q && ':' !in id.mtdId
    ensures DeviceOk([id], Device(id, [p, q]))
  {
    assert [p, q][1..] == [q] && [q][1..] == [];
    assert EachPartOk(id, [q]);
    assert FindId([id], id.mtdId) == Some(id);
  }
}
