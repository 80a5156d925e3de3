// The mtdparts text: what the parser makes of it, and what the printer
// writes for a list of devices.
module MtdGrammar {
  import opened Wrappers
  import opened MtdNumbers

  const SIZE_REMAINING: u32 := 0xFFFF_FFFF
  const OFFSET_NOT_SPECIFIED: u32 := 0xFFFF_FFFF
  const MIN_PART_SIZE := 4096

  // What partition boundaries a chip allows: NOR sector starts relative to
  // the first one, or multiples of the NAND erase size.
  datatype Chip = Nor(sectors: seq<u32>) | Nand(erasesize: u32)

  datatype MtdId = MtdId(chip: Chip, num: nat, size: u32, mtdId: string)

  // A name is None when it is generated.
  datatype Part = Part(size: u32, offset: u32, name: Option<string>, ro: bool)

  datatype Device = Device(id: MtdId, parts: seq<Part>)

  function Add32(a: u32, b: u32): u32 {
    (a + b) % U32
  }

  // ------------------------------------------------------------------------
  // Parsing. The second component of a result is the text left over.

  // The text before and behind the first c.
  function SplitAt(s: string, c: char): (r: Option<(string, string)>)
    ensures r.Some? ==> |r.value.0| + 1 + |r.value.1| == |s|
  {
    if s == "" then None
    else if s[0] == c then Some(("", s[1..]))
    else
      var (before, after) :- SplitAt(s[1..], c);
      Some(([s[0]] + before, after))
  }

  function ParseSize(s: string): Option<(u32, string)> {
    if s != "" && s[0] == '-' then Some((SIZE_REMAINING, s[1..]))
    else
      var (size, t) := MemsizeParse(s);
      if size < MIN_PART_SIZE then None else Some((size, t))
  }

  function ParseOffset(s: string): (u32, string) {
    if s != "" && s[0] == '@' then MemsizeParse(s[1..]) else (OFFSET_NOT_SPECIFIED, s)
  }

  function ParseName(s: string): Option<(Option<string>, string)> {
    if s != "" && s[0] == '(' then
      var (name, t) :- SplitAt(s[1..], ')');
      if name == "" then None else Some((Some(name), t))
    else Some((None, s))
  }

  function ParseRo(s: string): (bool, string) {
    if |s| >= 2 && s[0] == 'r' && s[1] == 'o' then (true, s[2..]) else (false, s)
  }

  // A ',' announces another partition; ';' and the end are left in place.
  function ParseSeparator(size: u32, s: string): Option<string> {
    if s == "" || s[0] == ';' then Some(s)
    else if s[0] == ',' && size != SIZE_REMAINING then Some(s[1..])
    else None
  }

  function PartParse(s: string): Option<(Part, string)> {
    var (size, s1) :- ParseSize(s);
    var (offset, s2) := ParseOffset(s1);
    var (name, s3) :- ParseName(s2);
    var (ro, s4) := ParseRo(s3);
    var rest :- ParseSeparator(size, s4);
    Some((Part(size, offset, name, ro), rest))
  }

  predicate Aligned(chip: Chip, chipSize: u32, offset: u32, size: u32) {
    match chip
    case Nand(erasesize) => erasesize > 0 && offset % erasesize == 0 && size % erasesize == 0
    case Nor(sectors) =>
      offset in sectors && (Add32(offset, size) in sectors || Add32(offset, size) == chipSize)
  }

  // Resolves a fill-up size and checks range and alignment.
  function PartValidate(id: MtdId, p: Part): Option<Part> {
    var q := if p.size == SIZE_REMAINING then p.(size := (id.size - p.offset) % U32) else p;
    if q.offset > id.size then None
    else if Add32(q.offset, q.size) <= q.offset then None
    else if Add32(q.offset, q.size) > id.size then None
    else if Aligned(id.chip, id.size, q.offset, q.size) then Some(q)
    else None
  }

  // The partitions of one device; offset is where the next one starts
  // unless it says otherwise.
  function ParseParts(id: MtdId, s: string, offset: u32, acc: seq<Part>): Option<(seq<Part>, string)>
    decreases |s|
  {
    if s == "" || s[0] == ';' then Some((acc, s))
    else
      PartParseShortens(s);
      var (p, rest) :- PartParse(s);
      var q :- PartValidate(id, if p.offset == OFFSET_NOT_SPECIFIED then p.(offset := offset) else p);
      ParseParts(id, rest, Add32(q.offset, q.size), acc + [q])
  }

  // Inserts by offset; a second partition at offset 0 is refused.
  function SortAdd(parts: seq<Part>, p: Part): Option<seq<Part>> {
    if parts == [] then Some([p])
    else if p.offset == parts[0].offset == 0 then None
    else if p.offset <= parts[0].offset then Some([p] + parts)
    else
      var tail :- SortAdd(parts[1..], p);
      Some([parts[0]] + tail)
  }

  function SortAddAll(parts: seq<Part>): Option<seq<Part>> {
    if parts == [] then Some([])
    else
      var front :- SortAddAll(parts[..|parts| - 1]);
      SortAdd(front, parts[|parts| - 1])
  }

  function FindId(ids: seq<MtdId>, mtdId: string): Option<MtdId> {
    if ids == [] then None
    else if ids[0].mtdId == mtdId then Some(ids[0])
    else FindId(ids[1..], mtdId)
  }

  predicate SameDevice(a: MtdId, b: MtdId) {
    a.chip.Nor? == b.chip.Nor? && a.num == b.num
  }

  function FindDevice(devs: seq<Device>, id: MtdId): Option<Device> {
    if devs == [] then None
    else if SameDevice(devs[0].id, id) then Some(devs[0])
    else FindDevice(devs[1..], id)
  }

  // Behind a device that already exists partitions continue at its end.
  function StartOffset(devs: seq<Device>, id: MtdId): u32 {
    match FindDevice(devs, id)
    case Some(d) =>
      if d.parts == [] then 0
      else var last := d.parts[|d.parts| - 1]; Add32(last.offset, last.size)
    case None => 0
  }

  function DeviceParse(ids: seq<MtdId>, devs: seq<Device>, s: string): (r: Option<(Device, string)>)
    ensures r.Some? ==> |r.value.1| < |s|
  {
    var (mtdId, t) :- SplitAt(s, ':');
    var id :- FindId(ids, mtdId);
    ParsePartsShortens(id, t, StartOffset(devs, id), []);
    var (parts, u) :- ParseParts(id, t, StartOffset(devs, id), []);
    if parts == [] then None
    else
      var sorted :- SortAddAll(parts);
      Some((Device(id, sorted), if u == "" then u else u[1..]))
  }

  function ParseDevices(ids: seq<MtdId>, s: string, devs: seq<Device>): Option<seq<Device>>
    decreases |s|
  {
    if s == "" then Some(devs)
    else
      var (d, rest) :- DeviceParse(ids, devs, s);
      if FindDevice(devs, d.id).Some? then None
      else ParseDevices(ids, rest, devs + [d])
  }

  const PREFIX := "mtdparts="

  function ParseMtdparts(ids: seq<MtdId>, s: string): Option<seq<Device>> {
    if !(PREFIX <= s) || s == PREFIX then None
    else ParseDevices(ids, s[|PREFIX|..], [])
  }

  // ------------------------------------------------------------------------
  // Termination: a partition with at least 4096 bytes has a text.

  lemma {:induction false} DigitsShorten(s: string, base: nat, acc: u32)
    ensures |Digits(s, base, acc).1| <= |s|
    ensures Digits(s, base, acc).0 != acc ==> |Digits(s, base, acc).1| < |s|
  {
    if s != "" && IsDigitOf(s[0], base) {
      DigitsShorten(s[1..], base, (acc * base + HexValue(s[0])) % U32);
    }
  }

  lemma MemsizeShortens(s: string)
    ensures |MemsizeParse(s).1| <= |s|
    ensures MemsizeParse(s).0 != 0 ==> |MemsizeParse(s).1| < |s|
  {
    var (base, t) := BasePrefix(s);
    DigitsShorten(t, base, 0);
  }

  lemma PartParseShortens(s: string)
    ensures PartParse(s).Some? ==> |PartParse(s).value.1| < |s|
  {
    MemsizeShortens(s);
    if ParseSize(s).Some? {
      var (size, s1) := ParseSize(s).value;
      if s1 != "" {
        MemsizeShortens(s1[1..]);
      }
    }
  }

  lemma {:induction false} ParsePartsShortens(id: MtdId, s: string, offset: u32, acc: seq<Part>)
    ensures var r := ParseParts(id, s, offset, acc);
            r.Some? ==> |r.value.1| <= |s| && (r.value.1 == "" || r.value.1[0] == ';')
    decreases |s|
  {
    if s != "" && s[0] != ';' {
      PartParseShortens(s);
      if PartParse(s).Some? {
        var (p, rest) := PartParse(s).value;
        var q := PartValidate(id, if p.offset == OFFSET_NOT_SPECIFIED then p.(offset := offset) else p);
        if q.Some? {
          ParsePartsShortens(id, rest, Add32(q.value.offset, q.value.size), acc + [q.value]);
        }
      }
    }
  }

  // ------------------------------------------------------------------------
  // Printing. An offset is written only where it is not the implied one.

  function PrintName(name: Option<string>): string {
    match name
    case None => ""
    case Some(n) => "(" + n + ")"
  }

  function PrintPart(p: Part, implied: u32): string {
    MemsizeFormat(p.size)
    + (if p.offset == implied then "" else "@" + MemsizeFormat(p.offset))
    + PrintName(p.name)
    + (if p.ro then "ro" else "")
  }

  function PrintParts(parts: seq<Part>, implied: u32): string {
    if parts == [] then ""
    else if |parts| == 1 then PrintPart(parts[0], implied)
    else PrintPart(parts[0], implied) + "," + PrintParts(parts[1..], Add32(parts[0].offset, parts[0].size))
  }

  function PrintDevice(d: Device): string {
    d.id.mtdId + ":" + PrintParts(d.parts, 0)
  }

  function PrintDevices(devs: seq<Device>): string {
    if devs == [] then ""
    else if |devs| == 1 then PrintDevice(devs[0])
    else PrintDevice(devs[0]) + ";" + PrintDevices(devs[1..])
  }

  function GenerateMtdparts(devs: seq<Device>): string {
    if devs == [] then "" else PREFIX + PrintDevices(devs)
  }
}
