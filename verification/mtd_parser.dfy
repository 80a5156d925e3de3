// The parser moving an index over the text, and the printer filling its
// buffer piece by piece.
module MtdParser {
  import opened Wrappers
  import opened MtdNumbers
  import G = MtdGrammar
  import RT = MtdRoundTrip

  type Part = G.Part
  type Device = G.Device
  type MtdId = G.MtdId

  lemma {:induction false} SplitAtNone(s: string, c: char)
    requires c !in s
    ensures G.SplitAt(s, c) == None
  {
    if s != "" {
      SplitAtNone(s[1..], c);
    }
  }

  // The index of the next c, or -1.
  method StrChr(s: string, start: nat, c: char) returns (i: int)
    requires start <= |s|
    ensures -1 <= i < |s|
    ensures i >= 0 ==> start <= i
    ensures G.SplitAt(s[start..], c) == if i < 0 then None else Some((s[start..i], s[i + 1..]))
  {
    i := start;
    while i < |s| && s[i] != c
      invariant start <= i <= |s| && c !in s[start..i]
    {
      i := i + 1;
    }
    if i == |s| {
      i := -1;
      SplitAtNone(s[start..], c);
    } else {
      assert s[start..] == s[start..i] + [c] + s[i + 1..];
      RT.SplitAtFirst(s[start..i], c, s[i + 1..]);
    }
  }

  // A parse result as a value and an index, against one with the text left.
  ghost predicate Same<T(!new)>(s: string, r: Option<(T, nat)>, spec: Option<(T, string)>) {
    && (r.None? <==> spec.None?)
    && (r.Some? ==> r.value.0 == spec.value.0 && r.value.1 <= |s| && s[r.value.1..] == spec.value.1)
  }

  method ParseName(s: string, start: nat) returns (r: Option<(Option<string>, nat)>)
    requires start <= |s|
    ensures Same(s, r, G.ParseName(s[start..]))
  {
    if start < |s| && s[start] == '(' {
      var name := start + 1;
      assert s[start..][1..] == s[name..];
      var p := StrChr(s, name, ')');
      if p < 0 || p - name == 0 {
        return None;
      }
      return Some((Some(s[name..p]), p + 1));
    }
    return Some((None, start));
  }

  // '-' for all remaining space, or a size of at least MIN_PART_SIZE.
  method ParseSize(s: string, start: nat) returns (r: Option<(u32, nat)>)
    requires start <= |s|
    ensures Same(s, r, G.ParseSize(s[start..]))
  {
    if start < |s| && s[start] == '-' {
      return Some((G.SIZE_REMAINING, start + 1));
    }
    var size, p := ParseMemsize(s, start);
    return if size < G.MIN_PART_SIZE then None else Some((size, p));
  }

  method ParseOffset(s: string, start: nat) returns (offset: u32, p: nat)
    requires start <= |s|
    ensures p <= |s| && (offset, s[p..]) == G.ParseOffset(s[start..])
  {
    offset, p := G.OFFSET_NOT_SPECIFIED, start;
    if start < |s| && s[start] == '@' {
      assert s[start..][1..] == s[start + 1..];
      offset, p := ParseMemsize(s, start + 1);
    }
  }

  // The option and the check for a next partition definition.
  method ParseEnd(s: string, start: nat, size: u32) returns (r: Option<(bool, nat)>)
    requires start <= |s|
    ensures var (ro, t) := G.ParseRo(s[start..]);
            && (r.None? <==> G.ParseSeparator(size, t).None?)
            && (r.Some? ==> r.value.0 == ro && r.value.1 <= |s| && Some(s[r.value.1..]) == G.ParseSeparator(size, t))
  {
    var p, ro := start, false;
    if p + 1 < |s| && s[p] == 'r' && s[p + 1] == 'o' {
      ro, p := true, p + 2;
    }
    assert G.ParseRo(s[start..]) == (ro, s[p..]);
    if p < |s| && s[p] == ',' {
      if size == G.SIZE_REMAINING {
        return None;
      }
      return Some((ro, p + 1));
    }
    if p < |s| && s[p] != ';' {
      return None;
    }
    return Some((ro, p));
  }

  method PartParse(s: string, partdef: nat) returns (r: Option<(Part, nat)>)
    requires partdef <= |s|
    ensures Same(s, r, G.PartParse(s[partdef..]))
  {
    var size :- ParseSize(s, partdef);
    var offset, p := ParseOffset(s, size.1);
    var name :- ParseName(s, p);
    var end :- ParseEnd(s, name.1, size.0);
    return Some((G.Part(size.0, offset, name.0, end.0), end.1));
  }

  // Links the partition in before the first one with a higher offset.
  method PartSortAdd(parts: seq<Part>, part: Part) returns (r: Option<seq<Part>>)
    ensures r == G.SortAdd(parts, part)
  {
    if parts == [] {
      return Some([part]);
    }
    var i := 0;
    assert forall t: seq<Part> :: parts[..0] + t == t;
    while i < |parts|
      invariant i <= |parts|
      invariant G.SortAdd(parts, part) ==
                (match G.SortAdd(parts[i..], part)
                 case None => None
                 case Some(tail) => Some(parts[..i] + tail))
    {
      assert parts[i..][1..] == parts[i + 1..];
      if part.offset == parts[i].offset && parts[i].offset == 0 {
        return None;
      }
      if part.offset <= parts[i].offset {
        return Some(parts[..i] + ([part] + parts[i..]));
      }
      assert forall t: seq<Part> :: parts[..i] + ([parts[i]] + t) == parts[..i + 1] + t;
      i := i + 1;
    }
    return Some(parts[..i] + [part]);
  }

  method DeviceParse(ids: seq<MtdId>, devs: seq<Device>, s: string, mtd_dev: nat) returns (r: Option<(Device, nat)>)
    requires mtd_dev <= |s|
    ensures Same(s, r, G.DeviceParse(ids, devs, s[mtd_dev..]))
    ensures r.Some? ==> mtd_dev < r.value.1
  {
    var p := StrChr(s, mtd_dev, ':');
    if p < 0 {
      return None;
    }
    var id :- FindById(ids, s[mtd_dev..p]);
    p := p + 1;
    var parsed :- ParsePartList(id, s, p, G.StartOffset(devs, id));
    var tmp_list, q := parsed.0, parsed.1;
    if |tmp_list| == 0 {
      return None;
    }
    G.ParsePartsShortens(id, s[p..], G.StartOffset(devs, id), []);
    var parts :- SortParts(tmp_list);
    return Some((G.Device(id, parts), if q < |s| then q + 1 else q));
  }

  // Moves the partitions over to the device, each at its place.
  method SortParts(tmp_list: seq<Part>) returns (r: Option<seq<Part>>)
    ensures r == G.SortAddAll(tmp_list)
  {
    var parts: seq<Part> := [];
    var i := 0;
    while i < |tmp_list|
      invariant i <= |tmp_list| && G.SortAddAll(tmp_list[..i]) == Some(parts)
    {
      assert tmp_list[..i + 1][..i] == tmp_list[..i];
      var more := PartSortAdd(parts, tmp_list[i]);
      if more.None? {
        SortAddFails(tmp_list, i);
        return None;
      }
      parts := more.value;
      i := i + 1;
    }
    assert tmp_list[..i] == tmp_list;
    return Some(parts);
  }

  lemma {:induction false} SortAddFails(parts: seq<Part>, i: nat)
    requires i < |parts| && G.SortAddAll(parts[..i + 1]) == None
    ensures G.SortAddAll(parts) == None
    decreases |parts| - i
  {
    if i + 1 < |parts| {
      assert parts[..i + 2][..i + 1] == parts[..i + 1];
      SortAddFails(parts, i + 1);
    } else {
      assert parts[..i + 1] == parts;
    }
  }

  method FindById(ids: seq<MtdId>, mtdId: string) returns (r: Option<MtdId>)
    ensures r == G.FindId(ids, mtdId)
  {
    var i := 0;
    while i < |ids|
      invariant i <= |ids| && G.FindId(ids, mtdId) == G.FindId(ids[i..], mtdId)
    {
      if ids[i].mtdId == mtdId {
        return Some(ids[i]);
      }
      assert ids[i..][1..] == ids[i + 1..];
      i := i + 1;
    }
    return None;
  }

  // The partitions up to ';' or the end, each one validated in turn.
  method ParsePartList(id: MtdId, s: string, start: nat, offset0: u32) returns (r: Option<(seq<Part>, nat)>)
    requires start <= |s|
    ensures Same(s, r, G.ParseParts(id, s[start..], offset0, []))
    ensures r.Some? ==> start <= r.value.1
  {
    var p, offset := start, offset0;
    var tmp_list: seq<Part> := [];
    while p < |s| && s[p] != ';'
      invariant start <= p <= |s|
      invariant G.ParseParts(id, s[start..], offset0, []) == G.ParseParts(id, s[p..], offset, tmp_list)
      decreases |s| - p
    {
      G.PartParseShortens(s[p..]);
      var parsed :- PartParse(s, p);
      var part, next := parsed.0, parsed.1;
      if part.offset == G.OFFSET_NOT_SPECIFIED {
        part := part.(offset := offset);
      }
      var valid := G.PartValidate(id, part);
      if valid.None? {
        return None;
      }
      offset := G.Add32(valid.value.offset, valid.value.size);
      tmp_list := tmp_list + [valid.value];
      p := next;
    }
    return Some((tmp_list, p));
  }

  method ParseMtdparts(ids: seq<MtdId>, s: string) returns (r: Option<seq<Device>>)
    ensures r == G.ParseMtdparts(ids, s)
  {
    if !(G.PREFIX <= s) {
      return None;
    }
    var p := |G.PREFIX|;
    var devices: seq<Device> := [];
    if p == |s| {
      return None;
    }
    while p < |s|
      invariant |G.PREFIX| <= p <= |s|
      invariant G.ParseMtdparts(ids, s) == G.ParseDevices(ids, s[p..], devices)
      decreases |s| - p
    {
      var parsed :- DeviceParse(ids, devices, s, p);
      if G.FindDevice(devices, parsed.0.id).Some? {
        return None;
      }
      devices := devices + [parsed.0];
      p := parsed.1;
    }
    return Some(devices);
  }

  // ------------------------------------------------------------------------
  // The printer. Everything but the prefix is charged to maxlen.

  // The text so far and the room left.
  type Buffer = (string, nat)

  function Put(b: Buffer, piece: string): Option<Buffer> {
    if |piece| > b.1 then None else Some((b.0 + piece, b.1 - |piece|))
  }

  // Putting two pieces is putting their concatenation.
  lemma PutTwice(b: Buffer, x: string, y: string)
    ensures Put(b, x + y) == if Put(b, x).None? then None else Put(Put(b, x).value, y)
  {
    assert b.0 + (x + y) == b.0 + x + y;
  }

  lemma PutNothing(b: Buffer)
    ensures Put(b, "") == Some(b)
  {
    assert b.0 + "" == b.0;
  }

  method PrintPart(p: Part, implied: u32, b: Buffer) returns (r: Option<Buffer>)
    ensures r == Put(b, G.PrintPart(p, implied))
  {
    ghost var size := MemsizeFormat(p.size);
    ghost var offset := if p.offset == implied then "" else "@" + MemsizeFormat(p.offset);
    ghost var name, ro := G.PrintName(p.name), if p.ro then "ro" else "";
    PutTwice(b, size + offset + name, ro);
    PutTwice(b, size + offset, name);
    PutTwice(b, size, offset);
    assert G.PrintPart(p, implied) == size + offset + name + ro;
    var c :- Put(b, MemsizeFormat(p.size));
    PutNothing(c);
    if p.offset != implied {
      c :- Put(c, "@" + MemsizeFormat(p.offset));
    }
    PutNothing(c);
    if p.name.Some? {
      c :- Put(c, "(" + p.name.value + ")");
    }
    PutNothing(c);
    if p.ro {
      c :- Put(c, "ro");
    }
    return Some(c);
  }

  // The first partition is printed, then a comma and the others.
  lemma {:induction false} PrintNext(b: Buffer, parts: seq<Part>, others: seq<Part>, implied: u32, next: u32)
    requires parts != [] && others == parts[1..] && next == G.Add32(parts[0].offset, parts[0].size)
    ensures var first := Put(b, G.PrintPart(parts[0], implied));
            Put(b, G.PrintParts(parts, implied)) ==
            if first.None? then None
            else Put(first.value, if others == [] then "" else "," + G.PrintParts(others, next))
  {
    var one := G.PrintPart(parts[0], implied);
    if others == [] {
      assert one + "" == one;
      PutTwice(b, one, "");
    } else {
      assert one + "," + G.PrintParts(others, next) == one + ("," + G.PrintParts(others, next));
      PutTwice(b, one, "," + G.PrintParts(others, next));
    }
  }

  method PrintParts(parts: seq<Part>, b: Buffer) returns (r: Option<Buffer>)
    ensures r == Put(b, G.PrintParts(parts, 0))
  {
    var c := b;
    var implied: u32 := 0;
    var i := 0;
    while i < |parts|
      invariant i <= |parts| && Put(c, G.PrintParts(parts[i..], implied)) == Put(b, G.PrintParts(parts, 0))
    {
      var next := G.Add32(parts[i].offset, parts[i].size);
      PrintNext(c, parts[i..], parts[i + 1..], implied, next);
      c :- PrintPart(parts[i], implied, c);
      if i + 1 < |parts| {
        PutTwice(c, ",", G.PrintParts(parts[i + 1..], next));
        c :- Put(c, ",");
      }
      implied := next;
      i := i + 1;
    }
    PutNothing(c);
    return Some(c);
  }

  // None if the text, its prefix not counted, is longer than buflen - 1.
  method GenerateMtdparts(devices: seq<Device>, buflen: u32) returns (r: Option<string>)
    ensures r == if devices != [] && |G.PrintDevices(devices)| > (buflen - 1) % U32 then None
                 else Some(G.GenerateMtdparts(devices))
  {
    if |devices| == 0 {
      return Some("");
    }
    var c: Buffer := (G.PREFIX, (buflen - 1) % U32);
    ghost var b := c;
    var i := 0;
    while i < |devices|
      invariant i <= |devices| && Put(c, G.PrintDevices(devices[i..])) == Put(b, G.PrintDevices(devices))
    {
      ghost var tail := devices[i..];
      ghost var id, parts := devices[i].id.mtdId + ":", G.PrintParts(devices[i].parts, 0);
      assert tail[1..] == devices[i + 1..];
      assert G.PrintDevice(devices[i]) == id + parts;
      PutTwice(c, id, parts);
      if i + 1 < |devices| {
        PutTwice(c, id + parts + ";", G.PrintDevices(devices[i + 1..]));
        PutTwice(c, id + parts, ";");
      }
      c :- Put(c, devices[i].id.mtdId + ":");
      c :- PrintParts(devices[i].parts, c);
      PutNothing(c);
      if i + 1 < |devices| {
        c :- Put(c, ";");
      }
      i := i + 1;
    }
    PutNothing(c);
    return Some(c.0);
  }

  // Saves the devices as text and reads them back: the same devices exactly if
  // the text fits and the round trip holds.
  method SaveAndReload(ids: seq<MtdId>, devices: seq<Device>, buflen: u32) returns (r: Option<seq<Device>>)
    requires devices != [] && RT.DevicesOk(ids, devices)
    ensures r == Some(devices) <==> |G.PrintDevices(devices)| <= (buflen - 1) % U32 && RT.AllReadBack(devices)
  {
    var text :- GenerateMtdparts(devices, buflen);
    RT.RoundTrip(ids, devices);
    r := ParseMtdparts(ids, text);
  }
}
