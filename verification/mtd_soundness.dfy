// What can be said of the devices that any text is parsed to.
module MtdSoundness {
  import opened Wrappers
  import opened MtdNumbers
  import opened MtdGrammar
  import opened MtdSorting
  import opened MtdRoundTrip

  // Checked against its chip, and with a name that can be printed.
  ghost predicate Sound(id: MtdId, p: Part) {
    NameOk(p.name) && PartValidate(id, p) == Some(p)
  }

  ghost predicate AllSound(id: MtdId, parts: seq<Part>) {
    forall p | p in parts :: Sound(id, p)
  }

  ghost predicate SoundDevice(ids: seq<MtdId>, d: Device) {
    && ':' !in d.id.mtdId && FindId(ids, d.id.mtdId) == Some(d.id)
    && d.parts != [] && AllSound(d.id, d.parts) && Ascending(d.parts)
  }

  ghost predicate SoundDevices(ids: seq<MtdId>, devs: seq<Device>) {
    && (forall i | 0 <= i < |devs| :: SoundDevice(ids, devs[i]))
    && (forall i, j | 0 <= i < j < |devs| :: !SameDevice(devs[i].id, devs[j].id))
  }

  // ------------------------------------------------------------------------
  // One partition.

  // What passes the check lies inside its chip, is not empty, and is aligned;
  // nothing wraps around.
  lemma ValidatedExactly(id: MtdId, p: Part)
    requires p.size != SIZE_REMAINING
    ensures PartValidate(id, p) == Some(p)
            <==> 0 < p.size && p.offset + p.size <= id.size && Aligned(id.chip, id.size, p.offset, p.size)
  {
  }

  // A partition of all remaining space ends where the chip ends.
  lemma FillUpReachesTheEnd(id: MtdId, p: Part)
    requires p.size == SIZE_REMAINING && PartValidate(id, p).Some?
    ensures var q := PartValidate(id, p).value;
            q == p.(size := q.size) && q.offset + q.size == id.size
  {
  }

  // Checking twice is checking once.
  lemma ValidatedAgain(id: MtdId, p: Part)
    requires PartValidate(id, p).Some?
    ensures PartValidate(id, PartValidate(id, p).value) == PartValidate(id, p)
  {
  }

  lemma {:induction false} SplitAtIsFirst(s: string, c: char)
    ensures match SplitAt(s, c)
            case None => c !in s
            case Some((a, b)) => c !in a && s == a + [c] + b
  {
    if s != "" {
      if s[0] == c {
        assert s == "" + [c] + s[1..];
      } else {
        SplitAtIsFirst(s[1..], c);
        assert s == [s[0]] + s[1..];
      }
    }
  }

  lemma ParsedName(s: string)
    ensures PartParse(s).Some? ==> NameOk(PartParse(s).value.0.name)
  {
    if PartParse(s).Some? {
      var s2 := ParseOffset(ParseSize(s).value.1).1;
      if s2 != "" {
        SplitAtIsFirst(s2[1..], ')');
      }
    }
  }

  // ------------------------------------------------------------------------
  // The partitions of one device.

  lemma {:induction false} ParsedParts(id: MtdId, s: string, offset: u32, acc: seq<Part>)
    requires AllSound(id, acc)
    ensures var r := ParseParts(id, s, offset, acc); r.Some? ==> AllSound(id, r.value.0)
    decreases |s|
  {
    if s != "" && s[0] != ';' && PartParse(s).Some? {
      PartParseShortens(s);
      ParsedName(s);
      var (p, rest) := PartParse(s).value;
      var placed := if p.offset == OFFSET_NOT_SPECIFIED then p.(offset := offset) else p;
      if PartValidate(id, placed).Some? {
        ValidatedAgain(id, placed);
        var q := PartValidate(id, placed).value;
        ParsedParts(id, rest, Add32(q.offset, q.size), acc + [q]);
      }
    }
  }

  lemma SamePartsAreSound(id: MtdId, parts: seq<Part>, sorted: seq<Part>)
    requires AllSound(id, parts) && multiset(sorted) == multiset(parts) && parts != []
    ensures AllSound(id, sorted) && sorted != []
  {
    forall p | p in sorted ensures Sound(id, p) {
      assert p in multiset(sorted);
    }
    assert parts[0] in multiset(sorted);
  }

  lemma {:induction false} FoundId(ids: seq<MtdId>, mtdId: string)
    ensures FindId(ids, mtdId).Some? ==> FindId(ids, mtdId).value.mtdId == mtdId
  {
    if ids != [] {
      FoundId(ids[1..], mtdId);
    }
  }

  lemma ParsedDevice(ids: seq<MtdId>, devs: seq<Device>, s: string)
    ensures var r := DeviceParse(ids, devs, s); r.Some? ==> SoundDevice(ids, r.value.0)
  {
    if DeviceParse(ids, devs, s).Some? {
      var (mtdId, t) := SplitAt(s, ':').value;
      SplitAtIsFirst(s, ':');
      FoundId(ids, mtdId);
      var id := FindId(ids, mtdId).value;
      ParsedParts(id, t, StartOffset(devs, id), []);
      var parts := ParseParts(id, t, StartOffset(devs, id), []).value.0;
      SortAddAllSound(parts);
      SamePartsAreSound(id, parts, SortAddAll(parts).value);
    }
  }

  // ------------------------------------------------------------------------
  // All devices.

  lemma {:induction false} ParsedDevices(ids: seq<MtdId>, s: string, devs: seq<Device>)
    requires SoundDevices(ids, devs)
    ensures var r := ParseDevices(ids, s, devs); r.Some? ==> SoundDevices(ids, r.value)
    ensures var r := ParseDevices(ids, s, devs); r.Some? && s != "" ==> r.value != []
    decreases |s|
  {
    if s != "" && DeviceParse(ids, devs, s).Some? {
      ParsedDevice(ids, devs, s);
      var (d, rest) := DeviceParse(ids, devs, s).value;
      if FindDevice(devs, d.id) == None {
        FindDeviceNone(devs, d.id);
        ParsedDevices(ids, rest, devs + [d]);
      }
    }
  }

  // Whatever text is accepted, its devices are known ones, none twice, each
  // with at least one partition, in order, inside the chip and aligned.
  lemma ParsedIsSound(ids: seq<MtdId>, s: string)
    ensures var r := ParseMtdparts(ids, s); r.Some? ==> SoundDevices(ids, r.value) && r.value != []
  {
    if PREFIX <= s && s != PREFIX {
      ParsedDevices(ids, s[|PREFIX|..], []);
    }
  }

  // No two partitions of a device are the same in everything.
  ghost predicate NoneTwice(devs: seq<Device>) {
    forall d | d in devs :: AllDifferent(d.parts)
  }

  lemma {:induction false} SoundPartsAreOk(id: MtdId, parts: seq<Part>)
    requires AllSound(id, parts)
    ensures EachPartOk(id, parts)
  {
    if parts != [] {
      assert parts[0] in parts;
      SoundPartsAreOk(id, parts[1..]);
    }
  }

  // Printing what was parsed, and parsing that, gives the same devices again,
  // exactly under the condition of the round trip.
  lemma ParsePrintParse(ids: seq<MtdId>, s: string)
    requires ParseMtdparts(ids, s).Some? && NoneTwice(ParseMtdparts(ids, s).value)
    ensures var devs := ParseMtdparts(ids, s).value;
            ParseMtdparts(ids, GenerateMtdparts(devs)) == Some(devs) <==> AllReadBack(devs)
  {
    var devs := ParseMtdparts(ids, s).value;
    ParsedIsSound(ids, s);
    forall i | 0 <= i < |devs| ensures DeviceOk(ids, devs[i]) {
      assert devs[i] in devs;
      SoundPartsAreOk(devs[i].id, devs[i].parts);
    }
    RoundTrip(ids, devs);
  }
}
