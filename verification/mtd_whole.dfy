// What a whole mtdparts text means, when its devices are written in any way
// that the grammar allows.
module MtdWhole {
  import opened Wrappers
  import opened MtdGrammar
  import opened MtdRoundTrip
  import opened MtdSoundness
  import opened MtdWritten

  // A device: its name, and its partitions as written.
  datatype Entry = Entry(name: string, defs: seq<Definition>)

  predicate IsEntry(e: Entry) {
    ':' !in e.name && e.defs != [] && forall d | d in e.defs :: IsDefinition(d)
  }

  ghost predicate AreEntries(es: seq<Entry>) {
    forall e | e in es :: IsEntry(e)
  }

  function EntryText(e: Entry): string
    requires IsEntry(e)
  {
    e.name + ":" + DefinitionsText(e.defs)
  }

  function EntriesText(es: seq<Entry>): string
    requires es != [] && forall e | e in es :: IsEntry(e)
  {
    if |es| == 1 then EntryText(es[0]) else EntryText(es[0]) + ";" + EntriesText(es[1..])
  }

  // The device of that name, with its partitions in order.
  function Meant(ids: seq<MtdId>, e: Entry): Option<Device> {
    var id :- FindId(ids, e.name);
    var parts :- PlacedAll(id, e.defs, 0);
    var sorted :- SortAddAll(parts);
    Some(Device(id, sorted))
  }

  // There is a device of the same kind and number already.
  predicate Collides(devs: seq<Device>, id: MtdId) {
    exists i | 0 <= i < |devs| :: devs[i].id.chip.Nor? == id.chip.Nor? && devs[i].id.num == id.num
  }

  function AllMeant(ids: seq<MtdId>, es: seq<Entry>, done: seq<Device>): Option<seq<Device>> {
    if es == [] then Some(done)
    else
      var d :- Meant(ids, es[0]);
      if Collides(done, d.id) then None else AllMeant(ids, es[1..], done + [d])
  }

  // ------------------------------------------------------------------------

  // The first device of a name, if there is one.
  lemma {:induction false} FindIdIsFirst(ids: seq<MtdId>, name: string)
    ensures match FindId(ids, name)
            case None => forall i | 0 <= i < |ids| :: ids[i].mtdId != name
            case Some(id) => exists k | 0 <= k < |ids| ::
              ids[k] == id && id.mtdId == name && forall i | 0 <= i < k :: ids[i].mtdId != name
  {
    if ids != [] && ids[0].mtdId != name {
      FindIdIsFirst(ids[1..], name);
      if FindId(ids[1..], name).Some? {
        var k :| 0 <= k < |ids[1..]| && ids[1..][k] == FindId(ids, name).value
                 && forall i | 0 <= i < k :: ids[1..][i].mtdId != name;
        FirstBehind(ids, name, k);
      } else {
        forall i | 0 <= i < |ids| ensures ids[i].mtdId != name {
          assert i > 0 ==> ids[i] == ids[1..][i - 1];
        }
      }
    }
  }

  lemma FirstBehind(ids: seq<MtdId>, name: string, k: nat)
    requires k < |ids| - 1 && ids[0].mtdId != name && forall i | 0 <= i < k :: ids[1..][i].mtdId != name
    ensures ids[k + 1] == ids[1..][k] && forall i | 0 <= i < k + 1 :: ids[i].mtdId != name
  {
    forall i | 0 <= i < k + 1 ensures ids[i].mtdId != name {
      assert i > 0 ==> ids[i] == ids[1..][i - 1];
    }
  }

  lemma {:induction false} CollidesIsFound(devs: seq<Device>, id: MtdId)
    ensures Collides(devs, id) <==> FindDevice(devs, id).Some?
  {
    FindDeviceNone(devs, id);
  }

  lemma {:induction false} EntrySplits(e: Entry, rest: string, t: string)
    requires IsEntry(e) && t == DefinitionsText(e.defs) + rest
    ensures SplitAt(EntryText(e) + rest, ':') == Some((e.name, t))
  {
    SplitAtFirst(e.name, ':', t);
    assert EntryText(e) + rest == e.name + [':'] + t;
  }

  // What is found is one of its own name, whatever stands behind it.
  lemma {:induction false} ParsedHasId(ids: seq<MtdId>, devs: seq<Device>, s: string, name: string, t: string)
    requires SplitAt(s, ':') == Some((name, t))
    ensures FindId(ids, name) == None ==> DeviceParse(ids, devs, s) == None
    ensures DeviceParse(ids, devs, s).Some? ==> Some(DeviceParse(ids, devs, s).value.0.id) == FindId(ids, name)
  {
  }

  lemma {:induction false} SomeAreMeant(id: MtdId, defs: seq<Definition>)
    requires defs != [] && PlacedAll(id, defs, 0).Some?
    ensures PlacedAll(id, defs, 0).value != []
  {
  }

  // One device, unless it collides.
  lemma {:induction false} EntryIsRead(ids: seq<MtdId>, done: seq<Device>, e: Entry, rest: string, s: string)
    requires IsEntry(e) && (rest == "" || rest[0] == ';') && s == EntryText(e) + rest
    requires FindId(ids, e.name).Some? ==> !Collides(done, FindId(ids, e.name).value)
    ensures DeviceParse(ids, done, s)
            == if Meant(ids, e) == None then None else Some((Meant(ids, e).value, AfterSeparator(rest)))
  {
    var t := DefinitionsText(e.defs) + rest;
    EntrySplits(e, rest, t);
    ParsedHasId(ids, done, s, e.name, t);
    if FindId(ids, e.name).Some? {
      var id := FindId(ids, e.name).value;
      FoundId(ids, e.name);
      CollidesIsFound(done, id);
      DefinitionsAreRead(id, e.defs, t, 0, [], rest);
      NewDevice(ids, done, s, id, t);
      if PlacedAll(id, e.defs, 0).Some? {
        SomeAreMeant(id, e.defs);
        var parts := PlacedAll(id, e.defs, 0).value;
        assert [] + parts == parts;
        assert DeviceParse(ids, done, s) == MtdRoundTrip.Placed(id, parts, rest);
      }
    }
  }

  // One step of the loop over the devices.
  lemma {:induction false} EntryStep(ids: seq<MtdId>, done: seq<Device>, e: Entry, rest: string, s: string)
    requires IsEntry(e) && (rest == "" || rest[0] == ';') && s == EntryText(e) + rest
    ensures ParseDevices(ids, s, done)
            == if Meant(ids, e) == None || Collides(done, Meant(ids, e).value.id) then None
               else ParseDevices(ids, AfterSeparator(rest), done + [Meant(ids, e).value])
  {
    var t := DefinitionsText(e.defs) + rest;
    EntrySplits(e, rest, t);
    ParsedHasId(ids, done, s, e.name, t);
    assert s != "";
    if FindId(ids, e.name).Some? {
      CollidesIsFound(done, FindId(ids, e.name).value);
    }
    if FindId(ids, e.name).None? || !Collides(done, FindId(ids, e.name).value) {
      EntryIsRead(ids, done, e, rest, s);
    }
  }

  lemma {:induction false} FirstEntry(es: seq<Entry>, s: string, rest: string)
    requires es != [] && AreEntries(es) && s == EntriesText(es)
    requires rest == if |es| == 1 then "" else ";" + EntriesText(es[1..])
    ensures s == EntryText(es[0]) + rest
  {
  }

  lemma {:induction false} EntriesAreRead(ids: seq<MtdId>, es: seq<Entry>, done: seq<Device>, s: string)
    requires es != [] && AreEntries(es) && s == EntriesText(es)
    ensures ParseDevices(ids, s, done) == AllMeant(ids, es, done)
    decreases |es|
  {
    var e, others := es[0], es[1..];
    assert e in es;
    var rest := if |es| == 1 then "" else ";" + EntriesText(others);
    FirstEntry(es, s, rest);
    EntryStep(ids, done, e, rest, s);
    if Meant(ids, e).Some? && !Collides(done, Meant(ids, e).value.id) {
      var done' := done + [Meant(ids, e).value];
      if |es| == 1 {
        assert others == [];
      } else {
        EntriesAreRead(ids, others, done', EntriesText(others));
        assert AfterSeparator(rest) == EntriesText(others);
      }
    }
  }

  // The whole text is read as what it means: an error and no devices if a
  // name is unknown, a definition is not accepted, two partitions of a device
  // cannot be in order, or a device comes twice.
  lemma {:induction false} TextIsRead(ids: seq<MtdId>, es: seq<Entry>, s: string)
    requires es != [] && AreEntries(es) && s == EntriesText(es)
    ensures ParseMtdparts(ids, "mtdparts=" + s) == AllMeant(ids, es, [])
  {
    EntriesAreRead(ids, es, [], s);
    NotEmpty(es, s);
    assert ("mtdparts=" + s)[9..] == s;
  }

  lemma {:induction false} NotEmpty(es: seq<Entry>, s: string)
    requires es != [] && AreEntries(es) && s == EntriesText(es)
    ensures s != ""
  {
    FirstEntry(es, s, if |es| == 1 then "" else ";" + EntriesText(es[1..]));
  }
}
