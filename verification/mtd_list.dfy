// The partition manager's live state: devices with their offset-sorted
// partition lists, and the index that names the current partition.
module MtdList {

  class PartInfo {
    const offset: nat

    constructor (offset: nat)
      ensures this.offset == offset
    {
      this.offset := offset;
    }
  }

  predicate Sorted(parts: seq<PartInfo>) {
    forall i, j | 0 <= i < j < |parts| :: parts[i].offset <= parts[j].offset
  }

  predicate NoRepeats<T(==)>(s: seq<T>) {
    forall i, j | 0 <= i < j < |s| :: s[i] != s[j]
  }

  // No two partitions of a list start at the same offset.
  predicate DistinctOffsets(parts: seq<PartInfo>) {
    forall i, j | 0 <= i < j < |parts| :: parts[i].offset != parts[j].offset
  }

  // Where a new partition goes: before the first that does not start below.
  function InsertIndex(parts: seq<PartInfo>, part: PartInfo): (i: nat)
    ensures i <= |parts|
    ensures forall j | 0 <= j < i :: parts[j].offset < part.offset
    ensures i < |parts| ==> part.offset <= parts[i].offset
  {
    if parts == [] || part.offset <= parts[0].offset then 0
    else 1 + InsertIndex(parts[1..], part)
  }

  function Inserted(parts: seq<PartInfo>, part: PartInfo): seq<PartInfo> {
    var i := InsertIndex(parts, part);
    parts[..i] + [part] + parts[i..]
  }

  function Removed<T>(s: seq<T>, i: nat): seq<T>
    requires i < |s|
  {
    s[..i] + s[i + 1..]
  }

  function IndexOf<T(==)>(s: seq<T>, x: T): (i: nat)
    requires x in s
    ensures i < |s| && s[i] == x
  {
    if s[0] == x then 0 else 1 + IndexOf(s[1..], x)
  }

  lemma {:induction false} InsertedAt(parts: seq<PartInfo>, part: PartInfo)
    ensures var i, r := InsertIndex(parts, part), Inserted(parts, part);
            |r| == |parts| + 1 &&
            forall j | 0 <= j < |r| :: r[j] == if j < i then parts[j] else if j == i then part else parts[j - 1]
  {
  }

  lemma InsertKeepsOrder(parts: seq<PartInfo>, part: PartInfo)
    requires Sorted(parts) && NoRepeats(parts) && part !in parts
    ensures Sorted(Inserted(parts, part)) && NoRepeats(Inserted(parts, part))
  {
    InsertKeepsSorted(parts, part);
    InsertedAt(parts, part);
  }

  lemma InsertKeepsSorted(parts: seq<PartInfo>, part: PartInfo)
    requires Sorted(parts)
    ensures Sorted(Inserted(parts, part))
  {
    var i, r := InsertIndex(parts, part), Inserted(parts, part);
    InsertedAt(parts, part);
    assert forall j | i <= j < |parts| :: parts[i].offset <= parts[j].offset;
  }

  lemma InsertKeepsDistinct(parts: seq<PartInfo>, part: PartInfo)
    requires DistinctOffsets(parts) && forall p | p in parts :: p.offset != part.offset
    ensures DistinctOffsets(Inserted(parts, part))
  {
    InsertedAt(parts, part);
  }

  lemma RemoveKeepsOrder(parts: seq<PartInfo>, i: nat)
    requires Sorted(parts) && NoRepeats(parts) && i < |parts|
    ensures Sorted(Removed(parts, i)) && NoRepeats(Removed(parts, i))
    ensures DistinctOffsets(parts) ==> DistinctOffsets(Removed(parts, i))
  {
  }

  class MtdDevice {
    var num_parts: nat
    var parts: seq<PartInfo>

    // The list is sorted by offset and num_parts is its length.
    predicate Ok()
      reads this
    {
      num_parts == |parts| < 0x1_0000 && Sorted(parts) && NoRepeats(parts)
    }

    constructor ()
      ensures Ok() && parts == []
    {
      num_parts, parts := 0, [];
    }
  }

  // The partitions of all devices, one list after the other.
  ghost function AllParts(ds: seq<MtdDevice>): seq<PartInfo>
    reads ds
  {
    if ds == [] then [] else AllParts(ds[..|ds| - 1]) + ds[|ds| - 1].parts
  }

  lemma {:induction false} AllPartsAt(ds: seq<MtdDevice>, k: nat, i: nat)
    requires k < |ds| && i < |ds[k].parts|
    ensures var at := |AllParts(ds[..k])| + i;
            at < |AllParts(ds)| && AllParts(ds)[at] == ds[k].parts[i]
  {
    var n := |ds| - 1;
    if k < n {
      AllPartsAt(ds[..n], k, i);
      assert ds[..n][..k] == ds[..k];
    }
  }

  lemma CountOne(ds: seq<MtdDevice>, k: nat)
    requires k < |ds| && ds[k].Ok()
    ensures |AllParts(ds[..k + 1])| == |AllParts(ds[..k])| + ds[k].num_parts
  {
    assert ds[..k + 1][..k] == ds[..k];
  }

  lemma {:induction false} FirstIndex<T>(s: seq<T>, x: T, k: nat)
    requires NoRepeats(s) && k < |s| && s[k] == x
    ensures IndexOf(s, x) == k
  {
    assert s[IndexOf(s, x)] == s[k];
  }

  lemma {:induction false} BehindInsertion(parts: seq<PartInfo>, part: PartInfo, c: nat)
    requires Sorted(parts) && c < |parts|
    ensures var i := InsertIndex(parts, part); i < |parts| && parts[i].offset <= parts[c].offset <==> i <= c
  {
    var i := InsertIndex(parts, part);
    if c < i < |parts| {
      assert parts[c].offset < part.offset <= parts[i].offset;
    }
  }

  // An insertion moves the current partition up by one exactly if the entry
  // it is put before does not start behind it.
  lemma {:induction false} CurrentAfterInsert(parts: seq<PartInfo>, part: PartInfo, c: nat)
    requires Sorted(parts) && c < |parts|
    ensures var i := InsertIndex(parts, part);
            var moved := i < |parts| && parts[i].offset <= parts[c].offset;
            Inserted(parts, part)[if moved then c + 1 else c] == parts[c]
  {
    BehindInsertion(parts, part, c);
    InsertedAt(parts, part);
  }

  // Partition i starts where the current one does, and comes after it.
  predicate Tie(parts: seq<PartInfo>, i: nat, c: nat)
    requires i < |parts| && c < |parts|
  {
    i > c && parts[i].offset == parts[c].offset
  }

  // A deletion moves the index down exactly if the deleted partition does not
  // start behind the current one; that is right unless the two tie.
  lemma CurrentAfterRemove(parts: seq<PartInfo>, i: nat, c: nat)
    requires Sorted(parts) && NoRepeats(parts) && i < |parts| && c < |parts| && i != c
    ensures var k := if parts[i].offset <= parts[c].offset then (c + 255) % 256 else c;
            c < 256 ==>
              (k < |Removed(parts, i)| && Removed(parts, i)[k] == parts[c] <==> !Tie(parts, i, c))
  {
    if i < c {
      assert parts[i].offset <= parts[c].offset;
    } else {
      assert Removed(parts, i)[c] == parts[c];
      assert parts[c].offset <= parts[i].offset;
      RemoveKeepsOrder(parts, i);
    }
  }

  // The index stays in range, except that a deletion that ties with partition
  // 0 moves it down to 255.
  lemma RangeAfterRemove(parts: seq<PartInfo>, i: nat, c: nat)
    requires Sorted(parts) && NoRepeats(parts) && i < |parts| && c < |parts| && i != c && c < 256
    ensures var k := if parts[i].offset <= parts[c].offset then (c + 255) % 256 else c;
            && (k < |parts| - 1 <==> !(c == 0 && Tie(parts, i, c) && |parts| <= 256))
            && (c == 0 && Tie(parts, i, c) ==> k == 255)
  {
    if i < c {
      assert parts[i].offset <= parts[c].offset;
    } else {
      assert parts[c].offset <= parts[i].offset;
    }
  }

  // The index (a u8) as the source adjusts it; one that is out of range stays.
  function IndexAfterInsert(parts: seq<PartInfo>, part: PartInfo, c: nat): nat {
    var i := InsertIndex(parts, part);
    if c < |parts| && i < |parts| && parts[i].offset <= parts[c].offset then (c + 1) % 256 else c
  }

  function IndexAfterRemove(parts: seq<PartInfo>, i: nat, c: nat): nat
    requires i < |parts|
  {
    if c >= |parts| then c
    else if i == c then 0
    else if parts[i].offset <= parts[c].offset then (c + 255) % 256
    else c
  }

  // The entry that the new one is put before does not start behind c.
  predicate MovesUp(parts: seq<PartInfo>, part: PartInfo, c: nat)
    requires c < |parts|
  {
    var i := InsertIndex(parts, part);
    i < |parts| && parts[i].offset <= parts[c].offset
  }

  // After an insertion the index is in range; it names another partition
  // exactly if it has to move up from 255.
  lemma InsertedIndex(parts: seq<PartInfo>, part: PartInfo, c: nat)
    requires Sorted(parts) && NoRepeats(parts) && part !in parts && c < |parts| && c < 256
    ensures var k, r := IndexAfterInsert(parts, part, c), Inserted(parts, part);
            && k < |r|
            && (r[k] == parts[c] <==> !(c == 255 && MovesUp(parts, part, c)))
  {
    InsertedAt(parts, part);
    CurrentAfterInsert(parts, part, c);
    WrappedIndex(parts, part, c);
    if c > 0 {
      FirstIsOther(parts, part, c);
    }
  }

  lemma WrappedIndex(parts: seq<PartInfo>, part: PartInfo, c: nat)
    requires c < |parts| && c < 256
    ensures IndexAfterInsert(parts, part, c) ==
            if !MovesUp(parts, part, c) then c else if c == 255 then 0 else c + 1
  {
  }

  lemma FirstIsOther(parts: seq<PartInfo>, part: PartInfo, c: nat)
    requires NoRepeats(parts) && part !in parts && 0 < c < |parts|
    ensures Inserted(parts, part)[0] != parts[c]
  {
    InsertedAt(parts, part);
  }

  lemma RemovedIndex(parts: seq<PartInfo>, i: nat, c: nat)
    requires Sorted(parts) && NoRepeats(parts) && 1 < |parts| && i < |parts| && c < |parts| && i != c && c < 256
    ensures var k, r := IndexAfterRemove(parts, i, c), Removed(parts, i);
            && (k < |r| && r[k] == parts[c] <==> !Tie(parts, i, c))
            && (k < |r| <==> !(c == 0 && Tie(parts, i, c) && |parts| <= 256))
            && (k >= |r| ==> k == 255)
  {
    CurrentAfterRemove(parts, i, c);
    RangeAfterRemove(parts, i, c);
  }

  lemma DistinctHasNoTie(parts: seq<PartInfo>, i: nat, c: nat)
    requires DistinctOffsets(parts) && i < |parts| && c < |parts|
    ensures !Tie(parts, i, c)
  {
  }

  lemma RemoveKeepsRest<T>(s: seq<T>, i: nat)
    requires NoRepeats(s) && i < |s|
    ensures NoRepeats(Removed(s, i)) && s[i] !in Removed(s, i)
    ensures forall x | x in s && x != s[i] :: x in Removed(s, i)
    ensures forall x | x in Removed(s, i) :: x in s
  {
    forall x | x in s && x != s[i] ensures x in Removed(s, i) {
      var k := IndexOf(s, x);
      assert Removed(s, i)[if k < i then k else k - 1] == x;
    }
  }

  function U16(n: nat): nat {
    n % 0x1_0000
  }

  lemma IndexStep(ds: seq<MtdDevice>, k: nat, num: nat)
    requires k < |ds| && ds[k].Ok() && num == U16(|AllParts(ds[..k])|)
    ensures U16(num + ds[k].num_parts) == U16(|AllParts(ds[..k + 1])|)
  {
    CountOne(ds, k);
    U16Add(|AllParts(ds[..k])|, ds[k].num_parts);
  }

  lemma U16Add(m: nat, n: nat)
    ensures U16(U16(m) + n) == U16(m + n)
  {
    var q := m / 0x1_0000;
    assert m + n == U16(m) + n + q * 0x1_0000;
  }

  class Manager {
    var devices: seq<MtdDevice>
    var current_dev: MtdDevice?
    var current_partnum: nat   // u8
    var mtddevnum: int         // the environment variable; -1 when not set

    // The lists are in order, whatever the index.
    ghost predicate Lists()
      reads this, devices
    {
      && NoRepeats(devices)
      && (forall d | d in devices :: d.Ok() && d.parts != [])
      && (current_dev != null ==> current_dev in devices)
      && current_partnum < 256
    }

    // The index names a partition of the current device.
    ghost predicate InRange()
      reads this, current_dev
    {
      current_dev != null ==> current_partnum < |current_dev.parts|
    }

    ghost predicate Ordered()
      reads this, devices
    {
      Lists() && mtddevnum == Position()
    }

    ghost predicate Valid()
      reads this, devices, current_dev
    {
      Ordered() && InRange()
    }

    // The global number of the current partition (a u16), or -1.
    ghost function Position(): int
      reads this, devices
    {
      if current_dev == null || current_dev !in devices then -1
      else U16(|AllParts(devices[..IndexOf(devices, current_dev)])| + current_partnum)
    }

    function CurrentPart(): PartInfo?
      reads this, current_dev
    {
      if current_dev == null || current_partnum >= |current_dev.parts| then null
      else current_dev.parts[current_partnum]
    }

    // mtddevnum is the position of the current partition in the
    // concatenation of all lists, as long as a u16 can count that far.
    lemma PositionNamesCurrent()
      requires Valid() && current_dev != null && |AllParts(devices)| < 0x1_0000
      ensures 0 <= mtddevnum < |AllParts(devices)| && AllParts(devices)[mtddevnum] == CurrentPart()
    {
      AllPartsAt(devices, IndexOf(devices, current_dev), current_partnum);
    }

    constructor ()
      ensures Valid() && devices == [] && current_dev == null
    {
      devices, current_dev, current_partnum, mtddevnum := [], null, 0, -1;
    }

    // Computes mtddevnum anew.
    method IndexPartitions()
      requires NoRepeats(devices) && (forall d | d in devices :: d.Ok())
      requires current_dev != null ==> current_dev in devices
      modifies this`mtddevnum
      ensures mtddevnum == Position()
    {
      if current_dev == null {
        mtddevnum := -1;
        return;
      }
      ghost var at := IndexOf(devices, current_dev);
      var num, k := 0, 0;
      while devices[k] != current_dev
        invariant 0 <= k <= at
        invariant num == U16(|AllParts(devices[..k])|)
        decreases at - k
      {
        IndexStep(devices, k, num);
        num := U16(num + devices[k].num_parts);
        k := k + 1;
      }
      FirstIndex(devices, current_dev, k);
      U16Add(|AllParts(devices[..k])|, current_partnum);
      mtddevnum := U16(num + current_partnum);
    }

    // Everything but dev's list, the current index and mtddevnum.
    twostate predicate OnlyChanged(dev: MtdDevice)
      reads this, devices
    {
      && devices == old(devices) && current_dev == old(current_dev)
      && forall d | d in devices && d != dev :: d.parts == old(d.parts) && d.num_parts == old(d.num_parts)
    }

    // The current partition is number 255 of dev and has to move up.
    ghost predicate WrapsAround(dev: MtdDevice, part: PartInfo)
      reads this, dev
    {
      dev == current_dev && current_partnum == 255 < |dev.parts| && MovesUp(dev.parts, part, 255)
    }

    // Adds a partition to a device of the list, or to one that is still
    // being built. The current index stays in range if it was, and keeps
    // naming the same partition exactly unless it wraps around.
    method PartSortAdd(dev: MtdDevice, part: PartInfo) returns (ok: bool)
      requires Ordered() && dev.Ok() && part !in dev.parts && |dev.parts| < 0xFFFF
      modifies this`current_partnum, this`mtddevnum, dev
      ensures Ordered() && dev.Ok() && OnlyChanged(dev) && (old(InRange()) ==> InRange())
      ensures ok <==> !(old(dev.parts) != [] && part.offset == old(dev.parts)[0].offset == 0)
      ensures dev.parts == if ok then Inserted(old(dev.parts), part) else old(dev.parts)
      ensures old(InRange()) ==>
                (CurrentPart() == old(CurrentPart()) <==> !(ok && old(WrapsAround(dev, part))))
    {
      if |dev.parts| == 0 {
        assert InsertIndex([], part) == 0;
        LinkAndIndex(dev, 0, part, false);
        return true;
      }
      var curr_pi: PartInfo? := if dev == current_dev then CurrentPart() else null;
      ghost var at := InsertIndex(dev.parts, part);
      var entry := 0;
      while entry < |dev.parts|
        invariant 0 <= entry <= at
        invariant entry > 0 ==> dev.parts[0].offset < part.offset
        decreases at - entry
      {
        var pi := dev.parts[entry];
        if part.offset == pi.offset && pi.offset == 0 {
          return false;
        }
        if part.offset <= pi.offset {
          LinkAndIndex(dev, entry, part, curr_pi != null && pi.offset <= curr_pi.offset);
          return true;
        }
        entry := entry + 1;
      }
      LinkAndIndex(dev, entry, part, false);
      return true;
    }

    // The current partition belongs to dev, and entry i does not start behind
    // it.
    ghost predicate IsBehind(dev: MtdDevice, i: nat)
      reads this, dev
    {
      && dev == current_dev && i < |dev.parts| && current_partnum < |dev.parts|
      && dev.parts[i].offset <= dev.parts[current_partnum].offset
    }

    // Links the partition in before entry i, and moves the current index up
    // if it names an entry from there on.
    method LinkAndShift(dev: MtdDevice, i: nat, part: PartInfo, behind: bool)
      requires Lists() && dev.Ok() && part !in dev.parts && |dev.parts| < 0xFFFF && i == InsertIndex(dev.parts, part)
      requires behind <==> IsBehind(dev, i)
      modifies this`current_partnum, dev
      ensures Lists() && dev.Ok() && OnlyChanged(dev) && dev.parts == Inserted(old(dev.parts), part)
      ensures current_partnum ==
              if dev == current_dev then IndexAfterInsert(old(dev.parts), part, old(current_partnum))
              else old(current_partnum)
    {
      LinkAt(dev, i, part);
      if behind {
        current_partnum := (current_partnum + 1) % 256;
      }
    }

    method LinkAndIndex(dev: MtdDevice, i: nat, part: PartInfo, behind: bool)
      requires Ordered() && dev.Ok() && part !in dev.parts && |dev.parts| < 0xFFFF && i == InsertIndex(dev.parts, part)
      requires behind <==> IsBehind(dev, i)
      modifies this`current_partnum, this`mtddevnum, dev
      ensures Ordered() && dev.Ok() && OnlyChanged(dev) && (old(InRange()) ==> InRange())
      ensures dev.parts == Inserted(old(dev.parts), part)
      ensures old(InRange()) ==> (CurrentPart() == old(CurrentPart()) <==> !old(WrapsAround(dev, part)))
    {
      if dev == current_dev && current_partnum < |dev.parts| {
        InsertedIndex(dev.parts, part, current_partnum);
      }
      LinkAndShift(dev, i, part, behind);
      IndexPartitions();
    }

    // Links the partition in before entry i.
    method LinkAt(dev: MtdDevice, i: nat, part: PartInfo)
      requires dev.Ok() && part !in dev.parts && |dev.parts| < 0xFFFF && i == InsertIndex(dev.parts, part)
      modifies dev
      ensures dev.Ok() && dev.parts == Inserted(old(dev.parts), part)
    {
      InsertKeepsOrder(dev.parts, part);
      dev.parts, dev.num_parts := dev.parts[..i] + [part] + dev.parts[i..], dev.num_parts + 1;
    }

    // The deletion of a partition ties with the current one.
    ghost predicate TiesWithCurrent(dev: MtdDevice, part: PartInfo)
      requires part in dev.parts
      reads this, dev
    {
      dev == current_dev && current_partnum < |dev.parts| && Tie(dev.parts, IndexOf(dev.parts, part), current_partnum)
    }

    // Deletes a partition. Afterwards the index still names the partition it
    // named, unless that was the deleted one (then it is reset to 0) or the
    // deleted one tied with it; it is out of range exactly if that one tied
    // with partition 0.
    method PartDel(dev: MtdDevice, part: PartInfo)
      requires Ordered() && dev in devices && part in dev.parts
      modifies this, dev
      ensures Ordered()
      ensures old(|dev.parts|) == 1 ==>
        && devices == Removed(old(devices), IndexOf(old(devices), dev)) && dev.parts == old(dev.parts) && dev.Ok()
        && (forall d | d in devices :: d.parts == old(d.parts))
        && if dev != old(current_dev) then
             current_dev == old(current_dev) && current_partnum == old(current_partnum)
             && CurrentPart() == old(CurrentPart()) && (old(InRange()) ==> InRange())
           else
             InRange()
             && if devices == [] then current_dev == null else current_dev == devices[0] && current_partnum == 0
      ensures old(|dev.parts|) > 1 ==> OnlyChanged(dev) && dev.Ok()
      ensures old(|dev.parts|) > 1 ==> dev.parts == Removed(old(dev.parts), IndexOf(old(dev.parts), part))
      ensures old(|dev.parts|) > 1 && old(InRange()) ==>
        if dev != current_dev then CurrentPart() == old(CurrentPart()) && InRange()
        else if part == old(CurrentPart()) then current_partnum == 0 && InRange()
        else
          && (CurrentPart() == old(CurrentPart()) <==> !old(TiesWithCurrent(dev, part)))
          && (InRange() <==> !(old(TiesWithCurrent(dev, part)) && old(current_partnum) == 0 && old(|dev.parts|) <= 256))
          && (!InRange() ==> current_partnum == 255)
    {
      if dev.num_parts == 1 {
        DeviceDel(dev);
        return;
      }
      DeleteFromList(dev, part);
    }

    method DeleteFromList(dev: MtdDevice, part: PartInfo)
      requires Ordered() && dev in devices && part in dev.parts && |dev.parts| > 1
      modifies this`current_partnum, this`mtddevnum, dev
      ensures Ordered() && OnlyChanged(dev) && dev.Ok()
      ensures dev.parts == Removed(old(dev.parts), IndexOf(old(dev.parts), part))
      ensures old(InRange()) ==>
        if dev != current_dev then CurrentPart() == old(CurrentPart()) && InRange()
        else if part == old(CurrentPart()) then current_partnum == 0 && InRange()
        else
          && (CurrentPart() == old(CurrentPart()) <==> !old(TiesWithCurrent(dev, part)))
          && (InRange() <==> !(old(TiesWithCurrent(dev, part)) && old(current_partnum) == 0 && old(|dev.parts|) <= 256))
          && (!InRange() ==> current_partnum == 255)
    {
      ghost var i := IndexOf(dev.parts, part);
      if dev == current_dev && current_partnum < |dev.parts| {
        if i == current_partnum {
          assert part == CurrentPart();
        } else {
          assert dev.parts[i] != dev.parts[current_partnum];
          RemovedIndex(dev.parts, i, current_partnum);
        }
      }
      DeleteAndShift(dev, part);
      IndexPartitions();
    }

    method DeleteAndShift(dev: MtdDevice, part: PartInfo)
      requires Lists() && dev in devices && part in dev.parts && |dev.parts| > 1
      modifies this`current_partnum, dev
      ensures Lists() && OnlyChanged(dev) && dev.Ok()
      ensures dev.parts == Removed(old(dev.parts), IndexOf(old(dev.parts), part))
      ensures current_partnum ==
              if dev == current_dev then
                IndexAfterRemove(old(dev.parts), IndexOf(old(dev.parts), part), old(current_partnum))
              else old(current_partnum)
    {
      if dev == current_dev && current_partnum < |dev.parts| {
        var curr_pi := dev.parts[current_partnum];
        FirstIndex(dev.parts, curr_pi, current_partnum);
        if curr_pi == part {
          current_partnum := 0;
        } else if part.offset <= curr_pi.offset {
          current_partnum := (current_partnum + 255) % 256;
        }
      }
      Unlink(dev, part);
    }

    method Unlink(dev: MtdDevice, part: PartInfo)
      requires dev.Ok() && part in dev.parts
      modifies dev
      ensures dev.Ok() && dev.parts == Removed(old(dev.parts), IndexOf(old(dev.parts), part))
    {
      var i := IndexOf(dev.parts, part);
      RemoveKeepsOrder(dev.parts, i);
      dev.parts, dev.num_parts := dev.parts[..i] + dev.parts[i + 1..], dev.num_parts - 1;
    }

    // Removes a device with its partitions. If it was the current one, the
    // first partition of the first device becomes current.
    method DeviceDel(dev: MtdDevice)
      requires Ordered() && dev in devices
      modifies this
      ensures Ordered() && devices == Removed(old(devices), IndexOf(old(devices), dev))
      ensures if dev != old(current_dev) then
                current_dev == old(current_dev) && current_partnum == old(current_partnum)
                && CurrentPart() == old(CurrentPart()) && (old(InRange()) ==> InRange())
              else
                InRange()
                && if devices == [] then current_dev == null else current_dev == devices[0] && current_partnum == 0
    {
      var i := IndexOf(devices, dev);
      RemoveKeepsRest(devices, i);
      devices := devices[..i] + devices[i + 1..];
      if dev == current_dev {
        if |devices| == 0 {
          current_dev := null;
        } else {
          current_dev := devices[0];
          current_partnum := 0;
        }
      }
      IndexPartitions();
    }

    // Adds a device; the first one becomes current.
    method DeviceAdd(dev: MtdDevice)
      requires Ordered() && dev !in devices && dev.Ok() && dev.parts != []
      modifies this
      ensures Ordered() && devices == old(devices) + [dev] && (old(InRange()) ==> InRange())
      ensures if old(devices) == [] then current_dev == dev && current_partnum == 0
              else current_dev == old(current_dev) && CurrentPart() == old(CurrentPart())
    {
      if |devices| == 0 {
        current_dev := dev;
        current_partnum := 0;
      }
      devices := devices + [dev];
      IndexPartitions();
    }

    // Makes a partition of a device the current one (its number is a u8).
    method ChangePart(dev: MtdDevice, pnum: nat)
      requires Ordered() && dev in devices && pnum < 256
      modifies this`current_dev, this`current_partnum, this`mtddevnum
      ensures Ordered() && devices == old(devices) && (old(InRange()) ==> InRange())
      ensures if pnum < |dev.parts| then current_dev == dev && CurrentPart() == dev.parts[pnum]
              else current_dev == old(current_dev) && CurrentPart() == old(CurrentPart())
    {
      if pnum < dev.num_parts {
        current_dev := dev;
        current_partnum := pnum;
        IndexPartitions();
      }
    }

    // ----------------------------------------------------------------------
    // Runs of commands. A command that names no device or partition of the
    // lists is refused and changes nothing.

    // The device can take `room` partitions more, as far as num_parts counts.
    ghost predicate Ready(d: MtdDevice, room: nat)
      reads d
    {
      d.Ok() && d.parts != [] && |d.parts| + room < 0xFFFF
    }

    ghost predicate AllDistinct()
      reads this, devices
    {
      forall d | d in devices :: DistinctOffsets(d.parts)
    }

    // One command, whatever it does: the lists stay sorted and counted.
    method Step(c: Command)
      requires Ordered() && Ready(c.dev, 1)
      modifies this, c.dev
      ensures Ordered() && c.dev.Ok() && c.dev.parts != [] && |c.dev.parts| <= old(|c.dev.parts|) + 1
      ensures forall d | d in devices :: d in old(devices) || d == c.dev
    {
      match c
      case Add(dev, part) =>
        if dev in devices && part !in dev.parts {
          var _ := PartSortAdd(dev, part);
        }
      case Delete(dev, part) =>
        if dev in devices && part in dev.parts {
          RemoveKeepsRest(devices, IndexOf(devices, dev));
          PartDel(dev, part);
        }
      case AddDevice(dev) =>
        if dev !in devices {
          DeviceAdd(dev);
        }
      case DelDevice(dev) =>
        if dev in devices {
          RemoveKeepsRest(devices, IndexOf(devices, dev));
          DeviceDel(dev);
        }
      case Change(dev, pnum) =>
        if dev in devices && pnum < 256 {
          ChangePart(dev, pnum);
        }
    }

    // Every run, with offsets that tie or not, and more than 255 partitions or
    // not: each list stays sorted and counted, without repetitions, and
    // mtddevnum is computed from the index.
    method Run(commands: seq<Command>)
      requires Ordered()
      requires forall d | d in devices :: Ready(d, |commands|)
      requires forall c | c in commands :: Ready(c.dev, |commands|)
      modifies this, devices, set c | c in commands :: c.dev
      ensures Ordered()
    {
      ghost var all := (set d | d in devices) + set c | c in commands :: c.dev;
      var k := 0;
      while k < |commands|
        invariant k <= |commands| && Ordered()
        invariant (forall d | d in devices :: d in all) && forall d | d in all :: Ready(d, |commands| - k)
      {
        var c := commands[k];
        assert c in commands && c.dev in all;
        Step(c);
        k := k + 1;
      }
    }

    // The command does not touch the current partition or device.
    ghost predicate Leaves(c: Command)
      reads this, current_dev
    {
      && (c.Delete? ==> c.part != CurrentPart())
      && (c.DelDevice? ==> c.dev != current_dev) && !c.Change?
    }

    ghost predicate Apart(d: MtdDevice)
      reads d
    {
      d.Ok() && d.parts != [] && DistinctOffsets(d.parts)
    }

    // Runs in which additions are checked first: offsets stay distinct, the
    // index stays in range, mtddevnum is the global number of the current
    // partition, and that is the same one unless a command deletes it, deletes
    // its device, or changes to another one.
    method RunChecked(commands: seq<Command>)
      requires Valid() && AllDistinct()
      requires forall c | c in commands :: Apart(c.dev)
      modifies this, devices, set c | c in commands :: c.dev
      ensures Valid() && AllDistinct()
      ensures old(current_dev) != null && (forall c | c in commands :: old(Leaves(c))) ==>
                CurrentPart() == old(CurrentPart()) && current_dev == old(current_dev)
    {
      ghost var all := (set d | d in devices) + set c | c in commands :: c.dev;
      ghost var leaves := old(current_dev) != null && forall c | c in commands :: Leaves(c);
      var k := 0;
      while k < |commands|
        invariant k <= |commands| && Valid() && (forall d | d in devices :: d in all)
        invariant forall d | d in all :: Apart(d)
        invariant leaves ==> CurrentPart() == old(CurrentPart()) && current_dev == old(current_dev)
      {
        var c := commands[k];
        assert c in commands && c.dev in all;
        CheckedOne(c, all);
        k := k + 1;
      }
    }

    // The devices that a run names stay as they should be.
    method CheckedOne(c: Command, ghost all: set<MtdDevice>)
      requires Valid() && AllDistinct() && c.dev in all
      requires forall d | d in all :: Apart(d)
      modifies this, c.dev
      ensures Valid() && AllDistinct() && (forall d | d in all :: Apart(d))
      ensures forall d | d in devices :: d in old(devices) || d == c.dev
      ensures old(current_dev) != null && old(Leaves(c)) ==>
                CurrentPart() == old(CurrentPart()) && current_dev == old(current_dev)
    {
      assert Apart(c.dev);
      CheckedStep(c);
      forall d | d in all ensures Apart(d) {
        assert d != c.dev ==> d.Ok() && d.parts == old(d.parts);
      }
    }

    // One command, which is left out if it is an addition at a taken offset or
    // to a device with 255 partitions.
    method CheckedStep(c: Command)
      requires Valid() && AllDistinct() && Apart(c.dev)
      modifies this, c.dev
      ensures Valid() && AllDistinct() && Apart(c.dev)
      ensures forall d | d in devices :: d in old(devices) || d == c.dev
      ensures old(current_dev) != null && old(Leaves(c)) ==>
                CurrentPart() == old(CurrentPart()) && current_dev == old(current_dev)
    {
      match c
      case Add(dev, part) =>
        if dev in devices && |dev.parts| < 255 && forall p | p in dev.parts :: p.offset != part.offset {
          InsertKeepsDistinct(dev.parts, part);
          var _ := PartSortAdd(dev, part);
        }
      case Delete(dev, part) =>
        if dev in devices && part in dev.parts {
          CheckedDelete(dev, part);
        }
      case AddDevice(dev) =>
        if dev !in devices {
          DeviceAdd(dev);
        }
      case DelDevice(dev) =>
        if dev in devices {
          RemoveKeepsRest(devices, IndexOf(devices, dev));
          DeviceDel(dev);
        }
      case Change(dev, pnum) =>
        if dev in devices && pnum < 256 {
          ChangePart(dev, pnum);
        }
    }

    method CheckedDelete(dev: MtdDevice, part: PartInfo)
      requires Valid() && AllDistinct() && dev in devices && part in dev.parts
      modifies this, dev
      ensures Valid() && AllDistinct() && Apart(dev)
      ensures forall d | d in devices :: d in old(devices)
      ensures old(current_dev) != null && part != old(CurrentPart()) ==>
                CurrentPart() == old(CurrentPart()) && current_dev == old(current_dev)
    {
      var i := IndexOf(dev.parts, part);
      assert dev.Ok();
      RemoveKeepsOrder(dev.parts, i);
      if dev == current_dev {
        DistinctHasNoTie(dev.parts, i, current_partnum);
      }
      RemoveKeepsRest(devices, IndexOf(devices, dev));
      assert dev == current_dev && |dev.parts| == 1 ==> part == CurrentPart();
      PartDel(dev, part);
    }
  }

  datatype Command =
    | Add(dev: MtdDevice, part: PartInfo)
    | Delete(dev: MtdDevice, part: PartInfo)
    | AddDevice(dev: MtdDevice)
    | DelDevice(dev: MtdDevice)
    | Change(dev: MtdDevice, pnum: nat)

  method NewDevice(first: PartInfo, second: PartInfo) returns (dev: MtdDevice)
    requires first != second && first.offset == second.offset > 0
    ensures fresh(dev) && dev.Ok() && dev.parts == [first, second]
  {
    dev := new MtdDevice();
    dev.parts, dev.num_parts := [first, second], 2;
  }

  // Two partitions at one offset, the first of them current: deleting the
  // second leaves the index at 255, where there is no partition.
  method TieLeavesRange(first: PartInfo, second: PartInfo) returns (m: Manager)
    requires first != second && first.offset == second.offset > 0
    ensures m.Ordered() && !m.InRange() && m.current_partnum == 255
  {
    m := new Manager();
    var dev := NewDevice(first, second);
    m.DeviceAdd(dev);
    assert dev.parts[0] == first && dev.parts[1] == second;
    assert IndexOf(dev.parts, second) == 1;
    assert m.TiesWithCurrent(dev, second);
    m.PartDel(dev, second);
  }
}
