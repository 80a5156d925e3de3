// Resolving an address range to sector ranges per flash bank.
module Flash {
  import opened Wrappers

  // start[i] is the first address of sector i; size counts the bank's bytes.
  datatype Bank = Bank(known: bool, start: seq<nat>, size: nat)

  // Sectors in ascending order, the last one inside the bank, and the bank
  // not at the very top of the 32-bit address space.
  ghost predicate GoodBank(b: Bank) {
    && 0 < |b.start| <= 0x8000
    && (forall i, j | 0 <= i < j < |b.start| :: b.start[i] < b.start[j])
    && b.start[|b.start| - 1] <= BankEnd(b) < 0xFFFF_FFFF
  }

  ghost predicate GoodBanks(banks: seq<Bank>) {
    forall k | 0 <= k < |banks| :: banks[k].known ==> GoodBank(banks[k])
  }

  function BankEnd(b: Bank): int
    requires b.start != []
  {
    b.start[0] as int + b.size - 1
  }

  // Last address of a sector.
  function SectorEnd(b: Bank, s: nat): int
    requires s < |b.start|
  {
    if s == |b.start| - 1 then BankEnd(b) else b.start[s + 1] as int - 1
  }

  predicate InBank(b: Bank, a: int)
    requires b.start != []
  {
    b.start[0] <= a <= BankEnd(b)
  }

  ghost predicate StartsSector(b: Bank, a: int) {
    exists s | 0 <= s < |b.start| :: b.start[s] == a
  }

  ghost predicate EndsSector(b: Bank, a: int) {
    exists s | 0 <= s < |b.start| :: SectorEnd(b, s) == a
  }

  lemma {:induction false} SectorsAscend(b: Bank, s: nat, t: nat)
    requires GoodBank(b) && s <= t < |b.start|
    ensures b.start[s] <= SectorEnd(b, s) <= SectorEnd(b, t) <= BankEnd(b)
    ensures b.start[0] <= b.start[s]
    ensures s < t ==> SectorEnd(b, s) < b.start[t]
  {
    assert s < t ==> b.start[s + 1] <= b.start[t];
  }

  // ------------------------------------------------------------------------
  // A selection: from first[k] to last[k] in bank k, or nothing if
  // first[k] < 0.

  predicate IsSelection(banks: seq<Bank>, first: seq<int>, last: seq<int>, k: nat) {
    && k <= |banks| == |first| == |last|
    && forall i | 0 <= i < k && first[i] >= 0 :: first[i] <= last[i] < |banks[i].start|
  }

  predicate Selected(banks: seq<Bank>, first: seq<int>, last: seq<int>, k: nat, s: nat)
    requires k < |banks| == |first| == |last|
  {
    0 <= first[k] <= s <= last[k]
  }

  // The address belongs to a selected sector of the first k banks.
  ghost predicate Covered(banks: seq<Bank>, first: seq<int>, last: seq<int>, k: nat, a: int)
    requires IsSelection(banks, first, last, k)
  {
    exists i: nat, s: nat | i < k && s < |banks[i].start| ::
      Selected(banks, first, last, i, s) && banks[i].start[s] <= a <= SectorEnd(banks[i], s)
  }

  // Each bank's selection starts where the one before ended; the chain
  // starts at addr and ends just before the result.
  function ChainEnd(banks: seq<Bank>, first: seq<int>, last: seq<int>, k: nat, addr: int): int
    requires IsSelection(banks, first, last, k)
  {
    if k == 0 then addr
    else if first[k - 1] < 0 then ChainEnd(banks, first, last, k - 1, addr)
    else SectorEnd(banks[k - 1], last[k - 1]) + 1
  }

  ghost predicate Chained(banks: seq<Bank>, first: seq<int>, last: seq<int>, k: nat, addr: int)
    requires IsSelection(banks, first, last, k)
  {
    k == 0 ||
    (&& Chained(banks, first, last, k - 1, addr)
     && (first[k - 1] >= 0 ==>
           banks[k - 1].known && banks[k - 1].start[first[k - 1]] == ChainEnd(banks, first, last, k - 1, addr)))
  }

  function Count(first: seq<int>, last: seq<int>, k: nat): int
    requires k <= |first| == |last|
  {
    if k == 0 then 0
    else Count(first, last, k - 1) + if first[k - 1] < 0 then 0 else last[k - 1] - first[k - 1] + 1
  }

  // Consecutive sectors of a bank cover one interval.
  lemma {:induction false} FindSector(b: Bank, f: nat, l: nat, a: int) returns (s: nat)
    requires GoodBank(b) && f <= l < |b.start| && b.start[f] <= a <= SectorEnd(b, l)
    ensures f <= s <= l && b.start[s] <= a <= SectorEnd(b, s)
    decreases l - f
  {
    if f < l && a > SectorEnd(b, f) {
      s := FindSector(b, f + 1, l, a);
    } else {
      s := f;
    }
  }

  predicate InThisSector(b: Bank, s: nat, a: int)
    requires s < |b.start|
  {
    b.start[s] <= a <= SectorEnd(b, s)
  }

  ghost predicate InSectors(b: Bank, f: int, l: int, a: int)
    requires 0 <= f <= l < |b.start|
  {
    exists s | f <= s <= l :: InThisSector(b, s, a)
  }

  // A bank's selected sectors cover one interval.
  lemma BankCovers(b: Bank, f: nat, l: nat, a: int)
    requires GoodBank(b) && f <= l < |b.start|
    ensures InSectors(b, f, l, a) <==> b.start[f] <= a <= SectorEnd(b, l)
  {
    if s :| f <= s <= l && InThisSector(b, s, a) {
      SectorsAscend(b, f, s);
      SectorsAscend(b, s, l);
    }
    if b.start[f] <= a <= SectorEnd(b, l) {
      var s := FindSector(b, f, l, a);
      assert InThisSector(b, s, a);
    }
  }

  // The sectors of a bank fill its bytes from its start on.
  lemma SectorsFillBank(b: Bank, a: int)
    requires GoodBank(b)
    ensures InSectors(b, 0, |b.start| - 1, a) <==> b.start[0] <= a < b.start[0] + b.size
  {
    BankCovers(b, 0, |b.start| - 1, a);
  }

  lemma CoveredOneMore(banks: seq<Bank>, first: seq<int>, last: seq<int>, k: nat, a: int)
    requires IsSelection(banks, first, last, k) && k > 0
    ensures Covered(banks, first, last, k, a) <==>
            || Covered(banks, first, last, k - 1, a)
            || (first[k - 1] >= 0 && InSectors(banks[k - 1], first[k - 1], last[k - 1], a))
  {
    if Covered(banks, first, last, k - 1, a) {
      var i: nat, s: nat :| i < k - 1 && s < |banks[i].start| && Selected(banks, first, last, i, s)
        && banks[i].start[s] <= a <= SectorEnd(banks[i], s);
      assert Covered(banks, first, last, k, a);
    }
    if first[k - 1] >= 0 {
      var b, f, l := banks[k - 1], first[k - 1], last[k - 1];
      if InSectors(b, f, l, a) {
        var s :| f <= s <= l && InThisSector(b, s, a);
        assert Selected(banks, first, last, k - 1, s);
      }
    }
    if Covered(banks, first, last, k, a) && !Covered(banks, first, last, k - 1, a) {
      var s: nat :| s < |banks[k - 1].start| && Selected(banks, first, last, k - 1, s)
        && banks[k - 1].start[s] <= a <= SectorEnd(banks[k - 1], s);
      assert InThisSector(banks[k - 1], s, a);
    }
  }

  lemma ChainOneMore(banks: seq<Bank>, first: seq<int>, last: seq<int>, k: nat, addr: int, a: int)
    requires GoodBanks(banks) && IsSelection(banks, first, last, k) && Chained(banks, first, last, k, addr) && k > 0
    ensures Covered(banks, first, last, k, a) <==>
            || Covered(banks, first, last, k - 1, a)
            || ChainEnd(banks, first, last, k - 1, addr) <= a < ChainEnd(banks, first, last, k, addr)
  {
    CoveredOneMore(banks, first, last, k, a);
    if first[k - 1] >= 0 {
      BankCovers(banks[k - 1], first[k - 1], last[k - 1], a);
    }
  }

  // The selected sectors form one contiguous interval.
  lemma {:induction false} ChainCovers(banks: seq<Bank>, first: seq<int>, last: seq<int>, k: nat, addr: int)
    requires GoodBanks(banks) && IsSelection(banks, first, last, k) && Chained(banks, first, last, k, addr)
    ensures addr <= ChainEnd(banks, first, last, k, addr)
    ensures forall a :: Covered(banks, first, last, k, a) <==> addr <= a < ChainEnd(banks, first, last, k, addr)
  {
    if k > 0 {
      ChainCovers(banks, first, last, k - 1, addr);
      if first[k - 1] >= 0 {
        SectorsAscend(banks[k - 1], first[k - 1], last[k - 1]);
      }
      assert ChainEnd(banks, first, last, k - 1, addr) <= ChainEnd(banks, first, last, k, addr);
      forall a ensures Covered(banks, first, last, k, a) <==> addr <= a < ChainEnd(banks, first, last, k, addr) {
        ChainOneMore(banks, first, last, k, addr, a);
      }
    }
  }

  // ------------------------------------------------------------------------
  // When banks are mapped in ascending order and the range lies in them.

  ghost predicate Ascending(banks: seq<Bank>)
    requires GoodBanks(banks)
  {
    forall i, j | 0 <= i < j < |banks| && banks[i].known && banks[j].known :: BankEnd(banks[i]) < banks[j].start[0]
  }

  // The known bank that an address lies in, or -1.
  function BankOf(banks: seq<Bank>, k: nat, a: int): (r: int)
    requires GoodBanks(banks) && k <= |banks|
    ensures -1 <= r < k
    ensures r >= 0 ==> banks[r].known && InBank(banks[r], a)
    ensures r < 0 ==> forall i | 0 <= i < k && banks[i].known :: !InBank(banks[i], a)
  {
    if k == 0 then -1
    else if banks[k - 1].known && InBank(banks[k - 1], a) then k - 1
    else BankOf(banks, k - 1, a)
  }

  ghost predicate Mapped(banks: seq<Bank>, lo: int, hi: int)
    requires GoodBanks(banks)
  {
    Ascending(banks) && forall a | lo <= a <= hi :: BankOf(banks, |banks|, a) >= 0
  }

  ghost predicate StartsAny(banks: seq<Bank>, k: nat, a: int)
    requires k <= |banks|
  {
    exists i | 0 <= i < k :: banks[i].known && StartsSector(banks[i], a)
  }

  ghost predicate EndsAny(banks: seq<Bank>, a: int) {
    exists i | 0 <= i < |banks| :: banks[i].known && EndsSector(banks[i], a)
  }

  lemma StartInBank(b: Bank, a: int)
    requires GoodBank(b)
    ensures StartsSector(b, a) ==> InBank(b, a)
  {
    forall s | 0 <= s < |b.start| ensures InBank(b, b.start[s]) {
      SectorsAscend(b, s, s);
    }
  }

  lemma EndInBank(b: Bank, a: int)
    requires GoodBank(b)
    ensures EndsSector(b, a) ==> InBank(b, a)
  {
    forall s | 0 <= s < |b.start| ensures InBank(b, SectorEnd(b, s)) {
      SectorsAscend(b, s, s);
    }
  }

  // cur stands just behind some known bank, and every known bank before k
  // lies below it.
  ghost predicate Behind(banks: seq<Bank>, k: nat, cur: int)
    requires GoodBanks(banks) && k <= |banks|
  {
    && (exists p | 0 <= p < k :: banks[p].known && cur == BankEnd(banks[p]) + 1)
    && (forall p | 0 <= p < k && banks[p].known :: BankEnd(banks[p]) < cur)
  }

  // A bank that neither takes part in the range nor reports an error: its last
  // byte is not taken for a part of it.
  ghost predicate Quiet(b: Bank, lo: int, hi: int)
    requires GoodBank(b)
  {
    !StartsSector(b, lo) && !EndsSector(b, hi) && !(b.start[0] <= lo < BankEnd(b))
  }

  ghost predicate AllQuiet(banks: seq<Bank>, k: nat, lo: int, hi: int)
    requires GoodBanks(banks) && k <= |banks|
  {
    forall i | 0 <= i < k && banks[i].known :: Quiet(banks[i], lo, hi)
  }

  // Progress of the walk before bank k: nothing selected because the range
  // starts at no sector so far, or the range is used up, or cur stands just
  // behind the last bank used.
  ghost predicate Progress(banks: seq<Bank>, k: nat, lo: int, hi: int, cur: int, count: int)
    requires GoodBanks(banks) && k <= |banks|
  {
    if count == 0 then cur == lo && !StartsAny(banks, k, lo) && AllQuiet(banks, k, lo, hi)
    else
      && StartsAny(banks, k, lo)
      && if cur > hi then cur == hi + 1 && EndsAny(banks, hi) else Behind(banks, k, cur)
  }

  lemma StartsAnyLater(banks: seq<Bank>, k: nat, a: int)
    requires k < |banks|
    ensures StartsAny(banks, k + 1, a) <==> StartsAny(banks, k, a) || (banks[k].known && StartsSector(banks[k], a))
  {
    forall i | 0 <= i < k && banks[i].known && StartsSector(banks[i], a) ensures StartsAny(banks, k + 1, a) {
      assert i < k + 1;
    }
    if banks[k].known && StartsSector(banks[k], a) {
      assert k < k + 1;
    }
  }

  // While the range is not used up, the next known bank starts where the
  // last one ended.
  lemma NextBankStarts(banks: seq<Bank>, k: nat, lo: int, hi: int, cur: int)
    requires GoodBanks(banks) && Mapped(banks, lo, hi) && k < |banks| && banks[k].known && lo <= cur <= hi
    requires Behind(banks, k, cur)
    ensures StartsSector(banks[k], cur)
  {
    var p :| 0 <= p < k && banks[p].known && cur == BankEnd(banks[p]) + 1;
    var j := BankOf(banks, |banks|, cur);
    assert BankEnd(banks[p]) < banks[k].start[0];
    assert banks[k].start[0] <= BankEnd(banks[k]) by {
      SectorsAscend(banks[k], 0, 0);
    }
    assert banks[k].start[0] == cur;
  }

  lemma BehindPast(banks: seq<Bank>, k: nat, cur: int)
    requires GoodBanks(banks) && k < |banks| && Behind(banks, k, cur)
    requires banks[k].known ==> BankEnd(banks[k]) < cur
    ensures Behind(banks, k + 1, cur)
  {
    var p :| 0 <= p < k && banks[p].known && cur == BankEnd(banks[p]) + 1;
    assert p < k + 1;
  }

  lemma ProgressPast(banks: seq<Bank>, k: nat, lo: int, hi: int, cur: int, count: int)
    requires GoodBanks(banks) && Mapped(banks, lo, hi) && k < |banks| && lo <= cur <= hi
    requires Progress(banks, k, lo, hi, cur, count) && count >= 0
    requires banks[k].known ==> Quiet(banks[k], cur, hi)
    ensures Progress(banks, k + 1, lo, hi, cur, count)
  {
    StartsAnyLater(banks, k, lo);
    if count > 0 {
      if banks[k].known {
        NextBankStarts(banks, k, lo, hi, cur);
      }
      BehindPast(banks, k, cur);
    }
  }

  lemma BankUsedUp(banks: seq<Bank>, k: nat)
    requires GoodBanks(banks) && Ascending(banks) && k < |banks| && banks[k].known
    ensures Behind(banks, k + 1, BankEnd(banks[k]) + 1)
  {
    forall p | 0 <= p < k + 1 && banks[p].known ensures BankEnd(banks[p]) <= BankEnd(banks[k]) {
      if p < k {
        assert BankEnd(banks[p]) < banks[k].start[0];
        SectorsAscend(banks[k], 0, 0);
      }
    }
    assert k < k + 1;
  }

  // Bank k selected from cur up to sector sl.
  lemma ProgressSelect(banks: seq<Bank>, k: nat, lo: int, hi: int, cur: int, count: int, sl: nat, count': int)
    requires GoodBanks(banks) && Mapped(banks, lo, hi) && k < |banks| && banks[k].known && lo <= cur <= hi
    requires Progress(banks, k, lo, hi, cur, count) && 0 <= count < count' && StartsSector(banks[k], cur)
    requires sl < |banks[k].start|
    requires SectorEnd(banks[k], sl) == hi || (sl == |banks[k].start| - 1 && BankEnd(banks[k]) < hi)
    ensures Progress(banks, k + 1, lo, hi, SectorEnd(banks[k], sl) + 1, count')
  {
    StartsAnyLater(banks, k, lo);
    if SectorEnd(banks[k], sl) == hi {
      assert EndsSector(banks[k], hi);
    } else {
      BankUsedUp(banks, k);
    }
  }

  // The start of the range is the last byte of a bank.
  ghost predicate EndsBank(banks: seq<Bank>, a: int)
    requires GoodBanks(banks)
  {
    exists k | 0 <= k < |banks| :: banks[k].known && BankEnd(banks[k]) == a
  }

  // Neither end of the range is at a sector boundary, and nothing is reported.
  ghost predicate Unreported(banks: seq<Bank>, lo: int, hi: int)
    requires GoodBanks(banks)
  {
    !StartsAny(banks, |banks|, lo) && !EndsAny(banks, hi) && EndsBank(banks, lo)
  }

  lemma QuietIsUnreported(banks: seq<Bank>, lo: int, hi: int)
    requires GoodBanks(banks) && Mapped(banks, lo, hi) && lo <= hi && AllQuiet(banks, |banks|, lo, hi)
    ensures Unreported(banks, lo, hi)
  {
    var k := BankOf(banks, |banks|, lo);
    assert banks[k].known && InBank(banks[k], lo) && Quiet(banks[k], lo, hi);
  }

  // The walk finished without an error.
  lemma ProgressDone(banks: seq<Bank>, k: nat, lo: int, hi: int, cur: int, count: int)
    requires GoodBanks(banks) && Mapped(banks, lo, hi) && k <= |banks| && lo <= cur && lo <= hi && count >= 0
    requires Progress(banks, k, lo, hi, cur, count) && (k == |banks| || cur > hi)
    ensures count > 0 <==> StartsAny(banks, |banks|, lo) && EndsAny(banks, hi)
    ensures count > 0 ==> cur == hi + 1
    ensures count == 0 ==> Unreported(banks, lo, hi)
  {
    if count == 0 {
      QuietIsUnreported(banks, lo, hi);
    }
    if count > 0 {
      var i :| 0 <= i < k && banks[i].known && StartsSector(banks[i], lo);
      assert i < |banks|;
      assert Behind(banks, |banks|, cur) ==> BankOf(banks, |banks|, cur) < 0;
    }
  }

  // The errors name a range that does not start, or does not end, at a sector.
  lemma StartErrorIsReal(banks: seq<Bank>, k: nat, lo: int, hi: int)
    requires GoodBanks(banks) && Ascending(banks) && k < |banks| && banks[k].known && lo <= hi
    requires !StartsAny(banks, k, lo) && !StartsSector(banks[k], lo)
    requires InBank(banks[k], lo) || EndsSector(banks[k], hi)
    ensures !StartsAny(banks, |banks|, lo)
  {
    EndInBank(banks[k], hi);
    forall i | 0 <= i < |banks| && banks[i].known ensures !StartsSector(banks[i], lo) {
      if i > k {
        assert BankEnd(banks[k]) < banks[i].start[0];
        StartInBank(banks[i], lo);
      }
    }
  }

  lemma EndErrorIsReal(banks: seq<Bank>, k: nat, hi: int)
    requires GoodBanks(banks) && Ascending(banks) && k < |banks| && banks[k].known
    requires InBank(banks[k], hi) && !EndsSector(banks[k], hi)
    ensures !EndsAny(banks, hi)
  {
    forall i | 0 <= i < |banks| && banks[i].known ensures !EndsSector(banks[i], hi) {
      EndInBank(banks[i], hi);
      assert i < k ==> BankEnd(banks[i]) < banks[k].start[0];
      assert k < i ==> BankEnd(banks[k]) < banks[i].start[0];
    }
  }

  // After something was selected no start error can occur.
  lemma StartErrorComesFirst(banks: seq<Bank>, k: nat, lo: int, hi: int, cur: int, count: int)
    requires GoodBanks(banks) && Mapped(banks, lo, hi) && k < |banks| && banks[k].known && lo <= cur <= hi
    requires Progress(banks, k, lo, hi, cur, count) && count >= 0 && !StartsSector(banks[k], cur)
    requires InBank(banks[k], cur) || EndsSector(banks[k], hi)
    ensures !StartsAny(banks, |banks|, lo) && cur == lo
  {
    if count > 0 {
      NextBankStarts(banks, k, lo, hi, cur);
      assert false;
    }
    StartErrorIsReal(banks, k, lo, hi);
  }

  datatype Rcode = Ok | EndNotOnBoundary | EndPrecedesStart | StartNotOnBoundary | ReverseBanks

  // The sector of a bank that starts at cur and the one that ends at hi; -1
  // where there is none.
  method ScanBank(b: Bank, cur: int, hi: int) returns (first: int, last: int)
    requires GoodBank(b) && cur <= hi
    ensures if StartsSector(b, cur) then 0 <= first < |b.start| && b.start[first] == cur else first == -1
    ensures if EndsSector(b, hi) then 0 <= last < |b.start| && SectorEnd(b, last) == hi else last == -1
  {
    first, last := -1, -1;
    var s_end := |b.start| - 1;
    var sect := 0;
    while sect < |b.start|
      invariant sect <= |b.start|
      invariant first == -1 || (0 <= first < sect && b.start[first] == cur)
      invariant last == -1 || (0 <= last < sect && SectorEnd(b, last) == hi)
      invariant first == -1 ==> forall s | 0 <= s < sect :: b.start[s] != cur
      invariant last == -1 ==> forall s | 0 <= s < sect :: SectorEnd(b, s) != hi
    {
      SectorsAscend(b, sect, sect);
      var end := if sect == s_end then BankEnd(b) else b.start[sect + 1] as int - 1;
      if !(cur > end) && !(hi < b.start[sect]) {
        if cur == b.start[sect] {
          first := sect;
        }
        if hi == end {
          last := sect;
        }
      }
      sect := sect + 1;
    }
  }

  // One bank's part of the walk: which sectors are selected, and where the
  // walk goes on.
  method PlanBank(b: Bank, cur: int, hi: int) returns (rcode: Rcode, first: int, last: int, next: int)
    requires GoodBank(b) && b.known && cur <= hi
    ensures if rcode == Ok then Planned(b, cur, hi, first, last, next) else Failed(b, cur, hi, rcode)
  {
    first, last := ScanBank(b, cur, hi);
    rcode, next := Ok, cur;
    if first >= 0 {
      SectorsAscend(b, first, first);
      assert StartsSector(b, cur);
      if last < 0 {
        if hi > BankEnd(b) {
          last := |b.start| - 1;
        } else {
          rcode := EndNotOnBoundary;
        }
      } else {
        if last < first {
          SectorsAscend(b, last, first);
        }
      }
      if rcode == Ok {
        if last < first {
          rcode := EndPrecedesStart;
        } else {
          next := if last == |b.start| - 1 then BankEnd(b) + 1 else b.start[last + 1];
        }
      }
    } else if b.start[0] <= cur < BankEnd(b) {
      rcode := StartNotOnBoundary;
    } else if last >= 0 {
      rcode := ReverseBanks;
    }
  }

  lemma {:induction false} ChainDependsOnPrefix(banks: seq<Bank>, first: seq<int>, last: seq<int>,
                                                first': seq<int>, last': seq<int>, k: nat, addr: int)
    requires IsSelection(banks, first, last, k) && |first'| == |last'| == |banks|
    requires first'[..k] == first[..k] && last'[..k] == last[..k]
    ensures IsSelection(banks, first', last', k)
    ensures ChainEnd(banks, first', last', k, addr) == ChainEnd(banks, first, last, k, addr)
    ensures Chained(banks, first', last', k, addr) <==> Chained(banks, first, last, k, addr)
    ensures Count(first', last', k) == Count(first, last, k)
  {
    assert forall i | 0 <= i < k :: first'[i] == first'[..k][i] && last'[i] == last'[..k][i];
    if k > 0 {
      assert first'[..k - 1] == first'[..k][..k - 1] == first[..k - 1];
      assert last'[..k - 1] == last'[..k][..k - 1] == last[..k - 1];
      ChainDependsOnPrefix(banks, first, last, first', last', k - 1, addr);
    }
  }

  // State of the walk before bank k.
  ghost predicate Walked(banks: seq<Bank>, first: seq<int>, last: seq<int>, k: nat, lo: int, cur: int, count: int) {
    && IsSelection(banks, first, last, k)
    && Chained(banks, first, last, k, lo) && cur == ChainEnd(banks, first, last, k, lo)
    && count == Count(first, last, k) && count >= 0
    && (count == 0 ==> cur == lo)
    && (forall i | k <= i < |banks| :: first[i] == -1 && last[i] == -1)
  }

  lemma WalkOneMore(banks: seq<Bank>, first: seq<int>, last: seq<int>, k: nat, lo: int, cur: int, count: int, f: int,
                    l: int)
    requires Walked(banks, first, last, k, lo, cur, count) && k < |banks|
    requires f >= 0 ==> f <= l < |banks[k].start| && banks[k].known && banks[k].start[f] == cur
    ensures Walked(banks, first[k := f], last[k := l], k + 1, lo,
                   if f < 0 then cur else SectorEnd(banks[k], l) + 1, if f < 0 then count else count + l - f + 1)
  {
    ChainDependsOnPrefix(banks, first, last, first[k := f], last[k := l], k, lo);
  }

  // Some known bank holds the address, and no sector of it ends there.
  ghost predicate EndMisplaced(banks: seq<Bank>, hi: int)
    requires GoodBanks(banks)
  {
    exists k | 0 <= k < |banks| :: banks[k].known && InBank(banks[k], hi) && !EndsSector(banks[k], hi)
  }

  // The banks after a finished range select nothing.
  lemma {:induction false} WalkToTheEnd(banks: seq<Bank>, first: seq<int>, last: seq<int>, k: nat, lo: int, cur: int,
                                        count: int)
    requires Walked(banks, first, last, k, lo, cur, count)
    ensures Walked(banks, first, last, |banks|, lo, cur, count)
    decreases |banks| - k
  {
    if k < |banks| {
      WalkToTheEnd(banks, first, last, k + 1, lo, cur, count);
    }
  }

  // The progress invariant of the walk, needed only for mapped ranges.
  ghost predicate MappedProgress(banks: seq<Bank>, k: nat, lo: int, hi: int, cur: int, count: int)
    requires GoodBanks(banks) && k <= |banks|
  {
    Mapped(banks, lo, hi) ==> Progress(banks, k, lo, hi, cur, count)
  }

  lemma MappedStep(banks: seq<Bank>, k: nat, lo: int, hi: int, cur: int, count: int, f: int, l: int, next: int,
                   count': int)
    requires GoodBanks(banks) && k < |banks| && lo <= cur <= hi && count >= 0
    requires MappedProgress(banks, k, lo, hi, cur, count)
    requires f < 0 ==> next == cur && count' == count && (banks[k].known ==> Quiet(banks[k], cur, hi))
    requires f >= 0 ==>
               && banks[k].known && f <= l < |banks[k].start| && banks[k].start[f] == cur
               && next == SectorEnd(banks[k], l) + 1 && count' > count
               && (SectorEnd(banks[k], l) == hi || (l == |banks[k].start| - 1 && BankEnd(banks[k]) < hi))
    ensures MappedProgress(banks, k + 1, lo, hi, next, count')
  {
    if Mapped(banks, lo, hi) {
      if f < 0 {
        ProgressPast(banks, k, lo, hi, cur, count);
      } else {
        ProgressSelect(banks, k, lo, hi, cur, count, l, count');
      }
    }
  }

  // A mapped range is selected exactly if it starts and ends at sectors, and
  // otherwise an error, unless it starts with the last byte of a bank and its
  // end is misplaced, too: then nothing is selected and nothing reported.
  ghost predicate ExactWhenMapped(banks: seq<Bank>, lo: int, hi: int, ok: bool, count: int, end: int)
    requires GoodBanks(banks)
  {
    lo <= hi && Mapped(banks, lo, hi) ==>
      && (ok && count > 0 <==> StartsAny(banks, |banks|, lo) && EndsAny(banks, hi))
      && (ok && count > 0 ==> end == hi + 1)
      && (ok && count == 0 <==> Unreported(banks, lo, hi))
  }

  // The selected sectors are exactly [lo, end), in whole sectors.
  ghost predicate SelectsInterval(banks: seq<Bank>, first: seq<int>, last: seq<int>, lo: int, end: int, count: int) {
    && Walked(banks, first, last, |banks|, lo, end, count)
    && lo <= end
    && forall a :: Covered(banks, first, last, |banks|, a) <==> lo <= a < end
  }

  lemma WalkFinished(banks: seq<Bank>, first: seq<int>, last: seq<int>, k: nat, lo: int, hi: int, cur: int, count: int)
    requires GoodBanks(banks) && k <= |banks| && Walked(banks, first, last, k, lo, cur, count)
    requires MappedProgress(banks, k, lo, hi, cur, count) && lo <= cur && (k == |banks| || cur > hi)
    ensures SelectsInterval(banks, first, last, lo, cur, count)
    ensures ExactWhenMapped(banks, lo, hi, true, count, cur)
  {
    WalkToTheEnd(banks, first, last, k, lo, cur, count);
    ChainCovers(banks, first, last, |banks|, lo);
    if lo <= hi && Mapped(banks, lo, hi) {
      ProgressDone(banks, k, lo, hi, cur, count);
    }
  }

  method ClearRanges(s_first: array<int>, s_last: array<int>)
    requires s_first.Length == s_last.Length
    modifies s_first, s_last
    ensures forall i | 0 <= i < s_first.Length :: s_first[i] == -1 && s_last[i] == -1
  {
    var bank := 0;
    while bank < s_first.Length
      invariant bank <= s_first.Length
      invariant forall i | 0 <= i < bank :: s_first[i] == -1 && s_last[i] == -1
    {
      s_first[bank], s_last[bank] := -1, -1;
      bank := bank + 1;
    }
  }

  // Everything the walk keeps before bank k.
  ghost predicate WalkState(banks: seq<Bank>, first: seq<int>, last: seq<int>, k: nat,
                            lo: int, hi: int, cur: int, count: int)
    requires GoodBanks(banks)
  {
    && Walked(banks, first, last, k, lo, cur, count)
    && lo <= cur && (lo < cur || count > 0 ==> cur <= hi + 1)
    && MappedProgress(banks, k, lo, hi, cur, count)
  }

  // What PlanBank returns for a bank without an error.
  ghost predicate Planned(b: Bank, cur: int, hi: int, first: int, last: int, next: int)
    requires b.known ==> GoodBank(b)
  {
    if first < 0 then next == cur && (b.known ==> Quiet(b, cur, hi))
    else
      && b.known && first <= last < |b.start| && b.start[first] == cur && next == SectorEnd(b, last) + 1
      && cur < next <= hi + 1
      && (SectorEnd(b, last) == hi || (last == |b.start| - 1 && BankEnd(b) < hi))
  }

  // What PlanBank returns for a bank with an error.
  ghost predicate Failed(b: Bank, cur: int, hi: int, rcode: Rcode)
    requires GoodBank(b)
  {
    match rcode
    case EndNotOnBoundary => StartsSector(b, cur) && InBank(b, hi) && !EndsSector(b, hi)
    case StartNotOnBoundary => !StartsSector(b, cur) && b.start[0] <= cur < BankEnd(b)
    case ReverseBanks => !StartsSector(b, cur) && EndsSector(b, hi)
    case _ => false
  }

  // A bank holds the start of the range before its last byte, so that no other
  // bank ends there.
  lemma EndsNoBank(banks: seq<Bank>, k: nat, a: int)
    requires GoodBanks(banks) && Ascending(banks) && k < |banks| && banks[k].known
    requires banks[k].start[0] <= a < BankEnd(banks[k])
    ensures !EndsBank(banks, a)
  {
    forall i | 0 <= i < |banks| && banks[i].known ensures BankEnd(banks[i]) != a {
      assert i < k ==> BankEnd(banks[i]) < banks[k].start[0];
      assert k < i ==> BankEnd(banks[k]) < banks[i].start[0] <= BankEnd(banks[i]) by {
        SectorsAscend(banks[i], 0, 0);
      }
    }
  }

  // Over mapped banks an error means that the range does not start, or does
  // not end, at a sector boundary, and that this is reported.
  lemma ErrorIsReal(banks: seq<Bank>, k: nat, lo: int, hi: int, cur: int, count: int, rcode: Rcode)
    requires GoodBanks(banks) && Mapped(banks, lo, hi) && k < |banks| && banks[k].known && lo <= cur <= hi
    requires Progress(banks, k, lo, hi, cur, count) && count >= 0 && Failed(banks[k], cur, hi, rcode)
    ensures !(StartsAny(banks, |banks|, lo) && EndsAny(banks, hi)) && !Unreported(banks, lo, hi)
  {
    if rcode == EndNotOnBoundary {
      EndErrorIsReal(banks, k, hi);
      StartedSomewhere(banks, k, lo, hi, cur, count);
    } else {
      StartErrorComesFirst(banks, k, lo, hi, cur, count);
      if rcode == StartNotOnBoundary {
        EndsNoBank(banks, k, lo);
      }
    }
  }

  lemma StartedSomewhere(banks: seq<Bank>, k: nat, lo: int, hi: int, cur: int, count: int)
    requires GoodBanks(banks) && k < |banks| && banks[k].known && StartsSector(banks[k], cur)
    requires Progress(banks, k, lo, hi, cur, count)
    ensures StartsAny(banks, |banks|, lo)
  {
    if count != 0 {
      var i :| 0 <= i < k && banks[i].known && StartsSector(banks[i], lo);
      assert i < |banks|;
    }
  }

  lemma StateStep(banks: seq<Bank>, first: seq<int>, last: seq<int>, k: nat, lo: int, hi: int, cur: int, count: int,
                  f: int, l: int, next: int)
    requires GoodBanks(banks) && k < |banks| && cur <= hi && WalkState(banks, first, last, k, lo, hi, cur, count)
    requires Planned(banks[k], cur, hi, f, l, next)
    ensures WalkState(banks, first[k := f], last[k := l], k + 1, lo, hi, next,
                      if f >= 0 then count + l - f + 1 else count)
  {
    WalkOneMore(banks, first, last, k, lo, cur, count, f, l);
    MappedStep(banks, k, lo, hi, cur, count, f, l, next, if f >= 0 then count + l - f + 1 else count);
  }

  lemma StateFailed(banks: seq<Bank>, first: seq<int>, last: seq<int>, k: nat, lo: int, hi: int, cur: int, count: int,
                    rcode: Rcode)
    requires GoodBanks(banks) && k < |banks| && cur <= hi && WalkState(banks, first, last, k, lo, hi, cur, count)
    requires banks[k].known && Failed(banks[k], cur, hi, rcode)
    ensures ExactWhenMapped(banks, lo, hi, false, count, cur)
    ensures rcode == EndNotOnBoundary ==> EndMisplaced(banks, hi)
  {
    if lo <= hi && Mapped(banks, lo, hi) {
      ErrorIsReal(banks, k, lo, hi, cur, count, rcode);
    }
  }

  // One bank's turn: without an error its sectors are entered.
  method FillBank(banks: seq<Bank>, bank: nat, addr_first: nat, addr_last: nat, cur: int, count: int,
                  s_first: array<int>, s_last: array<int>)
    returns (rcode: Rcode, next: int, s_count: int)
    requires GoodBanks(banks) && s_first != s_last && bank < |banks| && cur <= addr_last
    requires WalkState(banks, s_first[..], s_last[..], bank, addr_first, addr_last, cur, count)
    modifies s_first, s_last
    ensures rcode == Ok ==> WalkState(banks, s_first[..], s_last[..], bank + 1, addr_first, addr_last, next, s_count)
    ensures rcode != Ok ==>
              && ExactWhenMapped(banks, addr_first, addr_last, false, s_count, next)
              && (rcode == EndNotOnBoundary ==> EndMisplaced(banks, addr_last))
              && (addr_first < next || s_count > 0 ==> next <= addr_last + 1)
  {
    var first, last := -1, -1;
    rcode, next, s_count := Ok, cur, count;
    if banks[bank].known {
      rcode, first, last, next := PlanBank(banks[bank], cur, addr_last);
      if rcode != Ok {
        next := cur;
        StateFailed(banks, s_first[..], s_last[..], bank, addr_first, addr_last, cur, count, rcode);
        return;
      }
    }
    ghost var f, l := s_first[..], s_last[..];
    StateStep(banks, f, l, bank, addr_first, addr_last, cur, count, first, last, next);
    s_first[bank], s_last[bank] := first, last;
    assert s_first[..] == f[bank := first] && s_last[..] == l[bank := last];
    if first >= 0 {
      s_count := count + last - first + 1;
    }
  }

  method FillSectRanges(banks: seq<Bank>, addr_first: nat, addr_last: nat, s_first: array<int>, s_last: array<int>)
    returns (rcode: Rcode, s_count: int, ghost end: int)
    requires GoodBanks(banks) && s_first != s_last && s_first.Length == s_last.Length == |banks|
    modifies s_first, s_last
    ensures rcode == Ok ==> SelectsInterval(banks, s_first[..], s_last[..], addr_first, end, s_count)
    ensures addr_first < end || s_count > 0 ==> end <= addr_last + 1
    ensures rcode == EndNotOnBoundary ==> EndMisplaced(banks, addr_last)
    ensures ExactWhenMapped(banks, addr_first, addr_last, rcode == Ok, s_count, end)
  {
    rcode, s_count := Ok, 0;
    ClearRanges(s_first, s_last);
    var bank := 0;
    var cur: int := addr_first;
    while bank < |banks| && cur <= addr_last
      invariant bank <= |banks|
      invariant WalkState(banks, s_first[..], s_last[..], bank, addr_first, addr_last, cur, s_count)
    {
      rcode, cur, s_count := FillBank(banks, bank, addr_first, addr_last, cur, s_count, s_first, s_last);
      if rcode != Ok {
        end := cur;
        return;
      }
      bank := bank + 1;
    }
    rcode, end := Ok, cur;
    WalkFinished(banks, s_first[..], s_last[..], bank, addr_first, addr_last, cur, s_count);
  }

  // The last byte of one bank and part of the next: nothing is selected, and
  // no error returned.
  method NothingReported() returns (rcode: Rcode, s_count: int)
    ensures rcode == Ok && s_count == 0
  {
    var banks := [Bank(true, [0], 16), Bank(true, [16], 16)];
    var s_first, s_last := new int[2], new int[2];
    assert BankEnd(banks[0]) == 15 && BankEnd(banks[1]) == 31;
    forall a | 15 <= a <= 20 ensures BankOf(banks, |banks|, a) >= 0 {
      assert InBank(banks[0], a) || InBank(banks[1], a);
    }
    assert Unreported(banks, 15, 20);
    ghost var end;
    rcode, s_count, end := FillSectRanges(banks, 15, 20, s_first, s_last);
  }

  // ------------------------------------------------------------------------
  // The "start +length" form of an address range.

  ghost predicate InSector(banks: seq<Bank>, k: nat, s: nat, a: int) {
    k < |banks| && s < |banks[k].start| && banks[k].start[s] <= a <= SectorEnd(banks[k], s)
  }

  // Last address of the sector that holds the range's last byte. The sum
  // wraps at 32 bits as the source's does; banks of unknown type take part.
  method RoundUp(banks: seq<Bank>, addr_first: nat, length: nat) returns (r: Option<int>, ghost raw: int)
    ensures raw == (addr_first + length - 1) % 0x1_0000_0000
    ensures r.None? <==> forall k: nat, s: nat :: !InSector(banks, k, s, raw)
    ensures r.Some? ==> exists k: nat, s: nat :: InSector(banks, k, s, raw) && r.value == SectorEnd(banks[k], s)
  {
    var addr_last: int := (addr_first + length - 1) % 0x1_0000_0000;
    raw := addr_last;
    r := None;
    var bank := 0;
    while bank < |banks| && r.None?
      invariant bank <= |banks|
      invariant r.None? ==> forall k: nat, s: nat | k < bank :: !InSector(banks, k, s, raw)
      invariant r.Some? ==> exists k: nat, s: nat :: InSector(banks, k, s, raw) && r.value == SectorEnd(banks[k], s)
    {
      var i := 0;
      while i < |banks[bank].start| && r.None?
        invariant i <= |banks[bank].start|
        invariant r.None? ==> forall s: nat | s < i :: !InSector(banks, bank, s, raw)
        invariant r.Some? ==> exists k: nat, s: nat :: InSector(banks, k, s, raw) && r.value == SectorEnd(banks[k], s)
      {
        var sector_end :=
          if i == |banks[bank].start| - 1 then BankEnd(banks[bank]) else banks[bank].start[i + 1] as int - 1;
        if banks[bank].start[i] <= addr_last <= sector_end {
          assert InSector(banks, bank, i, raw);
          r := Some(if addr_last < sector_end then sector_end else addr_last);
        }
        i := i + 1;
      }
      bank := bank + 1;
    }
  }

  // Banks that do not overlap; banks of unknown type have no sectors.
  ghost predicate Disjoint(banks: seq<Bank>)
    requires GoodBanks(banks)
  {
    && (forall i | 0 <= i < |banks| :: banks[i].known || banks[i].start == [])
    && (forall i, j | 0 <= i < |banks| && 0 <= j < |banks| && i != j && banks[i].known && banks[j].known ::
          BankEnd(banks[i]) < banks[j].start[0] || BankEnd(banks[j]) < banks[i].start[0])
  }

  // A rounded end always falls on a sector boundary.
  lemma RoundedEndIsBoundary(banks: seq<Bank>, k: nat, s: nat, raw: int)
    requires GoodBanks(banks) && Disjoint(banks) && InSector(banks, k, s, raw)
    ensures EndsAny(banks, SectorEnd(banks[k], s)) && !EndMisplaced(banks, SectorEnd(banks[k], s))
    ensures 0 <= SectorEnd(banks[k], s) - raw <= SectorEnd(banks[k], s) - banks[k].start[s]
  {
    var end := SectorEnd(banks[k], s);
    assert EndsSector(banks[k], end);
    EndInBank(banks[k], end);
    forall i | 0 <= i < |banks| && banks[i].known && InBank(banks[i], end) ensures EndsSector(banks[i], end) {
      assert banks[k].known;
    }
  }

  lemma {:induction false} SelectedIsKnown(banks: seq<Bank>, first: seq<int>, last: seq<int>, k: nat, lo: int, i: nat)
    requires IsSelection(banks, first, last, k) && Chained(banks, first, last, k, lo) && i < k
    ensures first[i] >= 0 ==> banks[i].known
  {
    if i < k - 1 {
      SelectedIsKnown(banks, first, last, k - 1, lo, i);
    }
  }

  // In banks that do not overlap, the selected sectors are exactly those
  // that start in the interval.
  lemma SelectedExactly(banks: seq<Bank>, first: seq<int>, last: seq<int>, lo: int, end: int, count: int, k: nat,
                        s: nat)
    requires GoodBanks(banks) && Disjoint(banks) && SelectsInterval(banks, first, last, lo, end, count)
    requires k < |banks| && s < |banks[k].start|
    ensures Selected(banks, first, last, k, s) <==> lo <= banks[k].start[s] < end
  {
    var a := banks[k].start[s];
    SectorsAscend(banks[k], s, s);
    if Selected(banks, first, last, k, s) {
      assert Covered(banks, first, last, |banks|, a);
    }
    if Covered(banks, first, last, |banks|, a) {
      var i: nat, t: nat :| i < |banks| && t < |banks[i].start| && Selected(banks, first, last, i, t)
        && banks[i].start[t] <= a <= SectorEnd(banks[i], t);
      SectorsAscend(banks[i], t, t);
      SameSector(banks, i, t, k, s, a);
    }
  }

  lemma SameSector(banks: seq<Bank>, i: nat, t: nat, k: nat, s: nat, a: int)
    requires GoodBanks(banks) && Disjoint(banks) && InSector(banks, i, t, a) && InSector(banks, k, s, a)
    ensures i == k && t == s
  {
    SectorsAscend(banks[i], t, t);
    SectorsAscend(banks[k], s, s);
    assert i == k by {
      assert banks[i].known && banks[k].known;
    }
    SectorsAscend(banks[i], if t <= s then t else s, if t <= s then s else t);
  }

  class Chips {
    const banks: seq<Bank>
    const protect: array2<int>

    ghost predicate Valid() {
      && GoodBanks(banks) && protect.Length0 == |banks|
      && forall k | 0 <= k < |banks| :: |banks[k].start| <= protect.Length1
    }

    constructor (banks: seq<Bank>)
      requires GoodBanks(banks) && forall k | 0 <= k < |banks| :: |banks[k].start| <= 0x8000
      ensures Valid() && this.banks == banks && fresh(protect)
    {
      this.banks := banks;
      protect := new int[|banks|, 0x8000];
    }

    // The flag of sector s of bank k after a call that sets the selected
    // sectors of the first n banks to p.
    twostate predicate FlagsSet(first: seq<int>, last: seq<int>, n: nat, p: int)
      requires Valid() && |first| == |last| == |banks|
      reads protect
    {
      forall k, s | 0 <= k < |banks| && 0 <= s < protect.Length1 ::
        protect[k, s] == if k < n && Selected(banks, first, last, k, s) then p else old(protect[k, s])
    }

    method ProtectSectors(bank: nat, first: int, last: int, p: int)
      requires Valid() && bank < |banks| && 0 <= first && last < |banks[bank].start|
      modifies protect
      ensures forall k, s | 0 <= k < |banks| && 0 <= s < protect.Length1 ::
                protect[k, s] == if k == bank && first <= s <= last then p else old(protect[k, s])
    {
      var i := first;
      while i <= last
        invariant first <= i && (i <= last + 1 || i == first)
        invariant forall k, s | 0 <= k < |banks| && 0 <= s < protect.Length1 ::
                    protect[k, s] == if k == bank && first <= s < i then p else old(protect[k, s])
      {
        protect[bank, i] := p;
        i := i + 1;
      }
    }

    // True if sectors were set; the error cases change nothing.
    method SectProtect(p: int, addr_first: nat, addr_last: nat)
      returns (ok: bool, ghost first: seq<int>, ghost last: seq<int>, ghost end: int)
      requires Valid()
      modifies protect
      ensures |first| == |last| == |banks|
      ensures ok ==> exists count | count > 0 :: SelectsInterval(banks, first, last, addr_first, end, count)
      ensures ok ==> end <= addr_last + 1
      ensures FlagsSet(first, last, if ok then |banks| else 0, p)
      ensures addr_first <= addr_last && Mapped(banks, addr_first, addr_last) ==>
                (ok <==> StartsAny(banks, |banks|, addr_first) && EndsAny(banks, addr_last))
                && (ok ==> end == addr_last + 1)
    {
      var s_first, s_last := new int[|banks|], new int[|banks|];
      var rcode, planned;
      rcode, planned, end := FillSectRanges(banks, addr_first, addr_last, s_first, s_last);
      first, last := s_first[..], s_last[..];
      ok := rcode == Ok && planned != 0;
      if ok {
        var bank := 0;
        while bank < |banks|
          invariant bank <= |banks| && first == s_first[..] && last == s_last[..]
          invariant FlagsSet(first, last, bank, p)
        {
          if banks[bank].known && s_first[bank] >= 0 && s_first[bank] <= s_last[bank] {
            ProtectSectors(bank, s_first[bank], s_last[bank], p);
          }
          SelectedIsKnown(banks, first, last, |banks|, addr_first, bank);
          bank := bank + 1;
        }
      }
    }

    // Sector s of bank k starts in the given interval.
    predicate StartsWithin(k: int, s: int, lo: int, end: int)
      requires 0 <= k < |banks|
    {
      0 <= s < |banks[k].start| && lo <= banks[k].start[s] < end
    }

    lemma SelectedStarts(first: seq<int>, last: seq<int>, lo: int, end: int, count: int)
      requires Valid() && Disjoint(banks) && SelectsInterval(banks, first, last, lo, end, count)
      ensures forall k, s | 0 <= k < |banks| && 0 <= s < protect.Length1 ::
                Selected(banks, first, last, k, s) <==> StartsWithin(k, s, lo, end)
    {
      forall k, s | 0 <= k < |banks| && 0 <= s < protect.Length1
        ensures Selected(banks, first, last, k, s) <==> StartsWithin(k, s, lo, end)
      {
        if s < |banks[k].start| {
          SelectedExactly(banks, first, last, lo, end, count, k, s);
        }
      }
    }

    // An address range sets the flags of the sectors that start in it.
    method ProtectRange(p: int, addr_first: nat, addr_last: nat) returns (ok: bool, ghost end: int)
      requires Valid() && Disjoint(banks)
      modifies protect
      ensures forall k, s | 0 <= k < |banks| && 0 <= s < protect.Length1 ::
                protect[k, s] == if ok && StartsWithin(k, s, addr_first, end) then p else old(protect[k, s])
      ensures ok ==> end <= addr_last + 1
      ensures addr_first <= addr_last && Mapped(banks, addr_first, addr_last) ==>
                (ok <==> StartsAny(banks, |banks|, addr_first) && EndsAny(banks, addr_last))
                && (ok ==> end == addr_last + 1)
    {
      ghost var first, last;
      ok, first, last, end := SectProtect(p, addr_first, addr_last);
      if ok {
        ghost var count :| SelectsInterval(banks, first, last, addr_first, end, count);
        SelectedStarts(first, last, addr_first, end, count);
      }
    }

    // "protect on|off start +length": exactly the sectors that start in the
    // rounded range get the flag.
    method ProtectLength(p: int, addr_first: nat, length: nat) returns (ok: bool, ghost raw: int, ghost end: int)
      requires Valid() && Disjoint(banks)
      modifies protect
      ensures raw == (addr_first + length - 1) % 0x1_0000_0000
      ensures forall k, s | 0 <= k < |banks| && 0 <= s < protect.Length1 ::
                protect[k, s] == if ok && StartsWithin(k, s, addr_first, end) then p else old(protect[k, s])
      ensures ok ==> exists k: nat, s: nat :: InSector(banks, k, s, raw) && end <= SectorEnd(banks[k], s) + 1
      ensures Mapped(banks, addr_first, raw) && addr_first < raw ==>
                (ok <==> StartsAny(banks, |banks|, addr_first)) && (ok ==> raw < end)
    {
      var r;
      r, raw := RoundUp(banks, addr_first, length);
      end := 0;
      ok := false;
      if Mapped(banks, addr_first, raw) && addr_first < raw {
        MappedRounds(banks, addr_first, raw);
      }
      if r.Some? && addr_first < r.value {
        ghost var k: nat, s: nat :| InSector(banks, k, s, raw) && r.value == SectorEnd(banks[k], s);
        RoundedEndIsBoundary(banks, k, s, raw);
        ok, end := ProtectRange(p, addr_first, r.value);
      }
    }
  }

  // A range of mapped addresses is rounded, and stays mapped.
  lemma MappedRounds(banks: seq<Bank>, lo: int, raw: int)
    requires GoodBanks(banks) && Disjoint(banks) && Mapped(banks, lo, raw) && lo <= raw
    ensures exists k: nat, s: nat :: InSector(banks, k, s, raw)
    ensures forall k: nat, s: nat | InSector(banks, k, s, raw) :: Mapped(banks, lo, SectorEnd(banks[k], s))
  {
    MappedIsInSector(banks, lo, raw);
    forall k: nat, s: nat | InSector(banks, k, s, raw) ensures Mapped(banks, lo, SectorEnd(banks[k], s)) {
      MappedRoundsUp(banks, lo, raw, k, s);
    }
  }

  lemma MappedIsInSector(banks: seq<Bank>, lo: int, hi: int)
    requires GoodBanks(banks) && Mapped(banks, lo, hi) && lo <= hi
    ensures exists k: nat, s: nat :: InSector(banks, k, s, hi)
  {
    var k := BankOf(banks, |banks|, hi);
    var s := FindSector(banks[k], 0, |banks[k].start| - 1, hi);
    assert InSector(banks, k, s, hi);
  }

  // Rounding up stays in the banks that hold the range.
  lemma MappedRoundsUp(banks: seq<Bank>, lo: int, raw: int, k: nat, s: nat)
    requires GoodBanks(banks) && Disjoint(banks) && Mapped(banks, lo, raw) && InSector(banks, k, s, raw)
    ensures Mapped(banks, lo, SectorEnd(banks[k], s))
  {
    SectorsAscend(banks[k], s, s);
    forall a | raw <= a <= SectorEnd(banks[k], s) ensures BankOf(banks, |banks|, a) >= 0 {
      assert banks[k].known && InBank(banks[k], a);
    }
  }
}
