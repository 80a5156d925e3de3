// Floppy controller: reading a run of blocks track side by track side, with
// two levels of retries.
module Fdc {
  import opened Wrappers
  import opened Arithmetic

  // The contents of one sector. The buffer and the disk are counted in sectors.
  type Sector = seq<Byte>

  const FDC_RW_RETRIES: nat := 3
  const FDC_CAL_RETRIES: nat := 3

  // Sectors per side, heads and tracks; the heads and sectors fit the
  // controller's byte registers.
  datatype Geometry = Geometry(sect: nat, head: nat, track: nat) {
    predicate Valid() {
      0 < sect <= 255 && 0 < head <= 2
    }
  }

  const H1440 := Geometry(18, 2, 80)

  datatype Chs = Chs(track: int, head: int, sector: int)

  // Blocks on all sides of a track.
  function Cylinder(g: Geometry): (n: int)
    requires g.Valid()
    ensures n > 0
  {
    Product(g.sect, g.head)
  }

  function ToChs(g: Geometry, blnr: nat): Chs
    requires g.Valid()
  {
    var rest := Remainder(blnr, Cylinder(g));
    Chs(Quotient(blnr, Cylinder(g)), Quotient(rest, g.sect), Remainder(rest, g.sect) + 1)
  }

  function ToBlock(g: Geometry, c: Chs): int {
    (c.track * g.head + c.head) * g.sect + c.sector - 1
  }

  predicate InGeometry(g: Geometry, c: Chs) {
    c.track >= 0 && 0 <= c.head < g.head && 1 <= c.sector <= g.sect
  }

  // (t * h + k) * s == t * (s * h) + k * s
  lemma Regroup(t: int, h: int, k: int, s: int)
    ensures (t * h + k) * s == t * (s * h) + k * s
  {
    assert (t * h + k) * s == t * h * s + k * s;
    assert t * h * s == t * (h * s);
  }

  // The triple in terms of division and remainder.
  lemma ChsIsDivMod(g: Geometry, b: nat)
    requires g.Valid()
    ensures Cylinder(g) == g.sect * g.head
    ensures ToChs(g, b) == Chs(b / Cylinder(g), b % Cylinder(g) / g.sect, b % Cylinder(g) % g.sect + 1)
  {
    ProductIsTimes(g.sect, g.head);
    QuotientIsDivision(b, Cylinder(g));
    QuotientIsDivision(b % Cylinder(g), g.sect);
  }

  // Block numbers and (track, head, sector) triples correspond one to one.
  lemma ChsOfBlock(g: Geometry, b: nat)
    requires g.Valid()
    ensures InGeometry(g, ToChs(g, b)) && ToBlock(g, ToChs(g, b)) == b
  {
    var side := Cylinder(g);
    ProductIsTimes(g.sect, g.head);
    QuotientRemainder(b, side);
    var t, r := Quotient(b, side), Remainder(b, side);
    QuotientRemainder(r, g.sect);
    var h, s := Quotient(r, g.sect), Remainder(r, g.sect);
    assert h * g.sect < g.head * g.sect;
    MulStrict(h, g.head, g.sect);
    Regroup(t, g.head, h, g.sect);
  }

  lemma BlockOfChs(g: Geometry, c: Chs)
    requires g.Valid() && InGeometry(g, c)
    ensures ToBlock(g, c) >= 0 && ToChs(g, ToBlock(g, c)) == c
    ensures Remainder(ToBlock(g, c), g.sect) == c.sector - 1
  {
    var r := c.head * g.sect + c.sector - 1;
    ProductIsTimes(g.sect, g.head);
    Regroup(c.track, g.head, c.head, g.sect);
    MulStrict(c.head, g.head, g.sect);
    MulStrict(-1, c.head, g.sect);
    MulStrict(-1, c.track, Cylinder(g));
    MulStrict(-1, c.track, g.head);
    var b := ToBlock(g, c);
    QuotientUnique(b, Cylinder(g), c.track, r);
    QuotientUnique(r, g.sect, c.head, c.sector - 1);
    QuotientUnique(b, g.sect, c.track * g.head + c.head, c.sector - 1);
  }

  // Blocks that follow each other on one side differ in the sector only.
  lemma SameSide(g: Geometry, b: nat, i: nat)
    requires g.Valid() && Remainder(b, g.sect) + i < g.sect
    ensures ToChs(g, b + i) == ToChs(g, b).(sector := ToChs(g, b).sector + i)
    ensures Remainder(b, g.sect) == ToChs(g, b).sector - 1
  {
    ChsOfBlock(g, b);
    BlockOfChs(g, ToChs(g, b));
    BlockOfChs(g, ToChs(g, b).(sector := ToChs(g, b).sector + i));
  }

  // ------------------------------------------------------------------------
  // Commands. The track register has 8 bits.

  datatype Command = Command(drive: nat, track: int, head: int, sector: int, eot: int)

  function IssueCommand(g: Geometry, drive: nat, blnr: nat): Command
    requires g.Valid()
  {
    var c := ToChs(g, blnr);
    Command(if c.head != 0 then drive + 4 else drive, c.track % 256, c.head, c.sector, g.sect)
  }

  // The block that the controller reads when asked for block b.
  function Physical(g: Geometry, b: nat): int
    requires g.Valid()
  {
    var c := ToChs(g, b);
    ToBlock(g, c.(track := c.track % 256))
  }

  // Blocks on 256 tracks, after which the track register starts over.
  function Period(g: Geometry): (n: int)
    requires g.Valid()
    ensures n > 0
  {
    Product(256, Cylinder(g))
  }

  // The controller reads the block asked for exactly if its track fits in
  // the register; beyond that it reads a block of the first 256 tracks.
  lemma {:induction false} PhysicalIsRemainder(g: Geometry, b: nat)
    requires g.Valid()
    ensures Physical(g, b) == Remainder(b, Period(g))
    ensures Physical(g, b) == b <==> b < Period(g)
  {
    var cyl := Cylinder(g);
    ProductIsTimes(g.sect, g.head);
    ProductIsTimes(256, cyl);
    ChsOfBlock(g, b);
    var c := ToChs(g, b);
    var q, m := c.track / 256, c.track % 256;
    var r := c.head * g.sect + c.sector - 1;
    Regroup(c.track, g.head, c.head, g.sect);
    Regroup(m, g.head, c.head, g.sect);
    assert Physical(g, b) == m * cyl + r;
    assert r < cyl by {
      MulStrict(c.head, g.head, g.sect);
    }
    assert r >= 0 by {
      MulStrict(-1, c.head, g.sect);
    }
    MulStrict(m, 256, cyl);
    MulStrict(-1, m, cyl);
    Regroup(q, 256, m, cyl);
    QuotientUnique(b, Period(g), q, m * cyl + r);
    assert Physical(g, b) == Remainder(b, Period(g));
    assert b < Period(g) ==> Remainder(b, Period(g)) == b;
    assert Remainder(b, Period(g)) < Period(g);
  }

  // On the 1.44 MB format, block 9216 reads as block 0.
  lemma TrackWraps()
    ensures Physical(H1440, 9216) == 0
  {
    ProductIsTimes(18, 2);
    ProductIsTimes(256, 36);
    QuotientUnique(9216, Period(H1440), 1, 0);
    PhysicalIsRemainder(H1440, 9216);
  }

  // ------------------------------------------------------------------------
  // What a transfer should leave in the buffer for block b: the block of the
  // disk, with block numbers taken modulo the period.

  predicate IsSector(period: nat, disk: seq<Sector>, b: nat, s: Sector)
    requires period > 0
  {
    Remainder(b, period) < |disk| && s == disk[Remainder(b, period)]
  }

  // Where no track number wraps, that is the block asked for.
  lemma SectorAsked(period: nat, disk: seq<Sector>, b: nat, s: Sector)
    requires b < period
    ensures IsSector(period, disk, b, s) <==> b < |disk| && s == disk[b]
  {
  }

  // The n sectors from position `at` on are those of the blocks from b on.
  ghost predicate Holds(period: nat, disk: seq<Sector>, contents: seq<Sector>, at: nat, b: nat, n: nat)
    requires period > 0
  {
    at + n <= |contents| && forall i | at <= i < at + n :: IsSector(period, disk, b + i - at, contents[i])
  }

  lemma NextOnSide(g: Geometry, b: nat, i: nat)
    requires g.Valid() && Remainder(b, g.sect) + i < g.sect
    ensures Physical(g, b + i) == Physical(g, b) + i == Remainder(b + i, Period(g))
  {
    SameSide(g, b, i);
    PhysicalIsRemainder(g, b + i);
  }

  // ------------------------------------------------------------------------
  // The controller, which answers every command: it may refuse a command
  // (accepted), or report an error (good). A transfer with an error delivers
  // sectors of its own (noise), and breaks off if these are too few.

  datatype Event = Event(accepted: bool, good: bool, noise: seq<Sector>)

  // A read command as issued: the block and the number of blocks wanted, the
  // track the drive stands on, whether all sectors arrived, whether these were
  // the right ones, and whether the result bytes report an error.
  datatype Read = Read(cmd: Command, blnr: nat, blocks: nat, position: int, complete: bool, right: bool, marked: bool)

  // Within one side, and on the right track.
  predicate GoodRead(g: Geometry, drive: nat, r: Read)
    requires g.Valid()
  {
    && r.cmd == IssueCommand(g, drive, r.blnr)
    && 1 <= r.cmd.sector && r.cmd.sector - 1 + r.blocks <= g.sect
    && r.position == r.cmd.track
  }

  function Failures(log: seq<Read>): nat {
    if log == [] then 0
    else Failures(log[..|log| - 1]) + if log[|log| - 1].complete then 0 else 1
  }

  // Completed transfers that delivered wrong sectors, and those that reported
  // an error.
  function WrongReads(log: seq<Read>): nat {
    if log == [] then 0
    else
      var last := log[|log| - 1];
      WrongReads(log[..|log| - 1]) + if last.complete && !last.right then 1 else 0
  }

  function MarkedReads(log: seq<Read>): nat {
    if log == [] then 0
    else
      var last := log[|log| - 1];
      MarkedReads(log[..|log| - 1]) + if last.complete && last.marked then 1 else 0
  }

  predicate AllGood(g: Geometry, drive: nat, log: seq<Read>)
    requires g.Valid()
  {
    log == [] || (AllGood(g, drive, log[..|log| - 1]) && GoodRead(g, drive, log[|log| - 1]))
  }

  lemma {:induction false} OneMoreRead(g: Geometry, drive: nat, log: seq<Read>, r: Read)
    requires g.Valid() && AllGood(g, drive, log) && GoodRead(g, drive, r)
    ensures AllGood(g, drive, log + [r])
    ensures Failures(log + [r]) == Failures(log) + if r.complete then 0 else 1
    ensures WrongReads(log + [r]) == WrongReads(log) + if r.complete && !r.right then 1 else 0
    ensures MarkedReads(log + [r]) == MarkedReads(log) + if r.complete && r.marked then 1 else 0
  {
    assert (log + [r])[..|log|] == log;
  }

  lemma {:induction false} AllGoodMeansEach(g: Geometry, drive: nat, log: seq<Read>, i: nat)
    requires g.Valid() && AllGood(g, drive, log) && i < |log|
    ensures var r := log[i];
            && GoodRead(g, drive, r) && r.position == r.cmd.track == r.blnr / Cylinder(g) % 256
            && 1 <= r.cmd.sector && r.cmd.sector - 1 + r.blocks <= g.sect
  {
    ChsIsDivMod(g, log[i].blnr);
    if i < |log| - 1 {
      AllGoodMeansEach(g, drive, log[..|log| - 1], i);
    }
  }

  // The command stays on its side and on the disk, and is carried out.
  predicate Clean(g: Geometry, disk: seq<Sector>, cmd: Command, n: nat, e: Event)
    requires g.Valid()
  {
    var p := ToBlock(g, Chs(cmd.track, cmd.drive / 4, cmd.sector));
    e.good && cmd.drive / 4 == cmd.head && cmd.sector - 1 + n <= cmd.eot && 0 <= p && p + n <= |disk|
  }

  // The sectors that arrive for a read command of n blocks: those of the disk,
  // or, with an error, whatever the controller delivers.
  function Transfer(g: Geometry, disk: seq<Sector>, cmd: Command, n: nat, e: Event): seq<Sector>
    requires g.Valid()
  {
    var p := ToBlock(g, Chs(cmd.track, cmd.drive / 4, cmd.sector));
    if Clean(g, disk, cmd, n, e) then disk[p..p + n]
    else if |e.noise| < n then e.noise
    else e.noise[..n]
  }

  // Without an error the sectors are the right ones.
  lemma {:induction false} CleanTransfer(g: Geometry, disk: seq<Sector>, drive: nat, blnr: nat, n: nat, e: Event)
    requires g.Valid() && drive < 4 && Remainder(blnr, g.sect) + n <= g.sect
    requires Clean(g, disk, IssueCommand(g, drive, blnr), n, e)
    ensures |Transfer(g, disk, IssueCommand(g, drive, blnr), n, e)| == n
    ensures Holds(Period(g), disk, Transfer(g, disk, IssueCommand(g, drive, blnr), n, e), 0, blnr, n)
  {
    var cmd := IssueCommand(g, drive, blnr);
    ChsOfBlock(g, blnr);
    var p := ToBlock(g, Chs(cmd.track, cmd.drive / 4, cmd.sector));
    assert p == Physical(g, blnr);
    var stream := Transfer(g, disk, cmd, n, e);
    assert stream == disk[p..p + n];
    forall i | 0 <= i < n ensures IsSector(Period(g), disk, blnr + i, stream[i]) {
      NextOnSide(g, blnr, i);
    }
  }

  // The command names the drive, the side in its bit 2 as well as on its own,
  // and where the block is.
  lemma {:induction false} CommandFields(g: Geometry, drive: nat, b: nat)
    requires g.Valid() && drive < 4
    ensures var cmd := IssueCommand(g, drive, b);
            && cmd.drive % 4 == drive && cmd.drive / 4 == cmd.head
            && cmd.head == b % Cylinder(g) / g.sect && cmd.track == b / Cylinder(g) % 256
            && cmd.sector == b % Cylinder(g) % g.sect + 1 && cmd.eot == g.sect
  {
    ChsIsDivMod(g, b);
    ChsOfBlock(g, b);
  }

  // For blocks of the disk it is carried out if the drive is in order.
  lemma {:induction false} GoodIsClean(g: Geometry, disk: seq<Sector>, drive: nat, b: nat, n: nat, e: Event)
    requires g.Valid() && drive < 4 && e.good
    requires Remainder(b, g.sect) + n <= g.sect && b + n <= |disk| && b + n <= Period(g)
    ensures Clean(g, disk, IssueCommand(g, drive, b), n, e)
  {
    CommandFields(g, drive, b);
    SameSide(g, b, 0);
    PhysicalIsRemainder(g, b);
    ChsOfBlock(g, b);
    var cmd := IssueCommand(g, drive, b);
    assert ToBlock(g, Chs(cmd.track, cmd.drive / 4, cmd.sector)) == Physical(g, b);
    RemainderIsLess(b, Period(g));
  }

  lemma {:induction false} RemainderIsLess(a: nat, d: nat)
    requires d > 0
    ensures 0 <= Remainder(a, d) <= a
  {
    if a >= d {
      RemainderIsLess(a - d, d);
    }
  }

  // Blocks from block b to the end of its side.
  function Left(g: Geometry, b: nat): (n: nat)
    requires g.Valid()
    ensures 0 < n <= g.sect
  {
    g.sect - Remainder(b, g.sect)
  }

  // After them a new side starts.
  lemma {:induction false} NextSide(g: Geometry, b: nat)
    requires g.Valid()
    ensures Left(g, b + Left(g, b)) == g.sect
  {
    if b < g.sect {
      assert Remainder(0, g.sect) == 0;
    } else {
      NextSide(g, b - g.sect);
    }
  }

  lemma {:induction false} StartOfSide(g: Geometry, b: nat)
    requires g.Valid()
    ensures ToChs(g, b).sector - 1 == Remainder(b, g.sect)
  {
    SameSide(g, b, 0);
  }

  // The contents from position `at` on are the first n sectors of the stream.
  ghost predicate Delivered(contents: seq<Sector>, at: nat, stream: seq<Sector>, n: nat) {
    n <= |stream| && at + n <= |contents| && forall i | 0 <= i < n :: stream[i] == contents[at + i]
  }

  lemma HoldsMoved(period: nat, disk: seq<Sector>, stream: seq<Sector>, contents: seq<Sector>, at: nat, b: nat, n: nat)
    requires period > 0 && Delivered(contents, at, stream, n)
    ensures Holds(period, disk, contents, at, b, n) <==> Holds(period, disk, stream, 0, b, n)
  {
    if Holds(period, disk, stream, 0, b, n) {
      forall i | at <= i < at + n ensures IsSector(period, disk, b + i - at, contents[i]) {
        assert stream[i - at] == contents[at + (i - at)];
        assert IsSector(period, disk, b + (i - at) - 0, stream[i - at]);
      }
    }
    if Holds(period, disk, contents, at, b, n) {
      forall i | 0 <= i < n ensures IsSector(period, disk, b + i - 0, stream[i]) {
        assert IsSector(period, disk, b + (at + i) - at, contents[at + i]);
        assert b + (at + i) - at == b + i - 0;
      }
    }
  }

  // Two runs of blocks, one behind the other, of which the first was there
  // before.
  lemma HoldsInTwo(period: nat, disk: seq<Sector>, was: seq<Sector>, contents: seq<Sector>, b: nat, m: nat, n: nat)
    requires period > 0 && m + n <= |contents| == |was| && forall i | 0 <= i < m :: contents[i] == was[i]
    ensures Holds(period, disk, contents, 0, b, m + n)
            <==> Holds(period, disk, was, 0, b, m) && Holds(period, disk, contents, m, b + m, n)
  {
    if Holds(period, disk, contents, 0, b, m + n) {
      forall i | m <= i < m + n ensures IsSector(period, disk, b + m + i - m, contents[i]) {
        assert IsSector(period, disk, b + i - 0, contents[i]);
      }
      forall i | 0 <= i < m ensures IsSector(period, disk, b + i - 0, was[i]) {
        assert IsSector(period, disk, b + i - 0, contents[i]);
      }
    }
    if Holds(period, disk, was, 0, b, m) && Holds(period, disk, contents, m, b + m, n) {
      forall i | 0 <= i < m + n ensures IsSector(period, disk, b + i - 0, contents[i]) {
        if i < m {
          assert IsSector(period, disk, b + i - 0, was[i]);
        } else {
          assert IsSector(period, disk, b + m + i - m, contents[i]);
        }
      }
    }
  }

  // The contents start with the n blocks from b on.
  ghost predicate HoldsBlocks(disk: seq<Sector>, contents: seq<Sector>, b: nat, n: nat) {
    n <= |contents| && forall i | 0 <= i < n :: b + i < |disk| && contents[i] == disk[b + i]
  }

  // Where no track number wraps, these are the blocks asked for.
  lemma HoldsAsked(period: nat, disk: seq<Sector>, contents: seq<Sector>, b: nat, n: nat)
    requires period > 0 && b + n <= period
    ensures Holds(period, disk, contents, 0, b, n) <==> HoldsBlocks(disk, contents, b, n)
  {
    if HoldsBlocks(disk, contents, b, n) {
      BlocksAreHeld(period, disk, contents, b, n);
    }
    if Holds(period, disk, contents, 0, b, n) {
      HeldAreBlocks(period, disk, contents, b, n);
    }
  }

  lemma BlocksAreHeld(period: nat, disk: seq<Sector>, contents: seq<Sector>, b: nat, n: nat)
    requires period > 0 && b + n <= period && HoldsBlocks(disk, contents, b, n)
    ensures Holds(period, disk, contents, 0, b, n)
  {
    forall i | 0 <= i < n ensures IsSector(period, disk, b + i - 0, contents[i]) {
      SectorAsked(period, disk, b + i, contents[i]);
    }
  }

  lemma HeldAreBlocks(period: nat, disk: seq<Sector>, contents: seq<Sector>, b: nat, n: nat)
    requires period > 0 && b + n <= period && Holds(period, disk, contents, 0, b, n)
    ensures HoldsBlocks(disk, contents, b, n)
  {
    forall i | 0 <= i < n ensures b + i < |disk| && contents[i] == disk[b + i] {
      assert IsSector(period, disk, b + i - 0, contents[i]);
      SectorAsked(period, disk, b + i, contents[i]);
    }
  }

  // Failed transfers that the two retry counters stand for.
  function RetryCount(retriesrw: nat, retriescal: nat): nat {
    retriesrw +
    if retriescal == 0 then 0
    else if retriescal == 1 then 5
    else if retriescal == 2 then 10
    else if retriescal == 3 then 15
    else if retriescal == 4 then 20
    else 25
  }

  const MAX_FAILURES: nat := 25

  // The buffer is unchanged outside [lo, hi).
  twostate predicate Outside(buffer: array<Sector>, lo: nat, hi: nat)
    reads buffer
  {
    forall i | 0 <= i < buffer.Length && !(lo <= i < hi) :: buffer[i] == old(buffer[i])
  }

  // What is read next: up to the end of the next side, or all that is left.
  lemma NextTurn(g: Geometry, b: nat, readblk: nat, blocks: nat)
    requires g.Valid() && readblk <= blocks && readblk <= Left(g, b) && (readblk == blocks || readblk == Left(g, b))
    ensures var left := blocks - readblk;
            var next := if g.sect > left then left else g.sect;
            next <= Left(g, b + readblk) && (next == left || next == Left(g, b + readblk))
  {
    NextSide(g, b);
  }

  class Controller {
    const g: Geometry
    const period: nat
    const drive: nat
    const disk: seq<Sector>
    const events: nat -> Event

    var now: nat
    var blnr: nat
    var position: int
    // All READ commands so far; how many of their transfers broke off, and how
    // many were completed with wrong sectors, or with an error reported.
    ghost var log: seq<Read>
    ghost var failed: nat
    ghost var wrong: nat
    ghost var marked: nat
    // Refused commands and failed seeks so far.
    ghost var refused: nat

    ghost predicate Valid()
      reads this
    {
      && g.Valid() && period == Period(g) && drive < 4 && AllGood(g, drive, log)
      && failed == Failures(log) && wrong == WrongReads(log) && marked == MarkedReads(log)
    }

    constructor (g: Geometry, drive: nat, disk: seq<Sector>, events: nat -> Event, blnr: nat)
      requires g.Valid() && drive < 4
      ensures Valid() && this.g == g && this.drive == drive && this.disk == disk && this.events == events
      ensures this.blnr == blnr && now == 0 && log == []
    {
      this.g, this.period, this.drive, this.disk, this.events, this.blnr := g, Period(g), drive, disk, events, blnr;
      now, position, log, failed, wrong, marked, refused := 0, 0, [], 0, 0, 0, 0;
    }

    method Seek() returns (ok: bool)
      requires Valid()
      modifies `now, `position, `refused
      ensures Valid() && refused == old(refused) + if ok then 0 else 1
      ensures now == old(now) + 1 && (ok <==> events(old(now)).accepted && events(old(now)).good)
      ensures ok ==> position == IssueCommand(g, drive, blnr).track
    {
      var e := events(now);
      now := now + 1;
      ok := e.accepted && e.good;
      refused := refused + if ok then 0 else 1;
      if ok {
        position := IssueCommand(g, drive, blnr).track;
      }
    }

    method Recalibrate() returns (ok: bool)
      requires Valid()
      modifies `now, `position, `refused
      ensures Valid() && now == old(now) + 1 && refused == old(refused) + if ok then 0 else 1
    {
      var e := events(now);
      now := now + 1;
      ok := e.accepted;
      refused := refused + if ok then 0 else 1;
      position := 0;
    }

    // To track 0 and back.
    method MoveAgain() returns (ok: bool)
      requires Valid()
      modifies `now, `position, `refused
      ensures Valid() && now > old(now) && refused == old(refused) + if ok then 0 else 1
      ensures ok ==> position == IssueCommand(g, drive, blnr).track
    {
      ok := Recalibrate();
      if ok {
        ok := Seek();
      }
    }

    // Takes sectors from the FIFO until the transfer is complete or breaks off.
    static method Receive(buffer: array<Sector>, offset: nat, stream: seq<Sector>, len: nat) returns (complete: bool)
      requires offset + len <= buffer.Length
      modifies buffer
      ensures complete <==> |stream| >= len
      ensures complete ==> Delivered(buffer[..], offset, stream, len)
      ensures Outside(buffer, offset, offset + len)
    {
      var i := 0;
      while i < len
        invariant i <= len && i <= |stream|
        invariant forall j | 0 <= j < i :: buffer[offset + j] == stream[j]
        invariant Outside(buffer, offset, offset + len)
      {
        if i >= |stream| {
          return false;
        }
        buffer[offset + i] := stream[i];
        i := i + 1;
      }
      complete := true;
    }

    // The read that the event answers, of which `complete` sectors arrived.
    ghost function TheRead(readblk: nat, complete: bool, e: Event): Read
      requires Valid()
      reads this
    {
      var cmd := IssueCommand(g, drive, blnr);
      Read(cmd, blnr, readblk, position, complete,
           Holds(period, disk, Transfer(g, disk, cmd, readblk, e), 0, blnr, readblk), !Clean(g, disk, cmd, readblk, e))
    }

    lemma TheReadIsGood(readblk: nat, complete: bool, e: Event)
      requires Valid() && readblk <= Left(g, blnr) && position == IssueCommand(g, drive, blnr).track
      ensures GoodRead(g, drive, TheRead(readblk, complete, e))
    {
      StartOfSide(g, blnr);
    }

    ghost method Record(r: Read)
      requires Valid() && GoodRead(g, drive, r)
      modifies `log, `failed, `wrong, `marked
      ensures Valid()
      ensures failed == old(failed) + if r.complete then 0 else 1
      ensures wrong == old(wrong) + if r.complete && !r.right then 1 else 0
      ensures marked == old(marked) + if r.complete && r.marked then 1 else 0
    {
      OneMoreRead(g, drive, log, r);
      failed := failed + if r.complete then 0 else 1;
      wrong := wrong + if r.complete && !r.right then 1 else 0;
      marked := marked + if r.complete && r.marked then 1 else 0;
      log := log + [r];
    }

    // What the event delivers for the next blocks.
    ghost function Stream(readblk: nat, e: Event): seq<Sector>
      requires g.Valid()
      reads `blnr
    {
      Transfer(g, disk, IssueCommand(g, drive, blnr), readblk, e)
    }

    // Whether the event reports an error for a read of the next blocks.
    ghost function Marks(readblk: nat, e: Event): nat
      requires g.Valid()
      reads `blnr
    {
      if Clean(g, disk, IssueCommand(g, drive, blnr), readblk, e) then 0 else 1
    }

    // A read without an error delivers the right sectors.
    lemma UnmarkedIsRight(readblk: nat, e: Event)
      requires Valid() && readblk <= Left(g, blnr)
      ensures var r := TheRead(readblk, true, e); r.marked || r.right
    {
      var cmd := IssueCommand(g, drive, blnr);
      if Clean(g, disk, cmd, readblk, e) {
        CleanTransfer(g, disk, drive, blnr, readblk, e);
      }
    }

    // Every transfer counted as wrong since then reported an error.
    ghost predicate WrongAreMarked(wrong0: nat, marked0: nat)
      reads this
    {
      wrong0 <= wrong && wrong - wrong0 <= marked - marked0
    }

    // One READ command and its transfer. A completed transfer leaves the right
    // blocks exactly if it is not counted as wrong, and is wrong only if it
    // reports an error; nobody looks at the report.
    method Attempt(buffer: array<Sector>, offset: nat, readblk: nat) returns (issued: bool, complete: bool)
      requires Valid() && offset + readblk <= buffer.Length
      requires readblk <= Left(g, blnr) && position == IssueCommand(g, drive, blnr).track
      modifies `now, `log, `failed, `wrong, `marked, `refused, buffer
      ensures Valid() && (!issued ==> !complete) && refused == old(refused) + if issued then 0 else 1
      ensures now == old(now) + 1 && issued == events(old(now)).accepted
      ensures issued ==> (complete <==> |Stream(readblk, events(old(now)))| >= readblk)
      ensures failed == old(failed) + if issued && !complete then 1 else 0
      ensures complete ==> (Holds(period, disk, buffer[..], offset, blnr, readblk) <==> wrong == old(wrong))
      ensures complete ==> Delivered(buffer[..], offset, Stream(readblk, events(old(now))), readblk)
      ensures complete ==> marked == old(marked) + Marks(readblk, events(old(now)))
      ensures WrongAreMarked(old(wrong), old(marked))
      ensures !complete ==> wrong == old(wrong) && marked == old(marked)
      ensures Outside(buffer, offset, offset + readblk)
    {
      var e := events(now);
      now := now + 1;
      complete := false;
      issued := e.accepted;
      refused := refused + if issued then 0 else 1;
      if issued {
        var stream := Transfer(g, disk, IssueCommand(g, drive, blnr), readblk, e);
        complete := Receive(buffer, offset, stream, readblk);
        UnmarkedIsRight(readblk, e);
        if complete {
          HoldsMoved(period, disk, stream, buffer[..], offset, blnr, readblk);
        }
        TheReadIsGood(readblk, complete, e);
        Record(TheRead(readblk, complete, e));
      }
    }

    // The first event completes a read of the next blocks.
    ghost predicate ReadWorks(readblk: nat, e: Event)
      requires g.Valid()
      reads `blnr
    {
      e.accepted && |Stream(readblk, e)| >= readblk
    }

    // After a broken transfer: the counters, and the head if it is moved.
    method TryAgain(rw: nat, cal: nat, ghost failed0: nat) returns (again: bool, retriesrw: nat, retriescal: nat)
      requires Valid() && position == IssueCommand(g, drive, blnr).track
      requires rw <= FDC_RW_RETRIES + 1 && cal <= FDC_CAL_RETRIES + 1 && failed == failed0 + RetryCount(rw, cal) + 1
      modifies `now, `position, `refused
      ensures Valid() && now >= old(now) && failed == failed0 + RetryCount(retriesrw, retriescal)
      ensures RetryCount(retriesrw, retriescal) <= MAX_FAILURES
      ensures again <==> refused == old(refused) && RetryCount(retriesrw, retriescal) < MAX_FAILURES
      ensures again ==>
                && position == IssueCommand(g, drive, blnr).track
                && retriesrw <= FDC_RW_RETRIES + 1 && retriescal <= FDC_CAL_RETRIES + 1
                && (retriescal > cal || (retriescal == cal && retriesrw > rw))
    {
      again, retriesrw, retriescal := true, rw + 1, cal;
      if retriesrw - 1 > FDC_RW_RETRIES {
        retriesrw, retriescal := 0, retriescal + 1;
        if retriescal - 1 > FDC_CAL_RETRIES {
          return false, retriesrw, retriescal;
        }
        again := MoveAgain();
      }
    }

    // Reads up to the end of a side, or of the request, trying again after a
    // broken transfer: at once, or after moving the head. The counters run on
    // from side to side.
    method ReadSide(buffer: array<Sector>, offset: nat, readblk: nat, rw: nat, cal: nat, ghost failed0: nat)
      returns (ok: bool, retriesrw: nat, retriescal: nat)
      requires Valid() && offset + readblk <= buffer.Length
      requires readblk <= Left(g, blnr) && position == IssueCommand(g, drive, blnr).track
      requires rw <= FDC_RW_RETRIES + 1 && cal <= FDC_CAL_RETRIES + 1 && failed == failed0 + RetryCount(rw, cal)
      modifies `now, `log, `failed, `wrong, `marked, `refused, `position, buffer
      ensures Valid() && (ok ==> (Holds(period, disk, buffer[..], offset, blnr, readblk) <==> wrong == old(wrong)))
      ensures WrongAreMarked(old(wrong), old(marked)) && (!ok ==> wrong == old(wrong))
      ensures Outside(buffer, offset, offset + readblk)
      ensures failed == failed0 + RetryCount(retriesrw, retriescal)
      ensures ok ==> retriesrw <= FDC_RW_RETRIES + 1 && retriescal <= FDC_CAL_RETRIES + 1
      ensures RetryCount(retriesrw, retriescal) <= MAX_FAILURES
      ensures ok <==> refused == old(refused) && RetryCount(retriesrw, retriescal) < MAX_FAILURES
      ensures ReadWorks(readblk, events(old(now))) ==>
                && ok && Delivered(buffer[..], offset, Stream(readblk, events(old(now))), readblk)
                && marked == old(marked) + Marks(readblk, events(old(now))) && failed == old(failed)
    {
      ghost var first, now0 := events(now), now;
      retriesrw, retriescal := rw, cal;
      ok := false;
      while !ok
        invariant Valid() && (!ok ==> position == IssueCommand(g, drive, blnr).track)
        invariant if ok then (Holds(period, disk, buffer[..], offset, blnr, readblk) <==> wrong == old(wrong))
                  else wrong == old(wrong)
        invariant WrongAreMarked(old(wrong), old(marked))
        invariant Outside(buffer, offset, offset + readblk)
        invariant retriesrw <= FDC_RW_RETRIES + 1 && retriescal <= FDC_CAL_RETRIES + 1
        invariant refused == old(refused)
        invariant failed == failed0 + RetryCount(retriesrw, retriescal)
        invariant now == now0 || ok || !ReadWorks(readblk, first)
        invariant ok && ReadWorks(readblk, first) ==>
                    && Delivered(buffer[..], offset, Stream(readblk, first), readblk)
                    && marked == old(marked) + Marks(readblk, first) && failed == old(failed)
        invariant !ok ==> marked == old(marked)
        invariant now >= now0 && (now == now0 ==> failed == old(failed))
        decreases !ok, FDC_CAL_RETRIES + 1 - retriescal, FDC_RW_RETRIES + 1 - retriesrw
      {
        var issued;
        issued, ok := Attempt(buffer, offset, readblk);
        if !issued {
          return;
        }
        if !ok {
          var again;
          again, retriesrw, retriescal := TryAgain(retriesrw, retriescal, failed0);
          if !again {
            return;
          }
        }
      }
    }

    // Moves the head, reads up to the end of a side and advances blnr.
    method AdvanceSide(buffer: array<Sector>, offset: nat, readblk: nat, rw: nat, cal: nat,
                       ghost start: nat, ghost failed0: nat)
      returns (ok: bool, retriesrw: nat, retriescal: nat)
      requires Valid() && offset + readblk <= buffer.Length && readblk <= Left(g, blnr) && blnr == start + offset
      requires rw <= FDC_RW_RETRIES + 1 && cal <= FDC_CAL_RETRIES + 1 && failed == failed0 + RetryCount(rw, cal)
      modifies this, buffer
      ensures Valid() && blnr == if ok then start + offset + readblk else start + offset
      ensures ok ==> (Holds(period, disk, buffer[..], offset, start + offset, readblk) <==> wrong == old(wrong))
      ensures WrongAreMarked(old(wrong), old(marked)) && (!ok ==> wrong == old(wrong))
      ensures Outside(buffer, offset, offset + readblk)
      ensures failed == failed0 + RetryCount(retriesrw, retriescal)
      ensures ok ==> retriesrw <= FDC_RW_RETRIES + 1 && retriescal <= FDC_CAL_RETRIES + 1
      ensures RetryCount(retriesrw, retriescal) <= MAX_FAILURES
      ensures ok <==> refused == old(refused) && RetryCount(retriesrw, retriescal) < MAX_FAILURES
      ensures old(FirstTry(readblk)) ==>
              && ok && Delivered(buffer[..], offset, old(Stream(readblk, events(now + 1))), readblk)
              && marked == old(marked) + old(Marks(readblk, events(now + 1))) && failed == old(failed)
    {
      retriesrw, retriescal := rw, cal;
      ok := Seek();
      if ok {
        ok, retriesrw, retriescal := ReadSide(buffer, offset, readblk, rw, cal, failed0);
        if ok {
          blnr := blnr + readblk;
        }
      }
    }

    // The same, for a buffer that is right so far unless something was wrong.
    method ReadOn(buffer: array<Sector>, offset: nat, readblk: nat, rw: nat, cal: nat, ghost start: nat,
                  ghost failed0: nat, ghost wrong0: nat, ghost marked0: nat)
      returns (ok: bool, retriesrw: nat, retriescal: nat)
      requires Valid() && offset + readblk <= buffer.Length && readblk <= Left(g, blnr) && blnr == start + offset
      requires rw <= FDC_RW_RETRIES + 1 && cal <= FDC_CAL_RETRIES + 1 && failed == failed0 + RetryCount(rw, cal)
      requires WrongAreMarked(wrong0, marked0)
               && (Holds(period, disk, buffer[..], 0, start, offset) <==> wrong == wrong0)
      modifies this, buffer
      ensures Valid() && blnr == if ok then start + offset + readblk else start + offset
      ensures WrongAreMarked(wrong0, marked0)
              && (Holds(period, disk, buffer[..], 0, start, blnr - start) <==> wrong == wrong0)
      ensures Outside(buffer, offset, offset + readblk)
      ensures failed == failed0 + RetryCount(retriesrw, retriescal)
      ensures ok ==> retriesrw <= FDC_RW_RETRIES + 1 && retriescal <= FDC_CAL_RETRIES + 1
      ensures RetryCount(retriesrw, retriescal) <= MAX_FAILURES
      ensures ok <==> refused == old(refused) && RetryCount(retriesrw, retriescal) < MAX_FAILURES
      ensures old(FirstTry(readblk)) ==>
              && ok && Delivered(buffer[..], offset, old(Stream(readblk, events(now + 1))), readblk)
              && marked == old(marked) + old(Marks(readblk, events(now + 1))) && failed == old(failed)
    {
      ghost var was := buffer[..];
      HoldsInTwo(period, disk, was, was, start, offset, 0);
      ok, retriesrw, retriescal := AdvanceSide(buffer, offset, readblk, rw, cal, start, failed0);
      HoldsInTwo(period, disk, was, buffer[..], start, offset, if ok then readblk else 0);
    }

    // And then: what to read next, of the blocks that are left.
    method ReadTurn(buffer: array<Sector>, offset: nat, readblk: nat, blocks: nat, rw: nat, cal: nat,
                    ghost start: nat, ghost failed0: nat, ghost wrong0: nat, ghost marked0: nat)
      returns (ok: bool, retriesrw: nat, retriescal: nat, next: nat)
      requires Valid() && offset + readblk <= buffer.Length && readblk <= Left(g, blnr) && blnr == start + offset
      requires rw <= FDC_RW_RETRIES + 1 && cal <= FDC_CAL_RETRIES + 1 && failed == failed0 + RetryCount(rw, cal)
      requires WrongAreMarked(wrong0, marked0)
               && (Holds(period, disk, buffer[..], 0, start, offset) <==> wrong == wrong0)
      requires readblk <= blocks && (readblk == blocks || readblk == Left(g, blnr))
      modifies this, buffer
      ensures Valid() && blnr == if ok then start + offset + readblk else start + offset
      ensures WrongAreMarked(wrong0, marked0)
              && (Holds(period, disk, buffer[..], 0, start, blnr - start) <==> wrong == wrong0)
      ensures Outside(buffer, offset, offset + readblk)
      ensures failed == failed0 + RetryCount(retriesrw, retriescal)
      ensures ok ==> retriesrw <= FDC_RW_RETRIES + 1 && retriescal <= FDC_CAL_RETRIES + 1
      ensures RetryCount(retriesrw, retriescal) <= MAX_FAILURES
      ensures ok <==> refused == old(refused) && RetryCount(retriesrw, retriescal) < MAX_FAILURES
      ensures old(FirstTry(readblk)) ==>
              && ok && Delivered(buffer[..], offset, old(Stream(readblk, events(now + 1))), readblk)
              && marked == old(marked) + old(Marks(readblk, events(now + 1))) && failed == old(failed)
      ensures Faultless() && OnDisk(start + offset, readblk) ==>
                ok && failed == old(failed) && marked == old(marked)
      ensures next <= blocks - readblk
              && (ok ==> next <= Left(g, blnr) && (next == blocks - readblk || next == Left(g, blnr)))
    {
      NextTurn(g, blnr, readblk, blocks);
      if Faultless() && OnDisk(start + offset, readblk) {
        FaultlessRead(readblk);
      }
      ok, retriesrw, retriescal := ReadOn(buffer, offset, readblk, rw, cal, start, failed0, wrong0, marked0);
      var left := blocks - readblk;
      next := if g.sect > left then left else g.sect;
    }

    // A seek that works, and a read that is completed at the first attempt.
    ghost predicate FirstTry(readblk: nat)
      requires g.Valid()
      reads this
    {
      events(now).accepted && events(now).good && ReadWorks(readblk, events(now + 1))
    }

    // Every command is accepted and carried out, and every seek works.
    ghost predicate Faultless() {
      forall n: nat :: events(n).accepted && events(n).good
    }

    // The blocks are on the disk, and before the track register wraps around.
    predicate OnDisk(b: nat, n: nat)
      requires g.Valid()
    {
      b + n <= |disk| && b + n <= Period(g)
    }

    // Then a read of any of these blocks works at the first attempt, without an
    // error.
    lemma FaultlessRead(readblk: nat)
      requires Valid() && Faultless() && OnDisk(blnr, readblk) && readblk <= Left(g, blnr)
      ensures FirstTry(readblk) && Marks(readblk, events(now + 1)) == 0
    {
      GoodIsClean(g, disk, drive, blnr, readblk, events(now + 1));
      CleanTransfer(g, disk, drive, blnr, readblk, events(now + 1));
    }

    // Nothing has been read, and the first read is that of count blocks.
    ghost predicate NotYet(offset: nat, readblk: nat, count: nat, stream: seq<Sector>, marks: nat)
      requires g.Valid()
      reads this
    {
      && offset == 0 && readblk == count && FirstTry(count)
      && Stream(count, events(now + 1)) == stream && Marks(count, events(now + 1)) == marks
    }

    // The loop over the sides.
    method ReadSides(buffer: array<Sector>, count: nat, ghost failed0: nat, ghost wrong0: nat, ghost marked0: nat)
      returns (ok: bool, ghost failures: nat)
      requires Valid() && count <= buffer.Length && failed == failed0 && wrong == wrong0 && marked == marked0
      modifies this, buffer
      ensures Valid() && old(blnr) <= blnr <= old(blnr) + count && (ok ==> blnr == old(blnr) + count)
      ensures Holds(period, disk, buffer[..], 0, old(blnr), blnr - old(blnr)) <==> wrong == wrong0
      ensures WrongAreMarked(wrong0, marked0) && Outside(buffer, 0, count)
      ensures failed == failed0 + failures && failures <= MAX_FAILURES
      ensures ok <==> refused == old(refused) && failures < MAX_FAILURES
      ensures count <= Left(g, old(blnr)) && old(FirstTry(count)) ==>
                && ok && Delivered(buffer[..], 0, old(Stream(count, events(now + 1))), count)
                && marked == old(marked) + old(Marks(count, events(now + 1)))
      ensures Faultless() && OnDisk(old(blnr), count) ==> ok && failed == failed0 && marked == marked0
    {
      ghost var start, simple := blnr, count <= Left(g, blnr) && FirstTry(count);
      ghost var faultless := Faultless() && OnDisk(start, count);
      ghost var stream, marks := Stream(count, events(now + 1)), Marks(count, events(now + 1));
      var retriesrw: nat, retriescal: nat := 0, 0;
      var blocks: nat, offset: nat := count, 0;
      var readblk: nat := g.sect - Remainder(blnr, g.sect);
      if readblk > blocks {
        readblk := blocks;
      }
      ok, failures := false, 0;
      while !ok
        invariant Valid() && blnr == start + offset && offset + blocks == count
        invariant Holds(period, disk, buffer[..], 0, start, offset) <==> wrong == wrong0
        invariant WrongAreMarked(wrong0, marked0) && Outside(buffer, 0, count)
        invariant ok ==> blocks == 0
        invariant readblk <= blocks && readblk <= Left(g, blnr) && (readblk == blocks || readblk == Left(g, blnr))
        invariant retriesrw <= FDC_RW_RETRIES + 1 && retriescal <= FDC_CAL_RETRIES + 1
        invariant refused == old(refused) && failures < MAX_FAILURES
        invariant failures == RetryCount(retriesrw, retriescal) && failed == failed0 + failures
        invariant simple ==> if ok then Delivered(buffer[..], 0, stream, count) && marked == marked0 + marks
                             else NotYet(offset, readblk, count, stream, marks) && marked == marked0
        invariant faultless ==> failed == failed0 && marked == marked0
        decreases !ok, blocks
      {
        var next;
        ok, retriesrw, retriescal, next :=
          ReadTurn(buffer, offset, readblk, blocks, retriesrw, retriescal, start, failed0, wrong0, marked0);
        failures := RetryCount(retriesrw, retriescal);
        if !ok {
          return;
        }
        offset := offset + readblk;
        blocks := blocks - readblk;
        ok := blocks == 0;
        readblk := next;
      }
    }

    // The buffer holds the blocks that blnr has advanced over (on success those
    // asked for) exactly if no completed transfer was wrong; and none is that
    // reports no error. The call gives up after a refused command, a failed
    // seek, or the 25th transfer that breaks off.
    method ReadData(buffer: array<Sector>, count: nat) returns (ok: bool)
      requires Valid() && count <= buffer.Length
      modifies this, buffer
      ensures Valid() && old(blnr) <= blnr <= old(blnr) + count && (ok ==> blnr == old(blnr) + count)
      ensures Holds(period, disk, buffer[..], 0, old(blnr), blnr - old(blnr)) <==> wrong == old(wrong)
      ensures WrongAreMarked(old(wrong), old(marked)) && Outside(buffer, 0, count)
      ensures ok && old(blnr) + count <= period ==>
                (HoldsBlocks(disk, buffer[..], old(blnr), count) <==> wrong == old(wrong))
      ensures failed - old(failed) <= MAX_FAILURES
      ensures ok <==> refused == old(refused) && failed - old(failed) < MAX_FAILURES
      ensures count <= Left(g, old(blnr)) && old(FirstTry(count)) ==>
                && ok && Delivered(buffer[..], 0, old(Stream(count, events(now + 1))), count)
                && marked == old(marked) + old(Marks(count, events(now + 1)))
      ensures Faultless() && OnDisk(old(blnr), count) ==>
                && ok && HoldsBlocks(disk, buffer[..], old(blnr), count)
                && failed == old(failed) && wrong == old(wrong) && marked == old(marked)
    {
      ghost var start, failures := blnr, 0;
      ok, failures := ReadSides(buffer, count, failed, wrong, marked);
      if start + count <= period {
        HoldsAsked(period, disk, buffer[..], start, count);
      }
    }
  }

  // A read whose only transfer is completed with an error report: TRUE, and
  // whatever the controller delivered in the buffer. The read is counted as
  // wrong if that is not the block asked for.
  method ErrorIsTaken(g: Geometry, disk: seq<Sector>, blnr: nat, noise: Sector)
    returns (ok: bool, buffer: array<Sector>, c: Controller)
    requires g.Valid()
    ensures fresh(buffer) && buffer.Length == 1 && fresh(c) && c.Valid() && c.disk == disk
    ensures ok && buffer[0] == noise && c.marked == 1
    ensures c.wrong == if IsSector(Period(g), disk, blnr, noise) then 0 else 1
  {
    var events := (n: nat) => Event(true, n == 0, [noise]);
    c := new Controller(g, 0, disk, events, blnr);
    buffer := new Sector[1];
    ghost var stream := c.Stream(1, events(1));
    assert stream == [noise];
    assert c.FirstTry(1);
    ok := c.ReadData(buffer, 1);
    assert Delivered(buffer[..], 0, stream, 1);
    assert stream[0] == buffer[..][0];
    OneHeld(Period(g), disk, buffer[..], blnr);
  }

  lemma OneHeld(period: nat, disk: seq<Sector>, contents: seq<Sector>, b: nat)
    requires period > 0 && contents != []
    ensures Holds(period, disk, contents, 0, b, 1) <==> IsSector(period, disk, b, contents[0])
  {
    assert b + 0 - 0 == b;
  }
}
