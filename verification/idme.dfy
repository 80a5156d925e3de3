// IDME: device identity data kept twice on the eMMC, in the boot area that
// the loader trusts and in a user area through which updates arrive. A signed
// user area is merged into the boot area, block by block.
module Idme {
  import opened Wrappers
  import opened Arithmetic

  const BLOCK: nat := 512
  const BLOCKS: nat := 32
  const IDME_SIZE: nat := 16384
  const IDME_BASE_ADDR: nat := 8
  const SIG_OFFSET: nat := 0x1F0
  const BITMAP_OFFSET: nat := 0x1FC

  // "beefdeed" and "adbdefg12345"
  const MAGIC: seq<Byte> := [98, 101, 101, 102, 100, 101, 101, 100]
  const SIG: seq<Byte> := [97, 100, 98, 100, 101, 102, 103, 49, 50, 51, 52, 53]

  datatype Var = Var(name: string, offset: nat, size: nat)

  const VARS: seq<Var> := [
    Var("version", 0, 4), Var("boardid", 4, 16), Var("serial", 20, 16), Var("mac", 36, 16), Var("sec", 52, 32),
    Var("bt", 84, 16), Var("pid", 0x200, 32), Var("pid2", 0x220, 32), Var("bootmode", 0x1000, 16),
    Var("postmode", 0x1010, 16), Var("gyrocal", 100, 36), Var("camcal", 0x1020, 2560), Var("mfg", 0x1A20, 512)]

  type Area = a: seq<Byte> | |a| == 16384 witness seq(16384, _ => 0)

  // The byte at position j belongs to variable i.
  predicate InVar(i: nat, j: nat)
    requires i < |VARS|
  {
    IDME_BASE_ADDR + VARS[i].offset <= j < IDME_BASE_ADDR + VARS[i].offset + VARS[i].size
  }

  // No two variables share a byte; none reaches the signature or the bitmap.
  lemma VarsAreDisjoint(i: nat, k: nat, j: nat)
    requires i < |VARS| && k < |VARS| && InVar(i, j)
    ensures InVar(k, j) ==> i == k
    ensures 8 <= j < IDME_SIZE && !(IDME_BASE_ADDR + SIG_OFFSET <= j < IDME_BASE_ADDR + BITMAP_OFFSET + 4)
  {
  }

  // The 32-bit little-endian bitmap word.
  function Bitmap(user: Area): nat {
    var p := IDME_BASE_ADDR + BITMAP_OFFSET;
    user[p] as int + 256 * (user[p + 1] as int) + 65536 * (user[p + 2] as int) + 16777216 * (user[p + 3] as int)
  }

  predicate Chosen(bitmap: nat, i: nat) {
    bitmap / Pow2(i) % 2 == 1
  }

  predicate HasMagic(user: Area) {
    user[..8] == MAGIC
  }

  predicate HasSig(user: Area) {
    user[IDME_BASE_ADDR + SIG_OFFSET..IDME_BASE_ADDR + SIG_OFFSET + 12] == SIG
  }

  // The marks as text. Without them no write of any run is made.
  lemma SignedExactly(user: Area)
    ensures HasMagic(user) <==> forall j | 0 <= j < 8 :: user[j] == "beefdeed"[j] as int
    ensures HasSig(user) <==> forall j | 0 <= j < 12 :: user[504 + j] == "adbdefg12345"[j] as int
  {
    MarkIs(user, 0, MAGIC, "beefdeed");
    MarkIs(user, 504, SIG, "adbdefg12345");
  }

  lemma MarkIs(user: Area, at: nat, mark: seq<Byte>, text: string)
    requires at + |mark| <= |user| && |mark| == |text| && forall j | 0 <= j < |text| :: mark[j] == text[j] as int
    ensures user[at..at + |mark|] == mark <==> forall j | 0 <= j < |text| :: user[at + j] == text[j] as int
  {
    var part := user[at..at + |mark|];
    forall j | 0 <= j < |mark| ensures part[j] == user[at + j] {
    }
  }

  function Copied(target: Area, source: Area, start: nat, size: nat): Area
    requires start + size <= IDME_SIZE
  {
    target[..start] + source[start..start + size] + target[start + size..]
  }

  // The boot area after the first n variables were considered.
  function MergeVars(user: Area, boot: Area, n: nat): Area
    requires n <= |VARS|
  {
    if n == 0 then boot
    else if Chosen(Bitmap(user), n - 1) then
      Copied(MergeVars(user, boot, n - 1), user, IDME_BASE_ADDR + VARS[n - 1].offset, VARS[n - 1].size)
    else MergeVars(user, boot, n - 1)
  }

  function Merge(user: Area, boot: Area): Area {
    MergeVars(user, boot, |VARS|)
  }

  predicate ChosenByte(bitmap: nat, n: nat, j: nat)
    requires n <= |VARS|
  {
    exists i | 0 <= i < n :: Chosen(bitmap, i) && InVar(i, j)
  }

  lemma ChosenByteStep(bitmap: nat, n: nat, j: nat)
    requires 0 < n <= |VARS|
    ensures ChosenByte(bitmap, n, j) <==> ChosenByte(bitmap, n - 1, j) || (Chosen(bitmap, n - 1) && InVar(n - 1, j))
  {
    if Chosen(bitmap, n - 1) && InVar(n - 1, j) {
      assert 0 <= n - 1 < n;
    }
    if ChosenByte(bitmap, n - 1, j) {
      var i :| 0 <= i < n - 1 && Chosen(bitmap, i) && InVar(i, j);
      assert 0 <= i < n;
    }
  }

  lemma CopiedByte(target: Area, source: Area, start: nat, size: nat, j: nat)
    requires start + size <= IDME_SIZE && j < IDME_SIZE
    ensures Copied(target, source, start, size)[j] == if start <= j < start + size then source[j] else target[j]
  {
  }

  // The merge takes the chosen variables from the user area and every other
  // byte from the boot area.
  lemma {:induction false} MergeByte(user: Area, boot: Area, n: nat, j: nat)
    requires n <= |VARS| && j < IDME_SIZE
    ensures MergeVars(user, boot, n)[j] == if ChosenByte(Bitmap(user), n, j) then user[j] else boot[j]
  {
    if n > 0 {
      MergeByte(user, boot, n - 1, j);
      ChosenByteStep(Bitmap(user), n, j);
      VarsFit(n - 1);
      CopiedByte(MergeVars(user, boot, n - 1), user, IDME_BASE_ADDR + VARS[n - 1].offset, VARS[n - 1].size, j);
    }
  }

  lemma VarsFit(i: nat)
    requires i < |VARS|
    ensures IDME_BASE_ADDR + VARS[i].offset + VARS[i].size <= IDME_SIZE
  {
  }

  // Whole variables: a chosen one arrives, another one stays.
  lemma MergedVariable(user: Area, boot: Area, i: nat, j: nat)
    requires i < |VARS| && InVar(i, j)
    ensures j < IDME_SIZE
    ensures Merge(user, boot)[j] == if Chosen(Bitmap(user), i) then user[j] else boot[j]
  {
    VarsAreDisjoint(i, i, j);
    MergeByte(user, boot, |VARS|, j);
    forall k | 0 <= k < |VARS| && InVar(k, j) ensures k == i {
      VarsAreDisjoint(i, k, j);
    }
  }

  // ------------------------------------------------------------------------
  // The bitmap, byte by byte.

  const BITMAP_AT: nat := 516

  lemma Pow2Of8()
    ensures Pow2(8) == 256
  {
    Pow2Four(0, 1);
    Pow2Four(4, 16);
  }

  // The word with the bytes b0 and b1 and others above them.
  lemma {:induction false} WordBit(word: nat, b0: nat, b1: nat, y: nat, byte: nat, i: nat)
    requires byte == 8 && word == b0 + 256 * (b1 + 256 * y) && b0 < 256 && b1 < 256 && i < byte + byte
    ensures word / Pow2(i) % 2 == 1 <==> if i < byte then Bits(b0, byte)[i] else Bits(b1, byte)[i - byte]
  {
    Pow2Of8();
    var x := b1 + 256 * y;
    BitAt(word, byte + byte, i);
    LowerAt(b0, x, byte, byte, i);
    if i >= byte {
      LowerAt(b1, y, byte, 0, i - byte);
    }
  }

  lemma BitmapSplits(user: Area, y: nat)
    requires y == user[518] as int + 256 * user[519] as int
    ensures Bitmap(user) == user[516] as int + 256 * (user[517] as int + 256 * y)
  {
  }

  lemma PlaceOfBit(i: nat)
    requires i < 16
    ensures if i < 8 then i / 8 == 0 && i % 8 == i else i / 8 == 1 && i % 8 == i - 8
  {
  }

  // Variable i goes with bit i % 8 of byte i / 8.
  lemma {:induction false} ChosenIsBit(user: Area, i: nat)
    requires i < 16
    ensures Chosen(Bitmap(user), i) <==> Bits(user[BITMAP_AT + i / 8], 8)[i % 8]
  {
    var y := user[518] as int + 256 * user[519] as int;
    BitmapSplits(user, y);
    PlaceOfBit(i);
    WordBit(Bitmap(user), user[516], user[517], y, 8, i);
  }

  // From the stored bytes: a variable arrives exactly if its bit is set, and
  // what belongs to no variable stays.
  lemma StoredBitDecides(user: Area, boot: Area, j: nat)
    requires j < IDME_SIZE
    ensures forall i | 0 <= i < |VARS| && InVar(i, j) ::
              Merge(user, boot)[j] == if Bits(user[BITMAP_AT + i / 8], 8)[i % 8] then user[j] else boot[j]
    ensures (forall i | 0 <= i < |VARS| :: !InVar(i, j)) ==> Merge(user, boot)[j] == boot[j]
  {
    forall i | 0 <= i < |VARS| && InVar(i, j)
      ensures Merge(user, boot)[j] == if Bits(user[BITMAP_AT + i / 8], 8)[i % 8] then user[j] else boot[j]
    {
      MergedVariable(user, boot, i, j);
      ChosenIsBit(user, i);
    }
    MergeByte(user, boot, |VARS|, j);
  }

  // With a single bit set, one variable is taken over, and nothing else.
  lemma {:induction false} SingleBit(user: Area, boot: Area, i: nat, j: nat)
    requires i < |VARS| && j < IDME_SIZE
    requires forall k | BITMAP_AT <= k < BITMAP_AT + 4 :: user[k] == if k == BITMAP_AT + i / 8 then Pow2(i % 8) else 0
    ensures Merge(user, boot)[j] == if InVar(i, j) then user[j] else boot[j]
  {
    StoredBitDecides(user, boot, j);
    forall k | 0 <= k < |VARS| && InVar(k, j)
      ensures Bits(user[BITMAP_AT + k / 8], 8)[k % 8] <==> k == i
    {
      SameBit(i, k);
      if k / 8 == i / 8 {
        OneBit(i % 8, 8, k % 8);
      } else {
        NoBits(8, k % 8);
      }
    }
  }

  lemma SameBit(i: nat, k: nat)
    ensures i == k <==> i / 8 == k / 8 && i % 8 == k % 8
  {
  }

  // A bitmap of 4, 0, 0, 0 brings the serial number.
  lemma OnlyTheSerial(user: Area, boot: Area)
    requires user[516..520] == [4, 0, 0, 0]
    ensures Merge(user, boot) == boot[..28] + user[28..44] + boot[44..]
  {
    assert user[516] == user[516..520][0] && user[517] == user[516..520][1];
    assert user[518] == user[516..520][2] && user[519] == user[516..520][3];
    assert Pow2(2) == 4;
    forall j | 0 <= j < 16384 ensures Merge(user, boot)[j] == (boot[..28] + user[28..44] + boot[44..])[j] {
      SingleBit(user, boot, 2, j);
    }
  }

  // Signature and bitmap zeroed.
  function Cleared(user: Area): Area {
    var p := IDME_BASE_ADDR + SIG_OFFSET;
    user[..p] + seq(16, _ => 0) + user[p + 16..]
  }

  lemma ClearedByte(user: Area, j: nat)
    requires j < 16384
    ensures Cleared(user)[j] == if 0x1F8 <= j < 0x208 then 0 else user[j]
  {
  }

  // An area of which the first n blocks have been rewritten.
  function Partial(old_: Area, new_: Area, n: nat): Area {
    if n >= BLOCKS then new_ else new_[..n * BLOCK] + old_[n * BLOCK..]
  }

  // ------------------------------------------------------------------------
  // Runs of the update against a device that stops writing.

  datatype Device = Device(boot: Area, user: Area)

  // The writes left for the user area.
  function PastBoot(writes: nat): nat {
    if writes < BLOCKS then 0 else writes - BLOCKS
  }

  // One run that is cut off after `writes` block writes, by a power failure
  // or a write error. The boot area is written first.
  function Update(d: Device, writes: nat): Device {
    if HasMagic(d.user) && HasSig(d.user) then
      Device(Partial(d.boot, Merge(d.user, d.boot), writes),
             Partial(d.user, Cleared(d.user), PastBoot(writes)))
    else d
  }

  function Updates(d: Device, runs: seq<nat>): Device {
    if runs == [] then d else Update(Updates(d, runs[..|runs| - 1]), runs[|runs| - 1])
  }

  // Each byte of an area is the old or the new one.
  ghost predicate Between(a: Area, old_: Area, new_: Area) {
    forall j | 0 <= j < IDME_SIZE :: a[j] == old_[j] || a[j] == new_[j]
  }

  // Either the user area is untouched, still signed, and the boot area is
  // partly merged; or the boot area is merged and the signature is gone.
  ghost predicate Recoverable(start: Device, d: Device) {
    var merged := Merge(start.user, start.boot);
    || (d.user == start.user && Between(d.boot, start.boot, merged))
    || (d.boot == merged && !HasSig(d.user) && Between(d.user, start.user, Cleared(start.user)))
  }

  lemma PartialBetween(old_: Area, new_: Area, n: nat)
    ensures Between(Partial(old_, new_, n), old_, new_)
  {
  }

  lemma ClearingLosesSig(user: Area, n: nat)
    requires n > 0
    ensures !HasSig(Partial(user, Cleared(user), n))
  {
    var a := Partial(user, Cleared(user), n);
    var p := IDME_BASE_ADDR + SIG_OFFSET;
    assert a[p] == 0;
    assert a[p..p + 12][0] == 0;
  }

  // Merging into a partly merged boot area gives what the first merge gave.
  lemma MergeAgain(user: Area, boot: Area, partial: Area)
    requires Between(partial, boot, Merge(user, boot))
    ensures Merge(user, partial) == Merge(user, boot)
  {
    forall j | 0 <= j < IDME_SIZE ensures Merge(user, partial)[j] == Merge(user, boot)[j] {
      MergeByte(user, partial, |VARS|, j);
      MergeByte(user, boot, |VARS|, j);
    }
  }

  lemma UpdateKeepsRecoverable(start: Device, d: Device, writes: nat)
    requires HasMagic(start.user) && HasSig(start.user) && Recoverable(start, d)
    ensures Recoverable(start, Update(d, writes))
    ensures writes >= 2 * BLOCKS ==> Update(d, writes).boot == Merge(start.user, start.boot)
    ensures writes >= 2 * BLOCKS ==> !HasSig(Update(d, writes).user)
  {
    var merged := Merge(start.user, start.boot);
    if HasSig(d.user) {
      MergeAgain(start.user, start.boot, d.boot);
      PartialBetween(d.boot, merged, writes);
      PartialBetween(d.user, Cleared(d.user), PastBoot(writes));
      if writes > BLOCKS {
        ClearingLosesSig(d.user, writes - BLOCKS);
      } else {
        assert Partial(d.user, Cleared(d.user), 0) == d.user;
      }
    }
  }

  // Every run before the last may have been cut off anywhere.
  lemma {:induction false} RunsKeepRecoverable(start: Device, runs: seq<nat>)
    requires HasMagic(start.user) && HasSig(start.user)
    ensures Recoverable(start, Updates(start, runs))
  {
    if runs != [] {
      RunsKeepRecoverable(start, runs[..|runs| - 1]);
      UpdateKeepsRecoverable(start, Updates(start, runs[..|runs| - 1]), runs[|runs| - 1]);
    }
  }

  // However often the update was cut off, a run that is not cut off leaves
  // the boot area as if it had been the only one, and the update is consumed.
  lemma {:induction false} CrashRecovery(start: Device, runs: seq<nat>, last: nat)
    requires HasMagic(start.user) && HasSig(start.user) && last >= 2 * BLOCKS
    ensures Updates(start, runs + [last]).boot == Update(start, last).boot == Merge(start.user, start.boot)
    ensures !HasSig(Updates(start, runs + [last]).user)
  {
    RunsKeepRecoverable(start, runs);
    assert (runs + [last])[..|runs|] == runs;
    UpdateKeepsRecoverable(start, Updates(start, runs), last);
  }

  // After a completed run nothing changes any more.
  lemma {:induction false} CompletedIsFinal(start: Device, last: nat, more: seq<nat>)
    requires last >= 2 * BLOCKS
    ensures Updates(Update(start, last), more) == Update(start, last)
  {
    if more == [] {
      if HasSig(start.user) {
        ClearingLosesSig(start.user, BLOCKS);
      }
    } else {
      CompletedIsFinal(start, last, more[..|more| - 1]);
      if HasMagic(start.user) && HasSig(start.user) {
        ClearingLosesSig(start.user, BLOCKS);
      }
    }
  }

  // The blocks of the user area that were written by the first run that got
  // that far. Nothing is signed after it, so it is the only one.
  function UserBlocks(runs: seq<nat>): nat {
    if runs == [] then 0
    else
      var before := UserBlocks(runs[..|runs| - 1]);
      if before > 0 then before else PastBoot(runs[|runs| - 1])
  }

  lemma NoBlocks(user: Area)
    ensures Partial(user, Cleared(user), 0) == user
  {
  }

  lemma UserStep(d: Device, user: Area, n: nat, writes: nat)
    requires HasMagic(user) && HasSig(user) && d.user == Partial(user, Cleared(user), n)
    ensures Update(d, writes).user == Partial(user, Cleared(user), if n > 0 then n else PastBoot(writes))
  {
    if n > 0 {
      ClearingLosesSig(user, n);
    } else {
      NoBlocks(user);
    }
  }

  lemma {:induction false} UserAfter(start: Device, runs: seq<nat>)
    requires HasMagic(start.user) && HasSig(start.user)
    ensures Updates(start, runs).user == Partial(start.user, Cleared(start.user), UserBlocks(runs))
  {
    if runs == [] {
      NoBlocks(start.user);
    } else {
      var before := runs[..|runs| - 1];
      UserAfter(start, before);
      UserStep(Updates(start, before), start.user, UserBlocks(before), runs[|runs| - 1]);
    }
  }

  // One block clears the first part of the signature only; from two on
  // nothing is left to be cleared.
  lemma ClearedFromTwoBlocks(user: Area, n: nat)
    requires HasSig(user)
    ensures Partial(user, Cleared(user), n) == Cleared(user) <==> n >= 2
    ensures Bitmap(Partial(user, Cleared(user), n)) == if n >= 2 then 0 else Bitmap(user)
  {
    var p := IDME_BASE_ADDR + SIG_OFFSET;
    var a := Partial(user, Cleared(user), n);
    assert user[p..p + 12][8] == SIG[8];
    assert Cleared(user)[p + 8] == 0;
    if n < 2 {
      assert a[p + 8] == user[p + 8];
    } else {
      forall k | 0 <= k < IDME_SIZE ensures a[k] == Cleared(user)[k] {
      }
    }
  }

  // What recovery does not restore: after any runs the user area is cleared
  // exactly if the first run that reached it wrote at least two of its blocks.
  // Otherwise the bitmap stays, and later runs do not change that.
  lemma {:induction false} UserIsClearedExactly(start: Device, runs: seq<nat>)
    requires HasMagic(start.user) && HasSig(start.user)
    ensures Updates(start, runs).user == Cleared(start.user) <==> UserBlocks(runs) >= 2
    ensures Bitmap(Updates(start, runs).user) == if UserBlocks(runs) >= 2 then 0 else Bitmap(start.user)
  {
    UserAfter(start, runs);
    ClearedFromTwoBlocks(start.user, UserBlocks(runs));
  }

  lemma {:induction false} FirstDecides(w: nat, more: seq<nat>)
    requires w > BLOCKS
    ensures UserBlocks([w] + more) == w - BLOCKS
  {
    var runs := [w] + more;
    if more == [] {
      assert runs[..0] == [];
    } else {
      assert runs[..|runs| - 1] == [w] + more[..|more| - 1];
      FirstDecides(w, more[..|more| - 1]);
    }
  }

  // Cut off after the first block of the user area, the bitmap survives.
  lemma BitmapMaySurvive(start: Device, more: seq<nat>)
    requires HasMagic(start.user) && HasSig(start.user)
    ensures Bitmap(Updates(start, [BLOCKS + 1] + more).user) == Bitmap(start.user)
  {
    FirstDecides(BLOCKS + 1, more);
    UserIsClearedExactly(start, [BLOCKS + 1] + more);
  }

  method CopyBytes(target: array<Byte>, source: array<Byte>, start: nat, size: nat)
    requires target != source && target.Length == source.Length && start + size <= target.Length
    modifies target
    ensures target[..] == old(target[..start]) + source[start..start + size] + old(target[start + size..])
  {
    var i := start;
    while i < start + size
      invariant start <= i <= start + size
      invariant forall k | 0 <= k < target.Length :: target[k] == if start <= k < i then source[k] else old(target[k])
    {
      target[i] := source[i];
      i := i + 1;
    }
  }

  lemma PartialStep(old_: Area, new_: Area, n: nat)
    requires n < BLOCKS
    ensures Copied(Partial(old_, new_, n), new_, n * BLOCK, BLOCK) == Partial(old_, new_, n + 1)
  {
  }

  predicate AllWork(works: seq<bool>) {
    forall k | 0 <= k < |works| :: works[k]
  }

  class Emmc {
    const boot: array<Byte>
    const user: array<Byte>
    // Block writes until the power fails or the card stops taking writes. A
    // failed partition switch stops the update in the same way.
    var writesLeft: nat

    ghost predicate Valid() {
      boot != user && boot.Length == user.Length == IDME_SIZE
    }

    ghost function State(): Device
      requires Valid()
      reads boot, user
    {
      Device(boot[..], user[..])
    }

    constructor (writesLeft: nat)
      ensures Valid() && fresh(boot) && fresh(user) && this.writesLeft == writesLeft
    {
      boot, user := new Byte[IDME_SIZE], new Byte[IDME_SIZE];
      this.writesLeft := writesLeft;
    }

    // Reads a whole area block by block; `works` says which reads succeed.
    method IdmeRead(buffer: array<Byte>, is_boot: bool, works: seq<bool>) returns (ok: bool)
      requires Valid() && buffer != boot && buffer != user && buffer.Length == IDME_SIZE && |works| == BLOCKS
      modifies buffer
      ensures ok <==> AllWork(works)
      ensures ok ==> buffer[..] == if is_boot then boot[..] else user[..]
    {
      var area := if is_boot then boot else user;
      var len, block_addr := 0, 0;
      ok := true;
      while len < IDME_SIZE
        invariant len == block_addr * BLOCK && len <= IDME_SIZE && ok
        invariant forall k | 0 <= k < block_addr :: works[k]
        invariant buffer[..len] == area[..len]
      {
        if !works[block_addr] {
          ok := false;
          break;
        }
        CopyBytes(buffer, area, len, BLOCK);
        len := len + BLOCK;
        block_addr := block_addr + 1;
      }
    }

    // One more block of an area that is being rewritten.
    static method WriteBlock(area: array<Byte>, buffer: array<Byte>, len: nat, block_addr: nat, ghost before: Area)
      requires area != buffer && area.Length == buffer.Length == IDME_SIZE
      requires block_addr < BLOCKS && len == block_addr * BLOCK && area[..] == Partial(before, buffer[..], block_addr)
      modifies area
      ensures area[..] == Partial(before, buffer[..], block_addr + 1)
    {
      PartialStep(before, buffer[..], block_addr);
      CopyBytes(area, buffer, len, BLOCK);
    }

    method IdmeWrite(buffer: array<Byte>, is_boot: bool) returns (ok: bool)
      requires Valid() && buffer != boot && buffer != user && buffer.Length == IDME_SIZE
      modifies `writesLeft, if is_boot then boot else user
      ensures is_boot ==> boot[..] == Partial(old(boot[..]), buffer[..], old(writesLeft))
      ensures !is_boot ==> user[..] == Partial(old(user[..]), buffer[..], old(writesLeft))
      ensures writesLeft == PastBoot(old(writesLeft))
      ensures ok <==> old(writesLeft) >= BLOCKS
    {
      var area := if is_boot then boot else user;
      ghost var before: Area := area[..];
      var len, block_addr := 0, 0;
      ok := true;
      while len < IDME_SIZE
        invariant len == block_addr * BLOCK && len <= IDME_SIZE && ok
        invariant area[..] == Partial(before, buffer[..], block_addr)
        invariant writesLeft == old(writesLeft) - block_addr
      {
        if writesLeft == 0 {
          ok := false;
          break;
        }
        WriteBlock(area, buffer, len, block_addr, before);
        writesLeft := writesLeft - 1;
        len := len + BLOCK;
        block_addr := block_addr + 1;
      }
    }

    static method MergeInto(boot_buffer: array<Byte>, buffer: array<Byte>)
      requires boot_buffer != buffer && boot_buffer.Length == buffer.Length == IDME_SIZE
      modifies boot_buffer
      ensures boot_buffer[..] == Merge(buffer[..], old(boot_buffer[..]))
    {
      var bitmap := Bitmap(buffer[..]);
      var i := 0;
      while i < |VARS|
        invariant i <= |VARS|
        invariant boot_buffer[..] == MergeVars(buffer[..], old(boot_buffer[..]), i)
      {
        if Chosen(bitmap, i) {
          VarsAreDisjoint(i, i, IDME_BASE_ADDR + VARS[i].offset);
          CopyBytes(boot_buffer, buffer, IDME_BASE_ADDR + VARS[i].offset, VARS[i].size);
        }
        i := i + 1;
      }
    }

    static method ClearSig(buffer: array<Byte>)
      requires buffer.Length == IDME_SIZE
      modifies buffer
      ensures buffer[..] == Cleared(old(buffer[..]))
    {
      var p := IDME_BASE_ADDR + SIG_OFFSET;
      var i := 0;
      while i < 16
        invariant i <= 16
        invariant buffer[..] == old(buffer[..p]) + seq(i, _ => 0) + old(buffer[p + i..])
      {
        buffer[p + i] := 0;
        i := i + 1;
      }
    }

    // The signed case: merge, then write the boot area, then the user area.
    method ApplyUpdate(buffer: array<Byte>, boot_buffer: array<Byte>) returns (ok: bool)
      requires Valid() && buffer != boot_buffer && buffer !in {boot, user} && boot_buffer !in {boot, user}
      requires buffer.Length == boot_buffer.Length == IDME_SIZE
      requires buffer[..] == user[..] && boot_buffer[..] == boot[..]
      modifies `writesLeft, boot, user, buffer, boot_buffer
      ensures boot[..] == Partial(old(boot[..]), Merge(old(user[..]), old(boot[..])), old(writesLeft))
      ensures user[..] == Partial(old(user[..]), Cleared(old(user[..])), PastBoot(old(writesLeft)))
      ensures ok <==> old(writesLeft) >= 2 * BLOCKS
    {
      MergeInto(boot_buffer, buffer);
      ClearSig(buffer);
      ok := IdmeWrite(boot_buffer, true);
      if ok {
        ok := IdmeWrite(buffer, false);
      }
    }

    // Return code 0 only if both areas could be read, the user area has the
    // magic number, and nothing was left unwritten.
    method UpdateVarsEx(userWorks: seq<bool>, bootWorks: seq<bool>) returns (rc: int)
      requires Valid() && |userWorks| == |bootWorks| == BLOCKS
      modifies `writesLeft, boot, user
      ensures !AllWork(userWorks) || !AllWork(bootWorks) ==> rc == -1 && State() == old(State())
      ensures AllWork(userWorks) && AllWork(bootWorks) ==>
                && State() == Update(old(State()), old(writesLeft))
                && (rc == 0 <==> HasMagic(old(user[..])) && (HasSig(old(user[..])) ==> old(writesLeft) >= 2 * BLOCKS))
    {
      rc := -1;
      var buffer, boot_buffer := new Byte[IDME_SIZE], new Byte[IDME_SIZE];
      var ok := IdmeRead(buffer, false, userWorks);
      if ok {
        ok := IdmeRead(boot_buffer, true, bootWorks);
      }
      if !ok || !HasMagic(buffer[..]) {
        return;
      }
      if HasSig(buffer[..]) {
        ok := ApplyUpdate(buffer, boot_buffer);
        if !ok {
          return;
        }
      }
      rc := 0;
    }
  }
}
