// EEPROM transfers, cut into bursts that a device with a wrapping address
// counter and a bus with a length limit can take.
module Eeprom {
  import opened Wrappers
  import opened Arithmetic

  // The device is made of 256-byte blocks, selected by the bus address.
  const BLOCK: nat := 256

  // A transfer on the bus: the address of its first byte, and its length.
  datatype Burst = Burst(at: nat, len: nat)

  function Word(b: Burst): nat {
    b.at % 256
  }

  // The cell of byte j when the device counts up modulo `page`: the page size
  // for writes, the block size for reads.
  function Cell(b: Burst, page: nat, j: nat): nat
    requires 0 < page
  {
    var low := Remainder(Word(b), page);
    if low <= b.at then b.at - low + Remainder(low + j, page) else 0
  }

  // The counter does not wrap, the block is not left, the limit is kept.
  predicate Fits(b: Burst, page: nat, limit: nat)
    requires 0 < page
  {
    0 < b.len <= limit && Remainder(Word(b), page) + b.len <= page && Word(b) + b.len <= BLOCK
  }

  predicate AllFit(log: seq<Burst>, page: nat, limit: nat)
    requires 0 < page
  {
    log == [] || (AllFit(log[..|log| - 1], page, limit) && Fits(log[|log| - 1], page, limit))
  }

  lemma {:induction false} EachFits(log: seq<Burst>, page: nat, limit: nat, i: nat)
    requires 0 < page && AllFit(log, page, limit) && i < |log|
    ensures Fits(log[i], page, limit)
  {
    if i < |log| - 1 {
      EachFits(log[..|log| - 1], page, limit, i);
    }
  }

  lemma CellIsLinear(b: Burst, page: nat, limit: nat, j: nat)
    requires 0 < page && Fits(b, page, limit) && j < b.len
    ensures Cell(b, page, j) == b.at + j
  {
    QuotientRemainder(Word(b), page);
    MulStrict(-1, Quotient(Word(b), page), page);
    assert Remainder(Word(b), page) <= Word(b) <= b.at;
  }

  // A page size that divides the block size keeps bursts within the block.
  lemma {:induction false} PageInBlock(word: nat, page: nat)
    requires 0 < page <= BLOCK && Remainder(BLOCK, page) == 0 && word < BLOCK
    ensures word - Remainder(word, page) + page <= BLOCK
  {
    QuotientRemainder(word, page);
    QuotientRemainder(BLOCK, page);
    MulStrict(Quotient(word, page), Quotient(BLOCK, page), page);
  }

  // So a burst keeps the limit, and its first and last byte lie in one page
  // and in one block; nothing else is asked of it.
  lemma {:induction false} FitsExactly(b: Burst, page: nat, limit: nat)
    requires 0 < page <= BLOCK && Remainder(BLOCK, page) == 0
    ensures Fits(b, page, limit) <==>
            && 0 < b.len <= limit && b.at / page == (b.at + b.len - 1) / page
            && b.at / 256 == (b.at + b.len - 1) / 256
  {
    var w, q, r, m := Word(b), Quotient(Word(b), page), Remainder(Word(b), page), Quotient(BLOCK, page);
    QuotientRemainder(w, page);
    QuotientRemainder(BLOCK, page);
    PlaceInPage(b.at, b.at / 256, w, page, m, q, r);
    if 0 < b.len {
      SameQuotient(b.at, page, b.at / 256 * m + q, r, b.len);
      SameQuotient(b.at, 256, b.at / 256, w, b.len);
    }
  }

  lemma PlaceInPage(at: nat, block: nat, w: nat, page: nat, m: nat, q: nat, r: nat)
    requires at == 256 * block + w && w == q * page + r && 256 == m * page
    ensures at == (block * m + q) * page + r
  {
    assert (block * m + q) * page == block * (m * page) + q * page;
  }

  lemma SameQuotient(at: nat, d: nat, q: nat, r: nat, len: nat)
    requires 0 < len && at == q * d + r && r < d
    ensures at / d == (at + len - 1) / d <==> r + len <= d
  {
    DivModUnique(at, d, q, r);
    var q', r' := (at + len - 1) / d, (at + len - 1) % d;
    assert at + len - 1 == q' * d + r';
    if r + len <= d {
      DivModUnique(at + len - 1, d, q, r + len - 1);
    }
  }

  // The end of the range wraps around at 32 bits.
  predicate Wraps(offset: nat, cnt: nat) {
    offset + cnt >= U32
  }

  // Bytes that a call for cnt bytes at offset transfers.
  function Span(offset: nat, cnt: nat): nat {
    if Wraps(offset, cnt) then 0 else cnt
  }

  lemma EndOfRange(offset: u32, cnt: u32)
    ensures if Wraps(offset, cnt) then (offset + cnt) % U32 < offset else (offset + cnt) % U32 == offset + cnt
  {
  }

  // The array is unchanged outside n elements from lo on.
  twostate predicate Outside(a: array<Byte>, lo: nat, n: nat)
    reads a
  {
    forall i | 0 <= i < a.Length && !(lo <= i < lo + n) :: a[i] == old(a[i])
  }

  class Device {
    const mem: array<Byte>
    // Page size of the part, and the most bytes the bus takes in one burst.
    const page: nat
    const limit: nat
    // How many bytes of each burst the bus carries before it fails.
    const carried: nat -> nat
    var now: nat
    ghost var writes: seq<Burst>
    ghost var fetches: seq<Burst>
    // Bursts that the bus did not carry to the end.
    ghost var failed: nat

    ghost predicate Valid()
      reads this
    {
      && 0 < page <= BLOCK && Remainder(BLOCK, page) == 0 && limit > 0
      && AllFit(writes, page, limit) && AllFit(fetches, BLOCK, limit)
    }

    constructor (size: nat, page: nat, limit: nat, carried: nat -> nat)
      requires 0 < page <= BLOCK && Remainder(BLOCK, page) == 0 && limit > 0
      ensures Valid() && fresh(mem) && mem.Length == size && this.page == page && this.limit == limit
      ensures this.carried == carried && writes == [] && fetches == []
    {
      mem := new Byte[size];
      this.page, this.limit, this.carried := page, limit, carried;
      now, writes, fetches, failed := 0, [], [], 0;
    }

    ghost method LogWrite(b: Burst)
      requires Valid() && Fits(b, page, limit)
      modifies `writes
      ensures Valid() && writes == old(writes) + [b]
    {
      writes := writes + [b];
      assert writes[..|writes| - 1] == old(writes);
    }

    ghost method LogRead(b: Burst)
      requires Valid() && Fits(b, BLOCK, limit)
      modifies `fetches
      ensures Valid() && fetches == old(fetches) + [b]
    {
      fetches := fetches + [b];
      assert fetches[..|fetches| - 1] == old(fetches);
    }

    // What the device does with a write burst.
    method BusWrite(b: Burst, data: seq<Byte>) returns (ok: bool)
      requires Valid() && |data| == b.len && Fits(b, page, limit) && b.at + b.len <= mem.Length
      modifies `now, `writes, `failed, mem
      ensures failed == old(failed) + (if ok then 0 else 1)
      ensures Valid() && Outside(mem, b.at, b.len)
      ensures ok ==> forall i | b.at <= i < b.at + b.len :: mem[i] == data[i - b.at]
    {
      var n := carried(now);
      ok := n >= b.len;
      ghost var was := failed;
      now := now + 1;
      LogWrite(b);
      var j := 0;
      while j < b.len && j < n
        invariant j <= b.len && Valid()
        invariant Outside(mem, b.at, b.len)
        invariant forall i | b.at <= i < b.at + j :: mem[i] == data[i - b.at]
      {
        CellIsLinear(b, page, limit, j);
        mem[Cell(b, page, j)] := data[j];
        j := j + 1;
      }
      failed := was + if ok then 0 else 1;
    }

    // What the device does with a read burst.
    method BusRead(b: Burst, buffer: array<Byte>, start: nat) returns (ok: bool)
      requires Valid() && Fits(b, BLOCK, limit) && b.at + b.len <= mem.Length
      requires buffer != mem && start + b.len <= buffer.Length
      modifies `now, `fetches, `failed, buffer
      ensures failed == old(failed) + (if ok then 0 else 1)
      ensures Valid() && Outside(buffer, start, b.len)
      ensures ok ==> forall i | start <= i < start + b.len :: buffer[i] == mem[b.at + i - start]
    {
      var n := carried(now);
      ok := n >= b.len;
      ghost var was := failed;
      now := now + 1;
      LogRead(b);
      var j := 0;
      while j < b.len && j < n
        invariant j <= b.len && Valid()
        invariant Outside(buffer, start, b.len)
        invariant forall i | start <= i < start + j :: buffer[i] == mem[b.at + i - start]
      {
        CellIsLinear(b, BLOCK, limit, j);
        buffer[start + j] := mem[Cell(b, BLOCK, j)];
        j := j + 1;
      }
      failed := was + if ok then 0 else 1;
    }

    // The length of the next burst, from offset to end: as long as one can be.
    method BurstLength(offset: nat, end: nat, size: nat) returns (len: nat)
      requires Valid() && offset < end && size in {page, BLOCK}
      ensures len <= end - offset && Fits(Burst(offset, len), size, limit)
      ensures len == end - offset || !Fits(Burst(offset, len + 1), size, limit)
    {
      var blk_off := offset % 256;
      PageInBlock(blk_off, page);
      PageInBlock(blk_off, BLOCK);
      len := end - offset;
      var maxlen := size - Remainder(blk_off, size);
      if maxlen > limit {
        maxlen := limit;
      }
      if len > maxlen {
        len := maxlen;
      }
    }

    // Without a bus failure the memory is updated as one array assignment;
    // with one, only the addressed range can differ. A range whose end wraps
    // around transfers nothing, and the code is 0.
    method Write(offset0: u32, buffer: seq<Byte>) returns (rcode: int)
      requires Valid() && |buffer| < U32 && (!Wraps(offset0, |buffer|) ==> offset0 + |buffer| <= mem.Length)
      modifies `now, `writes, `failed, mem
      ensures failed >= old(failed) && (rcode == 0 <==> failed == old(failed))
      ensures Wraps(offset0, |buffer|) ==> rcode == 0 && failed == old(failed) && writes == old(writes)
      ensures Valid() && rcode in {0, 1} && Outside(mem, offset0, Span(offset0, |buffer|))
      ensures rcode == 0 ==>
              forall i | offset0 <= i < offset0 + Span(offset0, |buffer|) :: mem[i] == buffer[i - offset0]
    {
      rcode := 0;
      var end: nat := (offset0 + |buffer|) % U32;
      EndOfRange(offset0, |buffer|);
      var offset: nat := offset0;
      while offset < end
        invariant offset0 <= offset && (offset <= end || offset == offset0) && Valid() && rcode in {0, 1}
        invariant failed >= old(failed) && (rcode == 0 <==> failed == old(failed))
        invariant offset == offset0 ==> rcode == 0 && writes == old(writes)
        invariant Outside(mem, offset0, Span(offset0, |buffer|))
        invariant rcode == 0 ==> forall i | offset0 <= i < offset :: mem[i] == buffer[i - offset0]
      {
        var len := BurstLength(offset, end, page);
        var ok := BusWrite(Burst(offset, len), buffer[offset - offset0..offset - offset0 + len]);
        if !ok {
          rcode := 1;
        }
        offset := offset + len;
      }
    }

    method Read(offset0: u32, buffer: array<Byte>, cnt: u32) returns (rcode: int)
      requires Valid() && (!Wraps(offset0, cnt) ==> offset0 + cnt <= mem.Length)
      requires cnt <= buffer.Length && buffer != mem
      modifies `now, `fetches, `failed, buffer
      ensures failed >= old(failed) && (rcode == 0 <==> failed == old(failed))
      ensures Wraps(offset0, cnt) ==> rcode == 0 && failed == old(failed) && fetches == old(fetches)
      ensures Valid() && rcode in {0, 1} && Outside(buffer, 0, Span(offset0, cnt))
      ensures rcode == 0 ==> forall j | 0 <= j < Span(offset0, cnt) :: buffer[j] == mem[offset0 + j]
    {
      rcode := 0;
      var end: nat := (offset0 + cnt) % U32;
      EndOfRange(offset0, cnt);
      var offset: nat := offset0;
      while offset < end
        invariant offset0 <= offset && (offset <= end || offset == offset0) && Valid() && rcode in {0, 1}
        invariant failed >= old(failed) && (rcode == 0 <==> failed == old(failed))
        invariant offset == offset0 ==> rcode == 0 && fetches == old(fetches)
        invariant Outside(buffer, 0, Span(offset0, cnt))
        invariant rcode == 0 ==> forall j | 0 <= j < offset - offset0 :: buffer[j] == mem[offset0 + j]
      {
        var len := BurstLength(offset, end, BLOCK);
        var ok := BusRead(Burst(offset, len), buffer, offset - offset0);
        if !ok {
          rcode := 1;
        }
        offset := offset + len;
      }
    }

    // Reading back gives what was written, unless the bus fails.
    method WriteThenRead(offset: u32, data: seq<Byte>) returns (back: array<Byte>, ok: bool)
      requires Valid() && offset + |data| <= mem.Length && offset + |data| < U32
      modifies `now, `writes, `fetches, `failed, mem
      ensures fresh(back) && (ok ==> back[..] == data) && (ok <==> failed == old(failed))
    {
      var w := Write(offset, data);
      back := new Byte[|data|];
      var r := Read(offset, back, |data|);
      ok := w == 0 && r == 0;
    }
  }

  // Data that ends at the end of the address space: code 0, although no byte
  // of it is written, on a part of any size.
  method LastBytesAreLost(d: Device, data: seq<Byte>) returns (rcode: int)
    requires d.Valid() && 0 < |data| < U32
    modifies d`now, d`writes, d`failed, d.mem
    ensures rcode == 0 && d.mem[..] == old(d.mem[..]) && d.writes == old(d.writes)
  {
    rcode := d.Write(U32 - |data|, data);
  }
}
