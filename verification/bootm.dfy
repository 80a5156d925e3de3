// Booting Linux on PowerPC: where the command line, the board information and
// the initial RAM disk go, and the copy of the RAM disk in chunks.
module Bootm {
  import opened Wrappers

  // ------------------------------------------------------------------------
  // The layout.

  const TWO32: int := 0x1_0000_0000

  type Address = a: int | 0 <= a < TWO32

  // Subtraction as the machine does it.
  function Sub(a: Address, b: Address): Address {
    (a - b) % TWO32
  }

  function Align16(a: Address): (r: Address)
    ensures r <= a < r + 16 && r % 16 == 0
  {
    a - a % 16
  }

  function PageOf(a: Address): (r: Address)
    ensures r <= a < r + 4096 && r % 4096 == 0
  {
    a - a % 4096
  }

  datatype Area = Area(start: Address, end: int)

  predicate Apart(a: Area, b: Area) {
    a.end <= b.start || b.end <= a.start
  }

  datatype Layout = Layout(cmdline: Area, kbd: Area, initrd: Area)

  // Sizes of the board information and the command line buffer, the area that
  // early Linux can reach, and the stack pointer at the first and nearly the
  // same at the second look.
  datatype Board = Board(bdSize: Address, bargSize: Address, bootMapSize: Address, stack: Address, stack2: Address)

  // Where the command line ends, where it starts, and where the board
  // information starts.
  function Limit(b: Board): Address {
    var sp := Sub(b.stack, 2048);
    Align16(if sp > b.bootMapSize then b.bootMapSize else sp)
  }

  function Cmdline(b: Board): Address {
    Align16(Sub(Limit(b), b.bargSize))
  }

  function Kbd(b: Board): Address {
    Align16(Sub(Cmdline(b), b.bdSize))
  }

  // Where a RAM disk that is placed high has to end: below the stack, and not
  // above its own limit.
  function Ceiling(b: Board, high: Address): Address {
    var top := Align16(Sub(b.stack2, 2048));
    if top > high then high else top
  }

  function Low(b: Board, len: Address): Address {
    PageOf(Sub(Kbd(b), len))
  }

  function High(b: Board, len: Address, high: Address): Address {
    PageOf(Sub(Ceiling(b, high), len))
  }

  // high is the limit from initrd_high, 0 keeps the RAM disk low.
  predicate TakesHigh(b: Board, len: Address, high: Address) {
    high != 0 && High(b, len, high) >= Limit(b)
  }

  function Place(b: Board, len: Address, high: Address): Layout {
    var initrd := if TakesHigh(b, len, high) then High(b, len, high) else Low(b, len);
    Layout(Area(Cmdline(b), Limit(b)), Area(Kbd(b), Kbd(b) + b.bdSize), Area(initrd, initrd + len))
  }

  // There is room for command line and board information, outside the first
  // page; nothing is said of the RAM disk.
  predicate Room(b: Board) {
    && 2048 <= b.stack && 2048 <= b.stack2
    && b.bargSize <= Limit(b) && b.bdSize <= Cmdline(b) && 4096 <= Kbd(b)
  }

  // The three areas do not overlap, the RAM disk starts on a page, the other
  // two lie within reach and below the stack; the RAM disk lies below them,
  // or below the stack and its own limit.
  predicate Sound(b: Board, len: Address, high: Address, l: Layout) {
    && Apart(l.cmdline, l.kbd) && Apart(l.cmdline, l.initrd) && Apart(l.kbd, l.initrd)
    && l.initrd.start % 4096 == 0 && l.initrd.end == l.initrd.start + len
    && l.kbd.end - l.kbd.start == b.bdSize && l.cmdline.end - l.cmdline.start >= b.bargSize
    && l.kbd.end <= l.cmdline.start && l.cmdline.end <= b.stack - 2048 && l.cmdline.end <= b.bootMapSize
    && (l.initrd.end <= l.kbd.start || (high != 0 && l.initrd.end <= high && l.initrd.end <= b.stack2 - 2048))
  }

  // The length is not more than what lies below the place chosen.
  predicate Fits(b: Board, len: Address, high: Address) {
    len <= if TakesHigh(b, len, high) then Ceiling(b, high) else Kbd(b)
  }

  lemma SubIs(a: Address, b: Address)
    ensures Sub(a, b) == if b <= a then a - b else a - b + TWO32
  {
  }

  lemma ReservedIs(b: Board)
    requires Room(b)
    ensures Cmdline(b) + b.bargSize <= Limit(b) <= b.stack - 2048 && Limit(b) <= b.bootMapSize
    ensures Kbd(b) + b.bdSize <= Cmdline(b)
  {
    SubIs(b.stack, 2048);
    SubIs(Limit(b), b.bargSize);
    SubIs(Cmdline(b), b.bdSize);
  }

  lemma CeilingIs(b: Board, high: Address)
    requires Room(b)
    ensures Ceiling(b, high) <= high && Ceiling(b, high) <= b.stack2 - 2048
    ensures Ceiling(b, high) == high || b.stack2 - 2048 < Ceiling(b, high) + 16
  {
    SubIs(b.stack2, 2048);
  }

  // The layout is sound exactly if the RAM disk fits, wherever it goes: larger
  // than the reach of early Linux, too, if it goes high.
  lemma LayoutIsSound(b: Board, len: Address, high: Address)
    requires Room(b)
    ensures Sound(b, len, high, Place(b, len, high)) <==> Fits(b, len, high)
  {
    ReservedIs(b);
    CeilingIs(b, high);
    SubIs(Ceiling(b, high), len);
    SubIs(Kbd(b), len);
  }

  // Neither of the reserved areas lies lower than it has to, up to 16 bytes.
  lemma ReservedIsTight(b: Board, len: Address, high: Address)
    requires Room(b)
    ensures var l := Place(b, len, high);
            && l.cmdline.end % 16 == 0 && l.cmdline.start % 16 == 0 && l.kbd.start % 16 == 0
            && (b.stack - 2048 < l.cmdline.end + 16 || b.bootMapSize < l.cmdline.end + 16)
            && l.cmdline.end < l.cmdline.start + b.bargSize + 16 && l.cmdline.start < l.kbd.end + 16
  {
    SubIs(b.stack, 2048);
    SubIs(Limit(b), b.bargSize);
    SubIs(Cmdline(b), b.bdSize);
  }

  // A RAM disk on this page ends below its limit, and not above `top`.
  predicate IsRoomAt(p: nat, len: nat, top: nat, high: nat) {
    p % 4096 == 0 && p + len <= high && p + len <= top
  }

  // It goes high exactly if there is a page with room not below the others.
  lemma GoesHighExactly(b: Board, len: Address, high: Address, top: nat)
    requires Room(b) && Fits(b, len, high) && top == b.stack2 - 2048 - b.stack2 % 16
    ensures TakesHigh(b, len, high) <==> high != 0 && exists p | Limit(b) <= p :: IsRoomAt(p, len, top, high)
    ensures TakesHigh(b, len, high) ==> len <= Ceiling(b, high)
    ensures Ceiling(b, high) == if top > high then high else top
  {
    var c := Ceiling(b, high);
    CeilingFrom(b, high, top);
    SubIs(c, len);
    if TakesHigh(b, len, high) {
      LastPage(c - len, len, top, high);
    }
    forall p: nat | high != 0 && Limit(b) <= p && IsRoomAt(p, len, top, high) ensures TakesHigh(b, len, high) {
      HighestPage(c - len, p);
    }
  }

  // Nor does the RAM disk, up to a page: it goes high, to the last page that
  // has room, exactly if there is one that is not below the other areas.
  lemma RamdiskIsTight(b: Board, len: Address, high: Address, top: nat)
    requires Room(b) && Fits(b, len, high) && top == b.stack2 - 2048 - b.stack2 % 16
    ensures var l := Place(b, len, high);
            if high != 0 && exists p | l.cmdline.end <= p :: IsRoomAt(p, len, top, high)
            then IsRoomAt(l.initrd.start, len, top, high) && !IsRoomAt(l.initrd.start + 4096, len, top, high)
            else l.initrd.start % 4096 == 0 && l.initrd.end <= l.kbd.start < l.initrd.end + 4096
  {
    GoesHighExactly(b, len, high, top);
    var c, l := Ceiling(b, high), Place(b, len, high);
    assert l.cmdline.end == Limit(b) && l.kbd.start == Kbd(b) && l.initrd.end == l.initrd.start + len;
    if TakesHigh(b, len, high) {
      SubIs(c, len);
      LastPage(c - len, len, top, high);
    } else {
      LowIsNear(b, len);
    }
  }

  lemma LastPage(a: Address, len: nat, top: nat, high: nat)
    requires a + len == if top > high then high else top
    ensures IsRoomAt(PageOf(a), len, top, high) && !IsRoomAt(PageOf(a) + 4096, len, top, high)
  {
  }

  lemma LowIsNear(b: Board, len: Address)
    requires Room(b) && len <= Kbd(b)
    ensures Low(b, len) % 4096 == 0 && Low(b, len) + len <= Kbd(b) < Low(b, len) + len + 4096
  {
    SubIs(Kbd(b), len);
  }

  lemma CeilingFrom(b: Board, high: Address, top: nat)
    requires Room(b) && top == b.stack2 - 2048 - b.stack2 % 16
    ensures Ceiling(b, high) == if top > high then high else top
  {
    SubIs(b.stack2, 2048);
  }

  lemma HighestPage(a: Address, p: nat)
    requires p % 4096 == 0 && p <= a
    ensures p <= PageOf(a)
  {
  }

  // A limit below the length wraps around: the RAM disk is not kept below the
  // limit, but sent to the top of the address space.
  lemma LimitBelowLengthWraps(b: Board, len: Address, high: Address)
    requires Room(b) && 0 < high < len && len - high <= TWO32 - 4096 - Limit(b) && high <= b.stack2 - 2064
    ensures TakesHigh(b, len, high) && !Sound(b, len, high, Place(b, len, high))
    ensures Place(b, len, high).initrd.end > TWO32 + high - 4096
  {
    SubIs(b.stack2, 2048);
    SubIs(Ceiling(b, high), len);
    LayoutIsSound(b, len, high);
  }

  // The addresses, step by step.
  method PlaceAreas(b: Board, len: Address, high: Address) returns (l: Layout)
    ensures l == Place(b, len, high)
  {
    var sp := Sub(b.stack, 2048);
    if sp > b.bootMapSize {
      sp := b.bootMapSize;
    }
    sp := Align16(sp);
    var cmdline := Align16(Sub(sp, b.bargSize));
    var kbd := Align16(Sub(cmdline, b.bdSize));
    var initrd_start := PageOf(Sub(kbd, len));
    if high != 0 {
      var nsp := Align16(Sub(b.stack2, 2048));
      if nsp > high {
        nsp := high;
      }
      nsp := PageOf(Sub(nsp, len));
      if nsp >= sp {
        initrd_start := nsp;
      }
    }
    l := Layout(Area(cmdline, sp), Area(kbd, kbd + b.bdSize), Area(initrd_start, initrd_start + len));
  }

  // ------------------------------------------------------------------------
  // The limit given by the user.

  const NO_LIMIT: Address := 0xFFFF_FFFF

  // Low if asked for, else not above the limit.
  predicate Respects(l: Layout, high: Address) {
    if high == 0 then l.initrd.end <= l.kbd.start else l.initrd.end <= high
  }

  // A RAM disk that fits keeps to the limit exactly if it is placed high, or
  // if the low place, chosen without looking at the limit, is not above it.
  lemma LimitIsKeptExactly(b: Board, len: Address, high: Address)
    requires Room(b) && Fits(b, len, high)
    ensures Respects(Place(b, len, high), high)
            <==> high == 0 || TakesHigh(b, len, high) || Low(b, len) + len <= high
  {
    CeilingIs(b, high);
    SubIs(Ceiling(b, high), len);
    SubIs(Kbd(b), len);
  }

  // With a log buffer at the top of memory the limit is changed like this.
  function LogBufferLimit(high: Address, buffer: Address): Address {
    if high < buffer then buffer else high
  }

  // The stack lies below the log buffer, so the RAM disk does in any case, and
  // the changed limit is none: it is placed as if none had been given.
  lemma LogBufferLimitIsNone(b: Board, len: Address, high: Address, buffer: Address)
    requires Room(b) && 0 < buffer && b.stack <= buffer && b.stack2 <= buffer
    ensures Place(b, len, LogBufferLimit(high, buffer)) == Place(b, len, NO_LIMIT)
    ensures Fits(b, len, NO_LIMIT) ==> Place(b, len, NO_LIMIT).initrd.end <= buffer
  {
    SubIs(b.stack2, 2048);
    ReservedIs(b);
    CeilingIs(b, NO_LIMIT);
    assert Ceiling(b, LogBufferLimit(high, buffer)) == Ceiling(b, NO_LIMIT);
    SubIs(Ceiling(b, NO_LIMIT), len);
    SubIs(Kbd(b), len);
  }

  // So a limit is kept exactly if it would be without being given: "low" only
  // if there is no room high, an address only if the RAM disk ends there.
  lemma LogBufferOverridesExactly(b: Board, len: Address, high: Address, buffer: Address)
    requires Room(b) && 0 < buffer && b.stack <= buffer && b.stack2 <= buffer && Fits(b, len, NO_LIMIT) && 0 < len
    ensures Respects(Place(b, len, LogBufferLimit(high, buffer)), high)
            <==> if high == 0 then !TakesHigh(b, len, NO_LIMIT)
                 else if TakesHigh(b, len, NO_LIMIT) then High(b, len, NO_LIMIT) + len <= high
                 else Low(b, len) + len <= high
  {
    LogBufferLimitIsNone(b, len, high, buffer);
    ReservedIs(b);
    CeilingIs(b, NO_LIMIT);
    SubIs(Ceiling(b, NO_LIMIT), len);
    SubIs(Kbd(b), len);
  }

  // A board with 64 MiB.
  const EXAMPLE := Board(128, 2048, 0x80_0000, 0x3F0_0000, 0x3F0_0000)

  lemma ExampleAddresses(b: Board)
    requires b == EXAMPLE
    ensures Limit(b) == 0x80_0000 && Cmdline(b) == 0x7F_F800 && Kbd(b) == 0x7F_F780
    ensures Ceiling(b, NO_LIMIT) == 0x3EF_F800 && Ceiling(b, 0xC0_0000) == 0xC0_0000
  {
  }

  // There a RAM disk twice as large as the reach of early Linux goes high.
  lemma LargeRamdiskGoesHigh(b: Board)
    requires b == EXAMPLE
    ensures TakesHigh(b, 0x100_0000, NO_LIMIT) && Fits(b, 0x100_0000, NO_LIMIT)
    ensures Sound(b, 0x100_0000, NO_LIMIT, Place(b, 0x100_0000, NO_LIMIT))
  {
    ExampleAddresses(b);
    LayoutIsSound(b, 0x100_0000, NO_LIMIT);
  }

  // On that board, "do not load high" and a limit of 12 MiB are both
  // kept without a log buffer, and overridden with one.
  lemma LimitsAreOverridden(b: Board, len: Address, buffer: Address, high: Address)
    requires b == EXAMPLE && len == 0x10_0000 && buffer == 0x400_0000 - 20480 && (high == 0 || high == 0xC0_0000)
    ensures Respects(Place(b, len, high), high)
    ensures !Respects(Place(b, len, LogBufferLimit(high, buffer)), high)
  {
    ExampleAddresses(b);
    assert High(b, len, NO_LIMIT) == 0x3DF_F000;
    assert High(b, len, 0xC0_0000) == 0xB0_0000;
    LimitIsKeptExactly(b, len, high);
    LogBufferOverridesExactly(b, len, high, buffer);
  }

  // ------------------------------------------------------------------------
  // Multi-file images: a table of lengths that ends with 0, then the files,
  // each padded to a multiple of four bytes.

  function Padded(n: nat): (r: nat)
    ensures n <= r < n + 4 && r % 4 == 0
  {
    if n % 4 == 0 then n else n + 4 - n % 4
  }

  function Body(files: seq<seq<Byte>>): seq<Byte> {
    if files == [] then []
    else files[0] + seq(Padded(|files[0]|) - |files[0]|, _ => 0) + Body(files[1..])
  }

  function Table(files: seq<seq<Byte>>): seq<nat> {
    seq(|files|, i requires 0 <= i < |files| => |files[i]|) + [0]
  }

  // Offset of the second file from the start of the table, as the source
  // computes it: the table's end, the first length, and its padding.
  method SecondFile(table: seq<nat>) returns (data: nat, len: nat)
    requires exists i | 0 < i < |table| :: table[i] == 0
    requires |table| > 1
    ensures exists n | 0 < n < |table| :: table[n] == 0 && (forall i | 0 < i < n :: table[i] != 0)
              && data == 4 * (n + 1) + Padded(table[0]) && len == table[1]
  {
    var tail := table[0] % 4;
    data := 8;
    var i := 1;
    while table[i] != 0
      invariant 0 < i < |table| && data == 8 + 4 * (i - 1)
      invariant forall j | 0 < j < i :: table[j] != 0
      decreases |table| - i
    {
      data := data + 4;
      i := i + 1;
    }
    data := data + table[0];
    if tail > 0 {
      data := data + 4 - tail;
    }
    len := table[1];
  }

  // It is where the second file's bytes are.
  lemma {:induction false} SecondFileIsThere(files: seq<seq<Byte>>, n: nat)
    requires |files| >= 2 && (forall i | 0 <= i < |files| :: files[i] != [])
    requires 0 < n < |Table(files)| && Table(files)[n] == 0 && forall i | 0 < i < n :: Table(files)[i] != 0
    ensures var at := 4 * (n + 1) + Padded(|files[0]|) - 4 * |Table(files)|;
            at >= 0 && at + |files[1]| <= |Body(files)| && Body(files)[at..at + |files[1]|] == files[1]
  {
    assert n == |files|;
    var pad := seq(Padded(|files[0]|) - |files[0]|, _ => 0);
    var rest := Body(files[1..]);
    assert files[1..][0] == files[1];
    var at := |files[0]| + |pad|;
    assert Body(files) == files[0] + pad + rest;
    assert Body(files)[at..] == rest;
    assert rest[..|files[1]|] == files[1];
  }

  // ------------------------------------------------------------------------
  // The copy in chunks. Each chunk is moved as a whole.

  function Move(mem: seq<Byte>, target: nat, source: nat, n: nat): (r: seq<Byte>)
    requires target + n <= |mem| && source + n <= |mem|
    ensures |r| == |mem|
  {
    seq(|mem|, i requires 0 <= i < |mem| => if target <= i < target + n then mem[source + i - target] else mem[i])
  }

  function MoveChunks(mem: seq<Byte>, target: nat, source: nat, n: nat, chunk: nat): (r: seq<Byte>)
    requires target + n <= |mem| && source + n <= |mem| && chunk > 0
    ensures |r| == |mem|
    decreases n
  {
    if n == 0 then mem
    else
      var tail := if n > chunk then chunk else n;
      MoveChunks(Move(mem, target, source, tail), target + tail, source + tail, n - tail, chunk)
  }

  // A chunk would be written over bytes that are still to be copied.
  predicate Overruns(target: nat, source: nat, n: nat, chunk: nat) {
    source < target < source + n && chunk < n
  }

  lemma {:induction false} ChunksAreOneMove(mem: seq<Byte>, target: nat, source: nat, n: nat, chunk: nat)
    requires target + n <= |mem| && source + n <= |mem| && chunk > 0 && !Overruns(target, source, n, chunk)
    ensures MoveChunks(mem, target, source, n, chunk) == Move(mem, target, source, n)
    decreases n
  {
    if n > chunk {
      var first := Move(mem, target, source, chunk);
      ChunksAreOneMove(first, target + chunk, source + chunk, n - chunk, chunk);
      assert forall i | source + chunk <= i < source + n :: first[i] == mem[i];
      assert first[source + chunk..source + n] == mem[source + chunk..source + n];
      MoveInTwo(mem, target, source, n, chunk);
    } else if n > 0 {
      assert MoveChunks(mem, target, source, n, chunk) == Move(mem, target, source, n);
    } else {
      assert Move(mem, target, source, 0) == mem;
    }
  }

  lemma MoveInTwo(mem: seq<Byte>, target: nat, source: nat, n: nat, k: nat)
    requires target + n <= |mem| && source + n <= |mem| && k <= n
    requires Move(mem, target, source, k)[source + k..source + n] == mem[source + k..source + n]
    ensures Move(Move(mem, target, source, k), target + k, source + k, n - k) == Move(mem, target, source, n)
  {
  }

  // Nothing outside the target is written.
  lemma {:induction false} OutsideTarget(mem: seq<Byte>, target: nat, source: nat, n: nat, chunk: nat, i: nat)
    requires target + n <= |mem| && source + n <= |mem| && chunk > 0 && i < |mem| && !(target <= i < target + n)
    ensures MoveChunks(mem, target, source, n, chunk)[i] == mem[i]
    decreases n
  {
    if n > 0 {
      var tail := if n > chunk then chunk else n;
      var next := Move(mem, target, source, tail);
      OneChunk(mem, target, source, n, chunk, tail, next);
      OutsideTarget(next, target + tail, source + tail, n - tail, chunk, i);
    }
  }

  // A source byte below the target arrives as it was: byte `from_` at `to_`.
  lemma {:induction false} BelowTarget(mem: seq<Byte>, target: nat, source: nat, n: nat, chunk: nat, from_: nat,
                                       to_: nat)
    requires target + n <= |mem| && source + n <= |mem| && chunk > 0
    requires source <= from_ < source + n && from_ < target && to_ == target + (from_ - source)
    ensures MoveChunks(mem, target, source, n, chunk)[to_] == mem[from_]
    decreases n
  {
    var tail := if n > chunk then chunk else n;
    var next := Move(mem, target, source, tail);
    OneChunk(mem, target, source, n, chunk, tail, next);
    if from_ < source + tail {
      OutsideTarget(next, target + tail, source + tail, n - tail, chunk, to_);
    } else {
      BelowTarget(next, target + tail, source + tail, n - tail, chunk, from_, to_);
    }
  }

  lemma OneChunk(mem: seq<Byte>, target: nat, source: nat, n: nat, chunk: nat, tail: nat, next: seq<Byte>)
    requires target + n <= |mem| && source + n <= |mem| && chunk > 0 && n > 0
    requires tail == (if n > chunk then chunk else n) && next == Move(mem, target, source, tail)
    ensures MoveChunks(mem, target, source, n, chunk) == MoveChunks(next, target + tail, source + tail, n - tail, chunk)
  {
  }

  // In an overrun by d bytes, the byte at `from_` is overwritten by the one d
  // bytes before it, and arrives so at `to_`.
  lemma {:induction false} OverrunCopies(mem: seq<Byte>, target: nat, source: nat, n: nat, chunk: nat, d: nat,
                                         from_: nat, to_: nat)
    requires target + n <= |mem| && source + n <= |mem| && chunk > 0 && Overruns(target, source, n, chunk)
    requires d == target - source && from_ == source + (if d < chunk then chunk else d) && to_ == from_ + d
    ensures from_ < source + n && to_ < |mem| && MoveChunks(mem, target, source, n, chunk)[to_] == mem[from_ - d]
  {
    var next := Move(mem, target, source, chunk);
    OneChunk(mem, target, source, n, chunk, chunk, next);
    BelowTarget(next, target + chunk, source + chunk, n - chunk, chunk, from_, to_);
  }

  lemma OverrunIsWrong(size: nat, target: nat, source: nat, n: nat, chunk: nat) returns (mem: seq<Byte>)
    requires target + n <= size && source + n <= size && chunk > 0 && Overruns(target, source, n, chunk)
    ensures |mem| == size && MoveChunks(mem, target, source, n, chunk) != Move(mem, target, source, n)
  {
    var d := target - source;
    var from_ := source + if d < chunk then chunk else d;
    var to_ := from_ + d;
    mem := seq(size, i => if i == from_ - d then 1 else 0);
    OverrunCopies(mem, target, source, n, chunk, d, from_, to_);
    assert MoveChunks(mem, target, source, n, chunk)[to_] == 1 && Move(mem, target, source, n)[to_] == 0;
  }

  // The copy in chunks moves the image whatever the memory holds, exactly if
  // it does not overrun: target below the source, disjoint from it, or all in
  // one chunk.
  lemma {:induction false} CopyIsRightExactly(size: nat, target: nat, source: nat, n: nat, chunk: nat)
    requires target + n <= size && source + n <= size && chunk > 0
    ensures !Overruns(target, source, n, chunk)
            <==> forall mem: seq<Byte> | |mem| == size ::
                   MoveChunks(mem, target, source, n, chunk) == Move(mem, target, source, n)
  {
    if Overruns(target, source, n, chunk) {
      var mem := OverrunIsWrong(size, target, source, n, chunk);
    } else {
      forall mem: seq<Byte> | |mem| == size
        ensures MoveChunks(mem, target, source, n, chunk) == Move(mem, target, source, n)
      {
        ChunksAreOneMove(mem, target, source, n, chunk);
      }
    }
  }

  // The loop.
  method CopyRamdisk(mem: array<Byte>, target: nat, source: nat, n: nat, chunk: nat)
    requires target + n <= mem.Length && source + n <= mem.Length && chunk > 0
    modifies mem
    ensures mem[..] == MoveChunks(old(mem[..]), target, source, n, chunk)
  {
    ghost var all := MoveChunks(mem[..], target, source, n, chunk);
    var l, to_, from_: nat := n, target, source;
    while l > 0
      invariant 0 <= l && to_ + l == target + n && from_ + l == source + n
      invariant MoveChunks(mem[..], to_, from_, l, chunk) == all
    {
      var tail := if l > chunk then chunk else l;
      ghost var now := mem[..];
      Memmove(mem, to_, from_, tail);
      OneChunk(now, to_, from_, l, chunk, tail, mem[..]);
      to_, from_, l := to_ + tail, from_ + tail, l - tail;
    }
  }

  // Where the second file starts, from the start of the table.
  function SecondStart(files: seq<seq<Byte>>): nat
    requires files != []
  {
    4 * (|files| + 1) + Padded(|files[0]|)
  }

  // The table starts at base, and the files stand behind it.
  ghost predicate ImageAt(mem: seq<Byte>, base: nat, files: seq<seq<Byte>>) {
    var start, body := base + 4 * (|files| + 1), Body(files);
    start + |body| <= |mem| && mem[start..start + |body|] == body
  }

  lemma SecondFileInMemory(mem: seq<Byte>, base: nat, files: seq<seq<Byte>>, source: nat)
    requires |files| >= 2 && (forall i | 0 <= i < |files| :: files[i] != []) && ImageAt(mem, base, files)
    requires source == base + SecondStart(files)
    ensures source + |files[1]| <= |mem| && mem[source..source + |files[1]|] == files[1]
  {
    var start, n := base + 4 * (|files| + 1), |files|;
    assert Table(files)[n] == 0;
    SecondFileIsThere(files, n);
    var at := Padded(|files[0]|);
    SliceOfSlice(mem, start, start + |Body(files)|, at, at + |files[1]|);
  }

  method FindSecondFile(table: seq<nat>, ghost files: seq<seq<Byte>>) returns (data: nat, len: nat)
    requires |files| >= 2 && (forall i | 0 <= i < |files| :: files[i] != []) && table == Table(files)
    ensures data == SecondStart(files) && len == |files[1]|
  {
    assert table[|files|] == 0;
    data, len := SecondFile(table);
  }

  lemma SliceOfSlice<T>(s: seq<T>, a: nat, b: nat, c: nat, d: nat)
    requires a <= b <= |s| && c <= d <= b - a
    ensures s[a..b][c..d] == s[a + c..a + d]
  {
    var x, y := s[a..b][c..d], s[a + c..a + d];
    assert |x| == |y| && forall i | 0 <= i < |x| :: x[i] == y[i];
  }

  // The second file of an image in memory arrives at the target, and nothing
  // else changes, as long as the copy does not overrun.
  method CopySecondFile(mem: array<Byte>, base: nat, ghost files: seq<seq<Byte>>, table: seq<nat>, target: nat,
                        chunk: nat)
    requires |files| >= 2 && (forall i | 0 <= i < |files| :: files[i] != []) && table == Table(files)
    requires ImageAt(mem[..], base, files) && target + |files[1]| <= mem.Length && chunk > 0
    requires !Overruns(target, base + SecondStart(files), |files[1]|, chunk)
    modifies mem
    ensures mem[target..target + |files[1]|] == files[1]
    ensures forall i | 0 <= i < mem.Length && !(target <= i < target + |files[1]|) :: mem[i] == old(mem[i])
  {
    var data, len := FindSecondFile(table, files);
    var source := base + data;
    ghost var was := mem[..];
    SecondFileInMemory(was, base, files, source);
    CopyRamdisk(mem, target, source, len, chunk);
    ChunksAreOneMove(was, target, source, len, chunk);
    Arrived(was, mem[..], target, source, len);
  }

  lemma Arrived(was: seq<Byte>, mem: seq<Byte>, target: nat, source: nat, n: nat)
    requires target + n <= |was| && source + n <= |was| && mem == Move(was, target, source, n)
    ensures mem[target..target + n] == was[source..source + n]
    ensures forall i | 0 <= i < |mem| && !(target <= i < target + n) :: mem[i] == was[i]
  {
  }

  // memmove: right for any overlap, by going up or down.
  method Memmove(mem: array<Byte>, target: nat, source: nat, n: nat)
    requires target + n <= mem.Length && source + n <= mem.Length
    modifies mem
    ensures mem[..] == Move(old(mem[..]), target, source, n)
  {
    ghost var was: seq<Byte> := mem[..];
    ghost var d: int := source - target;
    if target <= source {
      var i := 0;
      while i < n
        invariant 0 <= i <= n
        invariant forall k | target <= k < target + i :: mem[k] == was[k + d]
        invariant forall k | 0 <= k < mem.Length && !(target <= k < target + i) :: mem[k] == was[k]
      {
        assert mem[source + i] == was[source + i];
        assert target + i + d == source + i;
        mem[target + i] := mem[source + i];
        i := i + 1;
      }
    } else {
      var i := n;
      while i > 0
        invariant 0 <= i <= n
        invariant forall k | target + i <= k < target + n :: mem[k] == was[k + d]
        invariant forall k | 0 <= k < mem.Length && !(target + i <= k < target + n) :: mem[k] == was[k]
      {
        i := i - 1;
        assert mem[source + i] == was[source + i];
        assert target + i + d == source + i;
        mem[target + i] := mem[source + i];
      }
    }
    forall k | 0 <= k < mem.Length ensures mem[k] == Move(was, target, source, n)[k] {
      assert k + d == source + k - target;
    }
  }
}
