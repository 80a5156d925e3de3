// The RAM test, run against a memory with faults: address lines that send
// several offsets to one cell, and cell bits stuck at a value.
module MemTest {
  import opened Arithmetic

  const WIDTH := 32

  // Machine words, least significant bit first.
  type Word = w: seq<bool> | |w| == WIDTH witness seq(WIDTH, _ => false)

  function Uniform(bit: bool): Word {
    seq(WIDTH, _ => bit)
  }

  const ZERO: Word := Uniform(false)

  function Not(w: Word): Word {
    seq(WIDTH, i requires 0 <= i < WIDTH => !w[i])
  }

  // The number n as an unsigned long.
  function ToWord(n: nat): Word {
    Bits(n, WIDTH)
  }

  // 0xaaaaaaaa with the odd bits set, 0x55555555 with the even ones.
  function Alternating(odd: bool): Word {
    seq(WIDTH, i => (i % 2 == 1) == odd)
  }

  const PATTERN: Word := Alternating(true)
  const ANTI_PATTERN: Word := Alternating(false)

  lemma ToWordInjective(a: nat, b: nat)
    requires a < 0x1_0000_0000 && b < 0x1_0000_0000 && ToWord(a) == ToWord(b)
    ensures a == b
  {
    Pow2Of28();
    Pow2Four(28, 0x1000_0000);
    BitsInjective(a, b, 32);
  }

  // A number of 32 bits is the value of its word.
  lemma {:induction false} ValueOfWord(n: nat)
    requires n < 0x1_0000_0000
    ensures Value(ToWord(n)) == n
  {
    Pow2Of28();
    Pow2Four(28, 0x1000_0000);
    BitsAndRest(n, WIDTH);
    BitsOfValue(ToWord(n));
    BitsInjective(n, Value(ToWord(n)), WIDTH);
  }

  lemma {:induction false} TwoBits(n: nat, width: nat, i: nat)
    requires i < width + 2
    ensures Bits(n, width + 2)[i] ==
            if i == 0 then n % 2 == 1 else if i == 1 then n / 2 % 2 == 1 else Bits(n / 4, width)[i - 2]
  {
    assert Bits(n, width + 2) == [n % 2 == 1] + Bits(n / 2, width + 1);
    assert Bits(n / 2, width + 1) == [n / 2 % 2 == 1] + Bits(n / 2 / 2, width);
  }

  lemma QuarterAlternates(n: nat, odd: bool, p: nat)
    requires 3 * n == if odd then 2 * (4 * p - 1) else 4 * p - 1
    ensures n % 2 == (if odd then 0 else 1) && n / 2 % 2 == if odd then 1 else 0
    ensures 3 * (n / 4) == if odd then 2 * (p - 1) else p - 1
  {
    var q, r := n / 4, n % 4;
    assert n == 4 * q + r;
    assert r == if odd then 2 else 1 by {
      assert r != 0 && r != 3;
    }
    assert n / 2 == 2 * q + r / 2;
  }

  // Numbers of the form 1010...10 and 0101...01.
  lemma {:induction false} AlternatingBits(n: nat, odd: bool, width: nat, i: nat, p: nat)
    requires i < width && width % 2 == 0 && p == Pow2(width) && 3 * n == if odd then 2 * (p - 1) else p - 1
    ensures Bits(n, width)[i] <==> (i % 2 == 1) == odd
    decreases width
  {
    var q := Pow2(width - 2);
    PowFour(width, q);
    TwoBits(n, width - 2, i);
    QuarterAlternates(n, odd, q);
    if i >= 2 {
      AlternatingBits(n / 4, odd, width - 2, i - 2, q);
    }
  }

  lemma {:induction false} PowFour(width: nat, q: nat)
    requires width >= 2 && q == Pow2(width - 2)
    ensures Pow2(width) == 4 * q
  {
    assert Pow2(width - 1) == 2 * q;
  }

  // The two patterns as the numbers of the source.
  lemma {:induction false} PatternsAre(i: nat)
    requires i < WIDTH
    ensures PATTERN[i] == ToWord(0xAAAA_AAAA)[i] && ANTI_PATTERN[i] == ToWord(0x5555_5555)[i]
  {
    Pow2Of28();
    Pow2Four(28, 0x1000_0000);
    AlternatingBits(0xAAAA_AAAA, true, WIDTH, i, 0x1_0000_0000);
    AlternatingBits(0x5555_5555, false, WIDTH, i, 0x1_0000_0000);
  }

  datatype BitFault = Good | StuckAt(value: bool)

  type Fault = f: seq<BitFault> | |f| == WIDTH witness seq(WIDTH, _ => Good)

  // What is read back from a cell holding w.
  function Sense(f: Fault, w: Word): Word {
    seq(WIDTH, i requires 0 <= i < WIDTH => if f[i].Good? then w[i] else f[i].value)
  }

  predicate NoStuckBit(f: Fault) {
    forall i | 0 <= i < WIDTH :: f[i].Good?
  }

  lemma GoodSense(f: Fault, w: Word)
    requires NoStuckBit(f)
    ensures Sense(f, w) == w
  {
  }

  lemma SenseTwice(f: Fault, w: Word)
    ensures Sense(f, Sense(f, w)) == Sense(f, w)
  {
  }

  // A cell from which a word and its complement can be read has no stuck bit.
  lemma BothPolarities(f: Fault, w: Word)
    requires Sense(f, w) == w && Sense(f, Not(w)) == Not(w)
    ensures NoStuckBit(f)
  {
    forall i | 0 <= i < WIDTH ensures f[i].Good? {
      assert Sense(f, w)[i] == w[i] && Sense(f, Not(w))[i] == !w[i];
    }
  }

  // ------------------------------------------------------------------------
  // A pass over the memory, on the contents of its cells. wire[i] is the cell
  // that word offset i reaches.

  predicate IsMemory(wire: seq<nat>, faults: seq<Fault>) {
    && 0 < |wire| <= 0x4000_0000
    && forall i | 0 <= i < |wire| :: wire[i] < |faults|
  }

  // The cells after v[0], ..., v[k - 1] were written at offsets 0, ..., k - 1.
  function Pass(wire: seq<nat>, v: seq<Word>, k: nat, cells: seq<Word>): (r: seq<Word>)
    requires k <= |wire| == |v| && forall i | 0 <= i < |wire| :: wire[i] < |cells|
    ensures |r| == |cells|
  {
    if k == 0 then cells else Pass(wire, v, k - 1, cells)[wire[k - 1] := v[k - 1]]
  }

  // The last of the first k offsets that reaches cell c, or -1.
  function LastTo(wire: seq<nat>, k: nat, c: nat): (r: int)
    requires k <= |wire|
    ensures -1 <= r < k
    ensures r >= 0 ==> wire[r] == c
  {
    if k == 0 then -1 else if wire[k - 1] == c then k - 1 else LastTo(wire, k - 1, c)
  }

  lemma {:induction false} LastToIsLast(wire: seq<nat>, k: nat, c: nat, i: nat)
    requires i < k <= |wire| && wire[i] == c
    ensures LastTo(wire, k, c) >= i
  {
    if i < k - 1 && wire[k - 1] != c {
      LastToIsLast(wire, k - 1, c, i);
    }
  }

  lemma {:induction false} PassContents(wire: seq<nat>, v: seq<Word>, k: nat, cells: seq<Word>, c: nat)
    requires k <= |wire| == |v| && (forall i | 0 <= i < |wire| :: wire[i] < |cells|) && c < |cells|
    ensures LastTo(wire, k, c) >= 0 ==> Pass(wire, v, k, cells)[c] == v[LastTo(wire, k, c)]
    ensures LastTo(wire, k, c) < 0 ==> Pass(wire, v, k, cells)[c] == cells[c]
  {
    if k > 0 {
      PassContents(wire, v, k - 1, cells, c);
    }
  }

  // The words of the increment test, their complements, and zeros.
  function Counting(n: nat): seq<Word> {
    seq(n, i requires 0 <= i < n => ToWord(i + 1))
  }

  function Complements(n: nat): seq<Word> {
    seq(n, i requires 0 <= i < n => Not(ToWord(i + 1)))
  }

  function Zeros(n: nat): seq<Word> {
    seq(n, _ => ZERO)
  }

  // While v is being written, every word reads as want just before its turn.
  predicate Reads(wire: seq<nat>, faults: seq<Fault>, cells: seq<Word>, want: seq<Word>, v: seq<Word>, upTo: nat)
    requires IsMemory(wire, faults) && |cells| == |faults| && upTo <= |wire| == |want| == |v|
  {
    upTo == 0 || (Reads(wire, faults, cells, want, v, upTo - 1) && ReadsAt(wire, faults, cells, want, v, upTo - 1))
  }

  predicate ReadsAt(wire: seq<nat>, faults: seq<Fault>, cells: seq<Word>, want: seq<Word>, v: seq<Word>, k: nat)
    requires IsMemory(wire, faults) && |cells| == |faults| && k < |wire| == |want| == |v|
  {
    Sense(faults[wire[k]], Pass(wire, v, k, cells)[wire[k]]) == want[k]
  }

  lemma {:induction false} ReadsIsAll(wire: seq<nat>, faults: seq<Fault>, cells: seq<Word>, want: seq<Word>,
                                      v: seq<Word>, upTo: nat)
    requires IsMemory(wire, faults) && |cells| == |faults| && upTo <= |wire| == |want| == |v|
    ensures Reads(wire, faults, cells, want, v, upTo) <==>
            forall k | 0 <= k < upTo :: ReadsAt(wire, faults, cells, want, v, k)
  {
    if upTo > 0 {
      ReadsIsAll(wire, faults, cells, want, v, upTo - 1);
    }
  }

  // One wrong word is enough.
  lemma {:induction false} WrongWord(wire: seq<nat>, faults: seq<Fault>, cells: seq<Word>, want: seq<Word>,
                                     v: seq<Word>, k: nat,
                  upTo: nat)
    requires IsMemory(wire, faults) && |cells| == |faults| && k < upTo <= |wire| == |want| == |v|
    requires !ReadsAt(wire, faults, cells, want, v, k)
    ensures !Reads(wire, faults, cells, want, v, upTo)
  {
    ReadsIsAll(wire, faults, cells, want, v, upTo);
  }

  // No two offsets share a cell, and no bit of their cells is stuck.
  ghost predicate FaultFree(wire: seq<nat>, faults: seq<Fault>)
    requires forall i | 0 <= i < |wire| :: wire[i] < |faults|
  {
    && (forall i, j | 0 <= i < j < |wire| :: wire[i] != wire[j])
    && (forall i | 0 <= i < |wire| :: NoStuckBit(faults[wire[i]]))
  }

  // Fill, check and invert, check and zero: nothing is reported.
  ghost predicate DevicePasses(wire: seq<nat>, faults: seq<Fault>, cells: seq<Word>)
    requires IsMemory(wire, faults) && |cells| == |faults|
  {
    var n := |wire|;
    var filled := Pass(wire, Counting(n), n, cells);
    var inverted := Pass(wire, Complements(n), n, filled);
    && Reads(wire, faults, filled, Counting(n), Complements(n), n)
    && Reads(wire, faults, inverted, Complements(n), Zeros(n), n)
  }

  // In a fault-free memory every word is still as it was before the pass
  // when its turn comes.
  lemma {:induction false} FaultFreeReads(wire: seq<nat>, faults: seq<Fault>, cells: seq<Word>, w: seq<Word>,
                                          v: seq<Word>, k: nat)
    requires IsMemory(wire, faults) && |cells| == |faults| && k < |wire| == |w| == |v| && FaultFree(wire, faults)
    ensures ReadsAt(wire, faults, Pass(wire, w, |wire|, cells), w, v, k)
    ensures Sense(faults[wire[k]], Pass(wire, w, |wire|, cells)[wire[k]]) == w[k]
  {
    var c, n := wire[k], |wire|;
    var before := Pass(wire, w, n, cells);
    PassContents(wire, w, n, cells, c);
    PassContents(wire, v, k, before, c);
    LastToIsLast(wire, n, c, k);
    assert LastTo(wire, n, c) == k && LastTo(wire, k, c) == -1;
    GoodSense(faults[c], before[c]);
  }

  lemma FaultFreePasses(wire: seq<nat>, faults: seq<Fault>, cells: seq<Word>)
    requires IsMemory(wire, faults) && |cells| == |faults| && FaultFree(wire, faults)
    ensures DevicePasses(wire, faults, cells)
  {
    var n := |wire|;
    var filled := Pass(wire, Counting(n), n, cells);
    ReadsIsAll(wire, faults, filled, Counting(n), Complements(n), n);
    ReadsIsAll(wire, faults, Pass(wire, Complements(n), n, filled), Complements(n), Zeros(n), n);
    forall k | 0 <= k < n
      ensures ReadsAt(wire, faults, filled, Counting(n), Complements(n), k)
      ensures ReadsAt(wire, faults, Pass(wire, Complements(n), n, filled), Complements(n), Zeros(n), k)
    {
      FaultFreeReads(wire, faults, cells, Counting(n), Complements(n), k);
      FaultFreeReads(wire, faults, filled, Complements(n), Zeros(n), k);
    }
  }

  lemma PassingHasNoStuckBit(wire: seq<nat>, faults: seq<Fault>, cells: seq<Word>, k: nat)
    requires IsMemory(wire, faults) && |cells| == |faults| && DevicePasses(wire, faults, cells) && k < |wire|
    ensures NoStuckBit(faults[wire[k]])
  {
    var n := |wire|;
    var w, v, z := Counting(n), Complements(n), Zeros(n);
    var filled := Pass(wire, w, n, cells);
    var inverted := Pass(wire, v, n, filled);
    ReadIsSensed(wire, faults, filled, w, v, k);
    ReadIsSensed(wire, faults, inverted, v, z, k);
    assert w[k] == ToWord(k + 1) && v[k] == Not(w[k]);
    BothPolarities(faults[wire[k]], w[k]);
  }

  // A word that is read back is one that its cell can hold.
  lemma {:induction false} ReadIsSensed(wire: seq<nat>, faults: seq<Fault>, cells: seq<Word>, want: seq<Word>,
                                        v: seq<Word>, k: nat)
    requires IsMemory(wire, faults) && |cells| == |faults| && k < |wire| == |want| == |v|
    requires Reads(wire, faults, cells, want, v, |wire|)
    ensures Sense(faults[wire[k]], want[k]) == want[k]
  {
    ReadsEach(wire, faults, cells, want, v, |wire|, k);
    SenseTwice(faults[wire[k]], Pass(wire, v, k, cells)[wire[k]]);
  }

  lemma {:induction false} ReadsEach(wire: seq<nat>, faults: seq<Fault>, cells: seq<Word>, want: seq<Word>,
                                     v: seq<Word>, upTo: nat, k: nat)
    requires IsMemory(wire, faults) && |cells| == |faults| && k < upTo <= |wire| == |want| == |v|
    requires Reads(wire, faults, cells, want, v, upTo)
    ensures ReadsAt(wire, faults, cells, want, v, k)
  {
    if k < upTo - 1 {
      ReadsEach(wire, faults, cells, want, v, upTo - 1, k);
    }
  }

  // The first offset of a cell reads what the last one wrote.
  lemma {:induction false} ReadBack(wire: seq<nat>, faults: seq<Fault>, cells: seq<Word>, w: seq<Word>, v: seq<Word>,
                                    k: nat, last: nat,
                 c: nat, before: seq<Word>)
    requires IsMemory(wire, faults) && |cells| == |faults| && k < |wire| == |w| == |v|
    requires c == wire[k] && LastTo(wire, k, c) == -1 && LastTo(wire, |wire|, c) == last
    requires before == Pass(wire, w, |wire|, cells)
    requires ReadsAt(wire, faults, before, w, v, k)
    ensures Sense(faults[c], w[last]) == w[k]
  {
    PassContents(wire, w, |wire|, cells, c);
    PassContents(wire, v, k, before, c);
    assert before[c] == w[last];
  }

  // The two agree.
  lemma {:induction false} FirstReadsLast(wire: seq<nat>, faults: seq<Fault>, cells: seq<Word>, k: nat)
    requires IsMemory(wire, faults) && |cells| == |faults| && DevicePasses(wire, faults, cells) && k < |wire|
    requires LastTo(wire, k, wire[k]) == -1
    ensures LastTo(wire, |wire|, wire[k]) == k
  {
    var n := |wire|;
    var filled := Pass(wire, Counting(n), n, cells);
    ReadsIsAll(wire, faults, filled, Counting(n), Complements(n), n);
    assert ReadsAt(wire, faults, filled, Counting(n), Complements(n), k);
    LastToIsLast(wire, n, wire[k], k);
    var last := LastTo(wire, n, wire[k]);
    ReadBack(wire, faults, cells, Counting(n), Complements(n), k, last, wire[k], filled);
    PassingHasNoStuckBit(wire, faults, cells, k);
    GoodSense(faults[wire[k]], Counting(n)[last]);
    CountingInjective(n, last, k);
  }

  lemma CountingInjective(n: nat, i: nat, j: nat)
    requires n <= 0x4000_0000 && i < n && j < n && Counting(n)[i] == Counting(n)[j]
    ensures i == j
  {
    var a, b := i + 1, j + 1;
    CountingAt(n, i, a);
    CountingAt(n, j, b);
    ToWordInjective(a, b);
  }

  lemma CountingAt(n: nat, i: nat, a: nat)
    requires i < n && a == i + 1
    ensures Counting(n)[i] == ToWord(a) && Complements(n)[i] == Not(ToWord(a)) && Zeros(n)[i] == ZERO
  {
  }

  lemma {:induction false} PassingHasNoAlias(wire: seq<nat>, faults: seq<Fault>, cells: seq<Word>, k: nat)
    requires IsMemory(wire, faults) && |cells| == |faults| && DevicePasses(wire, faults, cells) && k < |wire|
    ensures LastTo(wire, |wire|, wire[k]) == k
  {
    var first := LastTo(wire, k, wire[k]);
    if first >= 0 {
      PassingHasNoAlias(wire, faults, cells, first);
      LastToIsLast(wire, |wire|, wire[k], k);
      assert false;
    }
    FirstReadsLast(wire, faults, cells, k);
  }

  // The main theorem: no report exactly if no fault, aliasing and stuck bits
  // together.
  lemma PassesExactlyIfFaultFree(wire: seq<nat>, faults: seq<Fault>, cells: seq<Word>)
    requires IsMemory(wire, faults) && |cells| == |faults|
    ensures DevicePasses(wire, faults, cells) <==> FaultFree(wire, faults)
  {
    if DevicePasses(wire, faults, cells) {
      forall i, j | 0 <= i < j < |wire| ensures wire[i] != wire[j] {
        PassingHasNoAlias(wire, faults, cells, i);
        PassingHasNoAlias(wire, faults, cells, j);
      }
      forall i | 0 <= i < |wire| ensures NoStuckBit(faults[wire[i]]) {
        PassingHasNoStuckBit(wire, faults, cells, i);
      }
    } else if FaultFree(wire, faults) {
      FaultFreePasses(wire, faults, cells);
    }
  }

  // ------------------------------------------------------------------------
  // Offsets 1, 2, 4, ... as long as the mask has the bit.
  predicate BitSet(mask: nat, offset: nat)
    requires offset > 0
  {
    mask / offset % 2 == 1
  }

  function Powers(mask: nat, offset: nat): (r: seq<nat>)
    requires offset > 0
    ensures forall i | 0 <= i < |r| :: offset <= r[i] <= mask
    decreases mask - offset
  {
    if BitSet(mask, offset) then
      BitSetBound(mask, offset);
      [offset] + Powers(mask, 2 * offset)
    else []
  }

  // One turn of a loop over the powers.
  lemma {:induction false} PowersStep(mask: nat, offset: nat, ps: seq<nat>, k: nat)
    requires offset > 0 && BitSet(mask, offset) && k <= |ps| && Powers(mask, offset) == ps[k..]
    ensures k < |ps| && ps[k] == offset && Powers(mask, 2 * offset) == ps[k + 1..]
  {
    assert ps[k..][0] == offset && ps[k..][1..] == ps[k + 1..];
  }

  lemma BitSetBound(mask: nat, offset: nat)
    requires offset > 0 && BitSet(mask, offset)
    ensures offset <= mask
  {
  }

  // With target t holding the anti-pattern and all other cells the pattern,
  // offset p reads as the pattern.
  predicate SeesPattern(wire: seq<nat>, faults: seq<Fault>, t: nat, p: nat)
    requires t < |wire| && p < |wire| && wire[p] < |faults|
  {
    Sense(faults[wire[p]], if wire[t] == wire[p] then ANTI_PATTERN else PATTERN) == PATTERN
  }

  // The offsets the walking-ones test uses.
  function Walk(wire: seq<nat>): (r: seq<nat>)
    requires wire != []
    ensures forall i | 0 <= i < |r| :: 0 < r[i] < |wire|
  {
    Powers(|wire| - 1, 1)
  }

  // A mask below a multiple of p.
  lemma {:induction false} BitBelow(mask: nat, p: nat, q: nat)
    requires p > 0 && mask + 1 == q * p
    ensures BitSet(mask, p) <==> (mask + 1) % (2 * p) == 0
  {
    assert mask == (q - 1) * p + (p - 1);
    DivModUnique(mask, p, q - 1, p - 1);
    var h, r := q / 2, q % 2;
    assert q * p == h * (2 * p) + r * p by {
      assert q == 2 * h + r;
      assert (2 * h + r) * p == h * (2 * p) + r * p;
    }
    DivModUnique(mask + 1, 2 * p, h, r * p);
  }

  lemma {:induction false} MultipleOfMore(n: nat, p: nat, k: nat)
    requires p > 0 && n % (Pow2(k) * p) == 0
    ensures n % p == 0
  {
    var m := Pow2(k) * p;
    var q := n / m;
    assert n == q * m;
    assert q * m == (q * Pow2(k)) * p;
    DivModUnique(n, p, q * Pow2(k), 0);
  }

  lemma {:induction false} Pow2Twice(k: nat, p: nat)
    ensures Pow2(k + 1) * p == Pow2(k) * (2 * p)
  {
  }

  lemma {:induction false} PowersExactly(mask: nat, p: nat, k: nat)
    requires p > 0 && (mask + 1) % p == 0
    ensures k < |Powers(mask, p)| <==> (mask + 1) % (Pow2(k + 1) * p) == 0
    ensures k < |Powers(mask, p)| ==> Powers(mask, p)[k] == Pow2(k) * p
    decreases k
  {
    BitBelow(mask, p, (mask + 1) / p);
    Pow2Twice(k, p);
    if !BitSet(mask, p) {
      if (mask + 1) % (Pow2(k + 1) * p) == 0 {
        MultipleOfMore(mask + 1, 2 * p, k);
      }
    } else if k > 0 {
      PowersExactly(mask, 2 * p, k - 1);
      Pow2Twice(k - 1, p);
    } else {
      assert Pow2(0) == 1;
    }
  }

  // The tested offsets are 1, 2, 4, ... in turn, as long as the number of
  // words is a multiple of twice the offset.
  lemma {:induction false} WalkExactly(wire: seq<nat>, k: nat)
    requires wire != []
    ensures k < |Walk(wire)| <==> |wire| % Pow2(k + 1) == 0
    ensures k < |Walk(wire)| ==> Walk(wire)[k] == Pow2(k)
  {
    PowersExactly(|wire| - 1, 1, k);
    assert Pow2(k + 1) * 1 == Pow2(k + 1) && Pow2(k) * 1 == Pow2(k);
  }

  // While offset t holds the anti-pattern, every other offset reads as the
  // pattern.
  ghost predicate OthersSeen(wire: seq<nat>, faults: seq<Fault>, t: nat)
    requires IsMemory(wire, faults) && t < |wire|
  {
    var ps := Walk(wire);
    forall j | 0 <= j < |ps| && ps[j] != t :: SeesPattern(wire, faults, t, ps[j])
  }

  // The walking-ones test: true of offset 0 and of every tested power.
  ghost predicate AddressPasses(wire: seq<nat>, faults: seq<Fault>)
    requires IsMemory(wire, faults)
  {
    && OthersSeen(wire, faults, 0)
    && forall i | 0 <= i < |Walk(wire)| :: OthersSeen(wire, faults, Walk(wire)[i])
  }

  // No tested power shares its cell with t.
  ghost predicate Alone(wire: seq<nat>, t: nat)
    requires t < |wire|
  {
    var ps := Walk(wire);
    forall j | 0 <= j < |ps| && ps[j] != t :: wire[t] != wire[ps[j]]
  }

  ghost predicate Unaliased(wire: seq<nat>)
    requires wire != []
  {
    Alone(wire, 0) && forall i | 0 <= i < |Walk(wire)| :: Alone(wire, Walk(wire)[i])
  }

  // Every bit of the cell is stuck, so that it always reads as the pattern.
  predicate PatternStuck(f: Fault) {
    forall i | 0 <= i < WIDTH :: f[i] == StuckAt(PATTERN[i])
  }

  // No bit is stuck at the opposite of the pattern.
  predicate TakesPattern(f: Fault) {
    forall i | 0 <= i < WIDTH :: f[i] != StuckAt(ANTI_PATTERN[i])
  }

  lemma PatternsAreOpposite(i: nat)
    requires i < WIDTH
    ensures PATTERN[i] == !ANTI_PATTERN[i]
  {
  }

  // A cell that holds the pattern reads as it exactly if it takes it; one
  // that holds the anti-pattern, exactly if it is stuck as a whole.
  lemma SensesPattern(f: Fault)
    ensures Sense(f, PATTERN) == PATTERN <==> TakesPattern(f)
    ensures Sense(f, ANTI_PATTERN) == PATTERN <==> PatternStuck(f)
    ensures PatternStuck(f) ==> TakesPattern(f)
  {
    forall i | 0 <= i < WIDTH
      ensures Sense(f, PATTERN)[i] == PATTERN[i] <==> f[i] != StuckAt(ANTI_PATTERN[i])
      ensures Sense(f, ANTI_PATTERN)[i] == PATTERN[i] <==> f[i] == StuckAt(PATTERN[i])
    {
      PatternsAreOpposite(i);
    }
  }

  lemma SeesExactly(wire: seq<nat>, faults: seq<Fault>, t: nat, p: nat)
    requires t < |wire| && p < |wire| && wire[p] < |faults|
    ensures SeesPattern(wire, faults, t, p)
            <==> if wire[t] == wire[p] then PatternStuck(faults[wire[p]]) else TakesPattern(faults[wire[p]])
  {
    SensesPattern(faults[wire[p]]);
  }

  // Every other tested power takes the pattern, and is stuck at it as a whole
  // if it shares its cell with t.
  ghost predicate OthersFit(wire: seq<nat>, faults: seq<Fault>, t: nat)
    requires IsMemory(wire, faults) && t < |wire|
  {
    var ps := Walk(wire);
    forall j | 0 <= j < |ps| && ps[j] != t ::
      && TakesPattern(faults[wire[ps[j]]])
      && (wire[t] == wire[ps[j]] ==> PatternStuck(faults[wire[ps[j]]]))
  }

  lemma OthersSeenExactly(wire: seq<nat>, faults: seq<Fault>, t: nat)
    requires IsMemory(wire, faults) && t < |wire|
    ensures OthersSeen(wire, faults, t) <==> OthersFit(wire, faults, t)
  {
    var ps := Walk(wire);
    forall j | 0 <= j < |ps|
      ensures SeesPattern(wire, faults, t, ps[j])
              <==> TakesPattern(faults[wire[ps[j]]])
                   && (wire[t] == wire[ps[j]] ==> PatternStuck(faults[wire[ps[j]]]))
    {
      SeesExactly(wire, faults, t, ps[j]);
      SensesPattern(faults[wire[ps[j]]]);
    }
  }

  // The walking-ones test passes exactly if all tested powers take the
  // pattern, and every one that shares its cell with another tested offset is
  // stuck at the pattern as a whole.
  lemma AddressPassesExactly(wire: seq<nat>, faults: seq<Fault>)
    requires IsMemory(wire, faults)
    ensures AddressPasses(wire, faults)
            <==> OthersFit(wire, faults, 0)
                 && forall i | 0 <= i < |Walk(wire)| :: OthersFit(wire, faults, Walk(wire)[i])
  {
    OthersSeenExactly(wire, faults, 0);
    forall i | 0 <= i < |Walk(wire)|
      ensures OthersSeen(wire, faults, Walk(wire)[i]) <==> OthersFit(wire, faults, Walk(wire)[i])
    {
      OthersSeenExactly(wire, faults, Walk(wire)[i]);
    }
  }

  lemma FitsAlone(wire: seq<nat>, faults: seq<Fault>, t: nat)
    requires IsMemory(wire, faults) && t < |wire| && OthersFit(wire, faults, t)
    requires forall j | 0 <= j < |Walk(wire)| :: !PatternStuck(faults[wire[Walk(wire)[j]]])
    ensures Alone(wire, t)
  {
  }

  // One healthy bit, or one stuck the other way, is enough: a passing test
  // means that offset 0 and the tested powers are pairwise unaliased, unless
  // a tested cell is stuck at the pattern as a whole.
  lemma PassingIsUnaliased(wire: seq<nat>, faults: seq<Fault>)
    requires IsMemory(wire, faults) && AddressPasses(wire, faults)
    requires forall j | 0 <= j < |Walk(wire)| :: !PatternStuck(faults[wire[Walk(wire)[j]]])
    ensures Unaliased(wire)
  {
    AddressPassesExactly(wire, faults);
    FitsAlone(wire, faults, 0);
    forall i | 0 <= i < |Walk(wire)| ensures Alone(wire, Walk(wire)[i]) {
      FitsAlone(wire, faults, Walk(wire)[i]);
    }
  }

  lemma AloneFits(wire: seq<nat>, faults: seq<Fault>, t: nat)
    requires IsMemory(wire, faults) && t < |wire| && Alone(wire, t)
    requires forall j | 0 <= j < |Walk(wire)| :: NoStuckBit(faults[wire[Walk(wire)[j]]])
    ensures OthersFit(wire, faults, t)
  {
  }

  // Where the tested powers reach no stuck bit, the test is exact.
  lemma HealthyPassesExactly(wire: seq<nat>, faults: seq<Fault>)
    requires IsMemory(wire, faults)
    requires forall i | 0 <= i < |Walk(wire)| :: NoStuckBit(faults[wire[Walk(wire)[i]]])
    ensures AddressPasses(wire, faults) <==> Unaliased(wire)
  {
    forall j | 0 <= j < |Walk(wire)| ensures !PatternStuck(faults[wire[Walk(wire)[j]]]) {
      assert faults[wire[Walk(wire)[j]]][0].Good?;
    }
    AddressPassesExactly(wire, faults);
    if AddressPasses(wire, faults) {
      PassingIsUnaliased(wire, faults);
    }
    if Unaliased(wire) {
      AloneFits(wire, faults, 0);
      forall i | 0 <= i < |Walk(wire)| ensures OthersFit(wire, faults, Walk(wire)[i]) {
        AloneFits(wire, faults, Walk(wire)[i]);
      }
    }
  }

  // All offsets reach the same cell, which is stuck at the pattern as a whole.
  lemma StuckCellHidesAliases(n: nat, faults: seq<Fault>, c: nat) returns (wire: seq<nat>)
    requires 0 < n <= 0x4000_0000 && n % 2 == 0 && c < |faults| && PatternStuck(faults[c])
    ensures |wire| == n && IsMemory(wire, faults) && AddressPasses(wire, faults) && !Unaliased(wire)
  {
    wire := seq(n, _ => c);
    SensesPattern(faults[c]);
    AddressPassesExactly(wire, faults);
    assert BitSet(n - 1, 1);
    assert Walk(wire)[0] == 1 && wire[0] == wire[1];
    assert !Alone(wire, 0);
  }

  // The smallest instance: two words, one cell.
  lemma StuckCellHidesAlias()
    ensures var stuck: Fault := seq(WIDTH, i requires 0 <= i < WIDTH => StuckAt(PATTERN[i]));
            && IsMemory([0, 0], [stuck])
            && AddressPasses([0, 0], [stuck]) && !Unaliased([0, 0])
            && !FaultFree([0, 0], [stuck])
  {
    var stuck: Fault := seq(WIDTH, i requires 0 <= i < WIDTH => StuckAt(PATTERN[i]));
    var wire := StuckCellHidesAliases(2, [stuck], 0);
    assert wire == [0, 0];
    assert wire[0] == wire[1];
  }

  // With an odd number of words no offset is tested at all.
  lemma OddSizeTestsNothing(wire: seq<nat>)
    requires |wire| % 2 == 1
    ensures Walk(wire) == [] && Unaliased(wire)
  {
    assert !BitSet(|wire| - 1, 1);
  }

  // What a passing test says about n words of these cells, however they are
  // wired: that the tested offsets are unaliased, exactly if no cell is stuck
  // at the pattern as a whole, or nothing is tested.
  lemma PassingMeansUnaliasedExactly(n: nat, faults: seq<Fault>)
    requires 0 < n <= 0x4000_0000
    ensures (forall wire | |wire| == n && IsMemory(wire, faults) && AddressPasses(wire, faults) :: Unaliased(wire))
            <==> n % 2 == 1 || forall c | 0 <= c < |faults| :: !PatternStuck(faults[c])
  {
    if n % 2 == 1 {
      forall wire: seq<nat> | |wire| == n ensures Unaliased(wire) {
        OddSizeTestsNothing(wire);
      }
    } else if c :| 0 <= c < |faults| && PatternStuck(faults[c]) {
      var wire := StuckCellHidesAliases(n, faults, c);
    } else {
      forall wire | |wire| == n && IsMemory(wire, faults) && AddressPasses(wire, faults) ensures Unaliased(wire) {
        PassingIsUnaliased(wire, faults);
      }
    }
  }

  ghost predicate CountsUp(v: seq<Word>) {
    forall i | 0 <= i < |v| :: v[i] == ToWord(i + 1)
  }

  // The words wanted and written by the first and the second check.
  ghost predicate PassWords(first: bool, w: seq<Word>, v: seq<Word>) {
    && |w| == |v|
    && (forall i | 0 <= i < |w| :: w[i] == if first then ToWord(i + 1) else Not(ToWord(i + 1)))
    && (forall i | 0 <= i < |v| :: v[i] == if first then Not(ToWord(i + 1)) else ZERO)
  }

  lemma PassWordsAre(n: nat)
    ensures CountsUp(Counting(n)) && PassWords(true, Counting(n), Complements(n))
            && PassWords(false, Complements(n), Zeros(n))
  {
    var w, v, z := Counting(n), Complements(n), Zeros(n);
    forall i | 0 <= i < n ensures w[i] == ToWord(i + 1) && v[i] == Not(ToWord(i + 1)) && z[i] == ZERO {
      CountingAt(n, i, i + 1);
    }
    assert PassWords(true, w, v);
    assert PassWords(false, v, z);
  }

  class Memory {
    const wire: seq<nat>
    const faults: seq<Fault>
    const cells: array<Word>

    ghost predicate Valid() {
      IsMemory(wire, faults) && cells.Length == |faults|
    }

    constructor (wire: seq<nat>, faults: seq<Fault>, cells: array<Word>)
      requires IsMemory(wire, faults) && cells.Length == |faults|
      ensures Valid() && this.wire == wire && this.faults == faults && this.cells == cells
    {
      this.wire, this.faults, this.cells := wire, faults, cells;
    }

    method Read(offset: nat) returns (w: Word)
      requires Valid() && offset < |wire|
      ensures w == Sense(faults[wire[offset]], cells[wire[offset]])
    {
      w := Sense(faults[wire[offset]], cells[wire[offset]]);
    }

    method Write(offset: nat, w: Word)
      requires Valid() && offset < |wire|
      modifies cells
      ensures cells[..] == old(cells[..])[wire[offset] := w]
    {
      cells[wire[offset]] := w;
    }

    // Reads a word back and, if it is as wanted, writes the next one.
    method CheckWord(offset: nat, want: Word, next: Word) returns (same: bool)
      requires Valid() && offset < |wire|
      modifies cells
      ensures same <==> Sense(faults[wire[offset]], old(cells[wire[offset]])) == want
      ensures same ==> cells[..] == old(cells[..])[wire[offset] := next]
    {
      var temp := Read(offset);
      if temp != want {
        return false;
      }
      Write(offset, next);
      return true;
    }

    // One more word of a pass.
    method WriteNext(offset: nat, word: Word, ghost v: seq<Word>, ghost was: seq<Word>)
      requires Valid() && offset < |wire| == |v| && |was| == |faults| && word == v[offset]
      requires cells[..] == Pass(wire, v, offset, was)
      modifies cells
      ensures cells[..] == Pass(wire, v, offset + 1, was)
    {
      Write(offset, word);
    }

    // The first pass: offset i holds i + 1.
    method Fill(ghost v: seq<Word>)
      requires Valid() && |v| == |wire| && CountsUp(v)
      modifies cells
      ensures cells[..] == Pass(wire, v, |wire|, old(cells[..]))
    {
      ghost var was := cells[..];
      var pattern, offset: nat := 1, 0;
      while offset < |wire|
        invariant offset <= |wire| && pattern == offset + 1
        invariant cells[..] == Pass(wire, v, offset, was)
      {
        WriteNext(offset, ToWord(pattern), v, was);
        pattern, offset := pattern + 1, offset + 1;
      }
    }

    // The second pass wants what the first wrote, and leaves the complements.
    method CheckAndInvert(ghost w: seq<Word>, ghost v: seq<Word>) returns (ok: bool)
      requires Valid() && w == Counting(|wire|) && v == Complements(|wire|)
      modifies cells
      ensures ok <==> Reads(wire, faults, old(cells[..]), w, v, |wire|)
      ensures ok ==> cells[..] == Pass(wire, v, |wire|, old(cells[..]))
    {
      PassWordsAre(|wire|);
      ok := CheckPass(true, w, v);
    }

    // The third pass wants the complements, and leaves zeros.
    method CheckAndZero(ghost w: seq<Word>, ghost v: seq<Word>) returns (ok: bool)
      requires Valid() && w == Complements(|wire|) && v == Zeros(|wire|)
      modifies cells
      ensures ok <==> Reads(wire, faults, old(cells[..]), w, v, |wire|)
      ensures ok ==> cells[..] == Pass(wire, v, |wire|, old(cells[..]))
    {
      PassWordsAre(|wire|);
      ok := CheckPass(false, w, v);
    }

    // The word wanted next, and the one written in its place.
    static method PassWord(first: bool, pattern: nat, ghost w: seq<Word>, ghost v: seq<Word>)
      returns (want: Word, next: Word)
      requires PassWords(first, w, v) && 0 < pattern <= |w|
      ensures want == w[pattern - 1] && next == v[pattern - 1]
    {
      var word := ToWord(pattern);
      var anti_pattern := Not(word);
      want, next := if first then word else anti_pattern, if first then anti_pattern else ZERO;
    }

    // One word of a pass: it is as wanted, and the next one is written.
    method CheckNext(offset: nat, want: Word, next: Word, ghost was: seq<Word>, ghost w: seq<Word>, ghost v: seq<Word>)
      returns (same: bool)
      requires Valid() && offset < |w| == |v| == |wire| && |was| == |faults|
      requires want == w[offset] && next == v[offset]
      requires cells[..] == Pass(wire, v, offset, was)
      modifies cells
      ensures same <==> ReadsAt(wire, faults, was, w, v, offset)
      ensures same ==> cells[..] == Pass(wire, v, offset + 1, was)
    {
      ghost var cell := wire[offset];
      assert cells[cell] == cells[..][cell];
      same := CheckWord(offset, want, next);
    }

    // With its words computed: as long as every word was as wanted so far.
    method CheckTurn(first: bool, pattern: nat, offset: nat, ghost was: seq<Word>, ghost w: seq<Word>,
                     ghost v: seq<Word>)
      returns (same: bool)
      requires Valid() && |w| == |v| == |wire| && |was| == |faults| && PassWords(first, w, v)
      requires offset < |wire| && pattern == offset + 1
      requires Reads(wire, faults, was, w, v, offset) && cells[..] == Pass(wire, v, offset, was)
      modifies cells
      ensures same ==> Reads(wire, faults, was, w, v, offset + 1) && cells[..] == Pass(wire, v, offset + 1, was)
      ensures !same ==> !Reads(wire, faults, was, w, v, |wire|)
    {
      var want, next := PassWord(first, pattern, w, v);
      same := CheckNext(offset, want, next, was, w, v);
      if !same {
        WrongWord(wire, faults, was, w, v, offset, |wire|);
      }
    }

    // The loop both passes share: the pattern or its complement is wanted,
    // the complement or zero is written next.
    method CheckPass(first: bool, ghost w: seq<Word>, ghost v: seq<Word>) returns (ok: bool)
      requires Valid() && |w| == |v| == |wire| && PassWords(first, w, v)
      modifies cells
      ensures ok <==> Reads(wire, faults, old(cells[..]), w, v, |wire|)
      ensures ok ==> cells[..] == Pass(wire, v, |wire|, old(cells[..]))
    {
      ghost var was := cells[..];
      var pattern, offset: nat := 1, 0;
      while offset < |wire|
        invariant offset <= |wire| && pattern == offset + 1
        invariant cells[..] == Pass(wire, v, offset, was)
        invariant Reads(wire, faults, was, w, v, offset)
      {
        var same := CheckTurn(first, pattern, offset, was, w, v);
        if !same {
          return false;
        }
        pattern, offset := pattern + 1, offset + 1;
      }
      return true;
    }

    // The three passes report nothing exactly if the memory is free of
    // faults, and then every word reads as zero.
    method DeviceTest() returns (ok: bool)
      requires Valid()
      modifies cells
      ensures ok <==> FaultFree(wire, faults)
      ensures ok ==> forall i | 0 <= i < |wire| :: Sense(faults[wire[i]], cells[wire[i]]) == ZERO
    {
      PassesExactlyIfFaultFree(wire, faults, cells[..]);
      PassWordsAre(|wire|);
      Fill(Counting(|wire|));
      ok := CheckAndInvert(Counting(|wire|), Complements(|wire|));
      if ok {
        ghost var inverted := cells[..];
        ok := CheckAndZero(Complements(|wire|), Zeros(|wire|));
        if ok {
          forall i | 0 <= i < |wire| ensures Sense(faults[wire[i]], cells[wire[i]]) == ZERO {
            FaultFreeReads(wire, faults, inverted, Zeros(|wire|), Zeros(|wire|), i);
          }
        }
      }
    }

    ghost predicate AllPattern()
      requires Valid()
      reads cells
    {
      forall j | 0 <= j < |Walk(wire)| :: cells[wire[Walk(wire)[j]]] == PATTERN
    }

    // One offset against the others: it holds the anti-pattern meanwhile.
    method TestOne(t: nat) returns (ok: bool)
      requires Valid() && t < |wire| && AllPattern()
      modifies cells
      ensures ok <==> OthersSeen(wire, faults, t)
      ensures ok ==> AllPattern()
    {
      Write(t, ANTI_PATTERN);
      ok := CheckOthers(t);
      if ok {
        Write(t, PATTERN);
      }
    }

    // The walking-ones test of the address lines.
    method AddressTest() returns (ok: bool)
      requires Valid()
      modifies cells
      ensures ok <==> AddressPasses(wire, faults)
    {
      FillPowers();
      ok := TestOne(0);
      if !ok {
        return;
      }
      var addr_mask, test_offset := |wire| - 1, 1;
      ghost var ps, k := Walk(wire), 0;
      while BitSet(addr_mask, test_offset)
        invariant test_offset > 0 && k <= |ps| && Powers(addr_mask, test_offset) == ps[k..]
        invariant AllPattern()
        invariant forall i | 0 <= i < k :: OthersSeen(wire, faults, ps[i])
        decreases |ps| - k
      {
        PowersStep(addr_mask, test_offset, ps, k);
        ok := TestOne(test_offset);
        if !ok {
          return;
        }
        test_offset, k := 2 * test_offset, k + 1;
      }
    }

    // Establishes AllPattern, in the order of Walk.
    method FillPowers()
      requires Valid()
      modifies cells
      ensures AllPattern()
    {
      var addr_mask, offset := |wire| - 1, 1;
      ghost var ps, k := Walk(wire), 0;
      while BitSet(addr_mask, offset)
        invariant offset > 0 && k <= |ps| && Powers(addr_mask, offset) == ps[k..]
        invariant forall j | 0 <= j < k :: cells[wire[ps[j]]] == PATTERN
        decreases |ps| - k
      {
        PowersStep(addr_mask, offset, ps, k);
        Write(offset, PATTERN);
        offset, k := 2 * offset, k + 1;
      }
    }

    // With the anti-pattern at t: does every other tested power still read
    // as the pattern?
    method CheckOthers(t: nat) returns (ok: bool)
      requires Valid() && t < |wire|
      requires forall j | 0 <= j < |Walk(wire)| ::
        cells[wire[Walk(wire)[j]]] == if wire[t] == wire[Walk(wire)[j]] then ANTI_PATTERN else PATTERN
      ensures ok <==> OthersSeen(wire, faults, t)
    {
      var addr_mask, offset := |wire| - 1, 1;
      ghost var ps, k := Walk(wire), 0;
      while BitSet(addr_mask, offset)
        invariant offset > 0 && k <= |ps| && Powers(addr_mask, offset) == ps[k..]
        invariant forall j | 0 <= j < k && ps[j] != t :: SeesPattern(wire, faults, t, ps[j])
        decreases |ps| - k
      {
        PowersStep(addr_mask, offset, ps, k);
        var temp := Read(offset);
        if temp != PATTERN && offset != t {
          assert !SeesPattern(wire, faults, t, ps[k]);
          return false;
        }
        offset, k := 2 * offset, k + 1;
      }
      return true;
    }

    // One iteration of mtest: the address lines, then the device. It reports
    // nothing exactly if the memory is free of faults.
    method Mtest() returns (ok: bool)
      requires Valid()
      modifies cells
      ensures ok <==> FaultFree(wire, faults)
      ensures ok ==> forall i | 0 <= i < |wire| :: Sense(faults[wire[i]], cells[wire[i]]) == ZERO
    {
      if FaultFree(wire, faults) {
        HealthyPassesExactly(wire, faults);
      }
      ok := AddressTest();
      if ok {
        ok := DeviceTest();
      }
    }
  }
}
