// The PowerPC assembler and the operand decoding of the disassembler, for any
// opcode and operand tables.
module Bedbug {
  import opened Wrappers
  import opened Arithmetic

  // An instruction, least significant bit first.
  type Word = w: seq<bool> | |w| == 32 witness seq(32, _ => false)

  datatype Kind = Address | Register | Spr | Tbr | Number

  // An operand of `bits` bits at position `shift`; silent ones are part of
  // the opcode.
  datatype Operand = Operand(bits: nat, shift: nat, kind: Kind, silent: bool)

  // fields are the operands in the order in which they are written.
  datatype Opcode = Opcode(name: string, opcode: Word, mask: Word, fields: seq<Operand>, relative: bool)

  function And(a: Word, b: Word): Word {
    seq(32, i requires 0 <= i < 32 => a[i] && b[i])
  }

  function Or(a: Word, b: Word): Word {
    seq(32, i requires 0 <= i < 32 => a[i] || b[i])
  }

  // (value & mask) << shift
  function Shifted(value: seq<bool>, shift: nat): Word
    requires shift + |value| <= 32
  {
    seq(32, i requires 0 <= i < 32 => shift <= i < shift + |value| && value[i - shift])
  }

  // (instr >> shift) & mask
  function Extract(instr: Word, o: Operand): seq<bool>
    requires o.shift + o.bits <= 32
  {
    instr[o.shift..o.shift + o.bits]
  }

  lemma {:induction false} ValueAppend(a: seq<bool>, b: seq<bool>)
    ensures Value(a + b) == Value(a) + Pow2(|a|) * Value(b)
  {
    if a == [] {
      assert a + b == b;
    } else {
      ValueAppend(a[1..], b);
      assert (a + b)[1..] == a[1..] + b;
      DoubleProduct(Value(a[1..] + b), Value(a[1..]), Pow2(|a| - 1), Value(b));
    }
  }

  // What is extracted is the number shifted and masked.
  lemma {:induction false} ExtractIsShiftAndMask(instr: Word, o: Operand)
    requires o.shift + o.bits <= 32
    ensures Value(Extract(instr, o)) == Value(instr) / Pow2(o.shift) % Pow2(o.bits)
  {
    var low, mid, high := instr[..o.shift], Extract(instr, o), instr[o.shift + o.bits..];
    assert instr == low + (mid + high);
    ValueAppend(low, mid + high);
    ValueAppend(mid, high);
    BitsOfValue(low);
    BitsOfValue(mid);
    LowAndHigh(Value(instr), Pow2(o.shift), Value(low), Value(mid + high));
    LowAndHigh(Value(mid + high), Pow2(o.bits), Value(mid), Value(high));
  }

  lemma LowAndHigh(n: nat, p: nat, low: nat, high: nat)
    requires n == low + p * high && low < p
    ensures n / p == high && n % p == low
  {
    assert n == high * p + low;
    DivModUnique(n, p, high, low);
  }

  predicate InField(o: Operand, i: nat) {
    o.shift <= i < o.shift + o.bits
  }

  // At most eight operands, each within the word; a mask is computed for
  // each, so none takes the whole word.
  ghost predicate FieldsFit(op: Opcode) {
    && |op.fields| <= 8
    && forall k | 0 <= k < |op.fields| :: 0 < op.fields[k].bits < 32 && op.fields[k].shift + op.fields[k].bits <= 32
  }

  // A table entry whose operands do not get into each other's way: those that
  // are written are disjoint and clear of the opcode's bits.
  ghost predicate GoodOpcode(op: Opcode) {
    && FieldsFit(op)
    && (forall k, i: nat | 0 <= k < |op.fields| && !op.fields[k].silent && InField(op.fields[k], i) ::
          !op.opcode[i] && !op.mask[i])
    && (forall k, l, i: nat | 0 <= k < l < |op.fields| && !op.fields[k].silent && !op.fields[l].silent
                              && InField(op.fields[k], i) :: !InField(op.fields[l], i))
    && And(op.opcode, op.mask) == op.opcode
  }

  // One of the table: addi, with its two registers and its number.
  lemma {:induction false} AddiIsGood()
    ensures var high: Word := seq(32, i => i >= 26);
            var opcode: Word := seq(32, i => 27 <= i <= 29);
            GoodOpcode(Opcode("addi", opcode, high,
                              [Operand(5, 21, Register, false), Operand(5, 16, Register, false),
                               Operand(16, 0, Number, false)], false))
  {
    var high: Word := seq(32, i => i >= 26);
    var opcode: Word := seq(32, i => 27 <= i <= 29);
    assert And(opcode, high) == opcode;
  }

  // ------------------------------------------------------------------------
  // Branch targets.

  // A 32-bit difference as a signed long.
  function Signed(d: int): (s: int)
    ensures -0x8000_0000 <= s < 0x8000_0000
  {
    var u := d % 0x1_0000_0000;
    if u < 0x8000_0000 then u else u - 0x1_0000_0000
  }

  // The operand bits of a byte distance: shifted right by two, cut, and the
  // sign put on top.
  function DistanceBits(d: int, bits: nat): (v: seq<bool>)
    requires bits > 0
    ensures |v| == bits
  {
    Bits(d / 4, bits - 1) + [d < 0]
  }

  // The distance that an operand stands for, as the disassembler computes it.
  function DistanceOf(v: seq<bool>): int
    requires v != []
  {
    4 * (Value(v) as int - if v[|v| - 1] then Pow2(|v|) else 0)
  }

  lemma {:induction false} ValueSnoc(v: seq<bool>, top: bool)
    ensures Value(v + [top]) == Value(v) + if top then Pow2(|v|) else 0
  {
    if v == [] {
      assert [top][1..] == [];
      assert v + [top] == [top];
    } else {
      ValueSnoc(v[1..], top);
      assert (v + [top])[1..] == v[1..] + [top];
    }
  }

  // A distance survives exactly if it is word-aligned and its quarter fits
  // the operand with its sign.
  lemma {:induction false} DistanceSurvives(d: int, bits: nat)
    requires bits > 0
    ensures DistanceOf(DistanceBits(d, bits)) == d
            <==> d % 4 == 0 && -(Pow2(bits - 1) as int) <= d / 4 < Pow2(bits - 1)
  {
    var low, p, r := Bits(d / 4, bits - 1), Pow2(bits - 1), Rest(d / 4, bits - 1);
    BitsAndRest(d / 4, bits - 1);
    DistanceIs(low, d < 0);
    QuarterSurvives(d / 4, Value(low), p, r);
    assert d == 4 * (d / 4) + d % 4;
  }

  lemma {:induction false} DistanceIs(low: seq<bool>, top: bool)
    ensures DistanceOf(low + [top]) == 4 * (Value(low) - if top then Pow2(|low|) else 0)
  {
    ValueSnoc(low, top);
  }

  // Of x the low part and the sign are kept.
  lemma QuarterSurvives(x: int, low: nat, p: nat, r: int)
    requires low < p && x == low + p * r
    ensures low - (if x < 0 then p else 0) == x <==> -(p as int) <= x < p
  {
    assert p * r == r * p;
    MulStrict(r, 0, p);
    MulStrict(0, r, p);
    MulStrict(r, -1, p);
    MulStrict(-1, r, p);
  }

  // In the field stands the number of words in two's complement.
  lemma {:induction false} DistanceIsTwosComplement(d: int, bits: nat)
    requires bits > 0 && -(Pow2(bits - 1) as int) <= d / 4 < Pow2(bits - 1)
    ensures Value(DistanceBits(d, bits)) == d / 4 + if d < 0 then Pow2(bits) else 0
  {
    var low, p, r := Bits(d / 4, bits - 1), Pow2(bits - 1), Rest(d / 4, bits - 1);
    BitsAndRest(d / 4, bits - 1);
    ValueSnoc(low, d < 0);
    QuarterSurvives(d / 4, Value(low), p, r);
  }

  lemma {:induction false} Pow2Grows(a: nat, b: nat)
    requires a <= b
    ensures Pow2(a) <= Pow2(b)
    decreases b - a
  {
    if a < b {
      Pow2Grows(a + 1, b);
    }
  }

  lemma {:induction false} Pow2Of29(n: nat)
    requires n <= 29
    ensures Pow2(n) <= 0x2000_0000
  {
    Pow2Of28();
    assert Pow2(29) == 0x2000_0000;
    Pow2Grows(n, 29);
  }

  lemma DistanceRange(v: seq<bool>)
    requires 0 < |v| <= 30
    ensures -0x8000_0000 <= DistanceOf(v) < 0x8000_0000
  {
    var n := |v| - 1;
    var low, top := v[..n], v[n];
    assert v == low + [top];
    DistanceIs(low, top);
    BitsOfValue(low);
    Pow2Of29(n);
  }

  // A relative branch is disassembled with the target it was assembled with
  // exactly if the target is a whole number of words away, and near enough.
  lemma BranchTarget(target: nat, memaddr: nat, bits: nat)
    requires target < 0x1_0000_0000 && 0 < bits <= 30
    ensures var d := Signed(target - memaddr);
            (memaddr + DistanceOf(DistanceBits(d, bits))) % 0x1_0000_0000 == target
            <==> d % 4 == 0 && -(Pow2(bits - 1) as int) <= d / 4 < Pow2(bits - 1)
  {
    var d := Signed(target - memaddr);
    var e := DistanceOf(DistanceBits(d, bits));
    DistanceSurvives(d, bits);
    DistanceRange(DistanceBits(d, bits));
    SameDistance(memaddr, target, d, e);
  }

  lemma SameDistance(memaddr: nat, target: nat, d: int, e: int)
    requires target < 0x1_0000_0000 && d == Signed(target - memaddr) && -0x8000_0000 <= e < 0x8000_0000
    ensures (memaddr + e) % 0x1_0000_0000 == target <==> e == d
  {
    var m := 0x1_0000_0000;
    var q := (target - memaddr) / m;
    assert target - memaddr == q * m + (target - memaddr) % m;
    var q2 := (memaddr + e) / m;
    assert memaddr + e == q2 * m + (memaddr + e) % m;
  }

  // ------------------------------------------------------------------------
  // The two halves of a special register's number are swapped in the
  // instruction.

  function SwapHalves(v: int): nat {
    v / 32 % 32 + v % 32 * 32
  }

  lemma SwapIsInvolution(v: int)
    ensures SwapHalves(v) < 1024 && SwapHalves(SwapHalves(v)) == v % 1024
  {
    var lo, q := v % 32, v / 32;
    var hi := q % 32;
    assert v == 1024 * (q / 32) + (32 * hi + lo);
    assert v % 1024 == 32 * hi + lo;
    assert SwapHalves(v) == hi + lo * 32;
    assert SwapHalves(v) / 32 == lo && SwapHalves(v) % 32 == hi;
  }

  // ------------------------------------------------------------------------
  // Operands as text. The readers stand for read_number and the register
  // name tables; an unknown register is 0.

  datatype Readers = Readers(number: string -> int, spr: string -> int, tbr: string -> int)

  function RegisterText(txt: string): string {
    if txt != "" && txt[0] in {'r', 'R'} then txt[1..]
    else if |txt| > 1 && txt[0] == '%' && txt[1] in {'r', 'R'} then txt[2..]
    else txt
  }

  // The low bits of the operand's value; None is an error.
  function ParseOperand(readers: Readers, memaddr: nat, relative: bool, o: Operand, txt: string): (r: Option<seq<bool>>)
    requires o.bits > 0
    ensures r.Some? ==> |r.value| == o.bits
  {
    match o.kind
    case Address =>
      var d := Signed(readers.number(txt) - if relative then memaddr else 0);
      Some(DistanceBits(d, o.bits))
    case Register =>
      var n := readers.number(RegisterText(txt));
      if n > 31 then None else Some(Bits(n, o.bits))
    case Spr =>
      var n := SwapHalves(readers.spr(txt));
      if n == 0 then None else Some(Bits(n, o.bits))
    case Tbr =>
      var n := SwapHalves(readers.tbr(txt));
      if n == 0 then None else Some(Bits(n, o.bits))
    case Number => Some(Bits(readers.number(txt), o.bits))
  }

  // The address that the disassembler shows for an address operand.
  function ShownAddress(memaddr: nat, relative: bool, v: seq<bool>): nat
    requires v != []
  {
    ((if relative then memaddr else 0) + DistanceOf(v)) % 0x1_0000_0000
  }

  // An address operand is shown as it was written exactly if it is a whole
  // number of words away and near enough: from the instruction if the
  // operation is relative, else from 0.
  lemma {:induction false} AddressSurvives(readers: Readers, memaddr: nat, relative: bool, o: Operand, txt: string)
    requires o.kind.Address? && 0 < o.bits <= 30
    ensures var v := ParseOperand(readers, memaddr, relative, o, txt);
            var d := Signed(readers.number(txt) - if relative then memaddr else 0);
            v.Some? &&
            (ShownAddress(memaddr, relative, v.value) == readers.number(txt) % 0x1_0000_0000
             <==> d % 4 == 0 && -(Pow2(o.bits - 1) as int) <= d / 4 < Pow2(o.bits - 1))
  {
    AddressShown(readers.number(txt), memaddr, relative, o.bits);
  }

  lemma {:induction false} AddressShown(n: int, memaddr: nat, relative: bool, bits: nat)
    requires 0 < bits <= 30
    ensures var d := Signed(n - if relative then memaddr else 0);
            ShownAddress(memaddr, relative, DistanceBits(d, bits)) == n % 0x1_0000_0000
            <==> d % 4 == 0 && -(Pow2(bits - 1) as int) <= d / 4 < Pow2(bits - 1)
  {
    var base, target := if relative then memaddr else 0, n % 0x1_0000_0000;
    SameDifference(n, base, target);
    BranchTarget(target, base, bits);
  }

  lemma SameDifference(a: int, b: int, target: nat)
    requires target == a % 0x1_0000_0000
    ensures Signed(target - b) == Signed(a - b)
  {
    var k, q, r := a / 0x1_0000_0000, (target - b) / 0x1_0000_0000, (target - b) % 0x1_0000_0000;
    assert a == k * 0x1_0000_0000 + target;
    assert target - b == q * 0x1_0000_0000 + r;
    RemainderIs(a - b, q + k, r);
  }

  // A number survives exactly if it fits its field.
  lemma {:induction false} NumberSurvives(n: int, bits: nat)
    ensures Value(Bits(n, bits)) == n <==> 0 <= n < Pow2(bits)
  {
    BitsAndRest(n, bits);
    if 0 <= n < Pow2(bits) {
      BitsOfValue(Bits(n, bits));
      BitsInjective(n, Value(Bits(n, bits)), bits);
    }
  }

  // A number is taken as an operand in any case, as it is if it fits.
  lemma {:induction false} NumberOperand(readers: Readers, memaddr: nat, relative: bool, o: Operand, txt: string)
    requires o.kind.Number? && o.bits > 0
    ensures var v, n := ParseOperand(readers, memaddr, relative, o, txt), readers.number(txt);
            v.Some? && (Value(v.value) == n <==> 0 <= n < Pow2(o.bits))
  {
    NumberSurvives(readers.number(txt), o.bits);
  }

  lemma Pow2OfTen()
    ensures Pow2(5) == 32 && Pow2(10) == 1024
  {
    assert Pow2(2) == 4;
    assert Pow2(5) == 32;
    assert Pow2(7) == 128;
  }

  // What a field of five bits holds of a number.
  lemma {:induction false} InFiveBits(n: int)
    ensures Value(Bits(n, 5)) == n % 32
  {
    BitsAndRest(n, 5);
    Pow2OfTen();
    DivModUnique(n, 32, Rest(n, 5), Value(Bits(n, 5)));
  }

  // A register can be written in three ways. It is refused above 31, and what
  // its five bits hold is its number.
  lemma {:induction false} RegisterSurvives(readers: Readers, memaddr: nat, relative: bool, o: Operand, digits: string)
    requires o.kind.Register? && o.bits == 5 && (digits != "" ==> digits[0] !in {'r', 'R', '%'})
    ensures forall txt | txt in {digits, "r" + digits, "R" + digits, "%r" + digits, "%R" + digits} ::
              var v, n := ParseOperand(readers, memaddr, relative, o, txt), readers.number(digits);
              (v.Some? <==> n <= 31) && (v.Some? ==> Value(v.value) == n % 32)
  {
    InFiveBits(readers.number(digits));
    forall txt | txt in {digits, "r" + digits, "R" + digits, "%r" + digits, "%R" + digits}
      ensures RegisterText(txt) == digits
    {
    }
  }

  // A special or time base register is refused if the ten bits of its number
  // are zero, which stands for an unknown one; otherwise the disassembler
  // swaps the halves back and has these ten bits.
  lemma {:induction false} SpecialSurvives(readers: Readers, memaddr: nat, relative: bool, o: Operand, txt: string)
    requires (o.kind.Spr? || o.kind.Tbr?) && o.bits == 10
    ensures var v := ParseOperand(readers, memaddr, relative, o, txt);
            var n := if o.kind.Spr? then readers.spr(txt) else readers.tbr(txt);
            && (v == None <==> n % 1024 == 0)
            && (v.Some? ==> SwapHalves(Value(v.value)) == n % 1024)
  {
    Pow2OfTen();
    HalvesSurvive(if o.kind.Spr? then readers.spr(txt) else readers.tbr(txt), o.bits);
  }

  lemma {:induction false} HalvesSurvive(n: int, bits: nat)
    requires Pow2(bits) == 1024
    ensures SwapHalves(n) == 0 <==> n % 1024 == 0
    ensures SwapHalves(Value(Bits(SwapHalves(n), bits))) == n % 1024
  {
    SwapIsInvolution(n);
    NumberSurvives(SwapHalves(n), bits);
    if SwapHalves(n) == 0 {
      assert SwapHalves(0) == 0;
    } else if n % 1024 == 0 {
      SwapOfZero(n);
    }
  }

  lemma SwapOfZero(n: int)
    requires n % 1024 == 0
    ensures SwapHalves(n) == 0
  {
    assert n == 32 * (32 * (n / 1024));
  }

  datatype Params = Params(values: seq<Option<seq<bool>>>, used: nat) | TooFew | Bad(field: nat)

  // The values of the first n fields, from the words of the input.
  ghost function Operands(readers: Readers, memaddr: nat, op: Opcode, words: seq<string>, n: nat): (r: Params)
    requires n <= |op.fields| && FieldsFit(op)
    ensures r.Params? ==> |r.values| == n && r.used <= |words|
    ensures r.Params? ==>
              forall k | 0 <= k < n :: if op.fields[k].silent then r.values[k].None?
                                       else r.values[k].Some? && |r.values[k].value| == op.fields[k].bits
  {
    if n == 0 then Params([], 0)
    else
      var front := Operands(readers, memaddr, op, words, n - 1);
      var o := op.fields[n - 1];
      if !front.Params? then front
      else if o.silent then Params(front.values + [None], front.used)
      else if front.used == |words| then TooFew
      else
        var v := ParseOperand(readers, memaddr, op.relative, o, words[front.used]);
        if v.None? then Bad(n - 1) else Params(front.values + [v], front.used + 1)
  }

  // How many words the first n fields take.
  function WordsFor(op: Opcode, n: nat): nat
    requires n <= |op.fields|
  {
    if n == 0 then 0 else WordsFor(op, n - 1) + if op.fields[n - 1].silent then 0 else 1
  }

  // The words belong to the fields that are written, in their order.
  lemma {:induction false} WordsInOrder(readers: Readers, memaddr: nat, op: Opcode, words: seq<string>, n: nat, k: nat)
    requires k < n <= |op.fields| && FieldsFit(op) && Operands(readers, memaddr, op, words, n).Params?
    ensures var p := Operands(readers, memaddr, op, words, n);
            p.used == WordsFor(op, n) <= |words|
            && (!op.fields[k].silent ==>
                  WordsFor(op, k) < |words|
                  && p.values[k] == ParseOperand(readers, memaddr, op.relative, op.fields[k], words[WordsFor(op, k)]))
  {
    if k < n - 1 {
      WordsInOrder(readers, memaddr, op, words, n - 1, k);
    } else if n > 1 {
      WordsInOrder(readers, memaddr, op, words, n - 1, 0);
    }
  }

  // Values for the first fields: none for a silent one, else as many bits as
  // the field has.
  predicate Matches(op: Opcode, values: seq<Option<seq<bool>>>) {
    && |values| <= |op.fields|
    && forall k | 0 <= k < |values| ::
         if op.fields[k].silent then values[k].None? else values[k].Some? && |values[k].value| == op.fields[k].bits
  }

  // The opcode with these values put in.
  ghost function Encoded(op: Opcode, values: seq<Option<seq<bool>>>): Word
    requires FieldsFit(op) && Matches(op, values)
  {
    if values == [] then op.opcode
    else
      var n := |values| - 1;
      var w := Encoded(op, values[..n]);
      if values[n].None? then w else Or(w, Shifted(values[n].value, op.fields[n].shift))
  }

  // ------------------------------------------------------------------------
  // What the fields of an assembled instruction hold.

  lemma {:induction false} BitOfEncoded(op: Opcode, values: seq<Option<seq<bool>>>, i: nat)
    requires GoodOpcode(op) && Matches(op, values) && i < 32
    ensures forall k | 0 <= k < |values| && values[k].Some? && InField(op.fields[k], i) ::
              Encoded(op, values)[i] == values[k].value[i - op.fields[k].shift]
    ensures (forall k | 0 <= k < |values| && values[k].Some? :: !InField(op.fields[k], i)) ==>
              Encoded(op, values)[i] == op.opcode[i]
  {
    if values != [] {
      BitOfEncoded(op, values[..|values| - 1], i);
    }
  }

  // Every operand can be read back from the instruction.
  lemma {:induction false} OperandSurvives(op: Opcode, values: seq<Option<seq<bool>>>, k: nat)
    requires GoodOpcode(op) && Matches(op, values) && k < |values| && values[k].Some?
    ensures Extract(Encoded(op, values), op.fields[k]) == values[k].value
  {
    var o, instr := op.fields[k], Encoded(op, values);
    forall j | 0 <= j < o.bits ensures instr[o.shift..o.shift + o.bits][j] == values[k].value[j] {
      BitOfEncoded(op, values, o.shift + j);
    }
  }

  // Under its mask the instruction is the opcode.
  lemma {:induction false} OpcodeSurvives(op: Opcode, values: seq<Option<seq<bool>>>)
    requires GoodOpcode(op) && Matches(op, values)
    ensures And(Encoded(op, values), op.mask) == op.opcode
  {
    var instr := Encoded(op, values);
    forall i | 0 <= i < 32 ensures And(instr, op.mask)[i] == op.opcode[i] {
      BitOfEncoded(op, values, i);
      assert And(op.opcode, op.mask)[i] == op.opcode[i];
    }
  }

  // ------------------------------------------------------------------------
  // The routines.

  method FindOpcodeByName(table: seq<Opcode>, name: string) returns (r: Option<nat>)
    ensures match r
            case None => forall i | 0 <= i < |table| :: table[i].name != name
            case Some(k) => k < |table| && table[k].name == name && forall i | 0 <= i < k :: table[i].name != name
  {
    var idx := 0;
    while idx < |table|
      invariant idx <= |table| && forall i | 0 <= i < idx :: table[i].name != name
    {
      if table[idx].name == name {
        return Some(idx);
      }
      idx := idx + 1;
    }
    return None;
  }

  datatype AsmError = NoError | BadOpcode | NumOperands | BadOperand(field: nat)

  // words[0] is the mnemonic, the others are the operands as written. Words
  // behind the last operand are ignored.
  method Asm(table: seq<Opcode>, readers: Readers, memaddr: nat, words: seq<string>)
    returns (instr: Option<Word>, err: AsmError, ghost entry: nat, ghost values: seq<Option<seq<bool>>>)
    requires forall i | 0 <= i < |table| :: FieldsFit(table[i])
    ensures words == [] ==> instr == None && err == NoError
    ensures words != [] ==> (instr.None? <==> err != NoError)
    ensures words != [] ==> (err == BadOpcode <==> forall i | 0 <= i < |table| :: table[i].name != words[0])
    ensures words != [] && err != BadOpcode ==>
              && entry < |table| && table[entry].name == words[0]
              && match Operands(readers, memaddr, table[entry], words[1..], |table[entry].fields|)
                 case TooFew => err == NumOperands
                 case Bad(k) => err == BadOperand(k)
                 case Params(vs, _) =>
                   && err == NoError && values == vs && Matches(table[entry], values)
                   && instr == Some(Encoded(table[entry], values))
  {
    entry, values := 0, [];
    if words == [] {
      return None, NoError, entry, values;
    }
    var found := FindOpcodeByName(table, words[0]);
    if found == None {
      return None, BadOpcode, entry, values;
    }
    entry := found.value;
    instr, err, values := AsmOperands(table[found.value], readers, memaddr, words[1..]);
  }

  // The state of the assembler after some fields, of which p is what was read.
  ghost predicate Stands(op: Opcode, p: Params, err: AsmError, instr: Word, used: nat, values: seq<Option<seq<bool>>>)
    requires FieldsFit(op)
  {
    match p
    case TooFew => err == NumOperands
    case Bad(k) => err == BadOperand(k)
    case Params(vs, u) =>
      err == NoError && values == vs && used == u && Matches(op, values) && instr == Encoded(op, values)
  }

  method AsmOperands(op: Opcode, readers: Readers, memaddr: nat, words: seq<string>)
    returns (r: Option<Word>, err: AsmError, ghost values: seq<Option<seq<bool>>>)
    requires FieldsFit(op)
    ensures match Operands(readers, memaddr, op, words, |op.fields|)
            case TooFew => r == None && err == NumOperands
            case Bad(k) => r == None && err == BadOperand(k)
            case Params(vs, _) =>
              err == NoError && values == vs && Matches(op, values) && r == Some(Encoded(op, values))
  {
    var instr := op.opcode;
    var n, used: nat := 0, 0;
    values, err := [], NoError;
    while n < |op.fields| && err == NoError
      invariant n <= |op.fields|
      invariant Stands(op, Operands(readers, memaddr, op, words, n), err, instr, used, values)
    {
      err, instr, used, values := AsmOperand(op, readers, memaddr, words, n, used, instr, values);
      n := n + 1;
    }
    if err != NoError {
      ErrorStays(readers, memaddr, op, words, n);
      return None, err, values;
    }
    return Some(instr), NoError, values;
  }

  // One field: skipped if it is silent, else read and put in.
  method AsmOperand(op: Opcode, readers: Readers, memaddr: nat, words: seq<string>, n: nat, used0: nat, instr0: Word,
                    ghost values0: seq<Option<seq<bool>>>)
    returns (err: AsmError, instr: Word, used: nat, ghost values: seq<Option<seq<bool>>>)
    requires FieldsFit(op) && n < |op.fields|
    requires Stands(op, Operands(readers, memaddr, op, words, n), NoError, instr0, used0, values0)
    ensures Stands(op, Operands(readers, memaddr, op, words, n + 1), err, instr, used, values)
  {
    err, instr, used, values := NoError, instr0, used0, values0;
    var o := op.fields[n];
    if o.silent {
      values := values0 + [None];
      EncodedMore(op, values0, None, values, n);
      return;
    }
    if used == |words| {
      err := NumOperands;
      return;
    }
    var param := ParseOperand(readers, memaddr, op.relative, o, words[used]);
    if param == None {
      err := BadOperand(n);
      return;
    }
    values := values0 + [param];
    EncodedMore(op, values0, param, values, n);
    instr := Or(instr0, Shifted(param.value, o.shift));
    used := used0 + 1;
  }

  lemma {:induction false} EncodedMore(op: Opcode, values: seq<Option<seq<bool>>>, v: Option<seq<bool>>,
                                       more: seq<Option<seq<bool>>>,
                    n: nat)
    requires FieldsFit(op) && Matches(op, values) && n == |values| < |op.fields| && more == values + [v]
    requires if op.fields[n].silent then v.None? else v.Some? && |v.value| == op.fields[n].bits
    ensures Matches(op, more)
    ensures Encoded(op, more)
            == if v.None? then Encoded(op, values) else Or(Encoded(op, values), Shifted(v.value, op.fields[n].shift))
  {
    assert more[..n] == values;
  }

  // After an error nothing more is read.
  lemma {:induction false} ErrorStays(readers: Readers, memaddr: nat, op: Opcode, words: seq<string>, n: nat)
    requires n <= |op.fields| && FieldsFit(op) && !Operands(readers, memaddr, op, words, n).Params?
    ensures Operands(readers, memaddr, op, words, |op.fields|) == Operands(readers, memaddr, op, words, n)
    decreases |op.fields| - n
  {
    if n < |op.fields| {
      ErrorStays(readers, memaddr, op, words, n + 1);
    }
  }

  // The value of one operand of an instruction.
  method GetOperandValue(op: Opcode, instr: Word, field: Operand) returns (r: Option<seq<bool>>)
    requires FieldsFit(op)
    ensures r == if field in op.fields then Some(Extract(instr, field)) else None
  {
    var i := 0;
    while i < |op.fields|
      invariant i <= |op.fields| && field !in op.fields[..i]
    {
      if op.fields[i] == field {
        return Some(instr[field.shift..field.shift + field.bits]);
      }
      i := i + 1;
    }
    assert op.fields[..i] == op.fields;
    return None;
  }

  // How the masked instruction compares with an entry of the table.
  function Compare(instr: Word, op: Opcode): int {
    Value(And(instr, op.mask)) - Value(op.opcode)
  }

  // The table is in order for this instruction: it compares above all entries
  // before a matching one and below all entries behind it.
  ghost predicate OrderedFor(table: seq<Opcode>, instr: Word) {
    && (forall i, j | 0 <= i < j < |table| && Compare(instr, table[i]) < 0 :: Compare(instr, table[j]) < 0)
    && (forall i, j | 0 <= i < j < |table| && Compare(instr, table[j]) > 0 :: Compare(instr, table[i]) > 0)
  }

  // So is a table of ascending opcodes under one mask, for every instruction.
  lemma {:induction false} AscendingIsOrdered(table: seq<Opcode>, instr: Word)
    requires forall i, j | 0 <= i < j < |table| ::
               table[i].mask == table[j].mask && Value(table[i].opcode) < Value(table[j].opcode)
    ensures OrderedFor(table, instr)
  {
    forall i, j | 0 <= i < j < |table| ensures Compare(instr, table[j]) < Compare(instr, table[i]) {
    }
  }

  // Binary search.
  method FindOpcode(table: seq<Opcode>, instr: Word) returns (r: Option<nat>)
    ensures r.Some? ==> r.value < |table| && And(instr, table[r.value].mask) == table[r.value].opcode
    ensures OrderedFor(table, instr) && r == None ==>
            forall i | 0 <= i < |table| :: And(instr, table[i].mask) != table[i].opcode
  {
    var top, bottom := 0, |table| - 1;
    while top <= bottom
      invariant 0 <= top <= bottom + 1 <= |table|
      invariant OrderedFor(table, instr) ==> forall i | 0 <= i < top :: Compare(instr, table[i]) > 0
      invariant OrderedFor(table, instr) ==> forall i | bottom < i < |table| :: Compare(instr, table[i]) < 0
      decreases bottom - top
    {
      var idx := (top + bottom) / 2;
      if Compare(instr, table[idx]) < 0 {
        bottom := idx - 1;
      } else if Compare(instr, table[idx]) > 0 {
        top := idx + 1;
      } else {
        SameValue(And(instr, table[idx].mask), table[idx].opcode);
        return Some(idx);
      }
    }
    return None;
  }

  lemma {:induction false} SameValue(a: Word, b: Word)
    requires Value(a) == Value(b)
    ensures a == b
  {
    BitsOfValue(a);
    BitsOfValue(b);
  }

  // The word that field k was written as.
  ghost predicate HoldsWord(readers: Readers, memaddr: nat, op: Opcode, words: seq<string>, instr: Word, k: nat)
    requires FieldsFit(op) && k < |op.fields|
  {
    && WordsFor(op, k) < |words|
    && Some(Extract(instr, op.fields[k]))
       == ParseOperand(readers, memaddr, op.relative, op.fields[k], words[WordsFor(op, k)])
  }

  // What was assembled holds every operand as written, and its own entry is
  // found for it if the table is in order for it and no other entry matches.
  method AsmThenFind(table: seq<Opcode>, readers: Readers, memaddr: nat, words: seq<string>)
    returns (instr: Option<Word>, found: Option<nat>, ghost entry: nat)
    requires forall i | 0 <= i < |table| :: GoodOpcode(table[i])
    ensures instr.Some? ==>
              && words != [] && entry < |table| && FieldsFit(table[entry]) && table[entry].name == words[0]
              && forall k | 0 <= k < |table[entry].fields| && !table[entry].fields[k].silent ::
                   HoldsWord(readers, memaddr, table[entry], words[1..], instr.value, k)
    ensures instr.Some? && OrderedFor(table, instr.value)
            && (forall i | 0 <= i < |table| && i != entry :: And(instr.value, table[i].mask) != table[i].opcode)
            ==> found == Some(entry)
  {
    var err;
    ghost var values;
    instr, err, entry, values := Asm(table, readers, memaddr, words);
    found := None;
    if instr.Some? {
      ghost var op := table[entry];
      OpcodeSurvives(op, values);
      forall k | 0 <= k < |op.fields| && !op.fields[k].silent
        ensures HoldsWord(readers, memaddr, op, words[1..], instr.value, k)
      {
        OperandSurvives(op, values, k);
        WordsInOrder(readers, memaddr, op, words[1..], |op.fields|, k);
      }
      found := FindOpcode(table, instr.value);
    }
  }
}
