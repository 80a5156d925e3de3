// What any written definition means: numbers in three bases with units, the
// rest of a device by '-', and offsets given or running on.
module MtdWritten {
  import Arithmetic
  import opened Wrappers
  import opened MtdNumbers
  import opened MtdGrammar
  import opened MtdRoundTrip

  // ------------------------------------------------------------------------
  // Numbers.

  // As in C: octal numbers start with 0, hexadecimal ones with 0x.
  datatype Form = Dec | Oct | Hex(upper: bool)

  // A number below 2^32 and its unit.
  datatype Number = Number(value: u32, form: Form, unit: Option<char>)

  function Base(form: Form): nat {
    match form
    case Dec => 10
    case Oct => 8
    case Hex(_) => 16
  }

  function DigitText(d: nat, upper: bool): char
    requires d < 16
  {
    (if upper then "0123456789ABCDEF" else "0123456789abcdef")[d]
  }

  // The number d[0] d[1] ... of base b, most significant digit first.
  function Numeral(n: nat, base: nat, upper: bool): (s: string)
    requires 2 <= base <= 16
    ensures s != ""
    decreases n
  {
    if n < base then [DigitText(n, upper)]
    else
      DivLess(n, base);
      Numeral(n / base, base, upper) + [DigitText(n % base, upper)]
  }

  lemma DivLess(n: nat, d: nat)
    requires d >= 2 && n > 0
    ensures n / d < n
  {
  }

  function NumberText(w: Number): string {
    match w.form
    case Dec => Numeral(w.value, 10, false) + UnitText(w.unit)
    case Oct => "0" + Numeral(w.value, 8, false) + UnitText(w.unit)
    case Hex(upper) => "0x" + Numeral(w.value, 16, upper) + UnitText(w.unit)
  }

  function UnitText(unit: Option<char>): string {
    match unit
    case None => ""
    case Some(c) => [c]
  }

  predicate IsUnit(c: char) {
    c in {'k', 'K', 'm', 'M', 'g', 'G'}
  }

  // What is meant, modulo 2^32.
  function Meaning(w: Number): u32 {
    match w.unit
    case None => w.value
    case Some(c) =>
      if c in {'k', 'K'} then w.value * 1024 % U32
      else if c in {'m', 'M'} then w.value * 1048576 % U32
      else w.value * 1073741824 % U32
  }

  // A decimal number does not start with 0 unless it is 0 with a unit, which
  // then reads as an octal one.
  predicate IsNumber(w: Number) {
    && (w.unit.Some? ==> IsUnit(w.unit.value))
    && (w.form.Dec? ==> w.value > 0)
  }

  // What follows does not go on with the number.
  predicate Stops(w: Number, rest: string) {
    w.unit.Some? || rest == "" || !(IsUnit(rest[0]) || IsHexDigit(rest[0]) || rest[0] == 'x')
  }

  lemma DigitRead(d: nat, base: nat, upper: bool)
    requires d < base <= 16
    ensures IsDigitOf(DigitText(d, upper), base) && HexValue(DigitText(d, upper)) == d
  {
  }

  lemma {:induction false} OneDigitMore(d: nat, base: nat, upper: bool, rest: string, acc: u32, next: u32)
    requires d < base <= 16 && next == acc * base + d
    ensures Digits([DigitText(d, upper)] + rest, base, acc) == Digits(rest, base, next)
  {
    var c := DigitText(d, upper);
    var t := [c] + rest;
    DigitRead(d, base, upper);
    assert t[0] == c && t[1..] == rest;
    assert (acc * base + HexValue(c)) % U32 == next;
  }

  lemma DivMod(n: nat, base: nat)
    requires base >= 2
    ensures n / base * base + n % base == n && n / base <= n
  {
  }

  lemma {:induction false} NumeralIsRead(n: nat, base: nat, upper: bool, rest: string)
    requires 2 <= base <= 16 && n < U32
    ensures Digits(Numeral(n, base, upper) + rest, base, 0) == Digits(rest, base, n)
    decreases n
  {
    if n < base {
      OneDigitMore(n, base, upper, rest, 0, n);
    } else {
      var q, d := n / base, n % base;
      var t := [DigitText(d, upper)] + rest;
      DivLess(n, base);
      DivMod(n, base);
      assert Numeral(n, base, upper) + rest == Numeral(q, base, upper) + t;
      NumeralIsRead(q, base, upper, t);
      OneDigitMore(d, base, upper, rest, q, n);
    }
  }

  lemma {:induction false} NumeralStart(n: nat, base: nat, upper: bool)
    requires 2 <= base <= 16
    ensures IsHexDigit(Numeral(n, base, upper)[0])
    ensures base <= 10 ==> IsDigit(Numeral(n, base, upper)[0])
    ensures n > 0 ==> Numeral(n, base, upper)[0] != '0'
    decreases n
  {
    if n >= base {
      DivLess(n, base);
      NumeralStart(n / base, base, upper);
      DivPositive(n, base);
    }
  }

  lemma DivPositive(n: nat, d: nat)
    requires d >= 2 && n >= d
    ensures n / d > 0
  {
  }

  lemma {:induction false} BaseIsRead(prefix: string, base: nat, digits: string, s: string)
    requires digits != "" && IsHexDigit(digits[0]) && s == prefix + digits
    requires (prefix == "" && base == 10 && digits[0] != '0')
             || (prefix == "0" && base == 8 && (|digits| > 1 ==> digits[0] != 'x'))
             || (prefix == "0x" && base == 16)
    ensures BasePrefix(s) == (base, digits)
  {
    assert s[|prefix|..] == digits;
    assert prefix == "0x" ==> s[0] == '0' && s[1] == 'x' && s[2] == digits[0];
    assert prefix == "0" ==> s[0] == '0' && s[1] == digits[0];
    assert prefix == "" ==> s[0] == digits[0];
  }

  function Prefix(form: Form): string {
    match form
    case Dec => ""
    case Oct => "0"
    case Hex(_) => "0x"
  }

  // The number without its unit.
  lemma {:induction false} DigitsAreRead(form: Form, value: u32, rest: string)
    requires form.Dec? ==> value > 0
    requires rest == "" || !(IsHexDigit(rest[0]) || rest[0] == 'x')
    ensures Strtoul(NumberText(Number(value, form, None)) + rest) == (value, rest)
  {
    var s := NumberText(Number(value, form, None)) + rest;
    var upper := form.Hex? && form.upper;
    var digits := Numeral(value, Base(form), upper) + rest;
    assert s == Prefix(form) + digits;
    NumeralStart(value, Base(form), upper);
    assert digits[0] == Numeral(value, Base(form), upper)[0];
    BaseIsRead(Prefix(form), Base(form), digits, s);
    NumeralIsRead(value, Base(form), upper, rest);
  }

  lemma {:induction false} UnitIsRead(s: string, n: u32, c: char, rest: string, t: string)
    requires Strtoul(s) == (n, t) && t == [c] + rest && IsUnit(c)
    ensures MemsizeParse(s) == (Meaning(Number(n, Dec, Some(c))), rest)
  {
    assert t[0] == c && t[1..] == rest;
  }

  lemma {:induction false} NoUnitIsRead(s: string, n: u32, rest: string)
    requires Strtoul(s) == (n, rest) && (rest == "" || !IsUnit(rest[0]))
    ensures MemsizeParse(s) == (n, rest)
  {
  }

  lemma UnitBehind(prefix: string, digits: string, unit: string, rest: string)
    ensures prefix + digits + unit + rest == prefix + digits + "" + (unit + rest)
    ensures digits + unit + rest == digits + "" + (unit + rest)
  {
  }

  lemma {:induction false} NumberSplits(w: Number, rest: string)
    ensures NumberText(w) + rest == NumberText(Number(w.value, w.form, None)) + (UnitText(w.unit) + rest)
  {
    var upper := w.form.Hex? && w.form.upper;
    UnitBehind(Prefix(w.form), Numeral(w.value, Base(w.form), upper), UnitText(w.unit), rest);
  }

  // A number is read as it was meant, in every base and with every unit.
  lemma {:induction false} NumberIsRead(w: Number, rest: string)
    requires IsNumber(w) && Stops(w, rest)
    ensures MemsizeParse(NumberText(w) + rest) == (Meaning(w), rest)
  {
    var s, t := NumberText(w) + rest, UnitText(w.unit) + rest;
    NumberSplits(w, rest);
    match w.unit
    case None =>
      assert t == rest;
      DigitsAreRead(w.form, w.value, t);
      NoUnitIsRead(s, w.value, rest);
    case Some(c) =>
      assert t[0] == c;
      DigitsAreRead(w.form, w.value, t);
      UnitIsRead(s, w.value, c, rest, t);
  }

  // ------------------------------------------------------------------------
  // Definitions. No size means '-', the rest of the device.

  datatype Definition = Definition(size: Option<Number>, offset: Option<Number>, name: Option<string>, ro: bool)

  function SizeText(size: Option<Number>): string {
    match size
    case None => "-"
    case Some(w) => NumberText(w)
  }

  function AtText(offset: Option<Number>): string {
    match offset
    case None => ""
    case Some(w) => "@" + NumberText(w)
  }

  function DefinitionText(d: Definition): string {
    SizeText(d.size) + AtText(d.offset) + PrintName(d.name) + RoText(d.ro)
  }

  predicate IsDefinition(d: Definition) {
    && (d.size.Some? ==> IsNumber(d.size.value)) && (d.offset.Some? ==> IsNumber(d.offset.value))
    && NameOk(d.name)
  }

  // The size that is written: 2^32 - 1 reads as the rest of the device, too.
  function SizeMeant(d: Definition): u32 {
    match d.size
    case None => 0xFFFF_FFFF
    case Some(w) => Meaning(w)
  }

  // 2^32 - 1 reads as no offset.
  function OffsetMeant(d: Definition): u32 {
    match d.offset
    case None => 0xFFFF_FFFF
    case Some(w) => Meaning(w)
  }

  // '-' can be the last definition only, and other sizes have a least value.
  predicate IsAccepted(d: Definition, rest: string) {
    && (d.size.None? || Meaning(d.size.value) >= 4096)
    && (rest == "" || rest[0] == ';' || (rest[0] == ',' && SizeMeant(d) != 0xFFFF_FFFF))
  }

  lemma SizeIsRead(size: Option<Number>, rest: string)
    requires size.Some? ==> IsNumber(size.value) && Stops(size.value, rest)
    ensures ParseSize(SizeText(size) + rest) ==
            match size
            case None => Some((0xFFFF_FFFF, rest))
            case Some(w) => if Meaning(w) < 4096 then None else Some((Meaning(w), rest))
  {
    var s := SizeText(size) + rest;
    match size
    case None => assert s[0] == '-' && s[1..] == rest;
    case Some(w) =>
      NumberStart(w);
      assert s[0] == NumberText(w)[0];
      NumberIsRead(w, rest);
  }

  lemma NumberStart(w: Number)
    ensures IsDigit(NumberText(w)[0])
  {
    if w.form.Dec? {
      NumeralStart(w.value, 10, false);
    }
  }

  lemma OffsetIsRead(offset: Option<Number>, rest: string)
    requires if offset.Some? then IsNumber(offset.value) && Stops(offset.value, rest) else rest == "" || rest[0] != '@'
    ensures ParseOffset(AtText(offset) + rest) ==
            (if offset.None? then 0xFFFF_FFFF else Meaning(offset.value), rest)
  {
    match offset
    case None => assert "" + rest == rest;
    case Some(w) =>
      var s := "@" + NumberText(w) + rest;
      assert s[1..] == NumberText(w) + rest;
      NumberIsRead(w, rest);
  }

  // Every definition is read as it is meant.
  lemma {:induction false} DefinitionIsRead(d: Definition, rest: string)
    requires IsDefinition(d) && EndsPart(rest)
    ensures PartParse(DefinitionText(d) + rest) ==
            if !IsAccepted(d, rest) then None
            else Some((Part(SizeMeant(d), OffsetMeant(d), d.name, d.ro),
                       if rest != "" && rest[0] == ',' then rest[1..] else rest))
  {
    var t3 := RoText(d.ro) + rest;
    var t2 := PrintName(d.name) + t3;
    var t1 := AtText(d.offset) + t2;
    JoinFromRight(SizeText(d.size), AtText(d.offset), PrintName(d.name), RoText(d.ro), rest);
    OptionsStart(d, rest, t1, t2, t3);
    SizeIsRead(d.size, t1);
    OffsetIsRead(d.offset, t2);
    ParseNameText(d.name, t3);
    ParseRoText(d.ro, rest);
  }

  // What can stand behind a size, an offset, and a name.
  lemma OptionsStart(d: Definition, rest: string, t1: string, t2: string, t3: string)
    requires EndsPart(rest) && t3 == RoText(d.ro) + rest && t2 == PrintName(d.name) + t3 && t1 == AtText(d.offset) + t2
    ensures t3 == "" || t3[0] in {'r', ',', ';'}
    ensures t2 == "" || t2[0] in {'(', 'r', ',', ';'}
    ensures t1 == "" || t1[0] in {'@', '(', 'r', ',', ';'}
    ensures (d.size.Some? ==> Stops(d.size.value, t1)) && (d.offset.Some? ==> Stops(d.offset.value, t2))
  {
  }

  // ------------------------------------------------------------------------
  // Where a definition puts its partition.

  // The area from `at` on, or from the offset that is given.
  function Start(d: Definition, at: u32): u32 {
    if OffsetMeant(d) == 0xFFFF_FFFF then at else OffsetMeant(d)
  }

  // It lies in the chip, is not empty, and fits its sectors.
  predicate AreaFits(id: MtdId, start: u32, size: int) {
    0 < size && start + size <= id.size && Aligned(id.chip, id.size, start, size)
  }

  // What a definition makes of the device from `at` on.
  function Placed(id: MtdId, d: Definition, at: u32): Option<Part> {
    var start := Start(d, at);
    if SizeMeant(d) == 0xFFFF_FFFF then
      if start < id.size && AreaFits(id, start, id.size - start) then Some(Part(id.size - start, start, d.name, d.ro))
      else None
    else if AreaFits(id, start, SizeMeant(d)) then Some(Part(SizeMeant(d), start, d.name, d.ro))
    else None
  }

  // What the parser checks is that area.
  lemma SizeIsValidated(id: MtdId, p: Part)
    requires p.size != 0xFFFF_FFFF
    ensures PartValidate(id, p) == if AreaFits(id, p.offset, p.size) then Some(p) else None
  {
  }

  lemma RestIsValidated(id: MtdId, p: Part, start: u32)
    requires p.size == 0xFFFF_FFFF
    ensures PartValidate(id, p.(offset := start)) ==
            if start < id.size && AreaFits(id, start, id.size - start) then
              Some(Part(id.size - start, start, p.name, p.ro))
            else None
  {
    SizeLeft(id.size, start);
    if start < id.size {
      assert Add32(start, id.size - start) == id.size;
    }
  }

  lemma SizeLeft(size: u32, start: u32)
    ensures (size - start) % U32 == if start <= size then size - start else size - start + U32
  {
  }

  lemma PlacedIsValidated(id: MtdId, d: Definition, at: u32, p: Part)
    requires p.size == SizeMeant(d) && p.name == d.name && p.ro == d.ro
    ensures PartValidate(id, p.(offset := Start(d, at))) == Placed(id, d, at)
  {
    if p.size == 0xFFFF_FFFF {
      RestIsValidated(id, p, Start(d, at));
    } else {
      SizeIsValidated(id, p.(offset := Start(d, at)));
    }
  }

  function DefinitionsText(defs: seq<Definition>): string
    requires defs != []
  {
    if |defs| == 1 then DefinitionText(defs[0]) else DefinitionText(defs[0]) + "," + DefinitionsText(defs[1..])
  }

  // One behind the other; each starts where the one before ends, unless it
  // says otherwise.
  function PlacedAll(id: MtdId, defs: seq<Definition>, at: u32): Option<seq<Part>> {
    if defs == [] then Some([])
    else if !IsAccepted(defs[0], if |defs| == 1 then "" else ",") then None
    else
      var p :- Placed(id, defs[0], at);
      var others :- PlacedAll(id, defs[1..], p.offset + p.size);
      Some([p] + others)
  }

  lemma {:induction false} DefinitionStarts(d: Definition, rest: string)
    ensures var s := DefinitionText(d) + rest; s != "" && s[0] != ';'
  {
    if d.size.Some? {
      NumberStart(d.size.value);
      assert DefinitionText(d)[0] == NumberText(d.size.value)[0];
    }
  }

  // The text behind a definition and its comma.
  function Behind(rest: string): string {
    if rest != "" && rest[0] == ',' then rest[1..] else rest
  }

  // The text s starts with the definition, and rest follows it.
  ghost predicate StartsWith(s: string, d: Definition, rest: string) {
    && s != "" && s[0] != ';'
    && PartParse(s) ==
       if IsAccepted(d, rest) then Some((AsPart(d), Behind(rest))) else None
  }

  lemma {:induction false} DefinitionIsThere(d: Definition, rest: string)
    requires IsDefinition(d) && EndsPart(rest)
    ensures StartsWith(DefinitionText(d) + rest, d, rest)
  {
    DefinitionStarts(d, rest);
    DefinitionIsRead(d, rest);
  }

  // One step of the parser, for a partition that was read, and then checked.
  lemma {:induction false} StepTaken(id: MtdId, s: string, at: u32, acc: seq<Part>, p: Part, more: string, q: Part)
    requires s != "" && s[0] != ';' && PartParse(s) == Some((p, more))
    requires PartValidate(id, p.(offset := if p.offset == 0xFFFF_FFFF then at else p.offset)) == Some(q)
    ensures ParseParts(id, s, at, acc) == ParseParts(id, more, Add32(q.offset, q.size), acc + [q])
  {
  }

  lemma {:induction false} StepRefused(id: MtdId, s: string, at: u32, acc: seq<Part>, p: Part, more: string)
    requires s != "" && s[0] != ';' && PartParse(s) in {None, Some((p, more))}
    requires PartParse(s) == None ||
             PartValidate(id, p.(offset := if p.offset == 0xFFFF_FFFF then at else p.offset)) == None
    ensures ParseParts(id, s, at, acc) == None
  {
  }

  function AsPart(d: Definition): Part {
    Part(SizeMeant(d), OffsetMeant(d), d.name, d.ro)
  }

  // One definition of a list, and what it makes.
  lemma {:induction false} DefinitionTaken(id: MtdId, s: string, d: Definition, at: u32, acc: seq<Part>, rest: string,
                                           p: Part, next: u32)
    requires StartsWith(s, d, rest) && IsAccepted(d, rest) && Placed(id, d, at) == Some(p) && next == p.offset + p.size
    ensures ParseParts(id, s, at, acc) == ParseParts(id, Behind(rest), next, acc + [p])
  {
    PlacedIsValidated(id, d, at, AsPart(d));
    PlacedEnds(id, d, at);
    StepTaken(id, s, at, acc, AsPart(d), Behind(rest), p);
  }

  lemma {:induction false} DefinitionRefused(id: MtdId, s: string, d: Definition, at: u32, acc: seq<Part>, rest: string)
    requires StartsWith(s, d, rest) && (!IsAccepted(d, rest) || Placed(id, d, at).None?)
    ensures ParseParts(id, s, at, acc) == None
  {
    PlacedIsValidated(id, d, at, AsPart(d));
    StepRefused(id, s, at, acc, AsPart(d), Behind(rest));
  }

  lemma PlacedEnds(id: MtdId, d: Definition, at: u32)
    requires Placed(id, d, at).Some?
    ensures var p := Placed(id, d, at).value;
            p.offset + p.size <= id.size && Add32(p.offset, p.size) == p.offset + p.size
  {
  }

  lemma TextOfSeveral(a: string, b: string, rest: string)
    ensures a + "," + b + rest == a + ("," + (b + rest)) && ("," + (b + rest))[1..] == b + rest
  {
  }

  lemma Accepts(d: Definition, rest: string)
    ensures rest == "" || rest[0] == ';' ==> IsAccepted(d, rest) == IsAccepted(d, "")
    ensures rest != "" && rest[0] == ',' ==> IsAccepted(d, rest) == IsAccepted(d, ",")
  {
  }

  // What the parser returns, as against what is meant.
  predicate SameParts(r: Option<(seq<Part>, string)>, meant: Option<seq<Part>>, acc: seq<Part>, rest: string) {
    if meant.None? then r == None else r == Some((acc + meant.value, rest))
  }

  function InFront(p: Part, parts: Option<seq<Part>>): Option<seq<Part>> {
    if parts.None? then None else Some([p] + parts.value)
  }

  lemma OneInFront(r: Option<(seq<Part>, string)>, meant: Option<seq<Part>>, p: Part, acc: seq<Part>, rest: string)
    requires SameParts(r, meant, acc + [p], rest)
    ensures SameParts(r, InFront(p, meant), acc, rest)
  {
    if meant.Some? {
      assert acc + [p] + meant.value == acc + ([p] + meant.value);
    }
  }

  // What the parser returns for these definitions.
  ghost predicate AreRead(id: MtdId, defs: seq<Definition>, s: string, at: u32, acc: seq<Part>, rest: string) {
    SameParts(ParseParts(id, s, at, acc), PlacedAll(id, defs, at), acc, rest)
  }

  lemma {:induction false} PlacedOne(id: MtdId, d: Definition, at: u32)
    ensures PlacedAll(id, [d], at) ==
            if !IsAccepted(d, "") || Placed(id, d, at).None? then None else Some([Placed(id, d, at).value])
  {
    assert [d][1..] == [];
    if Placed(id, d, at).Some? {
      var p := Placed(id, d, at).value;
      PlacedEnds(id, d, at);
      assert PlacedAll(id, [], p.offset + p.size) == Some([]);
      assert [p] + [] == [p];
    }
  }

  lemma {:induction false} LastIsRead(id: MtdId, s: string, d: Definition, at: u32, acc: seq<Part>, rest: string)
    requires StartsWith(s, d, rest) && (rest == "" || rest[0] == ';')
    ensures AreRead(id, [d], s, at, acc, rest)
  {
    Accepts(d, rest);
    PlacedOne(id, d, at);
    if IsAccepted(d, rest) && Placed(id, d, at).Some? {
      var p := Placed(id, d, at).value;
      PlacedEnds(id, d, at);
      DefinitionTaken(id, s, d, at, acc, rest, p, p.offset + p.size);
      LastPart(id, rest, p.offset + p.size, acc + [p]);
    } else {
      DefinitionRefused(id, s, d, at, acc, rest);
    }
  }

  lemma {:induction false} PlacedMore(id: MtdId, d: Definition, others: seq<Definition>, at: u32)
    requires others != []
    ensures PlacedAll(id, [d] + others, at) ==
            if !IsAccepted(d, ",") || Placed(id, d, at).None? then None
            else
              var p := Placed(id, d, at).value;
              InFront(p, PlacedAll(id, others, p.offset + p.size))
  {
    assert ([d] + others)[1..] == others;
  }

  lemma {:induction false} FirstFails(id: MtdId, s: string, d: Definition, others: seq<Definition>, tail: string,
                                      at: u32, acc: seq<Part>, rest: string)
    requires StartsWith(s, d, tail) && tail != "" && tail[0] == ',' && others != []
    requires !IsAccepted(d, ",") || Placed(id, d, at).None?
    ensures AreRead(id, [d] + others, s, at, acc, rest)
  {
    Accepts(d, tail);
    DefinitionRefused(id, s, d, at, acc, tail);
    PlacedMore(id, d, others, at);
  }

  // In front of others, of which the parser returns r.
  lemma {:induction false} FirstIsRead(id: MtdId, r: Option<(seq<Part>, string)>, d: Definition,
                                       others: seq<Definition>, at: u32, acc: seq<Part>, rest: string, p: Part,
                                       next: u32)
    requires others != [] && IsAccepted(d, ",") && Placed(id, d, at) == Some(p) && next == p.offset + p.size
    requires SameParts(r, PlacedAll(id, others, next), acc + [p], rest)
    ensures SameParts(r, PlacedAll(id, [d] + others, at), acc, rest)
  {
    PlacedMore(id, d, others, at);
    OneInFront(r, PlacedAll(id, others, next), p, acc, rest);
  }

  lemma {:induction false} TextOfDefinitions(d: Definition, others: seq<Definition>, rest: string)
    ensures DefinitionsText([d]) + rest == DefinitionText(d) + rest
    ensures others != [] ==>
              DefinitionsText([d] + others) + rest == DefinitionText(d) + ("," + (DefinitionsText(others) + rest))
  {
    if others != [] {
      assert ([d] + others)[1..] == others;
      TextOfSeveral(DefinitionText(d), DefinitionsText(others), rest);
    }
  }

  // The definitions of a device give exactly the partitions that are meant, or
  // an error if one does not fit.
  lemma {:induction false} DefinitionsAreRead(id: MtdId, defs: seq<Definition>, s: string, at: u32, acc: seq<Part>,
                                              rest: string)
    requires defs != [] && (forall d | d in defs :: IsDefinition(d)) && (rest == "" || rest[0] == ';')
    requires s == DefinitionsText(defs) + rest
    ensures AreRead(id, defs, s, at, acc, rest)
    decreases |defs|
  {
    var d, others := defs[0], defs[1..];
    assert d in defs;
    TextOfDefinitions(d, others, rest);
    if others == [] {
      assert defs == [d];
      DefinitionIsThere(d, rest);
      LastIsRead(id, s, d, at, acc, rest);
    } else {
      var more := DefinitionsText(others) + rest;
      assert defs == [d] + others;
      DefinitionIsThere(d, "," + more);
      if IsAccepted(d, ",") && Placed(id, d, at).Some? {
        var p := Placed(id, d, at).value;
        PlacedEnds(id, d, at);
        var next, acc' := p.offset + p.size, acc + [p];
        DefinitionsAreRead(id, others, more, next, acc', rest);
        Accepts(d, "," + more);
        assert Behind("," + more) == more;
        DefinitionTaken(id, s, d, at, acc, "," + more, p, next);
        FirstIsRead(id, ParseParts(id, more, next, acc'), d, others, at, acc, rest, p, next);
      } else {
        FirstFails(id, s, d, others, "," + more, at, acc, rest);
      }
    }
  }

  // ------------------------------------------------------------------------
  // The rest of the device.

  // Whatever text starts with '-': its options decide whether it is read, and
  // then it is the last definition, the area up to the end of the chip, or an
  // error if that does not pass the check.
  lemma {:induction false} RestOfDevice(id: MtdId, s: string, at: u32, acc: seq<Part>)
    requires s != "" && s[0] == '-'
    ensures ParseParts(id, s, at, acc) ==
            if PartParse(s).None? then None
            else
              var (p, rest) := PartParse(s).value;
              var start := if p.offset == 0xFFFF_FFFF then at else p.offset;
              if start < id.size && AreaFits(id, start, id.size - start) then
                Some((acc + [Part(id.size - start, start, p.name, p.ro)], rest))
              else None
  {
    if PartParse(s).Some? {
      var (p, rest) := PartParse(s).value;
      var start := if p.offset == 0xFFFF_FFFF then at else p.offset;
      RestIsValidated(id, p, start);
      if start < id.size && AreaFits(id, start, id.size - start) {
        LastPart(id, rest, id.size, acc + [Part(id.size - start, start, p.name, p.ro)]);
      }
    }
  }

  // Behind other definitions: if the list is accepted, its last partition ends
  // where the chip ends.
  lemma {:induction false} RestBehind(id: MtdId, defs: seq<Definition>, at: u32)
    requires defs != [] && defs[|defs| - 1].size.None? && PlacedAll(id, defs, at).Some?
    ensures var parts := PlacedAll(id, defs, at).value;
            |parts| == |defs| && parts[|parts| - 1].offset + parts[|parts| - 1].size == id.size
    decreases |defs|
  {
    var p := Placed(id, defs[0], at).value;
    if |defs| > 1 {
      RestBehind(id, defs[1..], p.offset + p.size);
    }
  }

  lemma {:induction false} Text256k()
    ensures NumberText(Number(256, Dec, Some('k'))) == "256k" && Meaning(Number(256, Dec, Some('k'))) == 0x4_0000
  {
    assert Numeral(2, 10, false) == "2";
    assert Numeral(25, 10, false) == "25";
    assert Numeral(256, 10, false) == "256";
  }

  // A definition list as users write it: 256 KiB, and the rest of 4 MiB.
  lemma {:induction false} RestOf4MiB(id: MtdId, d: Definition, e: Definition)
    requires id.chip == Nand(4096) && id.size == 0x40_0000
    requires d == Definition(Some(Number(256, Dec, Some('k'))), None, None, false)
    requires e == Definition(None, None, None, false)
    ensures DefinitionsText([d, e]) == "256k,-"
    ensures ParseParts(id, "256k,-", 0, []) ==
            Some(([Part(0x4_0000, 0, None, false), Part(0x3C_0000, 0x4_0000, None, false)], ""))
  {
    TextOf4MiB(d, e);
    var s := DefinitionsText([d, e]);
    assert s + "" == s;
    DefinitionsAreRead(id, [d, e], s, 0, [], "");
    PlacedOf4MiB(id, d, e);
    assert forall parts: seq<Part> :: [] + parts == parts;
  }

  lemma {:induction false} TextOf4MiB(d: Definition, e: Definition)
    requires d == Definition(Some(Number(256, Dec, Some('k'))), None, None, false)
    requires e == Definition(None, None, None, false)
    ensures DefinitionsText([d, e]) == "256k,-"
  {
    Text256k();
    assert [d, e][1..] == [e];
    assert DefinitionText(d) == "256k";
    assert DefinitionText(e) == "-";
  }

  lemma {:induction false} PlacedOf4MiB(id: MtdId, d: Definition, e: Definition)
    requires id.chip == Nand(4096) && id.size == 0x40_0000
    requires d == Definition(Some(Number(256, Dec, Some('k'))), None, None, false)
    requires e == Definition(None, None, None, false)
    ensures PlacedAll(id, [d, e], 0) == Some([Part(0x4_0000, 0, None, false), Part(0x3C_0000, 0x4_0000, None, false)])
  {
    Text256k();
    var p, q := Part(0x4_0000, 0, None, false), Part(0x3C_0000, 0x4_0000, None, false);
    assert [d, e] == [d] + [e] && [p, q] == [p] + [q];
    assert Placed(id, d, 0) == Some(p) && IsAccepted(d, ",");
    assert Placed(id, e, 0x4_0000) == Some(q);
    PlacedOne(id, e, 0x4_0000);
    PlacedMore(id, d, [e], 0);
  }

  // The check itself: whole erase blocks, or from the start of a sector up to
  // the start of another one or the end of the chip.
  lemma AlignedExactly(chip: Chip, chipSize: u32, start: u32, size: u32)
    requires start + size < U32
    ensures chip.Nand? ==>
              (Aligned(chip, chipSize, start, size) <==>
               chip.erasesize > 0 && IsMultiple(start, chip.erasesize) && IsMultiple(size, chip.erasesize))
    ensures chip.Nor? ==>
              (Aligned(chip, chipSize, start, size) <==>
               && (exists i | 0 <= i < |chip.sectors| :: chip.sectors[i] == start)
               && ((exists i | 0 <= i < |chip.sectors| :: chip.sectors[i] == start + size) || start + size == chipSize))
  {
    if chip.Nand? && chip.erasesize > 0 {
      MultipleIsRemainder(start, chip.erasesize);
      MultipleIsRemainder(size, chip.erasesize);
    }
  }

  ghost predicate IsMultiple(n: nat, d: nat) {
    exists k: nat :: n == Times(k, d)
  }

  function Times(k: nat, d: nat): nat {
    k * d
  }

  lemma MultipleIsRemainder(n: nat, d: nat)
    requires d > 0
    ensures n % d == 0 <==> IsMultiple(n, d)
  {
    if n % d == 0 {
      assert n == Times(n / d, d);
    }
    if IsMultiple(n, d) {
      var k: nat :| n == Times(k, d);
      Arithmetic.DivModUnique(n, d, k, 0);
    }
  }
}
