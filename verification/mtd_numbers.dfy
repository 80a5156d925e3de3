// Memory sizes as text: simple_strtoul with automatic base, the k/m/g
// suffixes, and the printer that is to be its inverse.
module MtdNumbers {
  import opened Wrappers

  const KB := 0x400
  const MB := 0x10_0000
  const GB := 0x4000_0000

  predicate IsDigit(c: char) {
    '0' <= c <= '9'
  }

  predicate IsHexDigit(c: char) {
    IsDigit(c) || 'a' <= c <= 'f' || 'A' <= c <= 'F'
  }

  function HexValue(c: char): (v: nat)
    requires IsHexDigit(c)
    ensures v < 16
  {
    if IsDigit(c) then c as int - '0' as int
    else if 'a' <= c <= 'f' then c as int - 'a' as int + 10
    else c as int - 'A' as int + 10
  }

  predicate IsDigitOf(c: char, base: nat) {
    IsHexDigit(c) && HexValue(c) < base
  }

  // Accumulates digits modulo 2^32; also returns what follows them.
  function Digits(s: string, base: nat, acc: u32): (u32, string) {
    if s == "" || !IsDigitOf(s[0], base) then (acc, s)
    else Digits(s[1..], base, (acc * base + HexValue(s[0])) % U32)
  }

  // The base announced by a prefix, and the text behind the prefix.
  function BasePrefix(s: string): (nat, string) {
    if s == "" || s[0] != '0' then (10, s)
    else if |s| >= 3 && s[1] == 'x' && IsHexDigit(s[2]) then (16, s[2..])
    else (8, s[1..])
  }

  function Strtoul(s: string): (u32, string) {
    var (base, t) := BasePrefix(s);
    Digits(t, base, 0)
  }

  function Scale(c: char): nat {
    if c == 'G' || c == 'g' then GB
    else if c == 'M' || c == 'm' then MB
    else if c == 'K' || c == 'k' then KB
    else 1
  }

  function MemsizeParse(s: string): (u32, string) {
    var (n, t) := Strtoul(s);
    if t == "" || Scale(t[0]) == 1 then (n, t)
    else (n * Scale(t[0]) % U32, t[1..])
  }

  function DigitChar(d: nat): char
    requires d < 10
  {
    "0123456789"[d]
  }

  function Decimal(n: nat): (s: string)
    ensures s != ""
  {
    if n < 10 then [DigitChar(n)] else Decimal(n / 10) + [DigitChar(n % 10)]
  }

  function MemsizeFormat(size: u32): (s: string)
    ensures s != ""
  {
    if size % GB == 0 then Decimal(size / GB) + "g"
    else if size % MB == 0 then Decimal(size / MB) + "m"
    else if size % KB == 0 then Decimal(size / KB) + "k"
    else Decimal(size)
  }

  // ------------------------------------------------------------------------

  lemma DigitValue(d: nat)
    requires d < 10
    ensures IsDigitOf(DigitChar(d), 10) && HexValue(DigitChar(d)) == d
  {
  }

  lemma {:induction false} DigitStep(d: nat, rest: string, acc: u32)
    requires d < 10 && acc * 10 + d < U32
    ensures Digits([DigitChar(d)] + rest, 10, acc) == Digits(rest, 10, acc * 10 + d)
  {
    var c := DigitChar(d);
    var t := [c] + rest;
    DigitValue(d);
    assert t[0] == c && t[1..] == rest;
  }

  lemma {:induction false} DecimalSplit(n: nat, rest: string)
    requires n >= 10
    ensures Decimal(n) + rest == Decimal(n / 10) + ([DigitChar(n % 10)] + rest)
  {
  }

  lemma {:induction false} DigitsOfDecimal(n: nat, rest: string)
    requires n < U32
    ensures Digits(Decimal(n) + rest, 10, 0) == Digits(rest, 10, n)
  {
    if n < 10 {
      DigitStep(n, rest, 0);
    } else {
      var q, d := n / 10, n % 10;
      var t := [DigitChar(d)] + rest;
      DecimalSplit(n, rest);
      assert Digits(Decimal(q) + t, 10, 0) == Digits(t, 10, q) by {
        DigitsOfDecimal(q, t);
      }
      assert Digits(t, 10, q) == Digits(rest, 10, n) by {
        assert q * 10 + d == n;
        DigitStep(d, rest, q);
      }
    }
  }

  lemma {:induction false} DecimalStart(n: nat)
    ensures Decimal(n)[0] == '0' <==> n == 0
    ensures IsDigit(Decimal(n)[0])
  {
    if n >= 10 {
      DecimalStart(n / 10);
    }
  }

  // What may follow a size: nothing that would continue the number or its
  // suffix.
  predicate EndsNumber(rest: string) {
    rest == "" || (!IsDigit(rest[0]) && Scale(rest[0]) == 1)
  }

  lemma {:induction false} StrtoulOfDecimal(n: nat, rest: string)
    requires n < U32
    requires rest == "" || !IsDigit(rest[0])
    requires n == 0 ==> rest != "" && rest[0] == 'g'
    ensures Strtoul(Decimal(n) + rest) == (n, rest)
  {
    DecimalStart(n);
    var s := Decimal(n) + rest;
    assert s[0] == Decimal(n)[0];
    if n == 0 {
      assert s[1..] == rest && s[1] == 'g';
    } else {
      DigitsOfDecimal(n, rest);
    }
  }

  lemma {:induction false} ScaledRoundTrip(n: nat, unit: char, size: u32, rest: string)
    requires Scale(unit) > 1 && n <= size == n * Scale(unit) && (n == 0 ==> unit == 'g')
    ensures MemsizeParse(Decimal(n) + [unit] + rest) == (size, rest)
  {
    var t := [unit] + rest;
    assert Decimal(n) + [unit] + rest == Decimal(n) + t;
    assert t[0] == unit && t[1..] == rest;
    StrtoulOfDecimal(n, t);
  }

  // Parsing undoes printing, for every 32-bit size.
  lemma MemsizeRoundTrip(size: u32, rest: string)
    requires EndsNumber(rest)
    ensures MemsizeParse(MemsizeFormat(size) + rest) == (size, rest)
  {
    if size % GB == 0 {
      ScaledRoundTrip(size / GB, 'g', size, rest);
    } else if size % MB == 0 {
      ScaledRoundTrip(size / MB, 'm', size, rest);
    } else if size % KB == 0 {
      ScaledRoundTrip(size / KB, 'k', size, rest);
    } else {
      StrtoulOfDecimal(size, rest);
    }
  }

  // Dropping what leaves 32 bits after each shift or at the end is the same.
  lemma ShiftAgain(n: nat, scale: nat)
    ensures n * scale % U32 * KB % U32 == n * (scale * KB) % U32
  {
    var x := n * scale;
    assert x % U32 * KB == x * KB - x / U32 * KB * U32;
    assert x * KB == n * (scale * KB);
    ModDrop(x * KB, x / U32 * KB);
  }

  lemma ModDrop(x: int, q: int)
    ensures (x - q * U32) % U32 == x % U32
  {
  }

  // ------------------------------------------------------------------------
  // The routines themselves, moving an index over the text.

  method SimpleStrtoul(s: string, start: nat) returns (result: u32, cp: nat)
    requires start <= |s|
    ensures start <= cp <= |s| && (result, s[cp..]) == Strtoul(s[start..])
  {
    cp := start;
    result := 0;
    var base: nat := 10;
    if cp < |s| && s[cp] == '0' {
      cp := cp + 1;
      base := 8;
      if cp + 1 < |s| && s[cp] == 'x' && IsHexDigit(s[cp + 1]) {
        base := 16;
        cp := cp + 1;
      }
    }
    assert BasePrefix(s[start..]) == (base, s[cp..]);
    while cp < |s| && IsHexDigit(s[cp]) && HexValue(s[cp]) < base
      invariant start <= cp <= |s| && Digits(s[cp..], base, result) == Strtoul(s[start..])
    {
      result := (result * base + HexValue(s[cp])) % U32;
      cp := cp + 1;
    }
  }

  method ParseMemsize(s: string, start: nat) returns (ret: u32, p: nat)
    requires start <= |s|
    ensures start <= p <= |s| && (ret, s[p..]) == MemsizeParse(s[start..])
  {
    ret, p := SimpleStrtoul(s, start);
    ghost var n := ret;
    ghost var scale := 1;
    if p < |s| {
      var c := s[p];
      // each shift by 10 loses what leaves the 32 bits
      if c == 'G' || c == 'g' {
        ShiftAgain(n, scale);
        ret, scale := ret * KB % U32, scale * KB;
      }
      if c == 'G' || c == 'g' || c == 'M' || c == 'm' {
        ShiftAgain(n, scale);
        ret, scale := ret * KB % U32, scale * KB;
      }
      if c == 'G' || c == 'g' || c == 'M' || c == 'm' || c == 'K' || c == 'k' {
        ShiftAgain(n, scale);
        ret, scale := ret * KB % U32, scale * KB;
        p := p + 1;
      }
      assert scale == Scale(c) && ret == n * scale % U32;
    }
  }
}
