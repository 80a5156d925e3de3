// Character level of the Kermit protocol: printable numbers, block check
// type 1, and control-character quoting.
module KermitCodec {
  import opened Wrappers

  const START_CHAR: Byte := 0x01
  const ETX_CHAR: Byte := 0x03
  const END_CHAR: Byte := 0x0D
  const K_ESCAPE: Byte := 0x23
  const SEND_TYPE: Byte := 0x53   // 'S'
  const DATA_TYPE: Byte := 0x44   // 'D'
  const ACK_TYPE: Byte := 0x59    // 'Y'
  const NACK_TYPE: Byte := 0x4E   // 'N'
  const BREAK_TYPE: Byte := 0x42  // 'B'

  function ToChar(x: nat): Byte {
    (x + 32) % 256
  }

  function UnToChar(c: Byte): nat {
    if c >= 32 then c - 32 else c + 224  // (c - SPACE) & 0xff
  }

  // A character below SPACE inside a packet is a reception error.
  predicate IsControl(c: Byte) {
    c < 32
  }

  // Block check type 1 of a byte sum, as a printable character.
  function BlockCheck(sum: nat): Byte {
    ToChar((sum + sum / 64 % 4) % 64)
  }

  // Converts a quoted character to the character it stands for. The source
  // tests the bits 0x60 and 0x7F; MasksAsArithmetic relates the two readings.
  function KTrans(c: Byte): Byte {
    if c / 32 % 4 == 2 then c - 64
    else if c % 128 == 63 then c + 64
    else c
  }

  // The unquoting state machine: whether a quote character is pending, and
  // what has been delivered so far.
  datatype Decoder = Decoder(escape: bool, out: seq<Byte>)

  const Empty := Decoder(false, [])

  function DecodeChar(quote: Byte, d: Decoder, c: Byte): Decoder {
    if d.escape then Decoder(false, d.out + [KTrans(c)])
    else if c == quote then d.(escape := true)
    else d.(out := d.out + [c])
  }

  function Decode(quote: Byte, d: Decoder, data: seq<Byte>): Decoder {
    if data == [] then d
    else DecodeChar(quote, Decode(quote, d, data[..|data| - 1]), data[|data| - 1])
  }

  // Prefix encoding of one byte (Kermit Protocol Manual, 6th edition,
  // section on prefixed sequences): control characters and DEL are sent as
  // the quote and the character with bit 6 inverted; the quote itself is sent
  // behind a quote. The eighth bit takes no part in the decision.
  function QuoteByte(quote: Byte, b: Byte): seq<Byte> {
    var low := b % 128;
    if low < 32 || low == 127 then [quote, if b / 64 % 2 == 0 then b + 64 else b - 64]
    else if low == quote then [quote, b]
    else [b]
  }

  function Quote(quote: Byte, s: seq<Byte>): seq<Byte> {
    if s == [] then [] else Quote(quote, s[..|s| - 1]) + QuoteByte(quote, s[|s| - 1])
  }

  predicate LegalQuote(q: Byte) {
    33 <= q <= 62 || 96 <= q <= 126
  }

  // The bit masks of the source, read as arithmetic on 0..255.
  lemma MasksAsArithmetic(c: bv8)
    ensures c & 0xE0 == 0 <==> c < 32
    ensures c & 0x60 == 0x40 <==> c / 32 % 4 == 2
    ensures c & 0x60 == 0x40 ==> c & !0x40 == c - 64
    ensures c & 0x7F == 0x3F <==> c % 128 == 63
    ensures c & 0x7F == 0x3F ==> c | 0x40 == c + 64
    ensures c ^ 0x40 == if c / 64 % 2 == 0 then c + 64 else c - 64
  {
  }

  // Which characters stand for others: '@' to '_' for the control characters,
  // '?' for DEL, each with the eighth bit kept; and how a byte is quoted.
  lemma QuotingTable(quote: Byte, c: Byte)
    requires LegalQuote(quote)
    ensures KTrans(c) ==
            if '@' as int <= c <= '_' as int || 192 <= c <= 223 then c - 64
            else if c == '?' as int then 127
            else if c == 191 then 255
            else c
    ensures QuoteByte(quote, c) ==
            if c <= 31 || 128 <= c <= 159 then [quote, c + 64]
            else if c == 127 || c == 255 then [quote, c - 64]
            else if c == quote || c == quote + 128 then [quote, c]
            else [c]
  {
  }

  lemma {:induction false} DecodeAppend(quote: Byte, d: Decoder, a: seq<Byte>, b: seq<Byte>)
    ensures Decode(quote, d, a + b) == Decode(quote, Decode(quote, d, a), b)
  {
    if b == [] {
      assert a + b == a;
    } else {
      var b' := b[..|b| - 1];
      assert (a + b)[..|a + b| - 1] == a + b';
      DecodeAppend(quote, d, a, b');
    }
  }

  lemma {:induction false} DecodeQuotedByte(quote: Byte, out: seq<Byte>, b: Byte)
    requires LegalQuote(quote)
    ensures Decode(quote, Decoder(false, out), QuoteByte(quote, b)) == Decoder(false, out + [b])
  {
    var q := QuoteByte(quote, b);
    var d := Decoder(false, out);
    if |q| == 1 {
      assert Decode(quote, d, q[..0]) == d;
    } else {
      assert Decode(quote, d, q[..0]) == d;
      assert q[..1][..0] == q[..0];
      assert Decode(quote, d, q[..1]) == d.(escape := true);
      assert KTrans(q[1]) == b;
    }
  }

  // Unquoting inverts quoting, for every byte string and every legal quote.
  lemma {:induction false} UnquoteQuote(quote: Byte, out: seq<Byte>, s: seq<Byte>)
    requires LegalQuote(quote)
    ensures Decode(quote, Decoder(false, out), Quote(quote, s)) == Decoder(false, out + s)
  {
    if s != [] {
      var n := |s| - 1;
      UnquoteQuote(quote, out, s[..n]);
      DecodeAppend(quote, Decoder(false, out), Quote(quote, s[..n]), QuoteByte(quote, s[n]));
      DecodeQuotedByte(quote, out + s[..n], s[n]);
      assert out + s[..n] + [s[n]] == out + s;
    } else {
      assert out + s == out;
    }
  }

  // Among the printable characters no other quote has this property.
  lemma {:induction false} LegalQuoteExactly(quote: Byte)
    requires 33 <= quote <= 126
    ensures LegalQuote(quote) <==>
            forall s :: Decode(quote, Empty, Quote(quote, s)) == Decoder(false, s)
  {
    if LegalQuote(quote) {
      forall s ensures Decode(quote, Empty, Quote(quote, s)) == Decoder(false, s) {
        UnquoteQuote(quote, [], s);
        assert [] + s == s;
      }
    } else {
      var s := [quote];
      assert s[..0] == [];
      assert Quote(quote, s) == [quote, quote];
      var q := [quote, quote];
      assert q[..1][..0] == [] && q[..1][0] == quote;
      assert Decode(quote, Empty, q[..1]) == Decoder(true, []);
      assert Decode(quote, Empty, q).out == [KTrans(quote)];
      assert KTrans(quote) != quote;
    }
  }

  // Nothing the prefix encoding produces can be taken for a reception error.
  lemma {:induction false} QuotedIsPrintable(quote: Byte, s: seq<Byte>)
    requires LegalQuote(quote)
    ensures forall c | c in Quote(quote, s) :: !IsControl(c)
  {
    if s != [] {
      QuotedIsPrintable(quote, s[..|s| - 1]);
    }
  }

  // Without its eighth bit, a printable character.
  predicate IsClean(c: Byte) {
    32 <= c % 128 <= 126
  }

  lemma QuotedByteIsClean(quote: Byte, b: Byte)
    requires LegalQuote(quote)
    ensures forall c | c in QuoteByte(quote, b) :: IsClean(c)
  {
  }

  lemma {:induction false} QuotedIsClean(quote: Byte, s: seq<Byte>)
    requires LegalQuote(quote)
    ensures forall c | c in Quote(quote, s) :: IsClean(c)
  {
    if s != [] {
      QuotedIsClean(quote, s[..|s| - 1]);
      QuotedByteIsClean(quote, s[|s| - 1]);
    }
  }

  // Of all clean texts that stand for a byte string, the quoted one is the
  // shortest, unless the quote with its eighth bit set is in it.
  lemma {:induction false} QuotedIsShortest(quote: Byte, text: seq<Byte>)
    requires LegalQuote(quote) && forall c | c in text :: IsClean(c)
    ensures var d := Decode(quote, Empty, text);
            quote + 128 !in d.out ==> |Quote(quote, d.out)| + (if d.escape then 1 else 0) <= |text|
  {
    if text != [] {
      var before, c := text[..|text| - 1], text[|text| - 1];
      QuotedIsShortest(quote, before);
      OneMoreDecoded(quote, Decode(quote, Empty, before), c);
      assert c in text;
    }
  }

  lemma {:induction false} OneMoreDecoded(quote: Byte, d: Decoder, c: Byte)
    requires LegalQuote(quote) && IsClean(c)
    ensures var e := DecodeChar(quote, d, c);
            && (quote + 128 !in e.out ==> quote + 128 !in d.out)
            && (quote + 128 !in e.out ==>
                |Quote(quote, e.out)| + (if e.escape then 1 else 0)
                <= |Quote(quote, d.out)| + (if d.escape then 1 else 0) + 1)
  {
    var e := DecodeChar(quote, d, c);
    if e.out != d.out {
      var b := e.out[|d.out|];
      assert e.out == d.out + [b] && e.out[..|d.out|] == d.out;
      assert b in e.out;
      assert |Quote(quote, e.out)| == |Quote(quote, d.out)| + |QuoteByte(quote, b)|;
    }
  }

  lemma ToCharFacts(x: nat)
    requires x <= 223
    ensures UnToChar(ToChar(x)) == x && !IsControl(ToChar(x))
  {
  }
}
