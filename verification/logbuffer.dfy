// Log ring shared with the operating system: every line is stored with its
// level in front, and the newest 16 KiB are kept.
module LogBuffer {
  import opened CircularBuffer

  const LOGBUFF_LEN: nat := 16384

  // A level tag "<0>" to "<7>".
  predicate HasTag(s: seq<char>) {
    |s| >= 3 && s[0] == '<' && '0' <= s[1] <= '7' && s[2] == '>'
  }

  // The default message level is 4.
  const DEFAULT_TAG: seq<char> := ['<', '4', '>']

  // Length of the first line, with its line feed if it has one.
  function LineLength(s: seq<char>): (n: nat)
    ensures n <= |s| && (s != [] ==> n > 0)
  {
    if s == [] then 0 else if s[0] == '\n' then 1 else LineLength(s[1..]) + 1
  }

  lemma {:induction false} FirstLine(s: seq<char>)
    ensures var n := LineLength(s);
            && (forall i | 0 <= i < n - 1 :: s[i] != '\n')
            && (n < |s| ==> s[n - 1] == '\n')
  {
    if s != [] && s[0] != '\n' {
      FirstLine(s[1..]);
    }
  }

  // The level in force (-1 at the start of a line) and the characters logged.
  datatype Annotated = Annotated(level: int, out: seq<char>)

  function LevelAfter(level: int, s: seq<char>): int {
    if level >= 0 then level else if HasTag(s) then s[1] as int - '0' as int else 4
  }

  function TagFor(level: int, s: seq<char>): seq<char> {
    if level >= 0 || HasTag(s) then [] else DEFAULT_TAG
  }

  function EndsLine(s: seq<char>): bool {
    s != [] && s[|s| - 1] == '\n'
  }

  function Prepend(head: seq<char>, a: Annotated): Annotated {
    Annotated(a.level, head + a.out)
  }

  function LevelAfterLine(level: int, s: seq<char>): int {
    if EndsLine(s[..LineLength(s)]) then -1 else LevelAfter(level, s)
  }

  function Annotate(level: int, s: seq<char>): Annotated
    decreases |s|
  {
    if s == [] then Annotated(level, [])
    else
      var n := LineLength(s);
      Prepend(TagFor(level, s) + s[..n], Annotate(LevelAfterLine(level, s), s[n..]))
  }

  // ------------------------------------------------------------------------
  // What the stream looks like: every line starts with a tag, except that the
  // first one need not if it is the continuation of a line begun before.

  predicate StartsLine(stream: seq<char>, open: bool, i: nat)
    requires i < |stream|
  {
    if i == 0 then !open else stream[i - 1] == '\n'
  }

  ghost predicate Tagged(stream: seq<char>, open: bool) {
    forall i: nat | i < |stream| && StartsLine(stream, open, i) :: HasTag(stream[i..])
  }

  function StaysOpen(stream: seq<char>, open: bool): bool {
    if stream == [] then open else !EndsLine(stream)
  }

  lemma TaggedAppend(a: seq<char>, b: seq<char>, open: bool)
    requires Tagged(a, open) && Tagged(b, StaysOpen(a, open))
    ensures Tagged(a + b, open) && StaysOpen(a + b, open) == StaysOpen(b, StaysOpen(a, open))
  {
    forall i: nat | i < |a + b| && StartsLine(a + b, open, i) ensures HasTag((a + b)[i..]) {
      if i < |a| {
        assert StartsLine(a, open, i);
        assert (a + b)[i..] == a[i..] + b;
      } else {
        assert StartsLine(b, StaysOpen(a, open), i - |a|);
        assert (a + b)[i..] == b[i - |a|..];
      }
    }
  }

  lemma OneLineIsTagged(out: seq<char>, open: bool)
    requires forall j | 0 <= j < |out| - 1 :: out[j] != '\n'
    requires open || HasTag(out)
    ensures Tagged(out, open)
  {
    assert out[0..] == out;
  }

  lemma TagHasNoLineFeed(tag: seq<char>, line: seq<char>)
    requires tag == [] || tag == DEFAULT_TAG
    requires line != [] && forall j | 0 <= j < |line| - 1 :: line[j] != '\n'
    ensures forall j | 0 <= j < |tag + line| - 1 :: (tag + line)[j] != '\n'
    ensures EndsLine(tag + line) == EndsLine(line)
  {
  }

  // One line, tagged if necessary.
  lemma {:induction false} LineIsTagged(level: int, s: seq<char>)
    requires s != []
    ensures var out := TagFor(level, s) + s[..LineLength(s)];
            Tagged(out, level >= 0) && out != [] && EndsLine(out) == EndsLine(s[..LineLength(s)])
  {
    FirstLine(s);
    var tag, line := TagFor(level, s), s[..LineLength(s)];
    var out := tag + line;
    TagHasNoLineFeed(tag, line);
    if tag == [] && HasTag(s) {
      TagWithinLine(s);
      assert out == line;
    }
    OneLineIsTagged(out, level >= 0);
  }

  lemma {:induction false} TagWithinLine(s: seq<char>)
    requires HasTag(s)
    ensures HasTag(s[..LineLength(s)])
  {
    assert LineLength(s[1..]) >= 2 by {
      assert s[1..][0] == s[1];
      assert s[1..][1..][0] == s[2];
    }
  }

  // Every line of the log starts with its level, whatever is logged in
  // whatever pieces: the level after a piece says whether a line is open.
  lemma {:induction false} AnnotatedIsTagged(level: int, s: seq<char>)
    requires -1 <= level <= 7
    ensures var a := Annotate(level, s);
            && -1 <= a.level <= 7 && Tagged(a.out, level >= 0)
            && StaysOpen(a.out, level >= 0) == (a.level >= 0)
    decreases |s|
  {
    if s != [] {
      var n := LineLength(s);
      var line, next := s[..n], LevelAfterLine(level, s);
      LineIsTagged(level, s);
      AnnotatedIsTagged(next, s[n..]);
      TaggedAppend(TagFor(level, s) + line, Annotate(next, s[n..]).out, level >= 0);
    }
  }

  // The annotated text starts with a tag exactly if none is missing, or the
  // text itself does.
  lemma {:induction false} StartOfAnnotated(level: int, s: seq<char>)
    requires -1 <= level <= 7 && s != []
    ensures HasTag(Annotate(level, s).out) <==> level < 0 || HasTag(s)
  {
    FirstLine(s);
    var n := LineLength(s);
    var tag, line, rest := TagFor(level, s), s[..n], Annotate(LevelAfterLine(level, s), s[n..]).out;
    assert Annotate(level, s).out == tag + line + rest;
    if HasTag(s) {
      TagWithinLine(s);
    } else if level >= 0 {
      assert tag == [];
      NoTagBehindLine(s, rest);
    }
  }

  lemma {:induction false} NoTagBehindLine(s: seq<char>, rest: seq<char>)
    requires !HasTag(s) && s != [] && (LineLength(s) == |s| && !EndsLine(s) ==> rest == [])
    ensures !HasTag(s[..LineLength(s)] + rest)
  {
    FirstLine(s);
    var n := LineLength(s);
    var out := s[..n] + rest;
    assert out[n - 1] == s[n - 1];
    if n >= 3 {
      assert out[0] == s[0] && out[1] == s[1] && out[2] == s[2];
    } else if s[n - 1] != '\n' {
      assert out == s;
    }
  }

  // After a reset the log starts with a tag exactly if no line was open, or
  // the rest of that line happens to look tagged.
  lemma {:induction false} TaggedAfterReset(level: int, s: seq<char>)
    requires -1 <= level <= 7 && s != []
    ensures var out := Annotate(level, s).out;
            out != [] && (Tagged(out, false) <==> level < 0 || HasTag(s))
  {
    AnnotatedIsTagged(level, s);
    LineIsTagged(level, s);
    StartOfAnnotated(level, s);
    var out := Annotate(level, s).out;
    assert out[0..] == out;
    assert Tagged(out, false) ==> HasTag(out) by {
      if Tagged(out, false) {
        assert StartsLine(out, false, 0);
      }
    }
    forall i: nat | i < |out| && StartsLine(out, false, i) && HasTag(out) ensures HasTag(out[i..]) {
      assert i > 0 ==> StartsLine(out, level >= 0, i);
    }
  }

  // A line is stored as it is if one is open, or if it brings a tag of its
  // own, whose digit is its level then. Otherwise "<4>" is put in front, and
  // its level is 4.
  lemma {:induction false} LineIsLogged(level: int, s: seq<char>)
    requires -1 <= level <= 7 && s != [] && forall i | 0 <= i < |s| - 1 :: s[i] != '\n'
    ensures var own := |s| >= 3 && s[0] == '<' && s[1] in "01234567" && s[2] == '>';
            var a, ends := Annotate(level, s), s[|s| - 1] == '\n';
            && a.out == (if level >= 0 || own then s else "<4>" + s)
            && (ends ==> a.level == -1)
            && (!ends ==> a.level == if level >= 0 then level else if own then s[1] as int - 48 else 4)
  {
    FirstLine(s);
    assert LineLength(s) == |s| && s[..|s|] == s;
    OneLineOnly(level, s, LineLength(s));
  }

  lemma {:induction false} OneLineOnly(level: int, s: seq<char>, n: nat)
    requires s != [] && n == LineLength(s) == |s|
    ensures Annotate(level, s) == Annotated(if EndsLine(s) then -1 else LevelAfter(level, s), TagFor(level, s) + s)
  {
    assert s[..n] == s && s[n..] == [];
    assert Annotate(LevelAfterLine(level, s), []) == Annotated(LevelAfterLine(level, s), []);
    assert TagFor(level, s) + s + [] == TagFor(level, s) + s;
  }

  // What follows a finished line has no influence on it.
  lemma {:induction false} FirstLineFirst(level: int, s: seq<char>, t: seq<char>)
    requires EndsLine(s)
    ensures Annotate(level, s + t)
            == Prepend(TagFor(level, s) + s[..LineLength(s)],
                       Annotate(LevelAfterLine(level, s), s[LineLength(s)..] + t))
  {
    var n := LineLength(s);
    FirstLine(s);
    LineLengthOfPrefix(s, t);
    TagOfPrefix(s, t);
    assert (s + t)[..n] == s[..n];
    assert (s + t)[n..] == s[n..] + t;
    assert LevelAfterLine(level, s + t) == LevelAfterLine(level, s) && TagFor(level, s + t) == TagFor(level, s);
  }

  lemma PrependAppend(head: seq<char>, a: Annotated, b: Annotated)
    ensures Prepend(head, Prepend(a.out, b)) == Prepend(head + a.out, b)
  {
    assert head + (a.out + b.out) == head + a.out + b.out;
  }

  // A piece that ends a line can be logged separately without difference.
  lemma {:induction false} SplitAtLine(level: int, s: seq<char>, t: seq<char>)
    requires EndsLine(s)
    ensures Annotate(level, s).level == -1
    ensures Annotate(level, s + t) == Prepend(Annotate(level, s).out, Annotate(-1, t))
    decreases |s|
  {
    var n, next := LineLength(s), LevelAfterLine(level, s);
    var head, rest := TagFor(level, s) + s[..n], Annotate(next, s[n..]);
    assert Annotate(level, s) == Prepend(head, rest);
    FirstLineFirst(level, s, t);
    if n < |s| {
      SplitAtLine(next, s[n..], t);
      PrependAppend(head, rest, Annotate(-1, t));
    } else {
      assert s[..n] == s && s[n..] == [] && [] + t == t;
      assert rest == Annotated(-1, []) && head + [] == head;
    }
  }

  lemma {:induction false} LineLengthOfPrefix(s: seq<char>, t: seq<char>)
    requires EndsLine(s)
    ensures LineLength(s + t) == LineLength(s)
  {
    if s[0] != '\n' {
      assert (s + t)[1..] == s[1..] + t;
      LineLengthOfPrefix(s[1..], t);
    }
  }

  lemma TagOfPrefix(s: seq<char>, t: seq<char>)
    requires EndsLine(s)
    ensures HasTag(s + t) == HasTag(s)
  {
    if |s| < 3 {
      assert (s + t)[|s| - 1] == '\n';
    }
  }

  // ------------------------------------------------------------------------

  // The masked index. A sum that wraps around at 32 bits has the same one.
  function Slot(start: nat): (i: nat)
    ensures i < LOGBUFF_LEN
  {
    start % LOGBUFF_LEN
  }

  function Next(start: nat): nat {
    if start == 0xFFFF_FFFF then 0 else start + 1
  }

  // A 32-bit count.
  function Count(n: nat): nat {
    n % 0x1_0000_0000
  }

  lemma CountNext(n: nat)
    ensures Count(n + 1) == Next(Count(n))
  {
  }

  lemma SlotIsWrap(start: nat, size: nat)
    requires size <= LOGBUFF_LEN
    ensures Slot(start + size) == Wrap(Slot(start) + size, LOGBUFF_LEN)
    ensures Slot(Next(start)) == Wrap(Slot(start) + 1, LOGBUFF_LEN)
  {
    var q, r := start / 16384, start % 16384;
    assert start == q * 16384 + r;
    if r + size < 16384 {
      assert (q * 16384 + (r + size)) % 16384 == r + size;
    } else if r + size < 32768 {
      assert ((q + 1) * 16384 + (r + size - 16384)) % 16384 == r + size - 16384;
    }
    if r + 1 < 16384 {
      assert (q * 16384 + (r + 1)) % 16384 == r + 1;
    } else {
      assert ((q + 1) * 16384) % 16384 == 0;
    }
  }

  // One more character in the ring.
  lemma {:induction false} RingTakes(d: seq<char>, start: nat, size: nat, stream: seq<char>, c: char)
    requires |d| == LOGBUFF_LEN && size <= LOGBUFF_LEN && Ring(d, Slot(start), size) == LastN(stream, LOGBUFF_LEN)
    ensures Ring(d[Slot(start + size) := c], if size < LOGBUFF_LEN then Slot(start) else Slot(Next(start)),
                 if size < LOGBUFF_LEN then size + 1 else size) == LastN(stream + [c], LOGBUFF_LEN)
  {
    SlotIsWrap(start, size);
    LastNAppend(stream, [c], LOGBUFF_LEN);
    if size < LOGBUFF_LEN {
      RingGrows(d, Slot(start), size, c);
    } else {
      RingMoves(d, Slot(start), c);
    }
  }

  class Log {
    const log_buf: array<char>
    // Working copy of the line, with room for a tag in front.
    const buf: array<char>
    var log_start: nat
    var log_size: nat
    var logged_chars: nat
    var msg_level: int
    // Everything logged since the last reset, and whether that reset came in
    // the middle of a line.
    ghost var stream: seq<char>
    ghost var open: bool

    ghost predicate Valid()
      reads this, log_buf
    {
      && log_buf.Length == LOGBUFF_LEN && buf.Length == 1024 && log_buf != buf
      && log_size <= LOGBUFF_LEN
      && Ring(log_buf[..], Slot(log_start), log_size) == LastN(stream, LOGBUFF_LEN)
      && logged_chars == Count(|stream|)
      && -1 <= msg_level <= 7
    }

    // The ring's contents are the newest part of a tagged stream.
    ghost predicate WellTagged()
      reads this
    {
      Tagged(stream, open) && StaysOpen(stream, open) == (msg_level >= 0)
    }

    constructor ()
      ensures Valid() && WellTagged() && fresh(log_buf) && fresh(buf) && stream == [] && msg_level == -1
    {
      log_buf, buf := new char[LOGBUFF_LEN], new char[1024];
      log_start, log_size, logged_chars, msg_level := 0, 0, 0, -1;
      stream, open := [], false;
    }

    // log reset
    method Reset()
      requires Valid()
      modifies this
      ensures Valid() && WellTagged() && stream == [] && open == (msg_level >= 0) && msg_level == old(msg_level)
    {
      log_start, log_size, logged_chars := 0, 0, 0;
      stream, open := [], msg_level >= 0;
    }

    method Put(c: char)
      requires Valid()
      modifies `log_start, `log_size, `logged_chars, `stream, log_buf
      ensures Valid() && stream == old(stream) + [c]
    {
      var i := Slot(log_start + log_size);
      ghost var d := log_buf[..];
      RingTakes(d, log_start, log_size, stream, c);
      CountNext(|stream|);
      if log_size < LOGBUFF_LEN {
        log_size := log_size + 1;
      } else {
        log_start := Next(log_start);
      }
      logged_chars := Next(logged_chars);
      stream := stream + [c];
      log_buf[i] := c;
      assert log_buf[..] == d[i := c];
    }

    // Logs from p up to the end of the line or of the text.
    method PutLine(p0: nat, buf_end: nat, ghost text: seq<char>) returns (p: nat, line_feed: bool)
      requires Valid() && p0 < buf_end <= buf.Length && text == buf[p0..buf_end]
      modifies `log_start, `log_size, `logged_chars, `stream, log_buf
      ensures Valid() && stream == old(stream) + text[..LineLength(text)]
      ensures line_feed == EndsLine(text[..LineLength(text)])
      ensures p + (if line_feed then 1 else 0) == p0 + LineLength(text)
    {
      FirstLine(text);
      p, line_feed := p0, false;
      ghost var n := 0;
      while p < buf_end && !line_feed
        invariant n <= LineLength(text) && Valid() && stream == old(stream) + text[..n]
        invariant line_feed == EndsLine(text[..n]) && p0 + n == p + if line_feed then 1 else 0
        invariant p <= buf_end
        decreases buf_end - p, !line_feed
      {
        StillFirstLine(text, n);
        assert buf[p] == text[n];
        Put(buf[p]);
        assert text[..n] + [text[n]] == text[..n + 1];
        n := n + 1;
        if buf[p] == '\n' {
          line_feed := true;
        } else {
          p := p + 1;
        }
      }
      LineEndsThere(text, n);
    }

    method CopyLine(line: seq<char>)
      requires Valid() && |line| + 4 <= buf.Length
      modifies buf
      ensures buf[3..3 + |line|] == line && buf[3 + |line|] == '\0'
    {
      var i := 0;
      while i < |line|
        invariant i <= |line| && buf[3..3 + i] == line[..i]
      {
        buf[3 + i] := line[i];
        i := i + 1;
      }
      buf[3 + i] := '\0';
    }

    // Looks at no character behind the end of the text.
    method StartsWithTag(p: nat, buf_end: nat, ghost text: seq<char>) returns (yes: bool)
      requires p < buf_end < buf.Length && text == buf[p..buf_end] && buf[buf_end] == '\0'
      ensures yes == HasTag(text)
      ensures yes ==> |text| >= 3 && buf[p + 1] == text[1]
    {
      assert text[0] == buf[p];
      assert |text| >= 2 ==> text[1] == buf[p + 1];
      assert |text| >= 3 ==> text[2] == buf[p + 2];
      yes := !(buf[p] != '<' || buf[p + 1] < '0' || buf[p + 1] > '7' || buf[p + 2] != '>');
    }

    method WriteTag(q: nat, buf_end: nat, ghost text: seq<char>)
      requires q + 3 <= buf_end < buf.Length && text == buf[q + 3..buf_end] && buf[buf_end] == '\0'
      modifies buf
      ensures buf[q..buf_end] == DEFAULT_TAG + text && buf[q + 1] == '4' && buf[buf_end] == '\0'
    {
      buf[q] := '<';
      buf[q + 1] := '4';
      buf[q + 2] := '>';
      assert buf[q..buf_end] == buf[q..q + 3] + buf[q + 3..buf_end];
    }

    // The level for the text at p. A missing tag is written into the buffer
    // in front of the text; q is where the text to log starts.
    method TakeLevel(p: nat, buf_end: nat, ghost text: seq<char>) returns (q: nat, level: int)
      requires Valid() && 3 <= p < buf_end < buf.Length && text == buf[p..buf_end] && buf[buf_end] == '\0'
      modifies buf
      ensures level == LevelAfter(msg_level, text)
      ensures q + |TagFor(msg_level, text)| == p
      ensures buf[q..buf_end] == TagFor(msg_level, text) + text && buf[buf_end] == '\0'
    {
      q, level := p, msg_level;
      if level < 0 {
        var tagged := StartsWithTag(p, buf_end, text);
        if !tagged {
          q := p - 3;
          WriteTag(q, buf_end, text);
        }
        level := buf[q + 1] as int - '0' as int;
      }
    }

    // Logs a line of n characters that has its tag; the next one starts at p.
    method LogTagged(q: nat, buf_end: nat, ghost text: seq<char>, ghost n: nat) returns (p: nat, line_feed: bool)
      requires Valid() && q < buf_end < buf.Length && text == buf[q..buf_end] && n == LineLength(text)
      modifies `log_start, `log_size, `logged_chars, `stream, log_buf
      ensures Valid() && stream == old(stream) + text[..n] && line_feed == EndsLine(text[..n])
      ensures if p < buf_end then p == q + n && buf[p..buf_end] == text[n..] else n == |text|
    {
      FirstLine(text);
      p, line_feed := PutLine(q, buf_end, text);
      p := p + 1;
      assert p < buf_end ==> buf[p..buf_end] == buf[q..buf_end][p - q..];
    }

    // Logs the line that starts at p.
    method LogLine(p0: nat, buf_end: nat, ghost text: seq<char>) returns (p: nat)
      requires Valid() && 3 <= p0 < buf_end < buf.Length && text == buf[p0..buf_end] && buf[buf_end] == '\0'
      modifies `log_start, `log_size, `logged_chars, `stream, `msg_level, log_buf, buf
      ensures Valid() && stream == old(stream) + (TagFor(old(msg_level), text) + text[..LineLength(text)])
      ensures msg_level == LevelAfterLine(old(msg_level), text)
      ensures if p < buf_end then p == p0 + LineLength(text) else LineLength(text) == |text|
      ensures p < buf_end ==> buf[p..buf_end] == text[LineLength(text)..] && buf[buf_end] == '\0'
    {
      ghost var tag, n := TagFor(msg_level, text), LineLength(text);
      var q, level := TakeLevel(p0, buf_end, text);
      TaggedLineLength(tag, text);
      LevelOfLine(msg_level, tag, text, n);
      var line_feed;
      p, line_feed := LogTagged(q, buf_end, tag + text, |tag| + n);
      msg_level := if line_feed then -1 else level;
    }

    // Logs the text that stands in the buffer, line by line.
    method LogText(line: seq<char>)
      requires Valid() && |line| + 4 <= buf.Length && buf[3..3 + |line|] == line && buf[3 + |line|] == '\0'
      modifies `log_start, `log_size, `logged_chars, `stream, `msg_level, log_buf, buf
      ensures Valid() && stream == old(stream) + Annotate(old(msg_level), line).out
      ensures msg_level == Annotate(old(msg_level), line).level
    {
      ghost var out, level := stream + Annotate(msg_level, line).out, Annotate(msg_level, line).level;
      var buf_end := 3 + |line|;
      var p := 3;
      ghost var text := line;
      assert line[..] == line;
      while p < buf_end
        invariant Valid()
        invariant if p < buf_end then 3 <= p && buf[p..buf_end] == text && buf[buf_end] == '\0' else text == []
        invariant stream + Annotate(msg_level, text).out == out && Annotate(msg_level, text).level == level
        decreases |text|
      {
        OutStep(stream, msg_level, text);
        p := LogLine(p, buf_end, text);
        text := text[LineLength(text)..];
      }
    }

    method Printk(line: seq<char>) returns (i: nat)
      requires Valid() && |line| + 4 <= buf.Length
      modifies this, log_buf, buf
      ensures Valid() && i == |line|
      ensures stream == old(stream) + Annotate(old(msg_level), line).out
      ensures msg_level == Annotate(old(msg_level), line).level
      ensures open == old(open) && (old(WellTagged()) ==> WellTagged())
    {
      CopyLine(line);
      i := |line|;
      LogText(line);
      if old(WellTagged()) {
        AnnotatedIsTagged(old(msg_level), line);
        TaggedAppend(old(stream), Annotate(old(msg_level), line).out, open);
      }
    }
  }

  lemma {:induction false} LevelOfLine(level: int, tag: seq<char>, s: seq<char>, n: nat)
    requires s != [] && n == LineLength(s) && EndsLine(tag + s[..n]) == EndsLine(s[..n])
    ensures LevelAfterLine(level, s) == if EndsLine(tag + s[..n]) then -1 else LevelAfter(level, s)
  {
  }

  lemma {:induction false} OneMore(c: char, s: seq<char>)
    requires c != '\n'
    ensures LineLength([c] + s) == 1 + LineLength(s)
  {
    assert ([c] + s)[1..] == s;
  }

  lemma {:induction false} TaggedLine(tag: seq<char>, s: seq<char>)
    requires tag == [] || tag == DEFAULT_TAG
    ensures LineLength(tag + s) == |tag| + LineLength(s)
  {
    if tag == [] {
      assert tag + s == s;
    } else {
      var s1 := ['>'] + s;
      var s2 := ['4'] + s1;
      assert tag + s == ['<'] + s2;
      OneMore('>', s);
      OneMore('4', s1);
      OneMore('<', s2);
    }
  }

  lemma Slices(tag: seq<char>, s: seq<char>, n: nat)
    requires n <= |s|
    ensures (tag + s)[..|tag| + n] == tag + s[..n] && (tag + s)[|tag| + n..] == s[n..]
    ensures n > 0 ==> EndsLine(tag + s[..n]) == EndsLine(s[..n])
  {
  }

  lemma {:induction false} TaggedLineLength(tag: seq<char>, s: seq<char>)
    requires tag == [] || tag == DEFAULT_TAG
    ensures LineLength(tag + s) == |tag| + LineLength(s)
    ensures (tag + s)[..|tag| + LineLength(s)] == tag + s[..LineLength(s)]
    ensures (tag + s)[|tag| + LineLength(s)..] == s[LineLength(s)..]
    ensures s != [] ==> EndsLine(tag + s[..LineLength(s)]) == EndsLine(s[..LineLength(s)])
  {
    TaggedLine(tag, s);
    Slices(tag, s, LineLength(s));
  }

  lemma {:induction false} OutStep(was: seq<char>, level: int, s: seq<char>)
    requires s != []
    ensures Annotate(level, s).level == Annotate(LevelAfterLine(level, s), s[LineLength(s)..]).level
    ensures was + Annotate(level, s).out
            == was + (TagFor(level, s) + s[..LineLength(s)])
              + Annotate(LevelAfterLine(level, s), s[LineLength(s)..]).out
  {
    var head, rest := TagFor(level, s) + s[..LineLength(s)], Annotate(LevelAfterLine(level, s), s[LineLength(s)..]);
    assert Annotate(level, s) == Prepend(head, rest);
    Associative(was, head, rest.out);
  }

  lemma Associative(a: seq<char>, b: seq<char>, c: seq<char>)
    ensures a + (b + c) == a + b + c
  {
  }

  lemma {:induction false} StillFirstLine(s: seq<char>, n: nat)
    requires n <= LineLength(s) && n < |s| && !EndsLine(s[..n])
    ensures n < LineLength(s)
  {
    FirstLine(s);
  }

  lemma {:induction false} LineEndsThere(s: seq<char>, n: nat)
    requires n <= LineLength(s) && (n == |s| || EndsLine(s[..n]))
    ensures n == LineLength(s)
  {
    FirstLine(s);
  }
}
