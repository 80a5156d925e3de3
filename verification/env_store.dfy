// The environment as it is stored: one flat array, searched, shifted and
// extended in place.
module EnvStore {
  import opened Wrappers
  import opened EnvEntries

  // ------------------------------------------------------------------------
  // Positions inside the image.

  function Offset(es: seq<string>, i: nat): nat
    requires i <= |es|
  {
    |Packed(es[..i])|
  }

  lemma {:induction false} PackedAppend(a: seq<string>, b: seq<string>)
    ensures Packed(a + b) == Packed(a) + Packed(b)
  {
    if b == [] {
      assert a + b == a;
    } else {
      assert (a + b)[..|a + b| - 1] == a + b[..|b| - 1];
      PackedAppend(a, b[..|b| - 1]);
    }
  }

  // The image splits around its i-th entry.
  lemma ImageAt(es: seq<string>, i: nat)
    requires i < |es|
    ensures Image(es) == Packed(es[..i]) + (es[i] + [NUL] + (Packed(es[i + 1..]) + [NUL]))
    ensures Offset(es, i + 1) == Offset(es, i) + |es[i]| + 1
  {
    var a, b := es[..i + 1], es[i + 1..];
    assert es == a + b && a[..i] == es[..i];
    PackedAppend(a, b);
    var p, e, r := Packed(es[..i]), es[i], Packed(b);
    assert Packed(a) == p + e + [NUL];
    assert p + e + [NUL] + r + [NUL] == p + (e + [NUL] + (r + [NUL]));
  }

  // In the image two NULs meet only at its end.
  lemma {:induction false} DoubleNulIsEnd(es: seq<string>, m: nat)
    requires es != [] && AllEntries(es) && m < |Packed(es)|
    ensures Image(es)[m] == NUL && Image(es)[m + 1] == NUL <==> m == |Packed(es)| - 1
  {
    var n := |es| - 1;
    var p := Packed(es[..n]);
    assert Packed(es) == p + es[n] + [NUL];
    if m < |p| {
      assert es[..n] != [];
      DoubleNulIsEnd(es[..n], m);
      assert es[n][0] != NUL;
      assert Image(es)[|p|] == es[n][0];
      assert Image(es[..n])[..|p|] == Image(es)[..|p|];
      assert m == |p| - 1 || Image(es[..n])[m + 1] == p[m + 1] == Image(es)[m + 1];
    } else if m < |p| + |es[n]| {
      assert Image(es)[m] == es[n][m - |p|];
    }
  }

  // The memory starts with the image of es.
  ghost predicate Holds(s: string, es: seq<string>) {
    Image(es) <= s
  }

  // The C string t starts at position i.
  ghost predicate TextAt(s: string, i: nat, t: string) {
    i + |t| < |s| && s[i..i + |t|] == t && s[i + |t|] == NUL
  }

  lemma EntryAt(s: string, es: seq<string>, i: nat)
    requires Holds(s, es) && i < |es|
    ensures TextAt(s, Offset(es, i), es[i])
    ensures Offset(es, i + 1) == Offset(es, i) + |es[i]| + 1 < |s|
  {
    ImageAt(es, i);
    var o, e := Offset(es, i), es[i];
    assert s[o..o + |e|] == Image(es)[o..o + |e|] == e;
    assert s[o + |e|] == Image(es)[o + |e|];
  }

  lemma {:induction false} EndAt(s: string, es: seq<string>)
    requires Holds(s, es)
    ensures Offset(es, |es|) == |Packed(es)| < |s| && s[Offset(es, |es|)] == NUL
  {
    assert es[..|es|] == es;
    assert s[|Packed(es)|] == Image(es)[|Packed(es)|];
  }

  lemma NoNulAt(s: string, i: nat, t: string, k: nat)
    requires TextAt(s, i, t) && IsText(t) && k < |t|
    ensures s[i + k] != NUL
  {
    assert s[i + k] == t[k];
  }

  // Only one C string starts at a position.
  lemma TextIsUnique(s: string, i: nat, t: string, u: string)
    requires TextAt(s, i, t) && TextAt(s, i, u) && IsText(t) && IsText(u)
    ensures t == u
  {
    if |u| < |t| {
      NoNulAt(s, i, t, |u|);
    } else if |t| < |u| {
      NoNulAt(s, i, u, |t|);
    }
  }

  // An entry starts here, or the image ends here.
  lemma EntryOrEnd(s: string, es: seq<string>, i: nat, o: nat)
    requires Holds(s, es) && AllEntries(es) && i <= |es| && o == Offset(es, i)
    ensures o < |s|
    ensures s[o] == NUL <==> i == |es|
  {
    if i < |es| {
      EntryAt(s, es, i);
      NoNulAt(s, o, es[i], 0);
    } else {
      EndAt(s, es);
    }
  }

  // A memory is the image of one list of entries only.
  lemma ImageIsUnique(s: string, es: seq<string>, fs: seq<string>)
    requires AllEntries(es) && AllEntries(fs) && Holds(s, es) && Holds(s, fs)
    ensures es == fs
  {
    SameFrom(s, es, fs, 0);
  }

  lemma {:induction false} SameFrom(s: string, es: seq<string>, fs: seq<string>, i: nat)
    requires AllEntries(es) && AllEntries(fs) && Holds(s, es) && Holds(s, fs)
    requires i <= |es| && i <= |fs| && es[..i] == fs[..i]
    ensures es == fs
    decreases |es| - i
  {
    EntryOrEnd(s, es, i, Offset(es, i));
    EntryOrEnd(s, fs, i, Offset(es, i));
    if i < |es| {
      SameEntry(s, es, fs, i, Offset(es, i));
      SameFrom(s, es, fs, i + 1);
    } else {
      assert es == es[..i] && fs == fs[..i];
    }
  }

  lemma SameEntry(s: string, es: seq<string>, fs: seq<string>, i: nat, o: nat)
    requires AllEntries(es) && AllEntries(fs) && Holds(s, es) && Holds(s, fs)
    requires i < |es| && i < |fs| && es[..i] == fs[..i] && o == Offset(es, i)
    ensures es[..i + 1] == fs[..i + 1]
  {
    EntryAt(s, es, i);
    EntryAt(s, fs, i);
    TextIsUnique(s, o, es[i], fs[i]);
    OneMoreSame(es, fs, i);
  }

  lemma OneMoreSame(es: seq<string>, fs: seq<string>, i: nat)
    requires i < |es| && i < |fs| && es[..i] == fs[..i] && es[i] == fs[i]
    ensures es[..i + 1] == fs[..i + 1]
  {
    assert es[..i + 1] == es[..i] + [es[i]] && fs[..i + 1] == fs[..i] + [fs[i]];
  }

  lemma {:induction false} KeyIs(s: string, j: nat)
    requires j < |s| && s[j] == '=' && '=' !in s[..j]
    ensures Key(s) == s[..j]
  {
    if j > 0 {
      assert s[..j] == [s[0]] + s[1..][..j - 1];
      KeyIs(s[1..], j - 1);
    }
  }

  lemma {:induction false} KeysDiffer(s: string, e: string, j: nat)
    requires '=' in e && j < |e| && j <= |s| && s[..j] == e[..j] && '=' !in s[..j]
    requires if j < |s| then s[j] != e[j] else e[j] != '='
    ensures Key(s) != Key(e)
  {
    var k := |Key(e)|;
    forall x | 0 <= x < j ensures e[x] != '=' {
      assert e[x] == s[..j][x] && s[..j][x] in s[..j];
    }
    assert k >= j;
    if k > j && |Key(s)| > j {
      assert Key(s)[j] == s[j] && Key(e)[j] == e[j];
    }
  }

  class Store {
    const data: array<char>
    ghost var entries: seq<string>

    ghost predicate Valid()
      reads this, data
    {
      WellFormed(entries) && Holds(data[..], entries)
    }

    constructor (data: array<char>, ghost entries: seq<string>)
      requires WellFormed(entries) && Holds(data[..], entries)
      ensures Valid() && this.data == data && this.entries == entries
    {
      this.data := data;
      this.entries := entries;
    }

    // Compares a C string with the entry e stored at i2, up to the first '='.
    method EnvMatch(s1: string, i2: nat, ghost e: string) returns (r: int)
      requires TextAt(data[..], i2, e) && IsEntry(e) && IsText(s1)
      ensures r == if Key(s1) == Key(e) then i2 + |Key(s1)| + 1 else -1
    {
      assert forall j | 0 <= j < |e| :: data[i2 + j] == data[..][i2..i2 + |e|][j] == e[j];
      var j := 0;
      while (if j < |s1| then s1[j] else NUL) == data[i2 + j]
        invariant j <= |s1| && j < |e| && s1[..j] == e[..j] && '=' !in s1[..j]
        decreases |s1| - j
      {
        if s1[j] == '=' {
          KeyIs(s1, j);
          KeyIs(e, j);
          return i2 + j + 1;
        }
        assert s1[..j + 1] == e[..j + 1] && '=' !in s1[..j + 1];
        assert e[..|e|] == e;
        j := j + 1;
      }
      if j == |s1| && data[i2 + j] == '=' {
        KeyIs(e, j);
        return i2 + j + 1;
      }
      KeysDiffer(s1, e, j);
      return -1;
    }

    // The end of the C string e stored at env.
    method TextEnd(env: nat, ghost e: string) returns (nxt: nat)
      requires TextAt(data[..], env, e) && IsText(e)
      ensures nxt == env + |e|
    {
      assert forall j | 0 <= j < |e| :: data[env + j] == data[..][env..env + |e|][j] == e[j];
      nxt := env;
      while data[nxt] != NUL
        invariant env <= nxt <= env + |e|
        decreases env + |e| - nxt
      {
        nxt := nxt + 1;
      }
    }

    // The i-th entry starts here, or the image ends here.
    lemma AtEntry(i: nat)
      requires Valid() && i <= |entries|
      ensures Offset(entries, i) < data.Length
      ensures data[Offset(entries, i)] == NUL <==> i == |entries|
      ensures i < |entries| ==> IsEntry(entries[i]) && TextAt(data[..], Offset(entries, i), entries[i])
      ensures i < |entries| ==> Offset(entries, i + 1) == Offset(entries, i) + |entries[i]| + 1
    {
      EntryOrEnd(data[..], entries, i, Offset(entries, i));
      if i < |entries| {
        EntryAt(data[..], entries, i);
      }
    }

    // Walks the entries for a name: its position, where its text ends, and
    // where its value starts; env stands on the final NUL if there is none.
    method Search(name: string) returns (env: nat, nxt: nat, oldval: int)
      requires Valid() && IsText(name)
      ensures var i := Find(entries, Key(name));
        && env == Offset(entries, i)
        && (i == |entries| ==> oldval == -1)
        && (i < |entries| ==> nxt == env + |entries[i]| && oldval == env + |Key(name)| + 1)
    {
      env, nxt, oldval := 0, 0, -1;
      ghost var es, key, i := entries, Key(name), 0;
      AtEntry(0);
      while data[env] != NUL
        invariant i <= |es| && env == Offset(es, i) && env < data.Length && oldval == -1
        invariant data[env] == NUL <==> i == |es|
        invariant i <= Find(es, key)
        decreases |es| - i
      {
        AtEntry(i);
        nxt := TextEnd(env, es[i]);
        oldval := EnvMatch(name, env, es[i]);
        if oldval >= 0 {
          assert Key(es[i]) == key;
          FindIsUnique(es, key, i);
          return;
        }
        env := nxt + 1;
        i := i + 1;
        AtEntry(i);
      }
    }

    // Looks a variable up: the address of its value, or None. (The source
    // repeats the walk of Search here, with a bound the image never reaches.)
    method Getenv(name: string) returns (r: Option<nat>)
      requires Valid() && IsText(name)
      ensures r == None <==> Lookup(entries, Key(name)) == None
      ensures r.Some? ==> TextAt(data[..], r.value, Lookup(entries, Key(name)).value)
    {
      ghost var i := Find(entries, Key(name));
      var env, nxt, oldval := Search(name);
      if oldval < 0 {
        return None;
      }
      LookupIs(entries, Key(name), i);
      ValueAt(i, |Key(name)| + 1, oldval);
      return Some(oldval);
    }

    lemma ValueAt(i: nat, k: nat, at: nat)
      requires Valid() && i < |entries| && k <= |entries[i]| && at == Offset(entries, i) + k
      ensures TextAt(data[..], at, entries[i][k..])
    {
      EntryAt(data[..], entries, i);
      SuffixAt(data[..], Offset(entries, i), entries[i], k, at);
    }

    // Deletes the i-th entry, whose text is [env, nxt).
    method Delete(env: nat, nxt: nat, ghost i: nat)
      requires AllEntries(entries) && Holds(data[..], entries)
      requires i < |entries| && env == Offset(entries, i) && nxt == env + |entries[i]|
      modifies data, this`entries
      ensures Holds(data[..], entries) && entries == old(entries[..i] + entries[i + 1..])
    {
      ghost var head, tail := entries[..i], entries[i + 1..];
      Around(data[..], entries, i);
      TailEntries(entries, i + 1);
      CloseGap(env, nxt, head, tail);
      entries := head + tail;
    }

    method CloseGap(env0: nat, nxt0: nat, ghost head: seq<string>, ghost tail: seq<string>)
      requires AllEntries(tail) && env0 == |Packed(head)| <= nxt0
      requires nxt0 + 1 + |Packed(tail)| < data.Length && data[..env0] == Packed(head)
      requires data[nxt0 + 1..nxt0 + 1 + |Packed(tail)| + 1] == Packed(tail) + [NUL]
      modifies data
      ensures Holds(data[..], head + tail)
    {
      var env, nxt := env0, nxt0 + 1;
      FirstIsNul(tail);
      ghost var rest := Packed(tail) + [NUL];
      assert data[nxt] == data[nxt..nxt + |rest|][0] == rest[0];
      if data[nxt] == NUL {
        if env > 0 {
          env := env - 1;
        } else {
          data[env] := NUL;
        }
      } else {
        ImageClosesOnce(tail);
        env := ShiftDown(env, nxt, rest);
      }
      env := env + 1;
      data[env] := NUL;
      Rebuilt(data[..], head, tail, Packed(head), Packed(tail));
    }

    method Move(to: nat, from: nat)
      requires to < data.Length && from < data.Length
      modifies data
      ensures data[..] == old(data[..])[to := old(data[from])]
    {
      data[to] := data[from];
    }

    // Moves the image of the entries behind the deleted one down over it;
    // the result is the position of its last entry's NUL.
    method ShiftDown(env0: nat, nxt0: nat, ghost image: string) returns (env: nat)
      requires ClosesOnce(image) && env0 < nxt0
      requires nxt0 + |image| <= data.Length && data[nxt0..nxt0 + |image|] == image
      modifies data
      ensures env + 2 == env0 + |image|
      ensures data[..env0] == old(data[..env0]) && data[env0..env + 1] == image[..|image| - 1]
    {
      var nxt := nxt0;
      env := env0;
      ghost var was := data[..];
      while true
        invariant env0 <= env && nxt == env + (nxt0 - env0) && env - env0 < |image| - 1
        invariant Shifted(data[..], was, env0, nxt0, image, env - env0)
        decreases |image| - (env - env0)
      {
        ShiftOne(data[..], was, env0, nxt0, image, env - env0, nxt);
        Move(env, nxt);
        nxt := nxt + 1;
        assert data[..][env] == image[env - env0] && data[..][nxt] == image[env - env0 + 1];
        if data[env] == NUL && data[nxt] == NUL {
          break;
        }
        env := env + 1;
      }
    }

    // The position where a new entry goes.
    method FindEnd() returns (env: nat)
      requires AllEntries(entries) && Holds(data[..], entries)
      ensures env == |Packed(entries)|
    {
      env := 0;
      ghost var image := Image(entries);
      PackedIsNonEmpty(entries);
      assert data[..][..|image|] == image;
      while data[env] != NUL || data[env + 1] != NUL
        invariant env == 0 || env < |Packed(entries)|
        invariant entries == [] ==> env == 0
        decreases |Packed(entries)| - env
      {
        assert data[env] == image[env] && data[env + 1] == image[env + 1];
        assert entries != [];
        DoubleNulIsEnd(entries, env);
        env := env + 1;
      }
      if entries != [] {
        assert data[env] == image[env] && data[env + 1] == image[env + 1];
        DoubleNulIsEnd(entries, env);
        FirstIsNul(entries);
      }
      if env > 0 {
        env := env + 1;
      }
    }

    // Copies a C string, its NUL included; the result is where the NUL is.
    method CopyText(env0: nat, t: string) returns (env: nat)
      requires env0 + |t| < data.Length
      modifies data
      ensures env == env0 + |t|
      ensures data[..env0] == old(data[..env0]) && data[env0..env] == t && data[env] == NUL
    {
      env := env0;
      var j := 0;
      while j < |t|
        invariant j <= |t| && env == env0 + j
        invariant data[..env0] == old(data[..env0]) && data[env0..env] == t[..j]
      {
        data[env] := t[j];
        env := env + 1;
        j := j + 1;
      }
      data[env] := NUL;
      assert t[..j] == t;
    }

    // A separator and an argument behind what is there.
    method AppendArg(env0: nat, sep: char, arg: string) returns (env: nat)
      requires env0 + 1 + |arg| < data.Length
      modifies data
      ensures env == env0 + 1 + |arg|
      ensures data[..env] == old(data[..env0]) + [sep] + arg && data[env] == NUL
    {
      data[env0] := sep;
      assert data[..env0 + 1] == old(data[..env0]) + [sep];
      env := CopyText(env0 + 1, arg);
      assert data[..env] == data[..env0 + 1] + data[env0 + 1..env];
    }

    method PutNul(env: nat)
      requires env < data.Length
      modifies data
      ensures data[..env + 1] == old(data[..env]) + [NUL]
    {
      data[env] := NUL;
    }

    // The arguments behind the name.
    method AppendArgs(env0: nat, name: string, args: seq<string>, ghost base: string) returns (env: nat)
      requires env0 + 1 + ArgsLen(args) < data.Length && data[..env0] == base + name && data[env0] == NUL
      modifies data
      ensures env < data.Length && data[..env] == base + Definition(name, args) && data[env] == NUL
    {
      env := env0;
      var i := 0;
      ghost var text, done: seq<string> := base + name, [];
      while i < |args|
        invariant i <= |args| && done == args[..i] && text == base + Definition(name, done)
        invariant env == env0 + ArgsLen(done) < data.Length
        invariant data[..env] == text && data[env] == NUL
      {
        var sep := if i == 0 then '=' else ' ';
        ArgsLenStep(args, i);
        DefinitionStep(base, name, args, i, sep, text);
        env := AppendArg(env, sep, args[i]);
        text, done := text + [sep] + args[i], args[..i + 1];
        i := i + 1;
      }
      assert done == args;
    }

    // Writes name=args at env0 and the two closing NULs.
    method Append(env0: nat, name: string, args: seq<string>)
      requires args != [] && env0 + |name| + 2 + ArgsLen(args) <= data.Length
      modifies data
      ensures var e := name + "=" + Join(args);
        env0 + |e| + 2 <= data.Length && data[..env0 + |e| + 2] == old(data[..env0]) + e + [NUL] + [NUL]
    {
      ghost var base, e := data[..env0], name + "=" + Join(args);
      JoinLength(args);
      var env := CopyText(env0, name);
      assert data[..env] == base + name by {
        Glue(data[..], base, name);
      }
      env := AppendArgs(env, name, args, base);
      assert env == env0 + |e|;
      PutNul(env);
      env := env + 1;
      PutNul(env);
    }

    // Adds a definition if it fits.
    method AddEntry(c: Call) returns (rc: int)
      requires AllEntries(entries) && Holds(data[..], entries) && c.args != []
      modifies data, this`entries
      ensures Holds(data[..], entries)
      ensures (rc, entries) ==
              if |Image(old(entries) + [NewEntry(c)])| > data.Length then (1, old(entries))
              else (0, old(entries) + [NewEntry(c)])
    {
      ghost var es, e := entries, NewEntry(c);
      ImageWith(es, c.name, c.args);
      ImagePrefix(data[..], es);
      var env := FindEnd();
      var len := Needed(c);
      if len > data.Length - env {
        return 1;
      }
      assert data[..env] == data[..][..env] == Packed(es);
      Append(env, c.name, c.args);
      assert Image(es + [e]) == data[..env + |e| + 2];
      entries := es + [e];
      return 0;
    }

    // The room a definition needs, its '=' and two NULs included.
    method Needed(c: Call) returns (len: nat)
      ensures len == |c.name| + 2 + ArgsLen(c.args)
    {
      len := |c.name| + 2;
      var j := 0;
      while j < |c.args|
        invariant j <= |c.args| && len == |c.name| + 2 + ArgsLen(c.args[..j])
      {
        ArgsLenStep(c.args, j);
        len := len + |c.args[j]| + 1;
        j := j + 1;
      }
      assert c.args[..j] == c.args;
    }

    // Whether a variable that exists may not be overwritten.
    method Refuse(c: Call) returns (refused: bool)
      ensures refused == RefusedName(c)
    {
      if c.name == "serial#" || c.name == "ethaddr" {
        return true;
      }
      if c.name == "stdin" || c.name == "stdout" || c.name == "stderr" {
        if |c.args| == 0 {
          return true;
        }
        if !c.consoleOk {
          return true;
        }
      }
      return c.name == "baudrate" && !c.baudOk;
    }

    // Sets, replaces or deletes a variable.
    method Setenv(c: Call) returns (rc: int)
      requires Valid() && IsCall(c)
      modifies data, this`entries
      ensures Valid() && (rc, entries) == Set(old(entries), c, data.Length)
    {
      SetIsWellFormed(entries, c, data.Length);
      var env, nxt, oldval := Search(c.name);
      if oldval >= 0 {
        var refused := Refuse(c);
        if refused {
          return 1;
        }
      }
      rc := Redefine(c, oldval >= 0, env, nxt);
    }

    // What follows once the call is not refused.
    method Redefine(c: Call, found: bool, env: nat, nxt: nat) returns (rc: int)
      requires Valid() && IsCall(c) && !Refused(entries, c) && WellFormed(Set(entries, c, data.Length).1)
      requires found == (Find(entries, Key(c.name)) < |entries|)
      requires found ==> env == Offset(entries, Find(entries, Key(c.name)))
      requires found ==> nxt == env + |entries[Find(entries, Key(c.name))]|
      modifies data, this`entries
      ensures Valid() && (rc, entries) == Set(old(entries), c, data.Length)
    {
      WithoutIsWellFormed(entries, Key(c.name));
      if found {
        Delete(env, nxt, Find(entries, Key(c.name)));
      }
      if |c.args| == 0 {
        return 0;
      }
      rc := AddEntry(c);
    }
  }

  function ArgsLen(args: seq<string>): nat {
    if args == [] then 0 else ArgsLen(args[..|args| - 1]) + |args[|args| - 1]| + 1
  }

  lemma {:induction false} ArgsLenStep(args: seq<string>, i: nat)
    requires i < |args|
    ensures ArgsLen(args[..i + 1]) == ArgsLen(args[..i]) + |args[i]| + 1 <= ArgsLen(args)
    decreases |args| - i
  {
    assert args[..i + 1][..i] == args[..i];
    if i + 1 < |args| {
      ArgsLenStep(args, i + 1);
    } else {
      assert args[..i + 1] == args;
    }
  }

  // A definition with the arguments written so far.
  function Definition(name: string, args: seq<string>): string {
    if args == [] then name else name + "=" + Join(args)
  }

  lemma DefinitionStep(base: string, name: string, args: seq<string>, i: nat, sep: char, text: string)
    requires i < |args| && text == base + Definition(name, args[..i])
    requires sep == if i == 0 then '=' else ' '
    ensures text + [sep] + args[i] == base + Definition(name, args[..i + 1])
  {
    JoinStep(args, i);
    if i > 0 {
      FiveParts(base, name, "=", Join(args[..i]), [sep], args[i]);
    } else {
      assert base + name + ['='] + args[0] == base + (name + "=" + args[0]);
    }
  }

  lemma JoinStep(args: seq<string>, i: nat)
    requires i < |args|
    ensures Join(args[..i + 1]) == if i == 0 then args[0] else Join(args[..i]) + " " + args[i]
  {
    assert args[..i + 1][..i] == args[..i];
  }

  lemma FiveParts(a: string, b: string, c: string, d: string, e: string, f: string)
    ensures a + (b + c + d) + e + f == a + (b + c + (d + e + f))
  {
  }

  lemma {:induction false} JoinLength(args: seq<string>)
    requires args != []
    ensures |Join(args)| + 1 == ArgsLen(args)
  {
    if |args| > 1 {
      JoinLength(args[..|args| - 1]);
    } else {
      assert args[..0] == [];
    }
  }

  lemma {:induction false} ImageWith(es: seq<string>, name: string, args: seq<string>)
    requires args != []
    ensures var e := name + "=" + Join(args);
      && Image(es + [e]) == Packed(es) + e + [NUL] + [NUL]
      && |Image(es + [e])| == |Packed(es)| + |name| + 2 + ArgsLen(args)
  {
    JoinLength(args);
    var e := name + "=" + Join(args);
    assert (es + [e])[..|es|] == es;
  }

  lemma {:induction false} ImagePrefix(s: string, es: seq<string>)
    requires Holds(s, es)
    ensures |Packed(es)| < |s| && s[..|Packed(es)|] == Packed(es)
  {
    assert s[..|Packed(es)|] == s[..|Image(es)|][..|Packed(es)|];
  }

  lemma SuffixAt(s: string, i: nat, t: string, k: nat, at: nat)
    requires TextAt(s, i, t) && k <= |t| && at == i + k
    ensures TextAt(s, at, t[k..])
  {
    assert s[i..i + |t|][k..] == s[at..i + |t|];
  }

  lemma {:induction false} LookupIs(es: seq<string>, key: string, i: nat)
    requires AllEntries(es) && i == Find(es, key) && i < |es|
    ensures |key| + 1 <= |es[i]| && Lookup(es, key) == Some(es[i][|key| + 1..])
  {
    assert IsEntry(es[i]);
  }

  // What stands before and behind the i-th entry.
  lemma Around(s: string, es: seq<string>, i: nat)
    requires Holds(s, es) && i < |es|
    ensures var p, tail := Packed(es[..i]), es[i + 1..];
            var b := |p| + |es[i]| + 1;
            && b + |Packed(tail)| < |s| && s[..|p|] == p
            && s[b..b + |Packed(tail)| + 1] == Packed(tail) + [NUL]
  {
    ImageAt(es, i);
    Pieces(s, Packed(es[..i]), es[i] + [NUL], Packed(es[i + 1..]) + [NUL], Image(es));
  }

  lemma Pieces(s: string, p: string, e: string, r: string, image: string)
    requires image == p + (e + r) && image <= s
    ensures |p| + |e| + |r| <= |s| && s[..|p|] == p && s[|p| + |e|..|p| + |e| + |r|] == r
  {
    assert image[..|p|] == p && image[|p| + |e|..] == r;
    SliceOfPrefix(s, image, 0, |p|);
    SliceOfPrefix(s, image, |p| + |e|, |image|);
  }

  lemma SliceOfPrefix(s: string, t: string, a: nat, b: nat)
    requires t <= s && a <= b <= |t|
    ensures s[a..b] == t[a..b]
  {
  }

  // Two NULs meet at the end of the text and nowhere else.
  ghost predicate ClosesOnce(image: string) {
    && |image| >= 2
    && (forall m | 0 <= m < |image| - 1 :: image[m] == NUL && image[m + 1] == NUL <==> m == |image| - 2)
  }

  lemma ImageClosesOnce(es: seq<string>)
    requires es != [] && AllEntries(es)
    ensures ClosesOnce(Image(es))
  {
    forall m | 0 <= m < |Packed(es)|
      ensures Image(es)[m] == NUL && Image(es)[m + 1] == NUL <==> m == |Packed(es)| - 1
    {
      DoubleNulIsEnd(es, m);
    }
  }

  // Of an image at nxt the first m characters stand at env as well.
  ghost predicate Shifted(s: string, was: string, env: nat, nxt: nat, image: string, m: nat) {
    && env < nxt && |s| == |was| && nxt + |image| <= |s| && m <= |image|
    && s[..env] == was[..env] && s[env..env + m] == image[..m]
    && s[nxt + m..nxt + |image|] == image[m..]
  }

  lemma ShiftOne(s: string, was: string, env: nat, nxt: nat, image: string, m: nat, k: nat)
    requires Shifted(s, was, env, nxt, image, m) && m + 1 < |image| && k == nxt + m
    ensures s[k] == image[m] && s[k + 1] == image[m + 1]
    ensures Shifted(s[env + m := s[k]], was, env, nxt, image, m + 1)
  {
    var rest := image[m..];
    assert s[k..nxt + |image|][0] == rest[0] && s[k..nxt + |image|][1] == rest[1];
    TakeOne(s, env, m, image);
    DropOne(s, env + m, image[m], k, nxt + |image|, rest);
    assert image[m..][1..] == image[m + 1..];
  }

  lemma TakeOne(s: string, env: nat, m: nat, image: string)
    requires m < |image| && env + m < |s| && s[env..env + m] == image[..m]
    ensures s[env + m := image[m]][env..env + m + 1] == image[..m + 1]
  {
    assert image[..m + 1] == image[..m] + [image[m]];
  }

  lemma DropOne(s: string, at: nat, c: char, a: nat, b: nat, rest: string)
    requires at < a < b <= |s| && s[a..b] == rest
    ensures s[at := c][a + 1..b] == rest[1..]
  {
  }

  lemma {:induction false} Rebuilt(s: string, head: seq<string>, tail: seq<string>, p: string, q: string)
    requires p == Packed(head) && q == Packed(tail) && |p| + |q| < |s|
    requires s[..|p|] == p && s[|p|..|p| + |q|] == q && s[|p| + |q|] == NUL
    requires |p| + |q| == 0 ==> |s| > 1 && s[1] == NUL
    ensures Holds(s, head + tail)
  {
    var text := p + q;
    PackedAppend(head, tail);
    Glue(s, p, q);
    HoldsImage(s, head + tail, text);
  }

  lemma {:induction false} HoldsImage(s: string, es: seq<string>, text: string)
    requires text == Packed(es) && |text| < |s| && s[..|text|] == text && s[|text|] == NUL
    requires text == "" ==> |s| > 1 && s[1] == NUL
    ensures Holds(s, es)
  {
    PackedIsNonEmpty(es);
    if es == [] {
      assert s[..2] == [NUL, NUL];
    } else {
      Glue(s, Packed(es), [NUL]);
    }
  }

  lemma Glue(s: string, a: string, b: string)
    requires |a| + |b| <= |s| && s[..|a|] == a && s[|a|..|a| + |b|] == b
    ensures s[..|a| + |b|] == a + b
  {
  }

  lemma TailEntries(es: seq<string>, i: nat)
    requires AllEntries(es) && i <= |es|
    ensures AllEntries(es[i..])
  {
  }

  lemma {:induction false} FirstIsNul(es: seq<string>)
    requires AllEntries(es)
    ensures Packed(es) == "" <==> es == []
    ensures (Packed(es) + [NUL])[0] == NUL <==> es == []
  {
    if es != [] {
      ImageAt(es, 0);
      assert es[..0] == [] && Packed(es[..0]) == "";
      assert Image(es)[0] == es[0][0];
      assert IsEntry(es[0]) && es[0][0] in es[0];
    }
  }

  lemma {:induction false} PackedIsNonEmpty(es: seq<string>)
    ensures Packed(es) == "" <==> es == []
  {
  }
}
