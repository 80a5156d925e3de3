// The environment as its users see it: an ordered list of name=value
// entries, and the effect of setting a variable on that list.
module EnvEntries {
  import opened Wrappers

  const NUL := '\0'

  // The text before the first '=', or all of it.
  function Key(s: string): (k: string)
    ensures '=' !in k && k <= s
    ensures |k| < |s| ==> s[|k|] == '='
    ensures '=' !in s ==> k == s
    ensures '=' in s ==> |k| < |s|
  {
    if s == "" || s[0] == '=' then "" else [s[0]] + Key(s[1..])
  }

  function Value(e: string): string
    requires '=' in e
  {
    e[|Key(e)| + 1..]
  }

  predicate IsText(s: string) {
    NUL !in s
  }

  predicate IsEntry(e: string) {
    IsText(e) && '=' in e
  }

  ghost predicate AllEntries(es: seq<string>) {
    forall i | 0 <= i < |es| :: IsEntry(es[i])
  }

  // Entries, and no name twice.
  ghost predicate WellFormed(es: seq<string>) {
    && AllEntries(es)
    && (forall i, j | 0 <= i < j < |es| :: Key(es[i]) != Key(es[j]))
  }

  // The position of the entry for a key, or |es|.
  function Find(es: seq<string>, key: string): (i: nat)
    ensures i <= |es|
    ensures i < |es| ==> Key(es[i]) == key
    ensures forall j | 0 <= j < i :: Key(es[j]) != key
  {
    if es == [] || Key(es[0]) == key then 0 else 1 + Find(es[1..], key)
  }

  ghost function Lookup(es: seq<string>, key: string): Option<string>
    requires AllEntries(es)
  {
    var i := Find(es, key);
    if i < |es| then Some(Value(es[i])) else None
  }

  function Without(es: seq<string>, key: string): seq<string> {
    var i := Find(es, key);
    if i < |es| then es[..i] + es[i + 1..] else es
  }

  function Join(args: seq<string>): string
    requires args != []
  {
    if |args| == 1 then args[0] else Join(args[..|args| - 1]) + " " + args[|args| - 1]
  }

  // ------------------------------------------------------------------------
  // The stored image: every entry NUL-terminated, and one more NUL at the
  // end; an empty environment is two NULs.

  function Packed(es: seq<string>): string {
    if es == [] then "" else Packed(es[..|es| - 1]) + es[|es| - 1] + [NUL]
  }

  function Image(es: seq<string>): string {
    if es == [] then [NUL, NUL] else Packed(es) + [NUL]
  }

  // ------------------------------------------------------------------------
  // One call of setenv. consoleOk and baudOk stand for the devices' answers.

  datatype Call = Call(name: string, args: seq<string>, consoleOk: bool, baudOk: bool)

  predicate IsCall(c: Call) {
    IsText(c.name) && forall a | a in c.args :: IsText(a)
  }

  // The names that are not overwritten: for good, or because a device
  // declines.
  predicate RefusedName(c: Call) {
    || c.name == "serial#" || c.name == "ethaddr"
    || ((c.name == "stdin" || c.name == "stdout" || c.name == "stderr") && (c.args == [] || !c.consoleOk))
    || (c.name == "baudrate" && !c.baudOk)
  }

  predicate Refused(es: seq<string>, c: Call) {
    Find(es, Key(c.name)) < |es| && RefusedName(c)
  }

  function NewEntry(c: Call): string
    requires c.args != []
  {
    c.name + "=" + Join(c.args)
  }

  // The return code, and the entries afterwards, in an environment of the
  // given size. On overflow the old definition is gone all the same.
  function Set(es: seq<string>, c: Call, size: nat): (int, seq<string>) {
    if Refused(es, c) then (1, es)
    else
      var rest := Without(es, Key(c.name));
      if c.args == [] then (0, rest)
      else if |Image(rest + [NewEntry(c)])| > size then (1, rest)
      else (0, rest + [NewEntry(c)])
  }

  // ------------------------------------------------------------------------

  lemma {:induction false} FindIsUnique(es: seq<string>, key: string, i: nat)
    requires WellFormed(es) && i < |es| && Key(es[i]) == key
    ensures Find(es, key) == i
  {
    assert forall j | 0 <= j < i :: Key(es[j]) != Key(es[i]);
  }

  lemma {:induction false} NotFound(es: seq<string>, key: string)
    requires forall i | 0 <= i < |es| :: Key(es[i]) != key
    ensures Find(es, key) == |es|
  {
  }

  lemma {:induction false} KeyOfAppend(a: string, b: string)
    ensures Key(a + "=" + b) == Key(a)
  {
    var e := a + "=" + b;
    if a == "" {
      assert e[0] == '=';
    } else {
      assert e[0] == a[0] && e[1..] == a[1..] + "=" + b;
      KeyOfAppend(a[1..], b);
    }
  }

  lemma ValueOfAppend(a: string, b: string)
    requires '=' !in a
    ensures '=' in a + "=" + b && Value(a + "=" + b) == b
  {
    KeyOfAppend(a, b);
    var e := a + "=" + b;
    assert e[|a|] == '=';
    assert e[|a| + 1..] == b;
  }

  lemma {:induction false} JoinIsText(args: seq<string>)
    requires args != [] && forall a | a in args :: IsText(a)
    ensures IsText(Join(args))
  {
    assert args[|args| - 1] in args;
    if |args| > 1 {
      JoinIsText(args[..|args| - 1]);
    }
  }

  lemma WithoutIsWellFormed(es: seq<string>, key: string)
    requires WellFormed(es)
    ensures WellFormed(Without(es, key))
    ensures forall k | k in Without(es, key) :: Key(k) != key
  {
    var i := Find(es, key);
    var r := Without(es, key);
    if i < |es| {
      forall j | 0 <= j < |r| ensures r[j] == es[if j < i then j else j + 1] && Key(r[j]) != key {
        var m := if j < i then j else j + 1;
        assert Key(es[m]) != Key(es[i]);
      }
    }
  }

  lemma SetIsWellFormed(es: seq<string>, c: Call, size: nat)
    requires WellFormed(es) && IsCall(c)
    ensures WellFormed(Set(es, c, size).1)
  {
    WithoutIsWellFormed(es, Key(c.name));
    if c.args != [] {
      JoinIsText(c.args);
      KeyOfAppend(c.name, Join(c.args));
    }
  }

  lemma LookupWithout(es: seq<string>, key: string, other: string)
    requires WellFormed(es)
    ensures WellFormed(Without(es, key))
    ensures Lookup(Without(es, key), other) == if other == key then None else Lookup(es, other)
  {
    WithoutIsWellFormed(es, key);
    var i, r := Find(es, key), Without(es, key);
    if other != key && i < |es| {
      LookupRemoved(es, i, r, other);
    }
  }

  lemma LookupRemoved(es: seq<string>, i: nat, r: seq<string>, other: string)
    requires WellFormed(es) && i < |es| && other != Key(es[i])
    requires r == es[..i] + es[i + 1..] && WellFormed(r)
    ensures Lookup(r, other) == Lookup(es, other)
  {
    var f := Find(es, other);
    if f < i {
      assert r[f] == es[f];
      FindIsUnique(r, other, f);
    } else if f < |es| {
      assert r[f - 1] == es[f];
      FindIsUnique(r, other, f - 1);
    } else {
      assert forall j | 0 <= j < |r| :: r[j] == es[if j < i then j else j + 1];
      NotFound(r, other);
    }
  }

  lemma {:induction false} LookupAppended(es: seq<string>, e: string, other: string)
    requires AllEntries(es) && WellFormed(es + [e]) && IsEntry(e)
    ensures Lookup(es + [e], other) == if other == Key(e) then Some(Value(e)) else Lookup(es, other)
  {
    var after := es + [e];
    assert after[|es|] == e;
    assert forall i | 0 <= i < |es| :: after[i] == es[i];
    var f := Find(es, other);
    if other == Key(e) {
      FindIsUnique(after, other, |es|);
    } else if f < |es| {
      FindIsUnique(after, other, f);
    } else {
      NotFound(after, other);
    }
  }

  // setenv is a map update: the named key gets the joined arguments (or
  // goes), and no other key changes.
  lemma SetIsMapUpdate(es: seq<string>, c: Call, size: nat, other: string)
    requires WellFormed(es) && IsCall(c) && '=' !in c.name
    ensures var (rc, after) := Set(es, c, size);
            && WellFormed(after)
            && Lookup(after, other) ==
               if other != c.name || Refused(es, c) then Lookup(es, other)
               else if c.args != [] && rc == 0 then Some(Join(c.args))
               else None
  {
    SetIsWellFormed(es, c, size);
    LookupWithout(es, c.name, other);
    var (rc, after) := Set(es, c, size);
    var rest := Without(es, c.name);
    assert Key(c.name) == c.name;
    if !Refused(es, c) && c.args != [] && rc == 0 {
      KeyOfAppend(c.name, Join(c.args));
      ValueOfAppend(c.name, Join(c.args));
      LookupAppended(rest, NewEntry(c), other);
    }
  }

  // ------------------------------------------------------------------------
  // Write-once variables over every run of setenv calls.

  const WRITE_ONCE: set<string> := {"serial#", "ethaddr"}

  function RunCalls(es: seq<string>, calls: seq<Call>, size: nat): seq<string> {
    if calls == [] then es else Set(RunCalls(es, calls[..|calls| - 1], size), calls[|calls| - 1], size).1
  }

  // A name that addresses a write-once variable under another spelling.
  predicate Disguised(name: string) {
    Key(name) in WRITE_ONCE && name !in WRITE_ONCE
  }

  lemma SetKeepsWriteOnce(es: seq<string>, c: Call, size: nat, name: string)
    requires WellFormed(es) && IsCall(c) && name in WRITE_ONCE && Lookup(es, name) != None
    requires !Disguised(c.name)
    ensures WellFormed(Set(es, c, size).1) && Lookup(Set(es, c, size).1, name) == Lookup(es, name)
  {
    SetIsWellFormed(es, c, size);
    if Key(c.name) == name {
      NoEqualsSign();
      assert c.name == name;
    } else {
      SetKeepsOthers(es, c, size, name);
    }
  }

  lemma SetKeepsOthers(es: seq<string>, c: Call, size: nat, other: string)
    requires WellFormed(es) && IsCall(c) && other != Key(c.name)
    ensures WellFormed(Set(es, c, size).1) && Lookup(Set(es, c, size).1, other) == Lookup(es, other)
  {
    SetIsWellFormed(es, c, size);
    LookupWithout(es, Key(c.name), other);
    var after := Set(es, c, size).1;
    var rest := Without(es, Key(c.name));
    if after != es && after != rest {
      KeyOfAppend(c.name, Join(c.args));
      LookupAppended(rest, NewEntry(c), other);
    }
  }

  // Once present, serial# and ethaddr keep their value over every run of
  // calls, overflowing ones included.
  lemma {:induction false} WriteOnce(es: seq<string>, calls: seq<Call>, size: nat, name: string)
    requires WellFormed(es) && name in WRITE_ONCE && Lookup(es, name) != None
    requires forall c | c in calls :: IsCall(c) && !Disguised(c.name)
    ensures WellFormed(RunCalls(es, calls, size)) && Lookup(RunCalls(es, calls, size), name) == Lookup(es, name)
  {
    if calls != [] {
      var n := |calls| - 1;
      WriteOnce(es, calls[..n], size, name);
      SetKeepsWriteOnce(RunCalls(es, calls[..n], size), calls[n], size, name);
    }
  }

  lemma NoEqualsSign()
    ensures '=' !in "stdin" && '=' !in "stdout" && '=' !in "stderr" && '=' !in "baudrate"
    ensures '=' !in "serial#" && '=' !in "ethaddr"
  {
  }

  // Under a disguise the variable can be deleted from any environment.
  lemma {:induction false} DisguiseDeletes(es: seq<string>, name: string, size: nat)
    requires WellFormed(es) && IsText(name) && Disguised(name)
    ensures var after := Set(es, Call(name, [], true, true), size).1;
            WellFormed(after) && Lookup(after, Key(name)) == None
  {
    NoEqualsSign();
    assert '=' in name;
    assert !Refused(es, Call(name, [], true, true));
    LookupWithout(es, Key(name), Key(name));
  }

  // The call keeps name's value wherever name is defined.
  ghost predicate Protects(newName: string, name: string) {
    forall es, c: Call, size: nat |
      WellFormed(es) && IsCall(c) && c.name == newName && Lookup(es, name) != None ::
      var after := Set(es, c, size).1;
      WellFormed(after) && Lookup(after, name) == Lookup(es, name)
  }

  lemma {:induction false} DisguiseIsNoProtection(newName: string)
    requires IsText(newName) && Disguised(newName)
    ensures !Protects(newName, Key(newName))
  {
    var key := Key(newName);
    var es := [key + "=" + ""];
    HasEntry(key);
    DisguiseDeletes(es, newName, 0);
    var c := Call(newName, [], true, true);
    NotProtected(es, c, 0, key);
  }

  // One call that changes the value is enough.
  lemma NotProtected(es: seq<string>, c: Call, size: nat, name: string)
    requires WellFormed(es) && IsCall(c) && Lookup(es, name) != None
    requires WellFormed(Set(es, c, size).1) && Lookup(Set(es, c, size).1, name) != Lookup(es, name)
    ensures !Protects(c.name, name)
  {
  }

  lemma HasEntry(key: string)
    requires IsText(key) && '=' !in key
    ensures var es := [key + "=" + ""]; WellFormed(es) && Lookup(es, key) == Some("")
  {
    KeyOfAppend(key, "");
    ValueOfAppend(key, "");
    FindIsUnique([key + "=" + ""], key, 0);
  }

  // The write-once variables are protected from exactly the names that are
  // no disguise: never from "serial#=...", and from all names without '='.
  lemma WriteOnceExactly(newName: string)
    requires IsText(newName)
    ensures !Disguised(newName) <==> forall name | name in WRITE_ONCE :: Protects(newName, name)
    ensures '=' !in newName ==> !Disguised(newName)
  {
    if Disguised(newName) {
      DisguiseIsNoProtection(newName);
    } else {
      forall name, es, c: Call, size: nat |
        name in WRITE_ONCE && WellFormed(es) && IsCall(c) && c.name == newName && Lookup(es, name) != None
        ensures WellFormed(Set(es, c, size).1)
        ensures Lookup(Set(es, c, size).1, name) == Lookup(es, name)
      {
        SetKeepsWriteOnce(es, c, size, name);
      }
    }
  }
}
