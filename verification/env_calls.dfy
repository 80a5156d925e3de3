// What one call of setenv does, by the name it is given.
module EnvCalls {
  import opened Wrappers
  import opened EnvEntries
  import opened EnvStore

  // ------------------------------------------------------------------------
  // The room an environment takes.

  // Every entry and its NUL.
  function Total(es: seq<string>): nat {
    if es == [] then 0 else |es[0]| + 1 + Total(es[1..])
  }

  lemma {:induction false} TotalAppend(a: seq<string>, b: seq<string>)
    ensures Total(a + b) == Total(a) + Total(b)
  {
    if a == [] {
      assert a + b == b;
    } else {
      assert (a + b)[1..] == a[1..] + b;
      TotalAppend(a[1..], b);
    }
  }

  lemma {:induction false} PackedIsTotal(es: seq<string>)
    ensures |Packed(es)| == Total(es)
  {
    if es != [] {
      var n := |es| - 1;
      PackedIsTotal(es[..n]);
      TotalAppend(es[..n], [es[n]]);
      assert es == es[..n] + [es[n]];
      assert Total([es[n]]) == |es[n]| + 1 + Total([]);
    }
  }

  // What the definition of a name takes now: its text, '=', the value, NUL.
  ghost function Taken(es: seq<string>, name: string): nat
    requires AllEntries(es)
  {
    match Lookup(es, name)
    case None => 0
    case Some(value) => |name| + 1 + |value| + 1
  }

  // There is room for the new definition in place of the old one, and for the
  // NUL that ends the environment.
  ghost predicate HasRoom(es: seq<string>, c: Call, size: nat)
    requires AllEntries(es) && c.args != []
  {
    Total(es) - Taken(es, c.name) + |c.name| + 1 + |Join(c.args)| + 1 + 1 <= size
  }

  lemma {:induction false} TotalWithout(es: seq<string>, name: string)
    requires WellFormed(es) && '=' !in name
    ensures Total(Without(es, name)) == Total(es) - Taken(es, name)
  {
    var i := Find(es, name);
    if i < |es| {
      assert IsEntry(es[i]);
      assert es == es[..i] + ([es[i]] + es[i + 1..]);
      TotalAppend(es[..i], [es[i]] + es[i + 1..]);
      TotalAppend([es[i]], es[i + 1..]);
      TotalAppend(es[..i], es[i + 1..]);
      assert Total([es[i]]) == |es[i]| + 1 + Total([]);
      assert Key(es[i]) == name;
    }
  }

  lemma {:induction false} RoomIsSize(es: seq<string>, c: Call, size: nat)
    requires WellFormed(es) && '=' !in c.name && c.args != []
    ensures |Image(Without(es, c.name) + [NewEntry(c)])| <= size <==> HasRoom(es, c, size)
  {
    var rest, e := Without(es, c.name), NewEntry(c);
    TotalWithout(es, c.name);
    TotalAppend(rest, [e]);
    PackedIsTotal(rest + [e]);
    assert Total([e]) == |e| + 1 + Total([]);
    assert rest + [e] != [];
  }

  // ------------------------------------------------------------------------
  // The joined arguments.

  lemma {:induction false} JoinIsSpaced(a: seq<string>, b: seq<string>)
    requires a != [] && b != []
    ensures Join(a + b) == Join(a) + " " + Join(b)
    ensures |a| == 1 ==> Join(a) == a[0]
  {
    var n := |b| - 1;
    assert (a + b)[..|a + b| - 1] == a + b[..n];
    if n == 0 {
      assert a + b[..n] == a;
    } else {
      JoinIsSpaced(a, b[..n]);
      assert Join(a) + " " + Join(b[..n]) + " " + b[n] == Join(a) + " " + (Join(b[..n]) + " " + b[n]);
    }
  }

  // ------------------------------------------------------------------------

  const FOR_GOOD: set<string> := {"serial#", "ethaddr"}
  const CONSOLES: set<string> := {"stdin", "stdout", "stderr"}

  // The old value stays: of two variables always, of the consoles if they are
  // deleted or the device cannot be assigned, of the baud rate if it is not
  // supported.
  ghost predicate Stays(es: seq<string>, c: Call)
    requires AllEntries(es)
  {
    && Lookup(es, c.name) != None
    && (|| c.name in FOR_GOOD
        || (c.name in CONSOLES && (c.args == [] || !c.consoleOk))
        || (c.name == "baudrate" && !c.baudOk))
  }

  lemma {:induction false} StaysIsRefused(es: seq<string>, c: Call)
    requires AllEntries(es) && '=' !in c.name
    ensures Refused(es, c) <==> Stays(es, c)
  {
    assert Key(c.name) == c.name;
  }

  // What the name stands for after the call, and the return code: the old
  // value and 1 if it stays; nothing and 0 after a deletion; the joined
  // arguments and 0 if there is room, else nothing and 1. Every other name
  // keeps its value.
  lemma {:induction false} CallByName(es: seq<string>, c: Call, size: nat, other: string)
    requires WellFormed(es) && IsCall(c) && '=' !in c.name
    ensures var (rc, after) := Set(es, c, size);
            && WellFormed(after)
            && rc == (if Stays(es, c) then 1 else if c.args == [] || HasRoom(es, c, size) then 0 else 1)
            && Lookup(after, c.name) ==
               (if Stays(es, c) then Lookup(es, c.name)
                else if c.args != [] && HasRoom(es, c, size) then Some(Join(c.args))
                else None)
            && (other != c.name ==> Lookup(after, other) == Lookup(es, other))
  {
    assert Key(c.name) == c.name;
    StaysIsRefused(es, c);
    if c.args != [] {
      RoomIsSize(es, c, size);
    }
    SetIsMapUpdate(es, c, size, c.name);
    SetIsMapUpdate(es, c, size, other);
  }

  // All names but six can be set and deleted at any time.
  lemma {:induction false} PlainNames(es: seq<string>, c: Call, size: nat)
    requires WellFormed(es) && IsCall(c) && '=' !in c.name
    requires c.name !in {"serial#", "ethaddr", "stdin", "stdout", "stderr", "baudrate"}
    ensures var (rc, after) := Set(es, c, size);
            && WellFormed(after)
            && (rc == 0 <==> c.args == [] || HasRoom(es, c, size))
            && Lookup(after, c.name) == if c.args != [] && rc == 0 then Some(Join(c.args)) else None
  {
    CallByName(es, c, size, c.name);
  }

  // In the array: what was set is what is found.
  method SetThenGet(store: Store, c: Call) returns (rc: int, value: Option<nat>)
    requires store.Valid() && IsCall(c) && '=' !in c.name
    modifies store.data, store`entries
    ensures store.Valid()
    ensures !old(Stays(store.entries, c)) && c.args != [] && old(HasRoom(store.entries, c, store.data.Length)) ==>
              rc == 0 && value.Some? && TextAt(store.data[..], value.value, Join(c.args))
    ensures !old(Stays(store.entries, c)) && c.args == [] ==> rc == 0 && value == None
    ensures old(Stays(store.entries, c)) ==>
              && rc == 1 && value.Some?
              && TextAt(store.data[..], value.value, old(Lookup(store.entries, c.name)).value)
  {
    CallByName(store.entries, c, store.data.Length, c.name);
    rc := store.Setenv(c);
    value := store.Getenv(c.name);
  }

  // What the lookup of a name means for the text: the variable has that value
  // exactly if there is an entry of that text.
  lemma {:induction false} LookupIsEntry(es: seq<string>, name: string, v: string)
    requires WellFormed(es) && '=' !in name
    ensures Lookup(es, name) == Some(v) <==> name + "=" + v in es
  {
    KeyOfAppend(name, v);
    var e := name + "=" + v;
    if e in es {
      var i :| 0 <= i < |es| && es[i] == e;
      FindIsUnique(es, name, i);
      assert e[|name| + 1..] == v;
    }
    if Lookup(es, name) == Some(v) {
      var i := Find(es, name);
      assert es[i] == name + [es[i][|name|]] + es[i][|name| + 1..];
    }
  }
}
