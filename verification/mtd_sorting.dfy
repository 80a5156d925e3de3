// Partitions sorted in one by one, by their offsets.
module MtdSorting {
  import opened Wrappers
  import opened MtdGrammar

  predicate Ascending(parts: seq<Part>) {
    forall i, j | 0 <= i < j < |parts| :: parts[i].offset <= parts[j].offset
  }

  predicate NoTies(parts: seq<Part>) {
    forall i, j | 0 <= i < j < |parts| :: parts[i].offset < parts[j].offset
  }

  predicate AllDifferent(parts: seq<Part>) {
    forall i, j | 0 <= i < j < |parts| :: parts[i] != parts[j]
  }

  lemma InFront(p: Part, parts: seq<Part>)
    requires Ascending(parts) && forall x | x in parts :: p.offset <= x.offset
    ensures Ascending([p] + parts) && multiset([p] + parts) == multiset(parts) + multiset{p}
  {
  }

  lemma FirstIsLeast(parts: seq<Part>)
    requires Ascending(parts) && parts != []
    ensures forall x | x in parts :: parts[0].offset <= x.offset
    ensures parts == [parts[0]] + parts[1..]
  {
  }

  // Sorting one in loses nothing and keeps the order.
  lemma {:induction false} SortAddSound(parts: seq<Part>, p: Part)
    requires Ascending(parts)
    ensures var r := SortAdd(parts, p);
            r.Some? ==> Ascending(r.value) && multiset(r.value) == multiset(parts) + multiset{p}
  {
    if parts != [] && SortAdd(parts, p).Some? {
      FirstIsLeast(parts);
      if p.offset <= parts[0].offset {
        InFront(p, parts);
      } else {
        SortAddSound(parts[1..], p);
        var tail := SortAdd(parts[1..], p).value;
        forall x | x in tail ensures parts[0].offset <= x.offset {
          assert x in multiset(tail);
        }
        InFront(parts[0], tail);
      }
    }
  }

  // It goes in front of the first one that does not start below it, and is
  // refused exactly if it and the first one both start at 0.
  lemma {:induction false} SortAddIsInsert(parts: seq<Part>, p: Part)
    requires Ascending(parts)
    ensures SortAdd(parts, p) == None <==> parts != [] && p.offset == 0 && parts[0].offset == 0
    ensures SortAdd(parts, p).Some? ==>
              exists k | 0 <= k <= |parts| ::
                && SortAdd(parts, p).value == parts[..k] + [p] + parts[k..]
                && (forall i | 0 <= i < k :: parts[i].offset < p.offset)
                && (forall i | k <= i < |parts| :: p.offset <= parts[i].offset)
  {
    if parts == [] {
      assert [p] == parts[..0] + [p] + parts[0..];
    } else if p.offset <= parts[0].offset {
      assert [p] + parts == parts[..0] + [p] + parts[0..];
    } else {
      var first, others := parts[0], parts[1..];
      SortAddIsInsert(others, p);
      var k :| 0 <= k <= |others| && SortAdd(others, p).value == others[..k] + [p] + others[k..]
               && (forall i | 0 <= i < k :: others[i].offset < p.offset)
               && (forall i | k <= i < |others| :: p.offset <= others[i].offset);
      InsertedBehind(parts, first, others, p, k);
    }
  }

  lemma InsertedBehind(parts: seq<Part>, first: Part, others: seq<Part>, p: Part, k: nat)
    requires parts != [] && first == parts[0] && others == parts[1..] && k <= |others| && first.offset < p.offset
    requires forall i | 0 <= i < k :: others[i].offset < p.offset
    requires forall i | k <= i < |others| :: p.offset <= others[i].offset
    ensures [first] + (others[..k] + [p] + others[k..]) == parts[..k + 1] + [p] + parts[k + 1..]
    ensures forall i | 0 <= i < k + 1 :: parts[i].offset < p.offset
    ensures forall i | k + 1 <= i < |parts| :: p.offset <= parts[i].offset
  {
    forall i | 0 < i < |parts| ensures parts[i] == others[i - 1] {
    }
  }

  // Partitions can be sorted in exactly if at most one of them starts at 0.
  lemma {:induction false} SortAddAllRefuses(parts: seq<Part>)
    ensures SortAddAll(parts) == None
            <==> exists i, j | 0 <= i < j < |parts| :: parts[i].offset == 0 && parts[j].offset == 0
  {
    if parts != [] {
      var n := |parts| - 1;
      var front, last := parts[..n], parts[n];
      SortAddAllRefuses(front);
      if SortAddAll(front).None? {
        var i, j :| 0 <= i < j < |front| && front[i].offset == 0 && front[j].offset == 0;
        assert parts[i] == front[i] && parts[j] == front[j];
      } else {
        var sorted := SortAddAll(front).value;
        SortAddAllSound(front);
        SortAddIsInsert(sorted, last);
        FirstIsZero(front, sorted);
        OneZeroMore(parts, front, last);
      }
    }
  }

  // The first one in order starts at 0 exactly if one does.
  lemma FirstIsZero(front: seq<Part>, sorted: seq<Part>)
    requires Ascending(sorted) && multiset(sorted) == multiset(front)
    ensures sorted != [] && sorted[0].offset == 0 <==> exists i | 0 <= i < |front| :: front[i].offset == 0
  {
    if sorted != [] && sorted[0].offset == 0 {
      InFrontToo(front, sorted, 0);
    }
    forall i | 0 <= i < |front| && front[i].offset == 0 ensures sorted != [] && sorted[0].offset == 0 {
      InFrontToo(sorted, front, i);
      FirstIsLeast(sorted);
    }
  }

  lemma OneZeroMore(parts: seq<Part>, front: seq<Part>, last: Part)
    requires parts != [] && front == parts[..|parts| - 1] && last == parts[|parts| - 1]
    requires forall i, j | 0 <= i < j < |front| :: !(front[i].offset == 0 && front[j].offset == 0)
    ensures (exists i, j | 0 <= i < j < |parts| :: parts[i].offset == 0 && parts[j].offset == 0)
            <==> last.offset == 0 && exists i | 0 <= i < |front| :: front[i].offset == 0
  {
    if last.offset == 0 && exists i | 0 <= i < |front| :: front[i].offset == 0 {
      var i :| 0 <= i < |front| && front[i].offset == 0;
      assert parts[i].offset == 0 && parts[|front|].offset == 0;
    }
    assert forall i | 0 <= i < |front| :: parts[i] == front[i];
  }

  lemma LastJoins(front: seq<Part>, last: Part, parts: seq<Part>)
    requires parts != [] && front == parts[..|parts| - 1] && last == parts[|parts| - 1]
    ensures multiset(parts) == multiset(front) + multiset{last}
  {
    assert parts == front + [last];
  }

  lemma {:induction false} SortAddAllSound(parts: seq<Part>)
    ensures var r := SortAddAll(parts);
            r.Some? ==> Ascending(r.value) && multiset(r.value) == multiset(parts)
  {
    if parts != [] && SortAddAll(parts).Some? {
      var front, last := parts[..|parts| - 1], parts[|parts| - 1];
      SortAddAllSound(front);
      var sorted := SortAddAll(front).value;
      SortAddSound(sorted, last);
      LastJoins(front, last, parts);
    }
  }

  // Partitions in ascending order are kept in that order.
  lemma {:induction false} SortAddLast(parts: seq<Part>, p: Part)
    requires forall i | 0 <= i < |parts| :: parts[i].offset < p.offset
    ensures SortAdd(parts, p) == Some(parts + [p])
  {
    if parts != [] {
      SortAddLast(parts[1..], p);
      assert [parts[0]] + (parts[1..] + [p]) == parts + [p];
    } else {
      assert parts + [p] == [p];
    }
  }

  // One that ties with the last one is put in front of it.
  lemma {:induction false} SortAddTied(parts: seq<Part>, p: Part)
    requires parts != [] && p.offset <= parts[|parts| - 1].offset
    ensures var r := SortAdd(parts, p);
            r.Some? ==> |r.value| == |parts| + 1 && r.value[|parts|] == parts[|parts| - 1]
  {
    if SortAdd(parts, p).Some? && p.offset > parts[0].offset {
      SortAddTied(parts[1..], p);
    }
  }

  // Sorted in one by one, partitions in order come out as they are exactly if
  // no two of them tie.
  lemma {:induction false} SortAddAllExactly(parts: seq<Part>)
    requires AllDifferent(parts)
    ensures SortAddAll(parts) == Some(parts) <==> NoTies(parts)
  {
    if parts != [] {
      var n := |parts| - 1;
      var front, last := parts[..n], parts[n];
      SortAddAllExactly(front);
      assert parts == front + [last];
      if NoTies(parts) {
        SortAddLast(front, last);
      } else if SortAddAll(front).Some? {
        TiesAreMoved(parts, front, last, SortAddAll(front).value);
      }
    }
  }

  // With a tie somewhere: either it is in front, and what is added behind does
  // not mend it, or it is that of the last two.
  lemma {:induction false} TiesAreMoved(parts: seq<Part>, front: seq<Part>, last: Part, sorted: seq<Part>)
    requires parts == front + [last] && AllDifferent(parts) && !NoTies(parts)
    requires SortAddAll(front) == Some(sorted) && (sorted == front <==> NoTies(front))
    ensures SortAdd(sorted, last) != Some(parts)
  {
    SortAddAllSound(front);
    SameLength(front, sorted);
    if front == [] {
      StillNoTies(front, last, parts);
    } else {
      var end := sorted[|sorted| - 1];
      if last.offset <= end.offset {
        InFrontToo(front, sorted, |sorted| - 1);
        TiedIsMoved(parts, front, last, sorted, end);
      } else {
        LastIsAdded(parts, front, last, sorted, end);
      }
    }
  }

  lemma {:induction false} TiedIsMoved(parts: seq<Part>, front: seq<Part>, last: Part, sorted: seq<Part>, end: Part)
    requires parts == front + [last] && AllDifferent(parts) && |sorted| == |front| > 0
    requires end == sorted[|sorted| - 1] && end in front && last.offset <= end.offset
    ensures SortAdd(sorted, last) != Some(parts)
  {
    SortAddTied(sorted, last);
    var i :| 0 <= i < |front| && front[i] == end;
    assert parts[i] == end && parts[|front|] == last;
  }

  lemma {:induction false} LastIsAdded(parts: seq<Part>, front: seq<Part>, last: Part, sorted: seq<Part>, end: Part)
    requires parts == front + [last] && !NoTies(parts) && Ascending(sorted) && |sorted| == |front| > 0
    requires end == sorted[|sorted| - 1] && end.offset < last.offset && (sorted == front <==> NoTies(front))
    ensures SortAdd(sorted, last) != Some(parts)
  {
    SortAddLast(sorted, last);
    if NoTies(front) {
      StillNoTies(front, last, parts);
    } else {
      assert (sorted + [last])[..|front|] == sorted && parts[..|front|] == front;
    }
  }

  lemma StillNoTies(front: seq<Part>, last: Part, parts: seq<Part>)
    requires parts == front + [last] && NoTies(front) && (front != [] ==> front[|front| - 1].offset < last.offset)
    ensures NoTies(parts)
  {
  }

  lemma SameLength(a: seq<Part>, b: seq<Part>)
    requires multiset(a) == multiset(b)
    ensures |a| == |b|
  {
    assert |multiset(a)| == |a| && |multiset(b)| == |b|;
  }

  // What stands in the sorted list stood in the list.
  lemma InFrontToo(a: seq<Part>, b: seq<Part>, i: nat)
    requires multiset(a) == multiset(b) && i < |b|
    ensures b[i] in a
  {
    assert b[i] in multiset(b);
  }
}
