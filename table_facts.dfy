/**
 * What the tables built by `addCycle` and the constructor contain: every alphabet
 * symbol is a key of both maps, cycle entries survive the fill, leftover symbols
 * are fixed, and for disjoint cycles over the alphabet the two maps are inverse
 * bijections of the alphabet.
 */
module TableFacts {
  import opened Alphabets
  import opened CycleNotation
  import opened CycleTables

  // ---- one cycle ----

  lemma {:induction false} AddCyclePrefixKeys(t: Tables, c: string, k: nat)
    requires k <= |c|
    ensures var u := AddCyclePrefix(t, c, k);
      (forall x :: x in u.forward <==> x in t.forward || x in c[..k]) &&
      (forall x :: x in u.inverse <==> x in t.inverse || exists i :: 0 <= i < k && Succ(c, i) == x) &&
      (forall x :: x in t.forward && x !in c[..k] ==> u.forward[x] == t.forward[x]) &&
      (forall x :: x in t.inverse && (forall i :: 0 <= i < k ==> Succ(c, i) != x) ==> u.inverse[x] == t.inverse[x])
    decreases k
  {
    if k > 0 {
      AddCyclePrefixKeys(t, c, k - 1);
      assert c[..k] == c[..k - 1] + [c[k - 1]];
    }
  }

  /** The successors of a cycle's symbols are the cycle's symbols. */
  lemma SuccsCoverCycle(c: string, x: char)
    ensures (exists i :: 0 <= i < |c| && Succ(c, i) == x) <==> x in c
  {
    if x in c {
      var k :| 0 <= k < |c| && c[k] == x;
      var i := PredIndex(|c|, k);
      assert Succ(c, i) == x;
    }
  }

  /** `addCycle` adds exactly the cycle's symbols as keys of both maps and leaves
   *  every other key as it was, whatever the cycle. */
  lemma AddCycleKeys(t: Tables, c: string)
    ensures var u := AddCycle(t, c);
      (forall x :: x in u.forward <==> x in t.forward || x in c) &&
      (forall x :: x in u.inverse <==> x in t.inverse || x in c) &&
      (forall x :: x in t.forward && x !in c ==> u.forward[x] == t.forward[x]) &&
      (forall x :: x in t.inverse && x !in c ==> u.inverse[x] == t.inverse[x])
  {
    AddCyclePrefixKeys(t, c, |c|);
    assert c[..|c|] == c;
    forall x
      ensures (exists i :: 0 <= i < |c| && Succ(c, i) == x) <==> x in c
    {
      SuccsCoverCycle(c, x);
    }
  }

  lemma {:induction false} AddCyclePrefixRecords(t: Tables, c: string, k: nat)
    requires k <= |c|
    requires NoDup(c)
    ensures var u := AddCyclePrefix(t, c, k);
      forall i :: 0 <= i < k ==>
        c[i] in u.forward && u.forward[c[i]] == Succ(c, i) &&
        Succ(c, i) in u.inverse && u.inverse[Succ(c, i)] == c[i]
    decreases k
  {
    if k > 0 {
      AddCyclePrefixRecords(t, c, k - 1);
      var n := |c|;
      var v := AddCyclePrefix(t, c, k - 1);
      var u := Record(v, c, k - 1);
      forall i | 0 <= i < k
        ensures c[i] in u.forward && u.forward[c[i]] == Succ(c, i)
        ensures Succ(c, i) in u.inverse && u.inverse[Succ(c, i)] == c[i]
      {
        if i < k - 1 {
          assert SuccIndex(n, i) != SuccIndex(n, k - 1);
          assert c[i] != c[k - 1] && Succ(c, i) != Succ(c, k - 1);
        }
      }
    }
  }

  /** For a cycle without repeated symbols, `addCycle` records `ci -> c(i+1)` and
   *  `cm -> c0` forward, and the mirror pairs backward. */
  lemma AddCycleRecords(t: Tables, c: string)
    requires NoDup(c)
    ensures Records(AddCycle(t, c), c)
  {
    AddCyclePrefixRecords(t, c, |c|);
  }

  /** A one-symbol cycle maps its symbol to itself in both directions. */
  lemma SingletonCycle(t: Tables, x: char)
    ensures var u := AddCycle(t, [x]);
      x in u.forward && u.forward[x] == x && x in u.inverse && u.inverse[x] == x
  {
    AddCycleRecords(t, [x]);
    assert Succ([x], 0) == x;
  }

  /** Records survive any change that leaves the cycle's symbols alone. */
  lemma RecordsKept(t: Tables, u: Tables, c: string)
    requires Records(t, c)
    requires forall x :: x in c && x in t.forward ==> x in u.forward && u.forward[x] == t.forward[x]
    requires forall x :: x in c && x in t.inverse ==> x in u.inverse && u.inverse[x] == t.inverse[x]
    ensures Records(u, c)
  {
    forall i | 0 <= i < |c|
      ensures Succ(c, i) in c
    {
      assert c[SuccIndex(|c|, i)] == Succ(c, i);
    }
  }

  // ---- all cycles ----

  /** Flattening peels off the last cycle as well as the first. */
  lemma {:induction false} FlattenLast(cs: seq<string>)
    requires cs != []
    ensures Flatten(cs) == Flatten(cs[..|cs| - 1]) + cs[|cs| - 1]
    decreases |cs|
  {
    if |cs| > 1 {
      FlattenLast(cs[1..]);
      assert cs[1..][..|cs| - 2] == cs[..|cs| - 1][1..];
    } else {
      assert cs[..0] == [];
    }
  }

  lemma {:induction false} InFlatten(cs: seq<string>, j: nat, x: char)
    requires j < |cs| && x in cs[j]
    ensures x in Flatten(cs)
    decreases |cs|
  {
    FlattenLast(cs);
    if j < |cs| - 1 {
      InFlatten(cs[..|cs| - 1], j, x);
    }
  }

  /** A symbol of the flattened cycles sits at some position of some cycle. */
  lemma {:induction false} FindSymbol(cs: seq<string>, x: char) returns (j: nat, i: nat)
    requires x in Flatten(cs)
    ensures j < |cs| && i < |cs[j]| && cs[j][i] == x
    decreases |cs|
  {
    var init := cs[..|cs| - 1];
    FlattenLast(cs);
    if x in cs[|cs| - 1] {
      j := |cs| - 1;
      i :| 0 <= i < |cs[j]| && cs[j][i] == x;
    } else {
      j, i := FindSymbol(init, x);
    }
  }

  lemma NoDupConcat(a: string, b: string)
    requires NoDup(a + b)
    ensures NoDup(a) && NoDup(b)
    ensures forall x :: x in a ==> x !in b
  {
    var ab := a + b;
    forall i, j | 0 <= i < j < |a|
      ensures a[i] != a[j]
    {
      assert a[i] == ab[i] && a[j] == ab[j];
    }
    forall i, j | 0 <= i < j < |b|
      ensures b[i] != b[j]
    {
      assert b[i] == ab[|a| + i] && b[j] == ab[|a| + j];
    }
    forall i, j | 0 <= i < |a| && 0 <= j < |b|
      ensures a[i] != b[j]
    {
      assert a[i] == ab[i] && b[j] == ab[|a| + j];
    }
  }

  /** Disjoint cycles: each has no repeat, and a symbol of one is in no other. */
  lemma {:induction false} DisjointParts(cs: seq<string>)
    requires Disjoint(cs)
    ensures forall j :: 0 <= j < |cs| ==> NoDup(cs[j])
    ensures forall j1, j2, x :: 0 <= j1 < j2 < |cs| && x in cs[j1] ==> x !in cs[j2]
    decreases |cs|
  {
    if cs != [] {
      var init := cs[..|cs| - 1];
      FlattenLast(cs);
      NoDupConcat(Flatten(init), cs[|cs| - 1]);
      DisjointParts(init);
      forall j1, x | 0 <= j1 < |cs| - 1 && x in cs[j1]
        ensures x !in cs[|cs| - 1]
      {
        assert cs[j1] == init[j1];
        InFlatten(init, j1, x);
      }
      assert forall j :: 0 <= j < |cs| - 1 ==> cs[j] == init[j];
    }
  }

  /** The keys after all cycles are exactly the cycle symbols, in both maps. */
  lemma {:induction false} AddCyclesKeys(t: Tables, cs: seq<string>)
    ensures forall x :: x in AddCycles(t, cs).forward <==> x in t.forward || x in Flatten(cs)
    ensures forall x :: x in AddCycles(t, cs).inverse <==> x in t.inverse || x in Flatten(cs)
    decreases |cs|
  {
    if cs != [] {
      FlattenLast(cs);
      AddCyclesKeys(t, cs[..|cs| - 1]);
      AddCycleKeys(AddCycles(t, cs[..|cs| - 1]), cs[|cs| - 1]);
    }
  }

  /** With disjoint cycles, every cycle's pairs are still in place after all of them. */
  lemma {:induction false} AddCyclesRecords(t: Tables, cs: seq<string>)
    requires Disjoint(cs)
    ensures forall j :: 0 <= j < |cs| ==> Records(AddCycles(t, cs), cs[j])
    decreases |cs|
  {
    if cs != [] {
      var init, last := cs[..|cs| - 1], cs[|cs| - 1];
      var v := AddCycles(t, init);
      var u := AddCycle(v, last);
      DisjointParts(cs);
      FlattenLast(cs);
      NoDupConcat(Flatten(init), last);
      AddCyclesRecords(t, init);
      AddCycleRecords(v, last);
      AddCycleKeys(v, last);
      forall j | 0 <= j < |cs| - 1
        ensures Records(u, cs[j])
      {
        assert cs[j] == init[j];
        RecordsKept(v, u, cs[j]);
      }
    }
  }

  // ---- the fill ----

  lemma {:induction false} FillPrefixFacts(t: Tables, a: seq<char>, k: nat)
    requires k <= |a|
    requires forall x :: x in t.forward <==> x in t.inverse
    ensures var u := FillPrefix(t, a, k);
      (forall x :: x in u.forward <==> x in t.forward || x in a[..k]) &&
      (forall x :: x in u.inverse <==> x in t.inverse || x in a[..k]) &&
      (forall x :: x in t.forward ==> u.forward[x] == t.forward[x] && u.inverse[x] == t.inverse[x]) &&
      (forall x :: x !in t.forward && x in a[..k] ==> u.forward[x] == x && u.inverse[x] == x)
    decreases k
  {
    if k > 0 {
      FillPrefixFacts(t, a, k - 1);
      assert a[..k] == a[..k - 1] + [a[k - 1]];
    }
  }

  /** One more turn of the constructor's first loop adds the next cycle. */
  lemma AddCyclesStep(t: Tables, cs: seq<string>, j: nat)
    requires j < |cs|
    ensures AddCycles(t, cs[..j + 1]) == AddCycle(AddCycles(t, cs[..j]), cs[j])
  {
    assert cs[..j + 1][..j] == cs[..j];
  }

  // ---- the finished tables ----

  /** Every alphabet symbol and every cycle symbol is a key of both maps, and
   *  nothing else is; this holds for any cycle string. */
  lemma BuildKeys(s: string, a: seq<char>)
    ensures var b := Build(s, a);
      (forall x :: x in b.forward <==> x in Flatten(Cycles(s)) || x in a) &&
      (forall x :: x in b.inverse <==> x in Flatten(Cycles(s)) || x in a)
  {
    var cs := Cycles(s);
    AddCyclesKeys(NoTables, cs);
    var v := AddCycles(NoTables, cs);
    assert forall x :: x in v.forward <==> x in v.inverse;
    FillPrefixFacts(v, a, |a|);
    assert a[..|a|] == a;
  }

  /** Every alphabet symbol is a key of both finished maps. */
  lemma BuildCoversAlphabet(s: string, a: seq<char>)
    ensures forall x :: x in a ==> x in Build(s, a).forward && x in Build(s, a).inverse
  {
    BuildKeys(s, a);
  }

  /** The fill does not change what the cycles wrote, and sends every alphabet
   *  symbol that no cycle mentions to itself in both directions. */
  lemma BuildEntries(s: string, a: seq<char>)
    ensures var b, v := Build(s, a), AddCycles(NoTables, Cycles(s));
      (forall x :: x in Flatten(Cycles(s)) ==>
         x in v.forward && x in b.forward && b.forward[x] == v.forward[x] &&
         x in v.inverse && x in b.inverse && b.inverse[x] == v.inverse[x]) &&
      (forall x :: x in a && x !in Flatten(Cycles(s)) ==>
         x in b.forward && b.forward[x] == x && x in b.inverse && b.inverse[x] == x)
  {
    var cs := Cycles(s);
    AddCyclesKeys(NoTables, cs);
    var v := AddCycles(NoTables, cs);
    assert forall x :: x in v.forward <==> x in v.inverse;
    FillPrefixFacts(v, a, |a|);
    assert a[..|a|] == a;
  }

  /** With disjoint cycles, every cycle's pairs are in the finished tables. */
  lemma BuildRecords(s: string, a: seq<char>)
    requires Disjoint(Cycles(s))
    ensures forall j :: 0 <= j < |Cycles(s)| ==> Records(Build(s, a), Cycles(s)[j])
  {
    var cs := Cycles(s);
    var v := AddCycles(NoTables, cs);
    AddCyclesRecords(NoTables, cs);
    AddCyclesKeys(NoTables, cs);
    BuildKeys(s, a);
    BuildEntries(s, a);
    forall j | 0 <= j < |cs|
      ensures Records(Build(s, a), cs[j])
    {
      forall x | x in cs[j]
        ensures x in Flatten(cs)
      {
        InFlatten(cs, j, x);
      }
      RecordsKept(v, Build(s, a), cs[j]);
    }
  }

  /** The empty cycle string gives the identity on the alphabet, both ways. */
  lemma BuildEmpty(a: seq<char>)
    ensures var b := Build("", a);
      (forall x :: x in b.forward <==> x in a) &&
      (forall x :: x in b.inverse <==> x in a) &&
      (forall x :: x in a ==> b.forward[x] == x && b.inverse[x] == x)
  {
    ParseEmpty();
    assert Flatten([""]) == [];
    BuildKeys("", a);
    BuildEntries("", a);
  }

  /** What a recorded cycle says about one of its symbols. */
  lemma RecordAt(b: Tables, c: string, k: nat)
    requires Records(b, c)
    requires k < |c|
    ensures c[k] in b.forward && b.forward[c[k]] == c[SuccIndex(|c|, k)]
    ensures c[k] in b.inverse && b.inverse[c[k]] == c[PredIndex(|c|, k)]
  {
    var i := PredIndex(|c|, k);
    assert Succ(c, i) == c[k];
  }

  /** For disjoint cycles over the alphabet, the inverse map undoes the forward map
   *  and the forward map undoes the inverse map on every alphabet symbol, and both
   *  stay inside the alphabet. */
  lemma BuildRoundTrip(s: string, a: seq<char>, x: char)
    requires WellFormed(s, a)
    requires x in a
    ensures x in Build(s, a).forward && x in Build(s, a).inverse
    ensures Build(s, a).forward[x] in a && Build(s, a).inverse[x] in a
    ensures Build(s, a).forward[x] in Build(s, a).inverse
    ensures Build(s, a).inverse[Build(s, a).forward[x]] == x
    ensures Build(s, a).inverse[x] in Build(s, a).forward
    ensures Build(s, a).forward[Build(s, a).inverse[x]] == x
  {
    var cs := Cycles(s);
    var b := Build(s, a);
    BuildKeys(s, a);
    BuildEntries(s, a);
    if x in Flatten(cs) {
      BuildRecords(s, a);
      var j, k := FindSymbol(cs, x);
      var c := cs[j];
      var n := |c|;
      var k1, k0 := SuccIndex(n, k), PredIndex(n, k);
      RecordAt(b, c, k);
      RecordAt(b, c, k1);
      RecordAt(b, c, k0);
      assert PredIndex(n, k1) == k;
      InFlatten(cs, j, c[k1]);
      InFlatten(cs, j, c[k0]);
    }
  }

  /** For disjoint cycles over the alphabet, both maps send alphabet symbols to
   *  alphabet symbols. */
  lemma ImageInAlphabet(s: string, a: seq<char>, x: char)
    requires x in a
    ensures WellFormed(s, a) ==>
      x in Build(s, a).forward && Build(s, a).forward[x] in a &&
      x in Build(s, a).inverse && Build(s, a).inverse[x] in a
  {
    if WellFormed(s, a) {
      BuildRoundTrip(s, a, x);
    }
  }

  /** Disjoint cycles that cover the alphabet and have no one-symbol cycle leave
   *  the forward map without a fixed point. */
  lemma CoverNoFixedPoint(s: string, a: seq<char>)
    requires WellFormed(s, a)
    requires forall x :: x in a ==> x in Flatten(Cycles(s))
    requires forall j :: 0 <= j < |Cycles(s)| ==> |Cycles(s)[j]| != 1
    ensures NoFixedPoint(Build(s, a).forward)
  {
    var cs := Cycles(s);
    var b := Build(s, a);
    BuildKeys(s, a);
    BuildRecords(s, a);
    forall x | x in b.forward
      ensures b.forward[x] != x
    {
      var j, i := FindSymbol(cs, x);
      var c := cs[j];
      assert Records(b, c);
      assert SuccIndex(|c|, i) != i;
      DisjointParts(cs);
    }
  }

  /** With disjoint cycles, a one-symbol cycle is a fixed point of the forward map. */
  lemma SingletonNoDerangement(s: string, a: seq<char>, j: nat)
    requires Disjoint(Cycles(s))
    requires j < |Cycles(s)| && |Cycles(s)[j]| == 1
    ensures !NoFixedPoint(Build(s, a).forward)
  {
    var c := Cycles(s)[j];
    var b := Build(s, a);
    BuildRecords(s, a);
    assert Records(b, c);
    assert Succ(c, 0) == c[0];
  }

  /** For disjoint cycles over the alphabet, the forward map has no fixed point
   *  exactly when the cycles cover the whole alphabet and none has one symbol. */
  lemma BuildNoFixedPoint(s: string, a: seq<char>)
    requires WellFormed(s, a)
    ensures NoFixedPoint(Build(s, a).forward) <==>
      (forall x :: x in a ==> x in Flatten(Cycles(s))) &&
      (forall j :: 0 <= j < |Cycles(s)| ==> |Cycles(s)[j]| != 1)
  {
    var cs := Cycles(s);
    if (forall x :: x in a ==> x in Flatten(cs)) && (forall j :: 0 <= j < |cs| ==> |cs[j]| != 1) {
      CoverNoFixedPoint(s, a);
    } else if exists x :: x in a && x !in Flatten(cs) {
      var x :| x in a && x !in Flatten(cs);
      BuildEntries(s, a);
      assert Build(s, a).forward[x] == x;
    } else {
      var j :| 0 <= j < |cs| && |cs[j]| == 1;
      SingletonNoDerangement(s, a, j);
    }
  }
}
