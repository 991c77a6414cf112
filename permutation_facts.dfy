/**
 * What the queries of a constructed `Permutation` answer: the pairs each cycle
 * contributes, the self-mapped leftovers, the identity for an empty cycle string,
 * the round trips between `permute` and `invert`, the periodicity of the index
 * forms, and when `derangement` holds.
 */
module PermutationFacts {
  import opened Options
  import opened Alphabets
  import opened CycleNotation
  import opened CycleTables
  import opened TableFacts
  import opened Permutations

  /** Every alphabet symbol and every cycle symbol is a key of both maps, and
   *  nothing else is, whatever the cycle string. */
  lemma Keys(p: Permutation)
    requires p.Valid()
    ensures forall x :: x in p.dictionary <==> x in Flatten(Cycles(p.cycles)) || x in p.alphabet
    ensures forall x :: x in p.invDictionary <==> x in Flatten(Cycles(p.cycles)) || x in p.alphabet
  {
    BuildKeys(p.cycles, p.alphabet);
  }

  /** For disjoint cycles, cycle c0 ... cm sends ci to c(i+1) and cm to c0, and
   *  `invert` sends them back. */
  lemma CycleEntries(p: Permutation, j: nat, i: nat)
    requires p.Valid() && Disjoint(Cycles(p.cycles))
    requires j < |Cycles(p.cycles)| && i < |Cycles(p.cycles)[j]|
    ensures var c := Cycles(p.cycles)[j];
      var next := if i == |c| - 1 then c[0] else c[i + 1];
      p.PermuteChar(c[i]) == Some(next) && p.InvertChar(next) == Some(c[i])
  {
    var c := Cycles(p.cycles)[j];
    BuildRecords(p.cycles, p.alphabet);
    assert Records(Build(p.cycles, p.alphabet), c);
    assert Succ(c, i) == if i == |c| - 1 then c[0] else c[i + 1];
  }

  /** For disjoint cycles, a one-symbol cycle such as (S) is a fixed point both ways. */
  lemma SingletonFixed(p: Permutation, j: nat)
    requires p.Valid() && Disjoint(Cycles(p.cycles))
    requires j < |Cycles(p.cycles)| && |Cycles(p.cycles)[j]| == 1
    ensures var x := Cycles(p.cycles)[j][0];
      p.PermuteChar(x) == Some(x) && p.InvertChar(x) == Some(x)
  {
    CycleEntries(p, j, 0);
  }

  /** An alphabet symbol no cycle mentions maps to itself both ways, and so the
   *  permutation is no derangement. This needs nothing of the cycle string. */
  lemma LeftoverFixed(p: Permutation, x: char)
    requires p.Valid()
    requires x in p.alphabet && x !in Flatten(Cycles(p.cycles))
    ensures p.PermuteChar(x) == Some(x) && p.InvertChar(x) == Some(x)
    ensures !NoFixedPoint(p.dictionary)
  {
    BuildEntries(p.cycles, p.alphabet);
  }

  /** The fill loop leaves what the cycles wrote as it was. */
  lemma FillKeepsCycles(p: Permutation, x: char)
    requires p.Valid()
    requires x in Flatten(Cycles(p.cycles))
    ensures var v := AddCycles(NoTables, Cycles(p.cycles));
      x in v.forward && p.PermuteChar(x) == Some(v.forward[x]) &&
      x in v.inverse && p.InvertChar(x) == Some(v.inverse[x])
  {
    BuildEntries(p.cycles, p.alphabet);
  }

  /** The empty cycle string gives the identity, on symbols and on positions. */
  lemma Identity(p: Permutation)
    requires p.Valid() && p.cycles == ""
    ensures forall x :: x in p.alphabet ==> p.PermuteChar(x) == Some(x) && p.InvertChar(x) == Some(x)
    ensures forall i: int :: p.PermuteIndex(i) == Some(p.Wrap(i)) && p.InvertIndex(i) == Some(p.Wrap(i))
  {
    BuildEmpty(p.alphabet);
    forall i: int
      ensures p.PermuteIndex(i) == Some(p.Wrap(i)) && p.InvertIndex(i) == Some(p.Wrap(i))
    {
      var x := ToChar(p.alphabet, p.Wrap(i));
      ToIntToChar(p.alphabet, p.Wrap(i));
      assert p.PermuteChar(x) == Some(x) && p.InvertChar(x) == Some(x);
    }
  }

  /** For disjoint cycles over the alphabet, `invert` undoes `permute` and
   *  `permute` undoes `invert` on every alphabet symbol. */
  lemma CharRoundTrip(p: Permutation, x: char)
    requires p.Valid() && WellFormed(p.cycles, p.alphabet)
    requires x in p.alphabet
    ensures p.PermuteChar(x).Some? && p.PermuteChar(x).value in p.alphabet
    ensures p.InvertChar(p.PermuteChar(x).value) == Some(x)
    ensures p.InvertChar(x).Some? && p.InvertChar(x).value in p.alphabet
    ensures p.PermuteChar(p.InvertChar(x).value) == Some(x)
  {
    BuildRoundTrip(p.cycles, p.alphabet, x);
  }

  /** For disjoint cycles over the alphabet, the index forms undo each other up to
   *  the wrap of the starting position. */
  lemma IndexRoundTrip(p: Permutation, i: int)
    requires p.Valid() && WellFormed(p.cycles, p.alphabet)
    ensures p.PermuteIndex(i).Some? && p.InvertIndex(p.PermuteIndex(i).value) == Some(p.Wrap(i))
    ensures p.InvertIndex(i).Some? && p.PermuteIndex(p.InvertIndex(i).value) == Some(p.Wrap(i))
  {
    var a := p.alphabet;
    var x := ToChar(a, p.Wrap(i));
    CharRoundTrip(p, x);
    ToIntToChar(a, p.Wrap(i));
    var k := p.PermuteIndex(i).value;
    ModUnique(k, p.Size(), 0, k);
    var k' := p.InvertIndex(i).value;
    ModUnique(k', p.Size(), 0, k');
  }

  /** The index forms see a position only through its wrapped value. */
  lemma SameWrapSameIndex(p: Permutation, i: int, j: int)
    requires p.Valid() && p.Wrap(i) == p.Wrap(j)
    ensures p.PermuteIndex(i) == p.PermuteIndex(j)
    ensures p.InvertIndex(i) == p.InvertIndex(j)
  {
  }

  /** Wrapping is periodic in the size, for negative positions too. */
  lemma WrapPeriodic(p: Permutation, i: int, k: int)
    ensures p.Wrap(i + k * p.Size()) == p.Wrap(i)
  {
    ModPeriodic(i, k, p.Size());
  }

  /** Positions that differ by a multiple of the size are permuted and inverted
   *  alike, negative ones included. */
  lemma IndexPeriodic(p: Permutation, i: int, k: int)
    requires p.Valid()
    ensures p.PermuteIndex(i + k * p.Size()) == p.PermuteIndex(i)
    ensures p.InvertIndex(i + k * p.Size()) == p.InvertIndex(i)
  {
    WrapPeriodic(p, i, k);
    SameWrapSameIndex(p, i + k * p.Size(), i);
  }

  /** With every cycle symbol in the alphabet, `derangement` holds exactly when no
   *  alphabet symbol is permuted to itself. */
  lemma DerangementOnAlphabet(p: Permutation)
    requires p.Valid() && Over(Cycles(p.cycles), p.alphabet)
    ensures NoFixedPoint(p.dictionary) <==> forall x :: x in p.alphabet ==> p.PermuteChar(x) != Some(x)
  {
    Keys(p);
  }

  /** For disjoint cycles over the alphabet, `derangement` holds exactly when the
   *  cycles cover the alphabet and none of them has a single symbol. */
  lemma DerangementIff(p: Permutation)
    requires p.Valid() && WellFormed(p.cycles, p.alphabet)
    ensures NoFixedPoint(p.dictionary) <==>
      (forall x :: x in p.alphabet ==> x in Flatten(Cycles(p.cycles))) &&
      (forall j :: 0 <= j < |Cycles(p.cycles)| ==> |Cycles(p.cycles)[j]| != 1)
  {
    BuildNoFixedPoint(p.cycles, p.alphabet);
  }
}
