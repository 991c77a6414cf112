/**
 * The `Permutation` class: built once from a cycle string and an alphabet, then
 * only queried. The constructor and `addCycle` fill the two maps with loops;
 * `wrap`, `size`, both `permute`s, both `invert`s and `alphabet` are functions;
 * `derangement` is a loop over the forward map that changes nothing.
 */
module Permutations {
  import opened Options
  import opened Alphabets
  import opened CycleNotation
  import opened CycleTables
  import opened TableFacts

  /** A product of two naturals is not negative; `ModUnique` uses it. */
  lemma MulNonNegative(a: nat, b: nat)
    ensures a * b >= 0
  {
  }

  /** Euclidean division has only one remainder. */
  lemma ModUnique(x: int, n: int, q: int, r: int)
    requires n > 0 && 0 <= r < n
    requires x == q * n + r
    ensures x % n == r
  {
    var q0, r0 := x / n, x % n;
    var d := q - q0;
    assert d * n == r0 - r;
    if d > 0 {
      MulNonNegative(d - 1, n);
    } else if d < 0 {
      MulNonNegative(-d - 1, n);
    }
  }

  /** Adding a multiple of `n` does not change the remainder modulo `n`. */
  lemma ModPeriodic(i: int, k: int, n: int)
    requires n > 0
    ensures (i + k * n) % n == i % n
  {
    var q, r := i / n, i % n;
    assert (q + k) * n == q * n + k * n;
    ModUnique(i + k * n, n, q + k, r);
  }

  /** Java's `%` on `int`: the quotient is truncated toward zero, so the remainder
   *  takes the sign of the dividend. */
  function JavaRem(p: int, n: int): (r: int)
    requires n > 0
    ensures -n < r < n
    ensures p >= 0 ==> r >= 0
    ensures p <= 0 ==> r <= 0
  {
    if p >= 0 then p % n else -((-p) % n)
  }

  /** Adding `n` to a negative truncated remainder gives the floor remainder. */
  lemma WrapRem(p: int, n: int)
    requires n > 0
    ensures var r := JavaRem(p, n); (if r < 0 then r + n else r) == p % n
  {
    if p < 0 {
      var k := -p;
      var q, m := k / n, k % n;
      assert k == q * n + m;
      if m == 0 {
        ModUnique(p, n, -q, 0);
      } else {
        ModUnique(p, n, -q - 1, n - m);
      }
    }
  }

  /** Two boxed `Character`s made by separate autoboxing are the same object only
   *  when they are equal and in Java's box cache, '\u0000' through '\u007f'. */
  predicate SameBox(a: char, b: char)
  {
    a == b && a as int <= 0x7F
  }

  /** No key of `m` is `==` to its value when both are compared as boxed objects. */
  predicate NoSameBox(m: map<char, char>)
  {
    forall k :: k in m ==> !SameBox(m[k], k)
  }

  /** On keys inside the box cache, the boxed comparison is the character
   *  comparison, so `derangement` as written answers as intended. */
  lemma SameBoxOnCache(m: map<char, char>)
    requires forall k :: k in m ==> k as int <= 0x7F
    ensures NoSameBox(m) <==> NoFixedPoint(m)
  {
    if !NoFixedPoint(m) {
      var k :| k in m && m[k] == k;
      assert SameBox(m[k], k);
    }
  }

  class Permutation {
    const alphabet: Alphabet
    /** The cycle string the object was built from. */
    ghost const cycles: string
    var dictionary: map<char, char>
    var invDictionary: map<char, char>

    /** The maps are the ones the constructor builds from `cycles`. Only the
     *  constructor calls `AddCycle` and `Fill`, as `addCycle` is private in Java. */
    ghost predicate Valid()
      reads this
    {
      Tables(dictionary, invDictionary) == Build(cycles, alphabet)
    }

    constructor (cycles: string, alphabet: Alphabet)
      ensures this.alphabet == alphabet && this.cycles == cycles
      ensures Valid()
    {
      this.alphabet := alphabet;
      this.cycles := cycles;
      dictionary := map[];
      invDictionary := map[];
      new;
      var toSplit := JavaSplit(cycles, ')');
      ghost var cs := Cycles(cycles);
      var j := 0;
      while j < |toSplit|
        invariant 0 <= j <= |toSplit|
        invariant Tables(dictionary, invDictionary) == AddCycles(NoTables, cs[..j])
      {
        var cycle := toSplit[j];
        cycle := Without(cycle, {'('});
        cycle := Without(cycle, {' '});
        cycle := Without(cycle, {')'});
        cycle := Without(cycle, {')', '('});
        assert cycle == Clean(toSplit[j]);
        AddCycle(cycle);
        AddCyclesStep(NoTables, cs, j);
        j := j + 1;
      }
      assert cs[..|cs|] == cs;
      Fill();
    }

    /** The constructor's second loop: every alphabet symbol that is not yet a key of
     *  the forward map is sent to itself in both maps. */
    method Fill()
      modifies this
      ensures Tables(dictionary, invDictionary) == FillPrefix(old(Tables(dictionary, invDictionary)), alphabet, |alphabet|)
    {
      var i := 0;
      while i < |alphabet|
        invariant 0 <= i <= |alphabet|
        invariant Tables(dictionary, invDictionary) == FillPrefix(old(Tables(dictionary, invDictionary)), alphabet, i)
      {
        var x := ToChar(alphabet, i);
        if x !in dictionary {
          dictionary := dictionary[x := x];
          invDictionary := invDictionary[x := x];
        }
        i := i + 1;
      }
    }

    /** Adds the cycle c0 -> c1 -> ... -> cm -> c0, overwriting earlier entries. */
    method AddCycle(cycle: string)
      modifies this
      ensures Tables(dictionary, invDictionary) == CycleTables.AddCycle(old(Tables(dictionary, invDictionary)), cycle)
    {
      var i := 0;
      while i < |cycle|
        invariant 0 <= i <= |cycle|
        invariant Tables(dictionary, invDictionary) == AddCyclePrefix(old(Tables(dictionary, invDictionary)), cycle, i)
      {
        if i == |cycle| - 1 {
          dictionary := dictionary[cycle[i] := cycle[0]];
          invDictionary := invDictionary[cycle[0] := cycle[i]];
        } else {
          dictionary := dictionary[cycle[i] := cycle[i + 1]];
          invDictionary := invDictionary[cycle[i + 1] := cycle[i]];
        }
        i := i + 1;
      }
    }

    /** The alphabet given to the constructor. */
    function Alphabet(): (a: Alphabet)
      ensures a == alphabet
    {
      alphabet
    }

    /** The number of symbols permuted. */
    function Size(): (n: nat)
      ensures n == |Alphabet()| && n > 0
    {
      |alphabet|
    }

    /** `p` modulo the size, in [0, size) also for negative `p`. */
    function Wrap(p: int): (r: nat)
      ensures r < Size()
      ensures r == p % Size()
    {
      WrapRem(p, Size());
      var r := JavaRem(p, Size());
      if r < 0 then r + Size() else r
    }

    /** The forward map at `c`; `None` where Java would unbox a `null`. */
    function PermuteChar(c: char): (r: Option<char>)
      reads this
      requires Valid()
      ensures r.Some? <==> c in dictionary
      ensures r.Some? ==> r.value == dictionary[c]
      ensures c in alphabet ==> r.Some?
    {
      BuildCoversAlphabet(cycles, alphabet);
      if c in dictionary then Some(dictionary[c]) else None
    }

    /** The inverse map at `c`; `None` where Java would unbox a `null`. */
    function InvertChar(c: char): (r: Option<char>)
      reads this
      requires Valid()
      ensures r.Some? <==> c in invDictionary
      ensures r.Some? ==> r.value == invDictionary[c]
      ensures c in alphabet ==> r.Some?
    {
      BuildCoversAlphabet(cycles, alphabet);
      if c in invDictionary then Some(invDictionary[c]) else None
    }

    /** The forward map on the symbol at position `p` modulo the size, as a position.
     *  `None` when the image is not an alphabet symbol, where the alphabet's
     *  `toInt` is outside its domain. */
    function PermuteIndex(p: int): (r: Option<nat>)
      reads this
      requires Valid()
      ensures r.Some? <==> PermuteChar(ToChar(alphabet, Wrap(p))).value in alphabet
      ensures r.Some? ==> r.value < Size() && Some(ToChar(alphabet, r.value)) == PermuteChar(ToChar(alphabet, Wrap(p)))
      ensures WellFormed(cycles, alphabet) ==> r.Some?
    {
      var out := PermuteChar(ToChar(alphabet, Wrap(p)));
      ImageInAlphabet(cycles, alphabet, ToChar(alphabet, Wrap(p)));
      if out.value in alphabet then Some(ToInt(alphabet, out.value)) else None
    }

    /** The inverse map on the symbol at position `c` modulo the size, as a position. */
    function InvertIndex(c: int): (r: Option<nat>)
      reads this
      requires Valid()
      ensures r.Some? <==> InvertChar(ToChar(alphabet, Wrap(c))).value in alphabet
      ensures r.Some? ==> r.value < Size() && Some(ToChar(alphabet, r.value)) == InvertChar(ToChar(alphabet, Wrap(c)))
      ensures WellFormed(cycles, alphabet) ==> r.Some?
    {
      var inChar := InvertChar(ToChar(alphabet, Wrap(c)));
      ImageInAlphabet(cycles, alphabet, ToChar(alphabet, Wrap(c)));
      if inChar.value in alphabet then Some(ToInt(alphabet, inChar.value)) else None
    }

    /** Whether no key of the forward map is sent to itself. */
    method Derangement() returns (b: bool)
      ensures b == NoFixedPoint(dictionary)
    {
      var entries := dictionary.Keys;
      while entries != {}
        invariant entries <= dictionary.Keys
        invariant forall k :: k in dictionary && k !in entries ==> dictionary[k] != k
        decreases entries
      {
        var k :| k in entries;
        if dictionary[k] == k {
          return false;
        }
        entries := entries - {k};
      }
      return true;
    }

    /** `derangement` as written: key and value are compared with `==` as boxed
     *  objects, not as characters. */
    method DerangementAsWritten() returns (b: bool)
      ensures b == NoSameBox(dictionary)
    {
      var entries := dictionary.Keys;
      while entries != {}
        invariant entries <= dictionary.Keys
        invariant forall k :: k in dictionary && k !in entries ==> !SameBox(dictionary[k], k)
        decreases entries
      {
        var k :| k in entries;
        if SameBox(dictionary[k], k) {
          return false;
        }
        entries := entries - {k};
      }
      return true;
    }
  }
}
