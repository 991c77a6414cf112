/**
 * The forward and inverse tables a `Permutation` builds, as values: what `addCycle`
 * writes for one cycle, what the constructor's loops write for all cycles and for
 * the symbols no cycle mentions, and what the finished tables mean.
 */
module CycleTables {
  import opened Alphabets
  import opened CycleNotation

  /** The `dictionary` (forward) and `invDictionary` (inverse) maps. */
  datatype Tables = Tables(forward: map<char, char>, inverse: map<char, char>)

  const NoTables := Tables(map[], map[])

  /** The position that follows `i` in a cycle of length `n`: the last wraps to 0. */
  function SuccIndex(n: nat, i: nat): (k: nat)
    requires i < n
    ensures k < n
  {
    if i == n - 1 then 0 else i + 1
  }

  /** The position that precedes `k` in a cycle of length `n`. */
  function PredIndex(n: nat, k: nat): (i: nat)
    requires k < n
    ensures i < n && SuccIndex(n, i) == k
  {
    if k == 0 then n - 1 else k - 1
  }

  /** The symbol `c[i]` is sent to. */
  function Succ(c: string, i: nat): char
    requires i < |c|
  {
    c[SuccIndex(|c|, i)]
  }

  /** One turn of the loop in `addCycle`: `c[i]` goes to its successor, and back. */
  function Record(t: Tables, c: string, i: nat): Tables
    requires i < |c|
  {
    Tables(t.forward[c[i] := Succ(c, i)], t.inverse[Succ(c, i) := c[i]])
  }

  /** The first `k` turns of the loop in `addCycle`. */
  function AddCyclePrefix(t: Tables, c: string, k: nat): Tables
    requires k <= |c|
  {
    if k == 0 then t else Record(AddCyclePrefix(t, c, k - 1), c, k - 1)
  }

  function AddCycle(t: Tables, c: string): Tables
  {
    AddCyclePrefix(t, c, |c|)
  }

  /** `addCycle` called on each cycle in turn. */
  function AddCycles(t: Tables, cs: seq<string>): Tables
  {
    if cs == [] then t else AddCycle(AddCycles(t, cs[..|cs| - 1]), cs[|cs| - 1])
  }

  /** The first `k` turns of the constructor's loop over the alphabet: a symbol that
   *  is not yet a key of the forward map is sent to itself in both maps. */
  function FillPrefix(t: Tables, a: seq<char>, k: nat): Tables
    requires k <= |a|
  {
    if k == 0 then t
    else
      var u := FillPrefix(t, a, k - 1);
      var x := a[k - 1];
      if x in u.forward then u else Tables(u.forward[x := x], u.inverse[x := x])
  }

  /** The tables the constructor leaves behind for cycle string `s` over `a`. */
  function Build(s: string, a: seq<char>): Tables
  {
    FillPrefix(AddCycles(NoTables, Cycles(s)), a, |a|)
  }

  /** All cycle symbols in order. */
  function Flatten(cs: seq<string>): string
  {
    if cs == [] then [] else cs[0] + Flatten(cs[1..])
  }

  /** No symbol occurs twice, within one cycle or across two. */
  predicate Disjoint(cs: seq<string>)
  {
    NoDup(Flatten(cs))
  }

  /** Every cycle symbol belongs to the alphabet. */
  predicate Over(cs: seq<string>, a: seq<char>)
  {
    forall x :: x in Flatten(cs) ==> x in a
  }

  /** The cycle string is what the constructor documents: disjoint cycles of
   *  alphabet symbols. The code does not check this. */
  predicate WellFormed(s: string, a: seq<char>)
  {
    Disjoint(Cycles(s)) && Over(Cycles(s), a)
  }

  /** The tables send every symbol of `c` to its successor, and back. */
  ghost predicate Records(t: Tables, c: string)
  {
    forall i :: 0 <= i < |c| ==>
      c[i] in t.forward && t.forward[c[i]] == Succ(c, i) &&
      Succ(c, i) in t.inverse && t.inverse[Succ(c, i)] == c[i]
  }

  /** No key of `m` is sent to itself. */
  predicate NoFixedPoint(m: map<char, char>)
  {
    forall k :: k in m ==> m[k] != k
  }
}
