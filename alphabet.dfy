/**
 * The alphabet a permutation works over. The Java `Alphabet` class is not part of
 * this model; it is taken to be an ordered, duplicate-free, non-empty sequence of
 * symbols, with `toChar(i)` the symbol at position `i` and `toInt(c)` the position
 * of `c`.
 */
module Alphabets {

  /** No symbol occurs twice in `s`. */
  predicate NoDup(s: seq<char>)
  {
    forall i, j :: 0 <= i < j < |s| ==> s[i] != s[j]
  }

  predicate IsAlphabet(a: seq<char>)
  {
    |a| > 0 && NoDup(a)
  }

  type Alphabet = a: seq<char> | IsAlphabet(a) witness "A"

  /** The symbol at position `i` (the alphabet's `toChar`). */
  function ToChar(a: Alphabet, i: int): (c: char)
    requires 0 <= i < |a|
    ensures c in a
  {
    a[i]
  }

  /** The position of `c` (the alphabet's `toInt`). */
  function ToInt(a: seq<char>, c: char): (i: nat)
    requires c in a
    ensures i < |a| && a[i] == c
    ensures forall j :: 0 <= j < i ==> a[j] != c
  {
    if a[0] == c then 0 else 1 + ToInt(a[1..], c)
  }

  /** `toInt` undoes `toChar` ... */
  lemma ToIntToChar(a: Alphabet, i: int)
    requires 0 <= i < |a|
    ensures ToInt(a, ToChar(a, i)) == i
  {
  }

  /** ... and `toChar` undoes `toInt`. */
  lemma ToCharToInt(a: Alphabet, c: char)
    requires c in a
    ensures ToChar(a, ToInt(a, c)) == c
  {
  }

  /** Each symbol is above the one before it. */
  predicate Increasing(s: seq<char>)
  {
    forall i :: 0 < i < |s| ==> s[i - 1] < s[i]
  }

  lemma {:induction false} IncreasingFrom(s: seq<char>, i: nat, j: nat)
    requires Increasing(s) && i < j < |s|
    ensures s[i] < s[j]
    decreases j - i
  {
    if i + 1 < j {
      IncreasingFrom(s, i + 1, j);
    }
  }

  /** A range of symbols in increasing order, such as a `CharacterRange`, has no
   *  duplicates. */
  lemma IncreasingNoDup(s: seq<char>)
    requires Increasing(s)
    ensures NoDup(s)
  {
    forall i, j | 0 <= i < j < |s|
      ensures s[i] < s[j]
    {
      IncreasingFrom(s, i, j);
    }
  }

  /** The 26 upper-case letters, index 0 being 'A' (a `CharacterRange('A', 'Z')`). */
  const Upper: Alphabet := (UpperIsAlphabet(); "ABCDEFGHIJKLMNOPQRSTUVWXYZ")

  lemma UpperIsAlphabet()
    ensures IsAlphabet("ABCDEFGHIJKLMNOPQRSTUVWXYZ")
  {
    IncreasingNoDup("ABCDEFGHIJKLMNOPQRSTUVWXYZ");
  }

  /** The symbols of `Upper` are exactly 'A' to 'Z'. */
  lemma UpperRange()
    ensures forall x :: x in Upper <==> 'A' <= x <= 'Z'
  {
    forall x | 'A' <= x <= 'Z'
      ensures x in Upper
    {
      assert Upper[x as int - 'A' as int] == x;
    }
  }
}
