/**
 * The concrete cases of the JUnit suite for `Permutation`, over the upper-case
 * alphabet, as consequences of the general lemmas.
 */
module PermutationExamples {
  import opened Options
  import opened Alphabets
  import opened CycleNotation
  import opened CycleTables
  import opened TableFacts
  import opened Permutations
  import opened PermutationFacts

  const Rotor: seq<string> := ["AELTPHQXRU", "BKNW", "CMOY", "DFG", "IV", "JZ", "S"]
  const Keyboard: seq<string> := ["QWERTYUIOP", "ASDFGHJKL", "ZXCVBNM"]

  // ---- testInvertChar ----

  lemma FormatInvertCharCycles()
    ensures Format(["PNH", "ABDFIKLZYXW", "JC"]) == "(PNH) (ABDFIKLZYXW) (JC)"
  {
    var cs := ["PNH", "ABDFIKLZYXW", "JC"];
    assert cs[1..][1..][1..] == [];
    assert Format(cs) == "(PNH)" + (" (ABDFIKLZYXW)" + (" (JC)" + ""));
  }

  /** The cycles the constructor reads from the cycle string of `testInvertChar`. */
  lemma ParseInvertCharCycles()
    ensures Cycles("(PNH) (ABDFIKLZYXW) (JC)") == ["PNH", "ABDFIKLZYXW", "JC"]
  {
    var cs := ["PNH", "ABDFIKLZYXW", "JC"];
    FormatInvertCharCycles();
    assert forall j :: 0 <= j < |cs| ==> Bare(cs[j]);
    ParseFormat(cs);
  }

  lemma InvertCharLetters(s: string)
    requires s == "PNHABDFIKLZYXWJC"
    ensures NoDup(s) && 'G' !in s
  {
  }

  /** Those cycles are disjoint and leave 'G' out. */
  lemma InvertCharCyclesDisjoint()
    ensures Disjoint(["PNH", "ABDFIKLZYXW", "JC"])
    ensures 'G' !in Flatten(["PNH", "ABDFIKLZYXW", "JC"])
  {
    var cs := ["PNH", "ABDFIKLZYXW", "JC"];
    assert cs[1..][1..][1..] == [];
    assert Flatten(cs) == "PNH" + ("ABDFIKLZYXW" + ("JC" + ""));
    InvertCharLetters(Flatten(cs));
  }

  /** What the maps built from those cycles send 'B', 'G', 'A' and 'P' back to. */
  lemma InvertCharTables(s: string, a: seq<char>)
    requires Cycles(s) == ["PNH", "ABDFIKLZYXW", "JC"] && 'G' in a
    ensures var b := Build(s, a);
      'B' in b.inverse && b.inverse['B'] == 'A' &&
      'G' in b.inverse && b.inverse['G'] == 'G' &&
      'A' in b.inverse && b.inverse['A'] == 'W' &&
      'P' in b.inverse && b.inverse['P'] == 'H'
  {
    InvertCharCyclesDisjoint();
    var cs := Cycles(s);
    var b := Build(s, a);
    BuildRecords(s, a);
    RecordAt(b, cs[1], 1);
    RecordAt(b, cs[1], 0);
    RecordAt(b, cs[0], 0);
    BuildEntries(s, a);
  }

  /** `testInvertChar`: cycles (PNH) (ABDFIKLZYXW) (JC) over A-Z. */
  lemma InvertCharExample(p: Permutation)
    requires p.Valid() && p.alphabet == Upper
    requires p.cycles == "(PNH) (ABDFIKLZYXW) (JC)"
    ensures p.InvertChar('B') == Some('A')
    ensures p.InvertChar('G') == Some('G')
    ensures p.InvertChar('A') == Some('W')
    ensures p.InvertChar('P') == Some('H')
  {
    ParseInvertCharCycles();
    UpperRange();
    InvertCharTables(p.cycles, p.alphabet);
  }

  // ---- the test rotor ----

  /** The rotor's cycle notation from the k-th cycle on, one cycle per lemma so that
   *  each string comparison stays small. */
  lemma RotorRest6()
    ensures FormatRest(Rotor[6..]) == " (S)"
  {
    assert Rotor[6..][1..] == [];
  }

  lemma RotorRest5()
    ensures FormatRest(Rotor[5..]) == " (JZ) (S)"
  {
    RotorRest6();
    assert Rotor[5..][1..] == Rotor[6..];
  }

  lemma RotorRest4()
    ensures FormatRest(Rotor[4..]) == " (IV) (JZ) (S)"
  {
    RotorRest5();
    assert Rotor[4..][1..] == Rotor[5..];
  }

  lemma RotorRest3()
    ensures FormatRest(Rotor[3..]) == " (DFG) (IV) (JZ) (S)"
  {
    RotorRest4();
    assert Rotor[3..][1..] == Rotor[4..];
  }

  lemma RotorRest2()
    ensures FormatRest(Rotor[2..]) == " (CMOY) (DFG) (IV) (JZ) (S)"
  {
    RotorRest3();
    assert Rotor[2..][1..] == Rotor[3..];
  }

  lemma RotorRest1()
    ensures FormatRest(Rotor[1..]) == " (BKNW) (CMOY) (DFG) (IV) (JZ) (S)"
  {
    RotorRest2();
    assert Rotor[1..][1..] == Rotor[2..];
  }

  /** The rotor's cycle string is its cycles in cycle notation. */
  lemma FormatRotor(s: string)
    requires s == "(AELTPHQXRU) (BKNW) (CMOY) (DFG) (IV) (JZ) (S)"
    ensures Format(Rotor) == s
  {
    RotorRest1();
    assert "(" + Rotor[0] + ")" == "(AELTPHQXRU)";
    RotorHead("(AELTPHQXRU)", FormatRest(Rotor[1..]), s);
  }

  /** The first cycle in front of the rest. */
  lemma RotorHead(h: string, t: string, s: string)
    requires h == "(AELTPHQXRU)" && t == " (BKNW) (CMOY) (DFG) (IV) (JZ) (S)"
    requires s == "(AELTPHQXRU) (BKNW) (CMOY) (DFG) (IV) (JZ) (S)"
    ensures h + t == s
  {
  }

  /** The cycles the constructor reads from the rotor's cycle string. */
  lemma ParseRotor()
    ensures Cycles(Format(Rotor)) == Rotor
  {
    assert forall j :: 0 <= j < |Rotor| ==> Bare(Rotor[j]);
    ParseFormat(Rotor);
  }

  lemma RotorLetters(s: string)
    requires s == "AELTPHQXRUBKNWCMOYDFGIVJZS"
    ensures NoDup(s)
  {
  }

  /** No symbol is in two rotor cycles. */
  lemma RotorDisjoint()
    ensures Disjoint(Rotor)
  {
    assert Rotor[1..][1..][1..][1..][1..][1..][1..] == [];
    assert Flatten(Rotor) ==
      "AELTPHQXRU" + ("BKNW" + ("CMOY" + ("DFG" + ("IV" + ("JZ" + ("S" + "")))))); 
    RotorLetters(Flatten(Rotor));
  }

  /** What the maps built from the rotor cycles send B, U, S, A, K and E to. */
  lemma RotorTables(s: string, a: seq<char>)
    requires Cycles(s) == Rotor
    ensures var b := Build(s, a);
      'B' in b.forward && b.forward['B'] == 'K' && 'U' in b.forward && b.forward['U'] == 'A' &&
      'S' in b.forward && b.forward['S'] == 'S' && 'A' in b.forward && b.forward['A'] == 'E' &&
      'K' in b.inverse && b.inverse['K'] == 'B' && 'A' in b.inverse && b.inverse['A'] == 'U' &&
      'S' in b.inverse && b.inverse['S'] == 'S' && 'E' in b.inverse && b.inverse['E'] == 'A'
  {
    RotorDisjoint();
    var b := Build(s, a);
    BuildRecords(s, a);
    RecordAt(b, Rotor[1], 0);
    RecordAt(b, Rotor[1], 1);
    RecordAt(b, Rotor[0], 9);
    RecordAt(b, Rotor[0], 0);
    RecordAt(b, Rotor[0], 1);
    RecordAt(b, Rotor[6], 0);
  }

  /** `permutations`, `inverse`, `testPermuteChar` and the second half of
   *  `testDerangement`: the seven cycles of the test rotor over A-Z. `derangement`
   *  is false both as intended and as written, since 'S' is in the box cache. */
  lemma RotorExample(p: Permutation)
    requires p.Valid() && p.alphabet == Upper
    requires p.cycles == "(AELTPHQXRU) (BKNW) (CMOY) (DFG) (IV) (JZ) (S)"
    ensures p.PermuteChar('B') == Some('K') && p.PermuteChar('U') == Some('A')
    ensures p.PermuteChar('S') == Some('S') && p.PermuteChar('A') == Some('E')
    ensures p.InvertChar('K') == Some('B') && p.InvertChar('A') == Some('U')
    ensures p.InvertChar('S') == Some('S') && p.InvertChar('E') == Some('A')
    ensures !NoFixedPoint(p.dictionary) && !NoSameBox(p.dictionary)
  {
    FormatRotor(p.cycles);
    ParseRotor();
    RotorTables(p.cycles, p.alphabet);
    assert SameBox(p.dictionary['S'], 'S');
  }

  // ---- the keyboard cycles ----

  /** The keyboard's cycle notation from the k-th cycle on. */
  lemma KeyboardRest2()
    ensures FormatRest(Keyboard[2..]) == " (ZXCVBNM)"
  {
    assert Keyboard[2..][1..] == [];
  }

  lemma KeyboardRest1()
    ensures FormatRest(Keyboard[1..]) == " (ASDFGHJKL) (ZXCVBNM)"
  {
    KeyboardRest2();
    assert Keyboard[1..][1..] == Keyboard[2..];
  }

  /** The first cycle in front of the rest. */
  lemma KeyboardHead(h: string, t: string, s: string)
    requires h == "(QWERTYUIOP)" && t == " (ASDFGHJKL) (ZXCVBNM)"
    requires s == "(QWERTYUIOP) (ASDFGHJKL) (ZXCVBNM)"
    ensures h + t == s
  {
  }

  /** The keyboard's cycle string is its cycles in cycle notation. */
  lemma FormatKeyboard(s: string)
    requires s == "(QWERTYUIOP) (ASDFGHJKL) (ZXCVBNM)"
    ensures Format(Keyboard) == s
  {
    KeyboardRest1();
    assert "(" + Keyboard[0] + ")" == "(QWERTYUIOP)";
    KeyboardHead("(QWERTYUIOP)", FormatRest(Keyboard[1..]), s);
  }

  /** The cycles the constructor reads from the keyboard's cycle string. */
  lemma ParseKeyboard()
    ensures Cycles(Format(Keyboard)) == Keyboard
  {
    assert forall j :: 0 <= j < |Keyboard| ==> Bare(Keyboard[j]);
    ParseFormat(Keyboard);
  }

  lemma KeyboardLetters(s: string)
    requires s == "QWERTYUIOPASDFGHJKLZXCVBNM"
    ensures NoDup(s)
  {
  }

  lemma KeyboardRange(s: string)
    requires s == "QWERTYUIOPASDFGHJKLZXCVBNM"
    ensures forall x :: x in s <==> 'A' <= x <= 'Z'
  {
  }

  /** The keyboard cycles are disjoint, drawn from A-Z, cover it and have no
   *  one-symbol cycle. */
  lemma KeyboardCycles()
    ensures Disjoint(Keyboard) && Over(Keyboard, Upper)
    ensures forall x :: x in Upper ==> x in Flatten(Keyboard)
    ensures forall j :: 0 <= j < |Keyboard| ==> |Keyboard[j]| != 1
  {
    assert Keyboard[1..][1..][1..] == [];
    assert Flatten(Keyboard) == "QWERTYUIOP" + ("ASDFGHJKL" + ("ZXCVBNM" + ""));
    KeyboardLetters(Flatten(Keyboard));
    KeyboardRange(Flatten(Keyboard));
    UpperRange();
  }

  /** `CoverNoFixedPoint` for a cycle string whose cycles are `cs`. */
  lemma CoveringCycles(s: string, a: seq<char>, cs: seq<string>)
    requires Cycles(s) == cs && Disjoint(cs) && Over(cs, a)
    requires forall x :: x in a ==> x in Flatten(cs)
    requires forall j :: 0 <= j < |cs| ==> |cs[j]| != 1
    ensures NoFixedPoint(Build(s, a).forward)
  {
    CoverNoFixedPoint(s, a);
  }

  /** The tables built from the keyboard cycles over A-Z send no letter to itself. */
  lemma KeyboardTables(s: string)
    requires Cycles(s) == Keyboard
    ensures NoFixedPoint(Build(s, Upper).forward)
  {
    KeyboardCycles();
    CoveringCycles(s, Upper, Keyboard);
  }

  /** First half of `testDerangement`: three cycles that cover A-Z. `derangement`
   *  is true both as intended and as written. */
  lemma KeyboardExample(p: Permutation)
    requires p.Valid() && p.alphabet == Upper
    requires p.cycles == "(QWERTYUIOP) (ASDFGHJKL) (ZXCVBNM)"
    ensures NoFixedPoint(p.dictionary) && NoSameBox(p.dictionary)
  {
    FormatKeyboard(p.cycles);
    ParseKeyboard();
    KeyboardTables(p.cycles);
  }

  // ---- the boxed comparison in derangement ----

  /** `derangement` as written misses a fixed point of a symbol beyond '\u007f':
   *  the identity on the one-symbol alphabet "Ä" passes the boxed comparison,
   *  though 'Ä' maps to itself. */
  lemma BoxedComparisonMissesFixedPoint(p: Permutation)
    requires p.Valid() && p.alphabet == "Ä" && p.cycles == ""
    ensures NoSameBox(p.dictionary)
    ensures !NoFixedPoint(p.dictionary)
  {
    ParseEmpty();
    Keys(p);
    LeftoverFixed(p, 'Ä');
  }
}
