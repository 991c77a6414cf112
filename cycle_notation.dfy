/**
 * Reading a cycle string such as "(AELTPHQXRU) (BKNW) (S)" into its cycles, the way
 * the `Permutation` constructor does it: `split` on ')' and then four `replaceAll`
 * passes that delete '(', ' ', ')' and again '(' or ')'.
 */
module CycleNotation {

  /** The characters the constructor deletes from every piece. Only the space is
   *  deleted, not tabs or new lines. */
  const Delimiters: set<char> := {'(', ' ', ')'}

  /** All pieces of `s` between occurrences of `d`, empty ones included. */
  function SplitAt(s: string, d: char): (r: seq<string>)
    ensures |r| >= 1
    ensures forall i :: 0 <= i < |r| ==> d !in r[i]
    decreases |s|
  {
    if s == [] then [[]]
    else
      var rest := SplitAt(s[1..], d);
      if s[0] == d then [[]] + rest
      else [[s[0]] + rest[0]] + rest[1..]
  }

  /** The pieces put back together with `d` between them. */
  function Joined(ps: seq<string>, d: char): string
  {
    if |ps| == 0 then []
    else if |ps| == 1 then ps[0]
    else ps[0] + [d] + Joined(ps[1..], d)
  }

  /** Splitting loses nothing: joining the pieces gives the string back. */
  lemma {:induction false} SplitJoin(s: string, d: char)
    ensures Joined(SplitAt(s, d), d) == s
    decreases |s|
  {
    if s != [] {
      var rest := SplitAt(s[1..], d);
      SplitJoin(s[1..], d);
      if s[0] == d {
        assert ([[]] + rest)[1..] == rest;
      } else {
        var r := [[s[0]] + rest[0]] + rest[1..];
        if |rest| > 1 {
          assert r[1..] == rest[1..];
        }
        assert s == [s[0]] + s[1..];
      }
    }
  }

  /** `ps` without its trailing empty pieces (what Java's `split` with limit 0 discards). */
  function DropTrailingEmpty(ps: seq<string>): (r: seq<string>)
    ensures |r| <= |ps| && r == ps[..|r|]
    ensures forall i :: |r| <= i < |ps| ==> ps[i] == []
    ensures |r| > 0 ==> r[|r| - 1] != []
  {
    if |ps| > 0 && ps[|ps| - 1] == [] then DropTrailingEmpty(ps[..|ps| - 1]) else ps
  }

  /** Java's `s.split(d)`: the whole string when `d` does not occur, the pieces
   *  without the trailing empty ones otherwise. */
  function JavaSplit(s: string, d: char): (r: seq<string>)
    ensures forall i :: 0 <= i < |r| ==> d !in r[i]
  {
    if d !in s then [s] else DropTrailingEmpty(SplitAt(s, d))
  }

  /** `s` with every character of `drop` deleted (a `replaceAll` of a one-character
   *  pattern or character class by the empty string). */
  function Without(s: string, drop: set<char>): (r: string)
    ensures |r| <= |s|
    ensures forall x :: x in r <==> x in s && x !in drop
  {
    if s == [] then []
    else (if s[0] in drop then [] else [s[0]]) + Without(s[1..], drop)
  }

  lemma {:induction false} WithoutConcat(s: string, t: string, drop: set<char>)
    ensures Without(s + t, drop) == Without(s, drop) + Without(t, drop)
    decreases |s|
  {
    if s != [] {
      assert (s + t)[1..] == s[1..] + t;
      WithoutConcat(s[1..], t, drop);
    } else {
      assert s + t == t;
    }
  }

  lemma {:induction false} WithoutTwice(s: string, a: set<char>, b: set<char>)
    ensures Without(Without(s, a), b) == Without(s, a + b)
    decreases |s|
  {
    if s != [] {
      var head := if s[0] in a then [] else [s[0]];
      WithoutConcat(head, Without(s[1..], a), b);
      WithoutTwice(s[1..], a, b);
    }
  }

  /** Deleting characters that do not occur changes nothing. */
  lemma {:induction false} WithoutNone(s: string, drop: set<char>)
    requires forall x :: x in s ==> x !in drop
    ensures Without(s, drop) == s
    decreases |s|
  {
    if s != [] {
      WithoutNone(s[1..], drop);
      assert s == [s[0]] + s[1..];
    }
  }

  /** Deleting every character that occurs leaves nothing. */
  lemma {:induction false} WithoutAll(s: string, drop: set<char>)
    requires forall x :: x in s ==> x in drop
    ensures Without(s, drop) == []
    decreases |s|
  {
    if s != [] {
      WithoutAll(s[1..], drop);
    }
  }

  /** The four `replaceAll` passes applied to one piece; together they delete the
   *  three delimiter characters and nothing else. */
  function Clean(piece: string): (r: string)
    ensures r == Without(piece, Delimiters)
  {
    var s1 := Without(piece, {'('});
    var s2 := Without(s1, {' '});
    var s3 := Without(s2, {')'});
    var s4 := Without(s3, {')', '('});
    CleanPasses(piece);
    s4
  }

  lemma CleanPasses(piece: string)
    ensures Without(Without(Without(Without(piece, {'('}), {' '}), {')'}), {')', '('})
         == Without(piece, Delimiters)
  {
    WithoutTwice(piece, {'('}, {' '});
    assert {'('} + {' '} == {'(', ' '};
    WithoutTwice(piece, {'(', ' '}, {')'});
    assert {'(', ' '} + {')'} == Delimiters;
    WithoutTwice(piece, Delimiters, {')', '('});
    assert Delimiters + {')', '('} == Delimiters;
  }

  /** A cycle body as it comes out of the parse: no delimiter characters in it. */
  predicate Bare(c: string)
  {
    forall x :: x in c ==> x !in Delimiters
  }

  /** The cycles the constructor hands to `addCycle`, one per piece of the split. */
  function Cycles(s: string): (cs: seq<string>)
    ensures |cs| == |JavaSplit(s, ')')|
    ensures forall j :: 0 <= j < |cs| ==> Bare(cs[j])
  {
    var ps := JavaSplit(s, ')');
    seq(|ps|, j requires 0 <= j < |ps| => Clean(ps[j]))
  }

  /** Cycle notation for `cs`, the form the constructor documents: "(c0) (c1) ... (cn)". */
  function Format(cs: seq<string>): string
  {
    if cs == [] then [] else "(" + cs[0] + ")" + FormatRest(cs[1..])
  }

  function FormatRest(cs: seq<string>): string
  {
    if cs == [] then [] else " (" + cs[0] + ")" + FormatRest(cs[1..])
  }

  lemma {:induction false} SplitAfter(x: string, y: string, d: char)
    requires d !in x
    ensures SplitAt(x + [d] + y, d) == [x] + SplitAt(y, d)
    decreases |x|
  {
    var s := x + [d] + y;
    if x == [] {
      assert s[1..] == y;
    } else {
      assert s[1..] == x[1..] + [d] + y;
      SplitAfter(x[1..], y, d);
      assert [x[0]] + x[1..] == x;
    }
  }

  /** The pieces the split leaves of `FormatRest(cs)`, before the final empty one. */
  function Opened(cs: seq<string>): (ps: seq<string>)
    ensures |ps| == |cs|
  {
    seq(|cs|, j requires 0 <= j < |cs| => " (" + cs[j])
  }

  lemma {:induction false} SplitFormatRest(cs: seq<string>)
    requires forall j :: 0 <= j < |cs| ==> Bare(cs[j])
    ensures SplitAt(FormatRest(cs), ')') == Opened(cs) + [[]]
    decreases |cs|
  {
    if cs != [] {
      var x := " (" + cs[0];
      assert ')' !in x;
      assert FormatRest(cs) == x + [')'] + FormatRest(cs[1..]);
      SplitAfter(x, FormatRest(cs[1..]), ')');
      SplitFormatRest(cs[1..]);
      assert Opened(cs) == [x] + Opened(cs[1..]);
    }
  }

  /** Deleting the delimiters from an opening bracket followed by a bare cycle body
   *  leaves the body. */
  lemma CleanOpened(lead: string, c: string)
    requires forall x :: x in lead ==> x in Delimiters
    requires Bare(c)
    ensures Clean(lead + c) == c
  {
    WithoutConcat(lead, c, Delimiters);
    WithoutNone(c, Delimiters);
    WithoutAll(lead, Delimiters);
  }

  /** The split of a formatted cycle list: one opened piece per cycle. */
  lemma SplitFormat(cs: seq<string>)
    requires |cs| > 0
    requires forall j :: 0 <= j < |cs| ==> Bare(cs[j])
    ensures JavaSplit(Format(cs), ')') == ["(" + cs[0]] + Opened(cs[1..])
  {
    var x := "(" + cs[0];
    var s := Format(cs);
    assert s == x + [')'] + FormatRest(cs[1..]);
    SplitAfter(x, FormatRest(cs[1..]), ')');
    SplitFormatRest(cs[1..]);
    var ps := [x] + Opened(cs[1..]);
    assert SplitAt(s, ')') == ps + [[]];
    assert ')' in s by { assert s[|x|] == ')'; }
    assert ps[|ps| - 1] != [];
    assert (ps + [[]])[..|ps|] == ps;
  }

  /** Parsing undoes formatting: the constructor recovers exactly the cycles written. */
  lemma ParseFormat(cs: seq<string>)
    requires |cs| > 0
    requires forall j :: 0 <= j < |cs| ==> Bare(cs[j])
    ensures Cycles(Format(cs)) == cs
  {
    var s := Format(cs);
    SplitFormat(cs);
    var ps := ["(" + cs[0]] + Opened(cs[1..]);
    forall j | 0 <= j < |cs|
      ensures Cycles(s)[j] == cs[j]
    {
      if j == 0 {
        CleanOpened("(", cs[0]);
      } else {
        assert ps[j] == " (" + cs[j];
        CleanOpened(" (", cs[j]);
      }
    }
  }

  /** The empty cycle string yields one empty cycle, which adds nothing. */
  lemma ParseEmpty()
    ensures Cycles("") == [""]
  {
    assert JavaSplit("", ')') == [""];
  }
}
