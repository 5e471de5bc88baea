/** Names of iterators: nested branches on single letters against one table of names. */
module Iterators {

  const ITERATOR_EQ: int := 0
  const ITERATOR_REQ: int := 1
  const ITERATOR_ALL: int := 2
  const ITERATOR_LT: int := 3
  const ITERATOR_LE: int := 4
  const ITERATOR_GE: int := 5
  const ITERATOR_GT: int := 6
  const ITERATOR_BITSET_ALL_SET: int := 7
  const ITERATOR_BITSET_ANY_SET: int := 8
  const ITERATOR_BITSET_ALL_NOT_SET: int := 9
  const ITERATOR_OVERLAPS: int := 10
  const ITERATOR_NEIGHBOR: int := 11

  /** Every accepted name, in upper case. */
  const NAMES: seq<(string, int)> := [
    ("EQ", 0), ("REQ", 1), ("ALL", 2), ("LT", 3), ("LE", 4), ("GE", 5), ("GT", 6),
    ("BITSET_ALL_SET", 7), ("BITS_ALL_SET", 7), ("BITSET_ANY_SET", 8), ("BITS_ANY_SET", 8),
    ("BITSET_ALL_NOT_SET", 9), ("BITS_ALL_NOT_SET", 9), ("OVERLAPS", 10), ("NEIGHBOR", 11)
  ]

  function ToUpper(c: char): char {
    if 'a' <= c <= 'z' then c - 'a' + 'A' else c
  }

  function Upper(s: string): (u: string)
    ensures |u| == |s| && forall i :: 0 <= i < |s| ==> u[i] == ToUpper(s[i])
  {
    seq(|s|, i requires 0 <= i < |s| => ToUpper(s[i]))
  }

  /** The letters of `text` stand at `at`, in any case. */
  predicate Has(s: string, at: nat, text: string) {
    at + |text| <= |s| && forall i :: 0 <= i < |text| ==> ToUpper(s[at + i]) == text[i]
  }

  /** `convert_iter_str`; the first letter of the empty string is its final NUL. */
  function ConvertIterStr(s: string): int {
    if s == "" then -1
    else
      match ToUpper(s[0])
      case 'A' => if |s| == 3 && Has(s, 1, "LL") then ITERATOR_ALL else -1
      case 'B' => BitsName(s)
      case 'E' => if |s| == 2 && Has(s, 1, "Q") then ITERATOR_EQ else -1
      case 'G' =>
        if |s| != 2 then -1
        else (match ToUpper(s[1]) case 'E' => ITERATOR_GE case 'T' => ITERATOR_GT case _ => -1)
      case 'L' =>
        if |s| != 2 then -1
        else (match ToUpper(s[1]) case 'T' => ITERATOR_LT case 'E' => ITERATOR_LE case _ => -1)
      case 'N' => if |s| == 8 && Has(s, 1, "EIGHBOR") then ITERATOR_NEIGHBOR else -1
      case 'O' => if |s| == 8 && Has(s, 1, "VERLAPS") then ITERATOR_OVERLAPS else -1
      case 'R' => if |s| == 3 && Has(s, 1, "EQ") then ITERATOR_REQ else -1
      case _ => -1
  }

  function BitsName(s: string): int {
    if |s| > 7 && Has(s, 1, "ITSET_") && |s| == 18 && Has(s, 7, "ALL_NOT_SET") then ITERATOR_BITSET_ALL_NOT_SET
    else if |s| > 7 && Has(s, 1, "ITSET_") && |s| == 14 && Has(s, 7, "ALL_SET") then ITERATOR_BITSET_ALL_SET
    else if |s| > 7 && Has(s, 1, "ITSET_") && |s| == 14 && Has(s, 7, "ANY_SET") then ITERATOR_BITSET_ANY_SET
    else if |s| > 4 && Has(s, 1, "ITS_") && |s| == 16 && Has(s, 5, "ALL_NOT_SET") then ITERATOR_BITSET_ALL_NOT_SET
    else if |s| > 4 && Has(s, 1, "ITS_") && |s| == 12 && Has(s, 5, "ALL_SET") then ITERATOR_BITSET_ALL_SET
    else if |s| > 4 && Has(s, 1, "ITS_") && |s| == 12 && Has(s, 5, "ANY_SET") then ITERATOR_BITSET_ANY_SET
    else -1
  }

  lemma UpperIs(s: string, u: string)
    requires |s| == |u| && forall i :: 0 <= i < |s| ==> ToUpper(s[i]) == u[i]
    ensures Upper(s) == u
  {
  }

  /** A name of one first letter and a rest. */
  lemma OneRest(s: string, first: char, rest: string)
    ensures s != "" && ToUpper(s[0]) == first && |s| == 1 + |rest| && Has(s, 1, rest) <==> Upper(s) == [first] + rest
  {
    var u := [first] + rest;
    if s != "" && ToUpper(s[0]) == first && |s| == 1 + |rest| && Has(s, 1, rest) {
      forall i | 0 <= i < |s|
        ensures ToUpper(s[i]) == u[i]
      {
        if i > 0 {
          assert ToUpper(s[1 + (i - 1)]) == rest[i - 1];
        }
      }
      UpperIs(s, u);
    }
    if Upper(s) == u {
      assert |s| == |Upper(s)| == 1 + |rest|;
      assert ToUpper(s[0]) == Upper(s)[0] == u[0];
      forall i | 0 <= i < |rest|
        ensures ToUpper(s[1 + i]) == rest[i]
      {
        assert ToUpper(s[1 + i]) == Upper(s)[1 + i] == u[1 + i];
      }
    }
  }

  /** A rest made of a middle and an end. */
  lemma HasBoth(s: string, at: nat, middle: string, end: string)
    ensures Has(s, at, middle + end) <==> Has(s, at, middle) && Has(s, at + |middle|, end)
  {
    var whole := middle + end;
    if Has(s, at, whole) {
      forall i | 0 <= i < |middle|
        ensures ToUpper(s[at + i]) == middle[i]
      {
        assert whole[i] == middle[i];
      }
      forall i | 0 <= i < |end|
        ensures ToUpper(s[at + |middle| + i]) == end[i]
      {
        assert ToUpper(s[at + (|middle| + i)]) == whole[|middle| + i] == end[i];
      }
    }
    if Has(s, at, middle) && Has(s, at + |middle|, end) {
      forall i | 0 <= i < |whole|
        ensures ToUpper(s[at + i]) == whole[i]
      {
        if i >= |middle| {
          assert ToUpper(s[at + |middle| + (i - |middle|)]) == end[i - |middle|];
        }
      }
    }
  }

  /** A name of a first letter, a middle and an end. */
  lemma MiddleEnd(s: string, first: char, middle: string, end: string)
    ensures var u := [first] + (middle + end);
            Upper(s) == u <==>
              s != "" && ToUpper(s[0]) == first && |s| == |u| && Has(s, 1, middle) && Has(s, 1 + |middle|, end)
  {
    hide Has;
    OneRest(s, first, middle + end);
    HasBoth(s, 1, middle, end);
  }

  lemma LongBits(s: string)
    requires s != "" && ToUpper(s[0]) == 'B'
    ensures Upper(s) == "BITSET_ALL_NOT_SET" <==> |s| == 18 && Has(s, 1, "ITSET_") && Has(s, 7, "ALL_NOT_SET")
    ensures Upper(s) == "BITSET_ALL_SET" <==> |s| == 14 && Has(s, 1, "ITSET_") && Has(s, 7, "ALL_SET")
    ensures Upper(s) == "BITSET_ANY_SET" <==> |s| == 14 && Has(s, 1, "ITSET_") && Has(s, 7, "ANY_SET")
  {
    hide Has;
    MiddleEnd(s, 'B', "ITSET_", "ALL_NOT_SET");
    MiddleEnd(s, 'B', "ITSET_", "ALL_SET");
    MiddleEnd(s, 'B', "ITSET_", "ANY_SET");
    assert ['B'] + ("ITSET_" + "ALL_NOT_SET") == "BITSET_ALL_NOT_SET";
    assert ['B'] + ("ITSET_" + "ALL_SET") == "BITSET_ALL_SET";
    assert ['B'] + ("ITSET_" + "ANY_SET") == "BITSET_ANY_SET";
  }

  lemma ShortBits(s: string)
    requires s != "" && ToUpper(s[0]) == 'B'
    ensures Upper(s) == "BITS_ALL_NOT_SET" <==> |s| == 16 && Has(s, 1, "ITS_") && Has(s, 5, "ALL_NOT_SET")
    ensures Upper(s) == "BITS_ALL_SET" <==> |s| == 12 && Has(s, 1, "ITS_") && Has(s, 5, "ALL_SET")
    ensures Upper(s) == "BITS_ANY_SET" <==> |s| == 12 && Has(s, 1, "ITS_") && Has(s, 5, "ANY_SET")
  {
    hide Has;
    MiddleEnd(s, 'B', "ITS_", "ALL_NOT_SET");
    MiddleEnd(s, 'B', "ITS_", "ALL_SET");
    MiddleEnd(s, 'B', "ITS_", "ANY_SET");
    assert ['B'] + ("ITS_" + "ALL_NOT_SET") == "BITS_ALL_NOT_SET";
    assert ['B'] + ("ITS_" + "ALL_SET") == "BITS_ALL_SET";
    assert ['B'] + ("ITS_" + "ANY_SET") == "BITS_ANY_SET";
  }

  lemma BitsNames(s: string)
    requires s != "" && ToUpper(s[0]) == 'B'
    ensures BitsName(s) == 9 <==> Upper(s) == "BITSET_ALL_NOT_SET" || Upper(s) == "BITS_ALL_NOT_SET"
    ensures BitsName(s) == 7 <==> Upper(s) == "BITSET_ALL_SET" || Upper(s) == "BITS_ALL_SET"
    ensures BitsName(s) == 8 <==> Upper(s) == "BITSET_ANY_SET" || Upper(s) == "BITS_ANY_SET"
    ensures BitsName(s) in [-1, 7, 8, 9]
  {
    hide Has;
    LongBits(s);
    ShortBits(s);
  }

  lemma LetterNames(s: string)
    ensures Upper(s) == "ALL" <==> s != "" && ToUpper(s[0]) == 'A' && |s| == 3 && Has(s, 1, "LL")
    ensures Upper(s) == "EQ" <==> s != "" && ToUpper(s[0]) == 'E' && |s| == 2 && Has(s, 1, "Q")
    ensures Upper(s) == "REQ" <==> s != "" && ToUpper(s[0]) == 'R' && |s| == 3 && Has(s, 1, "EQ")
    ensures Upper(s) == "NEIGHBOR" <==> s != "" && ToUpper(s[0]) == 'N' && |s| == 8 && Has(s, 1, "EIGHBOR")
    ensures Upper(s) == "OVERLAPS" <==> s != "" && ToUpper(s[0]) == 'O' && |s| == 8 && Has(s, 1, "VERLAPS")
  {
    hide Has;
    OneRest(s, 'A', "LL");
    OneRest(s, 'E', "Q");
    OneRest(s, 'R', "EQ");
    OneRest(s, 'N', "EIGHBOR");
    OneRest(s, 'O', "VERLAPS");
    assert ['A'] + "LL" == "ALL" && ['E'] + "Q" == "EQ" && ['R'] + "EQ" == "REQ";
    assert ['N'] + "EIGHBOR" == "NEIGHBOR" && ['O'] + "VERLAPS" == "OVERLAPS";
  }

  lemma TwoLetters(s: string)
    ensures forall a, b :: Upper(s) == [a, b] <==> |s| == 2 && ToUpper(s[0]) == a && ToUpper(s[1]) == b
  {
    forall a, b | |s| == 2 && ToUpper(s[0]) == a && ToUpper(s[1]) == b
      ensures Upper(s) == [a, b]
    {
    }
    forall a, b | Upper(s) == [a, b]
      ensures |s| == 2 && ToUpper(s[0]) == a && ToUpper(s[1]) == b
    {
      assert Upper(s)[0] == a && Upper(s)[1] == b;
    }
  }

  /** The table as a case distinction. */
  lemma TableCases(u: string, code: int)
    ensures (u, code) in NAMES <==>
      (u == "EQ" && code == 0) || (u == "REQ" && code == 1) || (u == "ALL" && code == 2) || (u == "LT" && code == 3) ||
      (u == "LE" && code == 4) || (u == "GE" && code == 5) || (u == "GT" && code == 6) ||
      (u == "BITSET_ALL_SET" && code == 7) || (u == "BITS_ALL_SET" && code == 7) ||
      (u == "BITSET_ANY_SET" && code == 8) || (u == "BITS_ANY_SET" && code == 8) ||
      (u == "BITSET_ALL_NOT_SET" && code == 9) || (u == "BITS_ALL_NOT_SET" && code == 9) ||
      (u == "OVERLAPS" && code == 10) || (u == "NEIGHBOR" && code == 11)
  {
    forall i | 0 <= i < |NAMES| && NAMES[i] == (u, code)
      ensures u == NAMES[i].0 && code == NAMES[i].1
    {
    }
  }

  /** The nested branches are the table: a name in any case gives its code, and everything else gives -1. */
  lemma BranchesAreTable(s: string, code: int)
    requires code != -1
    ensures ConvertIterStr(s) == code <==> (Upper(s), code) in NAMES
  {
    hide Has, BitsName;
    TableCases(Upper(s), code);
    LetterNames(s);
    TwoLetters(s);
    assert ['L', 'T'] == "LT" && ['L', 'E'] == "LE" && ['G', 'E'] == "GE" && ['G', 'T'] == "GT";
    if s != "" && ToUpper(s[0]) == 'B' {
      BitsNames(s);
    }
    assert s != "" ==> Upper(s)[0] == ToUpper(s[0]);
  }
}
