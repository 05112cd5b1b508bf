/** Reference converter from decimal integers to Roman numerals
    (`RomanNumerals.convert`): the greedy encoding over the descending
    table of symbol groups, including the subtractive pairs. */
module RomanNumerals {
  import opened Wrappers

  /** The largest decimal that has a Roman numeral; the smallest is 1. */
  const MaxDecimal: int := 3999

  type Positive = x: int | x > 0 witness 1

  /** One row of the table: a group of one or two symbols and the value it stands for. */
  datatype Group = Group(value: Positive, symbols: string)

  /** The symbol-value table, strictly descending by value. */
  const Table: seq<Group> := [
    Group(1000, "M"), Group(900, "CM"), Group(500, "D"), Group(400, "CD"),
    Group(100, "C"), Group(90, "XC"), Group(50, "L"), Group(40, "XL"),
    Group(10, "X"), Group(9, "IX"), Group(5, "V"), Group(4, "IV"),
    Group(1, "I")
  ]

  /** A character of the class `[IVXLCDM]`. */
  predicate IsRomanSymbol(c: char) {
    c == 'I' || c == 'V' || c == 'X' || c == 'L' || c == 'C' || c == 'D' || c == 'M'
  }

  /** The test's validity predicate `[IVXLCDM]+`: non-empty, and every
      character is a Roman symbol. */
  predicate IsRomanNumeral(s: string) {
    |s| > 0 && forall k :: 0 <= k < |s| ==> IsRomanSymbol(s[k])
  }

  /** Exclusive upper bound on the working value when the greedy encoding
      reaches row `i`: everything at or above the previous row's value has
      already been consumed. */
  function Bound(i: nat): (b: int)
    requires i <= |Table|
  {
    if i == 0 then MaxDecimal + 1 else Table[i - 1].value
  }

  /** Row `i` writes a non-empty group made only of Roman symbols. */
  predicate RomanGroup(i: nat)
    requires i < |Table|
  {
    var g := Table[i].symbols;
    |g| > 0 && forall k :: 0 <= k < |g| ==> IsRomanSymbol(g[k])
  }

  /** Every row of the table writes Roman symbols only. */
  lemma TableRowRoman(i: nat)
    requires i < |Table|
    ensures RomanGroup(i)
  {
  }

  /** The table is strictly descending, so each row's value bounds the rows after it. */
  lemma TableDescending(i: nat)
    requires i < |Table|
    ensures Bound(i + 1) == Table[i].value < Bound(i)
  {
  }

  /** The greedy encoding from row `i` on: while the working value is at least
      the row's value, write the row's group and subtract; then move on. */
  function Encode(n: nat, i: nat): (s: string)
    requires i <= |Table|
    decreases |Table| - i, n
  {
    if i == |Table| then ""
    else if n >= Table[i].value then Table[i].symbols + Encode(n - Table[i].value, i)
    else Encode(n, i + 1)
  }

  /** The encoding writes only Roman symbols. */
  lemma {:induction false} EncodeOnlyRomanSymbols(n: nat, i: nat)
    requires i <= |Table|
    ensures forall k :: 0 <= k < |Encode(n, i)| ==> IsRomanSymbol(Encode(n, i)[k])
    decreases |Table| - i, n
  {
    if i == |Table| {
    } else if n >= Table[i].value {
      TableRowRoman(i);
      EncodeOnlyRomanSymbols(n - Table[i].value, i);
    } else {
      EncodeOnlyRomanSymbols(n, i + 1);
    }
  }

  /** A positive value always gets at least one symbol, because the table
      ends with the row worth 1. */
  lemma {:induction false} EncodeNonEmpty(n: nat, i: nat)
    requires i < |Table| && n > 0
    ensures |Encode(n, i)| > 0
    decreases |Table| - i
  {
    if n < Table[i].value {
      EncodeNonEmpty(n, i + 1);
    }
  }

  /** Rows `i` up to `j` are all worth more than anything below `Bound(j)`. */
  lemma {:induction false} BoundDescending(i: nat, j: nat)
    requires i <= j <= |Table|
    ensures Bound(j) <= Bound(i)
    decreases j - i
  {
    if i < j {
      TableDescending(i);
      BoundDescending(i + 1, j);
    }
  }

  /** A working value below `Bound(j)` skips every row from `i` to `j`. */
  lemma {:induction false} EncodeSkip(n: nat, i: nat, j: nat)
    requires i <= j <= |Table| && n < Bound(j)
    ensures Encode(n, i) == Encode(n, j)
    decreases j - i
  {
    if i < j {
      TableDescending(i);
      BoundDescending(i + 1, j);
      EncodeSkip(n, i + 1, j);
    }
  }

  /** `convert`: total over all integers; `None` exactly outside [1, 3999],
      otherwise a string matching `[IVXLCDM]+`. */
  function Convert(decimal: int): (r: Option<string>)
    ensures r.Some? <==> 1 <= decimal <= MaxDecimal
    ensures r.Some? ==> IsRomanNumeral(r.value)
  {
    if decimal < 1 || decimal > MaxDecimal then None
    else
      EncodeOnlyRomanSymbols(decimal, 0);
      EncodeNonEmpty(decimal, 0);
      Some(Encode(decimal, 0))
  }

  /** Encoding zero writes nothing, from any row. */
  lemma EncodeZero(i: nat)
    requires i <= |Table|
    ensures Encode(0, i) == ""
  {
    EncodeSkip(0, i, |Table|);
  }

  /** Writing the group of row `i` once, when the working value allows it. */
  lemma EncodeTake(n: nat, i: nat)
    requires i < |Table| && Table[i].value <= n
    ensures Encode(n, i) == Table[i].symbols + Encode(n - Table[i].value, i)
  {
  }

  /** The examples of the tests below 50, one numeral each. */
  lemma SmallExamples()
    ensures Encode(1, 0) == "I" && Encode(3, 0) == "III" && Encode(4, 0) == "IV"
    ensures Encode(5, 0) == "V" && Encode(10, 0) == "X" && Encode(13, 0) == "XIII"
  {
  }

  /** The examples of the tests from 50 on, one numeral each. */
  lemma LargeExamples()
    ensures Encode(50, 0) == "L" && Encode(100, 0) == "C" && Encode(500, 0) == "D"
    ensures Encode(1000, 0) == "M" && Encode(2499, 0) == "MMCDXCIX"
  {
    assert Encode(50, 0) == "L" by {
      EncodeSkip(50, 0, 6); EncodeTake(50, 6); EncodeZero(6);
    }
    assert Encode(100, 0) == "C" by {
      EncodeSkip(100, 0, 4); EncodeTake(100, 4); EncodeZero(4);
    }
    assert Encode(500, 0) == "D" by {
      EncodeSkip(500, 0, 2); EncodeTake(500, 2); EncodeZero(2);
    }
    assert Encode(1000, 0) == "M" by {
      EncodeTake(1000, 0); EncodeZero(0);
    }
    assert Encode(2499, 0) == "MMCDXCIX" by {
      EncodeTake(2499, 0); EncodeTake(1499, 0); EncodeSkip(499, 0, 3); EncodeTake(499, 3);
      EncodeSkip(99, 3, 5); EncodeTake(99, 5); EncodeSkip(9, 5, 9); EncodeTake(9, 9); EncodeZero(9);
    }
  }

  /** The example table of the tests: each decimal converts to exactly the given numeral. */
  lemma PassingExamples()
    ensures Convert(1) == Some("I")
    ensures Convert(3) == Some("III")
    ensures Convert(4) == Some("IV")
    ensures Convert(5) == Some("V")
    ensures Convert(10) == Some("X")
    ensures Convert(13) == Some("XIII")
    ensures Convert(50) == Some("L")
    ensures Convert(100) == Some("C")
    ensures Convert(500) == Some("D")
    ensures Convert(1000) == Some("M")
    ensures Convert(2499) == Some("MMCDXCIX")
  {
    SmallExamples();
    LargeExamples();
  }

  /** The edges of the domain: 0 and 4000 have no numeral, 3999 has one. */
  lemma DomainBoundaries()
    ensures Convert(0) == None
    ensures Convert(MaxDecimal + 1) == None
    ensures Convert(MaxDecimal) == Some("MMMCMXCIX")
  {
    assert Encode(MaxDecimal, 0) == "MMMCMXCIX" by {
      EncodeTake(3999, 0); EncodeTake(2999, 0); EncodeTake(1999, 0); EncodeTake(999, 1);
      EncodeSkip(99, 1, 5); EncodeTake(99, 5); EncodeSkip(9, 5, 9); EncodeTake(9, 9); EncodeZero(9);
    }
  }
}
