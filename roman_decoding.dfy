/** Standard evaluation of a Roman numeral, read left to right: a symbol
    followed by a larger one is subtracted, any other symbol is added.
    The round trip below goes beyond the examples of the tests: it states
    that every numeral the converter writes evaluates back to its input. */
module RomanDecoding {
  import opened RomanNumerals

  /** The value of a single Roman symbol (0 for anything else). */
  function SymbolValue(c: char): (v: nat) {
    match c
    case 'I' => 1
    case 'V' => 5
    case 'X' => 10
    case 'L' => 50
    case 'C' => 100
    case 'D' => 500
    case 'M' => 1000
    case _ => 0
  }

  function Decode(s: string): (v: int)
  {
    if |s| == 0 then 0
    else if |s| >= 2 && SymbolValue(s[0]) < SymbolValue(s[1]) then Decode(s[1..]) - SymbolValue(s[0])
    else SymbolValue(s[0]) + Decode(s[1..])
  }

  /** Row `i` is one symbol worth its value, or a subtractive pair: a smaller
      symbol before a larger one, worth their difference. Either way its
      first symbol is worth no more than the row. */
  predicate GroupValueMatches(i: nat)
    requires i < |Table|
  {
    var g := Table[i].symbols;
    (|g| == 1 || |g| == 2) &&
    SymbolValue(g[0]) <= Table[i].value &&
    (|g| == 1 ==> SymbolValue(g[0]) == Table[i].value) &&
    (|g| == 2 ==> SymbolValue(g[0]) < SymbolValue(g[1]) &&
                  SymbolValue(g[1]) - SymbolValue(g[0]) == Table[i].value)
  }

  /** Whatever the greedy encoding can write after row `i` starts with a symbol
      no larger than the last symbol of row `i`: after the group of row `i`
      the working value is below `Bound(i) - value`. */
  predicate FollowedBySmaller(i: nat)
    requires i < |Table|
  {
    var g := Table[i].symbols;
    |g| > 0 &&
    forall c :: IsRomanSymbol(c) && SymbolValue(c) < Bound(i) - Table[i].value ==>
      SymbolValue(c) <= SymbolValue(g[|g| - 1])
  }

  /** Every row of the table is worth what its group evaluates to. */
  lemma TableRowValue(i: nat)
    requires i < |Table|
    ensures GroupValueMatches(i)
  {
  }

  /** Every row of the table is followed only by smaller or equal symbols. */
  lemma TableRowFollowedBySmaller(i: nat)
    requires i < |Table|
    ensures FollowedBySmaller(i)
  {
  }

  /** The group of row `i` adds exactly its value, provided what follows it
      does not start with a larger symbol. */
  lemma DecodeGroup(i: nat, rest: string)
    requires i < |Table| && GroupValueMatches(i)
    requires rest == [] || SymbolValue(rest[0]) <= SymbolValue(Table[i].symbols[|Table[i].symbols| - 1])
    ensures Decode(Table[i].symbols + rest) == Table[i].value + Decode(rest)
  {
  }

  /** The greedy encoding starts with a Roman symbol worth no more than the working value. */
  lemma {:induction false} EncodeFirstSymbol(n: nat, i: nat)
    requires i <= |Table| && Encode(n, i) != []
    ensures IsRomanSymbol(Encode(n, i)[0]) && SymbolValue(Encode(n, i)[0]) <= n
    decreases |Table| - i
  {
    if n >= Table[i].value {
      TableRowRoman(i);
      TableRowValue(i);
    } else {
      EncodeFirstSymbol(n, i + 1);
    }
  }

  /** Round trip from row `i` on: a working value below `Bound(i)` is written
      as a numeral that evaluates back to it. */
  lemma {:induction false} EncodeDecodes(n: nat, i: nat)
    requires i <= |Table| && n < Bound(i)
    ensures Decode(Encode(n, i)) == n
    decreases |Table| - i, n
  {
    if i == |Table| {
    } else if n >= Table[i].value {
      var rest := Encode(n - Table[i].value, i);
      TableRowValue(i);
      TableDescending(i);
      EncodeDecodes(n - Table[i].value, i);
      if rest != [] {
        EncodeFirstSymbol(n - Table[i].value, i);
        TableRowFollowedBySmaller(i);
      }
      DecodeGroup(i, rest);
    } else {
      TableDescending(i);
      EncodeDecodes(n, i + 1);
    }
  }

  /** Every numeral `convert` returns evaluates back to the decimal it came from. */
  lemma ConvertRoundTrip(decimal: int)
    requires 1 <= decimal <= MaxDecimal
    ensures Convert(decimal).Some? && Decode(Convert(decimal).value) == decimal
  {
    EncodeDecodes(decimal, 0);
  }
}
