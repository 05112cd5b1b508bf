/** The alternative converter (`RomanNumeralsV2.convert`), as a loop-based
    rendering of the same greedy encoding: for each row of the table, while the working
    value is at least the row's value, append the row's group to a buffer and
    subtract. It must agree with the reference converter on every integer. */
module RomanNumeralsV2 {
  import opened Wrappers
  import RomanNumerals

  method Convert(decimal: int) returns (r: Option<string>)
    ensures r == RomanNumerals.Convert(decimal)
  {
    if decimal < 1 || decimal > RomanNumerals.MaxDecimal {
      return None;
    }
    var roman := "";
    var remaining: nat := decimal;
    for i := 0 to |RomanNumerals.Table|
      invariant roman + RomanNumerals.Encode(remaining, i) == RomanNumerals.Encode(decimal, 0)
    {
      var row := RomanNumerals.Table[i];
      while remaining >= row.value
        invariant roman + RomanNumerals.Encode(remaining, i) == RomanNumerals.Encode(decimal, 0)
      {
        RomanNumerals.EncodeTake(remaining, i);
        roman := roman + row.symbols;
        remaining := remaining - row.value;
      }
      RomanNumerals.EncodeSkip(remaining, i, i + 1);
    }
    assert RomanNumerals.Encode(remaining, |RomanNumerals.Table|) == "";
    assert roman == RomanNumerals.Encode(decimal, 0);
    r := Some(roman);
  }
}
