# Roman numerals converter

A Dafny model of the decimal-to-Roman-numeral converter `RomanNumerals.convert(int) -> Optional<String>`
and of its drop-in alternative `RomanNumeralsV2.convert`, as their test class pins them down
(`RomanNumeralsTest.java`). The code of the implementation classes is not modelled; the converter is
written from what the tests assert: every integer in [1, 3999] gives a present string matching
`[IVXLCDM]+`, every other integer gives an empty result, nothing is thrown, and eleven examples fix
the exact numeral (among them 4 is `IV` and 2499 is `MMCDXCIX`). For every other valid decimal the
tests fix no particular numeral. Encoding greedily over the descending table of groups, subtractive
pairs included, is this model's choice; it is consistent with all eleven examples.

- `wrappers.dfy` — `Option`, standing for Java's `Optional<String>`.
- `roman_numerals.dfy` — module `RomanNumerals`: the descending symbol-value table (1000 `M`,
  900 `CM`, 500 `D`, 400 `CD`, 100 `C`, 90 `XC`, 50 `L`, 40 `XL`, 10 `X`, 9 `IX`, 5 `V`, 4 `IV`,
  1 `I`), the greedy encoding `Encode` as a recursive function, the reference `Convert`, the
  `[IVXLCDM]+` check as the predicate `IsRomanNumeral`, and the lemmas for the tests' examples.
- `roman_numerals_v2.dfy` — module `RomanNumeralsV2`: `Convert` as a method: a loop-based rendering
  of the same greedy encoding (for each row, while the working value allows it, append the group to
  a buffer and subtract), proved equal to `RomanNumerals.Convert` on every integer.
- `roman_decoding.dfy` — module `RomanDecoding`: standard left-to-right evaluation of a numeral and
  the round trip. No test asserts decoding; this module goes beyond the tests and proves that
  each numeral the converter writes evaluates back to its decimal.

The tests sample integers in [-10000, 10000]; the model quantifies over all integers instead.

## Model

| member | source | states |
|---|---|---|
| RomanNumerals.Convert | solution/property-based-testing/src/test/java/roman/numerals/RomanNumeralsTest.java:41-71 | Total over every integer (no precondition); the result is empty exactly when the decimal is <= 0 or > 3999 (both directions), and when present it is non-empty and made only of I, V, X, L, C, D, M |
| RomanNumerals.EncodeOnlyRomanSymbols | solution/property-based-testing/src/test/java/roman/numerals/RomanNumeralsTest.java:69-71 | Every character the greedy encoding writes, from any row of the table and any working value, belongs to the class `[IVXLCDM]` |
| RomanNumerals.EncodeNonEmpty | solution/property-based-testing/src/test/java/roman/numerals/RomanNumeralsTest.java:55-71 | A positive decimal is written as at least one symbol, so the `+` of `[IVXLCDM]+` holds for every valid decimal |
| RomanNumerals.PassingExamples | solution/property-based-testing/src/test/java/roman/numerals/RomanNumeralsTest.java:17-39 | The converter returns a present value equal to the expected numeral for each of the eleven examples: 1 I, 3 III, 4 IV, 5 V, 10 X, 13 XIII, 50 L, 100 C, 500 D, 1000 M, 2499 MMCDXCIX |
| RomanNumerals.DomainBoundaries | solution/property-based-testing/src/test/java/roman/numerals/RomanNumeralsTest.java:41-66 | Just outside the domain, 0 and 4000 give an empty result; its upper end 3999 gives a present numeral; that this numeral is MMMCMXCIX is an extra example beyond the tests |
| RomanNumeralsV2.Convert | solution/property-based-testing/src/test/java/roman/numerals/RomanNumeralsTest.java:73-85 | The loop-based converter returns exactly what the reference converter returns, for every integer (the refactoring property `convert(x) == RomanNumeralsV2.convert(x)`) |
| RomanDecoding.EncodeDecodes | solution/property-based-testing/src/test/java/roman/numerals/RomanNumeralsTest.java:17-39 | Beyond the tests: generalising the examples, the greedy encoding of any working value below the bound for its table row evaluates back to that value under standard subtractive evaluation |
| RomanDecoding.ConvertRoundTrip | solution/property-based-testing/src/test/java/roman/numerals/RomanNumeralsTest.java:17-39 | Beyond the tests: for every decimal in [1, 3999] the converter's numeral is present and evaluates back to the decimal |

## Left out

- The property-testing harness (random generators over [-10000, 10000], filters, checks) and the
  assertion library: random sampling is replaced by statements about every integer.
- The regular expression engine behind `String.matches`: `[IVXLCDM]+` is the predicate
  `IsRomanNumeral` (non-empty, every character one of the seven symbols).
- Java's 32-bit `int`: the model takes unbounded integers; since every integer outside [1, 3999]
  is classified as out of range, no wrap-around can change a result.
- The bodies of `RomanNumerals` and `RomanNumeralsV2` are not modelled from their code: both are
  modelled as the greedy encoding over the descending table, a choice consistent with the eleven
  examples (the tests would also admit other numerals, such as `IC` for 99, for decimals they do not
  list); any other internal structure of those classes is not captured.
