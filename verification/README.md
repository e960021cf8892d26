# A Dafny model of the 99tech code challenge solutions

This project models three small programs and proves properties of the models.

- **The currency swap form** (`src/problem2`). This covers the state hook `useSwapForm`, the
  price and icon helpers in `utils/api.ts`, and the number formatters in `utils/format.ts`.
  - The hook is a state record and one pure function per handler. It covers:
    - the token catalog built from the fetched prices;
    - the default BTC/USDT pair;
    - the derived values: balances, rate, converted amount, dollar values and the submit gate;
    - the validation errors;
    - each handler: source/destination choice, typed amount, flip, Max, submit and closing the dialog.
  - The properties proved include:
    - the errors come out in check order;
    - an amount is accepted exactly when it matches the amount field's syntax;
    - a submit debits and credits exactly the two chosen balances;
    - every state reachable from the initial state, with every handler as written (Max included), keeps balances non-negative, errors ordered and the amount well-formed.
- **The wallet page balance list** (`src/problem3/MessyReact.tsx`). Balances are filtered by chain priority and positive amount, stably sorted by priority (highest first), and mapped to rows.
- **`sum_to_n`** (`src/problem1/result.js`). The closed form, the loop and the `reduce` version, with where they agree and where they do not.

Modelling choices:

- **Numbers.** Prices, amounts and balances are exact `real`s. In `format.ts` a JavaScript
  number is `Num`: a finite real, `NaN` or ±Infinity. That makes the `isFinite` guards meaningful.
- **Host formatting.** `toFixed`, `toExponential` and `Intl.NumberFormat` are not written out.
  They are fields of a `Renderer` record, passed in as parameters. `toFixed` is a sign plus a
  digit numeral (`whole[.frac]`) chosen by the renderer. Some properties hold for every renderer.
  Others assume that `toFixed(d)` writes exactly `d` decimals (`Format.WritesRequestedDecimals`),
  or additionally that it prints exactly any value that already has at most `d` decimals
  (`MaxRounding.PrintsExactDecimals`).
- **`parseFloat`.** It reads an optional sign, then the longest `digits[.digits]` prefix. It gives
  NaN (`None`) when no digit is read.
- **Network.** The two price sources are inputs. Each is `Ok(body)` or a failure: a non-OK
  status, a network error or a JSON error.
- **Hooks.** The wallet page's wallet and price hooks are inputs too.
- **Call order.** The order in which the swap hook's handlers are called is a sequence of
  `SwapInvariants.Intent`s.

Where the app's written description and its code differ, the model follows the code:

- With no prices loaded, `toAmountValue` is 0, so submit does nothing and the button is disabled.
- `closeSuccessModal` only closes the dialog. The swap summary stays.
- `formatTokenAmount` of a value below 1 keeps up to 8 decimals, e.g. `0.00001234`.
- The default destination is USDT when the source is not USDT. Otherwise it is the first token
  whose symbol differs from the source's.

## Model

| member | source | states |
|---|---|---|
| Seqs.Find | src/problem2/src/hooks/useSwapForm.ts:120-124 | `find` returns something exactly when some element satisfies the predicate, and then the first such element |
| Seqs.FindIndex | src/problem2/src/hooks/useSwapForm.ts:198 | the index found is the first element satisfying the predicate; none means no element does |
| Seqs.FindAppend | src/problem2/src/hooks/useSwapForm.ts:120-124 | searching a concatenation finds in the first part when it can, else in the second |
| Seqs.Filter | src/problem3/MessyReact.tsx:34-37 | `filter` keeps exactly the elements satisfying the predicate, each drawn from the input |
| Seqs.FilterMember | src/problem3/MessyReact.tsx:34-37 | an element is in the filtered list iff it is in the input and satisfies the predicate |
| Seqs.FilterMembers | src/problem2/src/hooks/useSwapForm.ts:251 | the filtered list holds exactly the input elements that satisfy the predicate |
| Seqs.FilterAppend | src/problem2/src/hooks/useSwapForm.ts:251 | filtering distributes over concatenation |
| Seqs.FilterIdempotent | src/problem2/src/hooks/useSwapForm.ts:267 | filtering twice by the same predicate is filtering once |
| Seqs.FilterCommutes | src/problem3/MessyReact.tsx:34-41 | two filters can be applied in either order |
| StableSort.Insert | src/problem3/MessyReact.tsx:38-41 | inserting adds one element, placed at the front or behind the first element |
| StableSort.SortDesc | src/problem3/MessyReact.tsx:38-41 | the sort keeps the length |
| StableSort.InsertPermutes | src/problem3/MessyReact.tsx:38-41 | inserting adds exactly one occurrence of the element and nothing else |
| StableSort.InsertSorted | src/problem3/MessyReact.tsx:38-41 | inserting into a priority-descending list keeps it descending |
| StableSort.FilterCons | src/problem3/MessyReact.tsx:34-37 | filtering a list with a leading element is filtering the element then the rest |
| StableSort.InsertStable | src/problem3/MessyReact.tsx:38-41 | among elements of one priority, the inserted one lands in front and the others keep their order |
| StableSort.SortPermutes | src/problem3/MessyReact.tsx:38-41 | the sort is a permutation (equal multisets) |
| StableSort.SortSorted | src/problem3/MessyReact.tsx:38-41 | the comparator `rhs - lhs` orders by non-increasing priority |
| StableSort.SortStable | src/problem3/MessyReact.tsx:38-41 | elements of equal priority come out in input order, as a stable sort requires |
| StableSort.SortMembers | src/problem3/MessyReact.tsx:38-41 | the sorted list holds exactly the input's elements |
| WalletPage.FormattedBalances | src/problem3/MessyReact.tsx:32-50 | there are never more rows than balances |
| WalletPage.Sources | src/problem3/MessyReact.tsx:42-48 | each row's balance fields, one per row |
| WalletPage.GetPriority | src/problem3/MessyReact.tsx:25-26 | a listed chain gets its table priority, at least 20; any other chain gets -1; so the priority is >= 0 iff the chain is listed |
| WalletPage.Keep | src/problem3/MessyReact.tsx:34-37 | a balance is kept iff its chain is listed and its amount is positive |
| WalletPage.PriceOrZero | src/problem3/MessyReact.tsx:43 | the currency's price when the table has it, else 0 |
| WalletPage.FormatRow | src/problem3/MessyReact.tsx:42-48 | a row carries the balance's own fields, a dollar value of price times amount (0 without a price), and `amount.toFixed(2)` |
| WalletPage.SortedKept | src/problem3/MessyReact.tsx:34-41 | every balance in the sorted list passed the filter |
| WalletPage.PriorityTable | src/problem3/MessyReact.tsx:17-23 | Osmosis 100, Ethereum 50, Arbitrum 30, Zilliqa and Neo 20 |
| WalletPage.SourcesOfRows | src/problem3/MessyReact.tsx:32-50 | the rows are made from the filtered, then sorted, balances and nothing else |
| WalletPage.RowsSorted | src/problem3/MessyReact.tsx:38-41 | rows appear in non-increasing chain priority |
| WalletPage.RowsPermuteKept | src/problem3/MessyReact.tsx:34-41 | the rows are a permutation of the kept balances: none lost, none added, none duplicated |
| WalletPage.RowMembers | src/problem3/MessyReact.tsx:34-37 | a balance gets a row iff its chain is listed and its amount is positive |
| WalletPage.RowsStable | src/problem3/MessyReact.tsx:38-41 | rows of equal priority (Zilliqa and Neo) keep the input order of their balances |
| WalletPage.RowValues | src/problem3/MessyReact.tsx:42-48 | each row's dollar value is price times amount, or 0 when the currency has no price; `formatted` is `amount.toFixed(2)`; its amount is positive and its chain listed |
| WalletPage.RowOf | src/problem3/MessyReact.tsx:42-48 | row i is the mapped form of the i-th sorted kept balance |
| WalletPage.RowFormatted | src/problem3/MessyReact.tsx:46 | `formatted` is digits, a point, then two digits, and reads back as the numeral `toFixed` produced |
| SumToN.SumFormula | src/problem1/result.js:1-5 | twice the result is n(n+1): the division by 2 is exact |
| SumToN.SumLoop | src/problem1/result.js:7-15 | the loop adds 1..n, equals n(n+1)/2 for n >= 0, and is 0 for n <= 0 since the condition `i <= n` fails at once |
| SumToN.Range | src/problem1/result.js:19 | `Array.from` gives [1..n] with length n, and the empty array for n <= 0 |
| SumToN.ProductEven | src/problem1/result.js:4 | n(n+1) is even for every integer n |
| SumToN.FormulaIsSum | src/problem1/result.js:1-5 | the closed form equals the sum 1..n for every n >= 0 |
| SumToN.FoldAddSnoc | src/problem1/result.js:19-20 | reducing one more element at the end adds it |
| SumToN.SumReduce | src/problem1/result.js:17-21 | the reduce version is the sum 1..n, hence 0 for n <= 0 |
| SumToN.ReduceIsSum | src/problem1/result.js:17-21 | folding `+` over [1..n] from 0 gives the sum 1..n for every n |
| SumToN.AllAgree | src/problem1/result.js:1-21 | the loop and reduce versions agree on every n; all three agree on every n >= 0 |
| SumToN.FormulaDivergesBelowMinusOne | src/problem1/result.js:1-21 | for n <= -2 the closed form is at least 1, while the loop and reduce versions give 0 |
| SumToN.FormulaAtMinusOne | src/problem1/result.js:1-5 | at n = -1 the closed form gives 0, like the others |
| SumToN.FormulaAtMinusTwo | src/problem1/result.js:1-21 | the first disagreement: at n = -2 the closed form gives 1 and reduce gives 0 |
| Numerals.FractionValue | src/problem2/src/hooks/useSwapForm.ts:164-167 | the value of a digit string after the point is in [0, 1) |
| Numerals.DigitPrefix | src/problem2/src/hooks/useSwapForm.ts:164-167 | `parseFloat` reads the longest leading run of digits |
| Numerals.FractionDigits | src/problem2/src/hooks/useSwapForm.ts:164-167 | the fraction `parseFloat` reads is all digits |
| Numerals.DropTrailingZeros | src/problem2/src/utils/format.ts:3-5 | removes only trailing zeros: a prefix, not ending in '0', followed in the input by zeros only |
| Numerals.DigitPrefixOf | src/problem2/src/hooks/useSwapForm.ts:164-167 | a digit run followed by a non-digit is read whole |
| Numerals.FractionAppendZero | src/problem2/src/utils/format.ts:3-5 | a trailing zero does not change a fraction's value |
| Numerals.DropTrailingZerosValue | src/problem2/src/utils/format.ts:3-5 | dropping trailing fraction zeros keeps the value |
| Numerals.CanonicalValue | src/problem2/src/utils/format.ts:3-5 | the trimmed numeral has the value of the original |
| Numerals.ParseUnsignedParts | src/problem2/src/hooks/useSwapForm.ts:164-167 | `parseFloat` of text with whole part w and fraction f reads w.f |
| Numerals.ShowSplits | src/problem2/src/hooks/useSwapForm.ts:164-167 | a printed numeral's whole part is the leading digit run |
| Numerals.FractionOfShow | src/problem2/src/hooks/useSwapForm.ts:164-167 | a printed numeral's fraction is read back exactly |
| Numerals.ParseUnsignedNumeral | src/problem2/src/hooks/useSwapForm.ts:164-167 | a printed numeral reads back as its value, whatever non-digit text follows |
| Numerals.ParseFloatUnsigned | src/problem2/src/hooks/useSwapForm.ts:164-167 | text with no sign is read unsigned |
| Numerals.ParseFloatMinus | src/problem2/src/hooks/useSwapForm.ts:164-167 | a leading '-' negates the value read |
| Numerals.ParseShowUnsigned | src/problem2/src/hooks/useSwapForm.ts:164-167 | a printed numeral reads back as its value |
| Numerals.ParseShowPositive | src/problem2/src/hooks/useSwapForm.ts:164-167 | `parseFloat` of a printed numeral is its value |
| Numerals.ParseShowNegative | src/problem2/src/hooks/useSwapForm.ts:164-167 | `parseFloat` of '-' and a numeral is minus its value |
| Numerals.ParseSignedNumeral | src/problem2/src/hooks/useSwapForm.ts:164-167 | a signed numeral reads back as its signed value |
| Numerals.ShowMatchesAmountPattern | src/problem2/src/hooks/useSwapForm.ts:262-265 | every printed numeral is accepted by the amount field |
| Numerals.NoDotsAllDigits | src/problem2/src/hooks/useSwapForm.ts:263-265 | text of digits and dots with no dot is all digits |
| Numerals.AllDigitsNoDots | src/problem2/src/hooks/useSwapForm.ts:263-265 | all-digit text is digits and dots with no dot |
| Numerals.AmountPatternIff | src/problem2/src/hooks/useSwapForm.ts:263-265 | `/^\d*\.?\d*$/` matches iff the text is digits and dots with at most one dot, so the extra dot count check is redundant |
| Numerals.AmountHasNoSign | src/problem2/src/hooks/useSwapForm.ts:263 | an accepted amount never starts with a sign |
| Numerals.AmountFraction | src/problem2/src/hooks/useSwapForm.ts:263-265 | in an accepted amount, the fraction read is everything after the point |
| Numerals.ParseUnsignedNonNegative | src/problem2/src/hooks/useSwapForm.ts:164-167 | an unsigned read is never negative |
| Numerals.ParseUnsignedNaNAmount | src/problem2/src/hooks/useSwapForm.ts:164-167 | an accepted amount reads as NaN only when it is "" or "." |
| Numerals.ParseUnsignedNaNEmpty | src/problem2/src/hooks/useSwapForm.ts:164-167 | "" and "." read as NaN |
| Numerals.ParseAmount | src/problem2/src/hooks/useSwapForm.ts:164-167 | an accepted amount is NaN iff it is "" or ".", and otherwise non-negative |
| Numerals.ParseFloat | src/problem2/src/hooks/useSwapForm.ts:164-167 | the empty text is NaN; a number read without a leading '-' is non-negative, and with one non-positive |
| Format.LastDot | src/problem2/src/utils/format.ts:3-5 | finds the last '.', or reports that there is none |
| Format.StripFractionZeros | src/problem2/src/utils/format.ts:4 | the first replace only shortens the text from the end |
| Format.TrimTrailingZeros | src/problem2/src/utils/format.ts:3-5 | the result is a prefix of the input; text with no point is unchanged |
| Format.ToFixed | src/problem2/src/utils/format.ts:13 | `toFixed` output is never empty and starts with '-' exactly for negative values |
| Format.FormatTokenAmount | src/problem2/src/utils/format.ts:7-15 | "0" for zero and non-finite values; otherwise a non-empty prefix of `toFixed` at 4 decimals (value >= 1) or maxDecimals, negative iff the value is |
| Format.FormatBalanceDisplay | src/problem2/src/utils/format.ts:17-20 | the display starts with the formatted amount, is longer exactly when a non-empty symbol is given, and then ends with " symbol" |
| Format.FormatExchangeRate | src/problem2/src/utils/format.ts:34-45 | "0" for non-finite or non-positive rates; exponential below 1e-8; otherwise a non-empty, unsigned prefix of `toFixed` at 4 or 8 decimals |
| Format.FormatFiatValue | src/problem2/src/utils/format.ts:22-32 | null exactly for undefined or non-finite values; otherwise the currency rendering |
| Format.LastDotOf | src/problem2/src/utils/format.ts:3-5 | in whole.fraction the last point is the one after the whole part |
| Format.SignedWholePart | src/problem2/src/utils/format.ts:3-5 | a signed whole part has no point |
| Format.StripCases | src/problem2/src/utils/format.ts:4 | the regex's two branches: an all-zero fraction of two or more digits goes with its point, otherwise only trailing zeros go |
| Format.DropAllZeros | src/problem2/src/utils/format.ts:4 | an all-zero fraction is dropped entirely |
| Format.TrimFraction | src/problem2/src/utils/format.ts:3-5 | trimming whole.fraction drops the fraction's trailing zeros, and the point when nothing is left |
| Format.SignedShow | src/problem2/src/utils/format.ts:3-5 | a signed numeral is the signed whole part followed by the fraction |
| Format.TrimNumeralFraction | src/problem2/src/utils/format.ts:3-5 | trimming a `toFixed` output with decimals gives its canonical numeral |
| Format.TrimNumeralWhole | src/problem2/src/utils/format.ts:3-5 | a `toFixed` output without decimals is left as it is |
| Format.TrimNumeral | src/problem2/src/utils/format.ts:3-5 | trimming any `toFixed` output gives the canonical numeral of the same sign |
| Format.CanonicalIdempotent | src/problem2/src/utils/format.ts:3-5 | canonicalising twice is canonicalising once |
| Format.CanonicalEnding | src/problem2/src/utils/format.ts:3-5 | a canonical numeral never ends with '.' nor, when it has a point, with '0' |
| Format.TrimEnding | src/problem2/src/utils/format.ts:3-5 | trimmed `toFixed` output never ends with '.' nor, after a point, with '0' |
| Format.TrimIdempotent | src/problem2/src/utils/format.ts:3-5 | trimming trimmed output changes nothing |
| FormatProofs.ParseEqualValue | src/problem2/src/utils/format.ts:3-5 | numerals of equal value read back the same |
| FormatProofs.ParseCanonical | src/problem2/src/utils/format.ts:3-5 | the canonical numeral reads back as the original's value |
| FormatProofs.ParseAsCanonical | src/problem2/src/utils/format.ts:3-5 | any text equal to a canonical numeral reads back as its value |
| FormatProofs.TrimReadsValue | src/problem2/src/utils/format.ts:3-5 | trimmed `toFixed` output reads back as the numeral's signed value |
| FormatProofs.TrimKeepsValue | src/problem2/src/utils/format.ts:3-5 | trimming never changes the number `parseFloat` reads |
| FormatProofs.TrimExampleFraction | src/problem2/src/utils/format.ts:3-5 | "1.2000" trims to "1.2" |
| FormatProofs.TrimExampleAllZeros | src/problem2/src/utils/format.ts:3-5 | "1.0000" trims to "1" |
| FormatProofs.TrimExampleOneZero | src/problem2/src/utils/format.ts:3-5 | "100.0" trims to "100" and keeps the whole part's zeros |
| FormatProofs.TrimExampleNoPoint | src/problem2/src/utils/format.ts:3-5 | "10" is left alone |
| FormatProofs.FormatTokenAmountCanonical | src/problem2/src/utils/format.ts:7-15 | a non-zero amount prints as the signed canonical `toFixed` numeral at 4 decimals (value >= 1) or maxDecimals |
| FormatProofs.FormatTokenAmountZero | src/problem2/src/utils/format.ts:8-10 | zero, NaN and ±Infinity print as "0" |
| FormatProofs.FormatTokenAmountReadsBack | src/problem2/src/utils/format.ts:7-15 | a formatted amount reads back as the signed value of `toFixed`'s numeral |
| FormatProofs.FormatTokenAmountReadsNumeral | src/problem2/src/utils/format.ts:7-15 | the same, for a named numeral |
| FormatProofs.FormatTokenAmountDecimals | src/problem2/src/utils/format.ts:12-14 | at most maxDecimals decimals, and at most 4 for values >= 1 |
| FormatProofs.FormatTokenAmountIsNumeral | src/problem2/src/utils/format.ts:7-15 | a formatted positive amount is accepted by the amount field |
| FormatProofs.FormatTokenAmountNonEmpty | src/problem2/src/utils/format.ts:7-15 | a formatted amount is never empty |
| FormatProofs.FormatTokenAmountNumeral | src/problem2/src/utils/format.ts:7-15 | a formatted amount is a signed numeral, negative iff the value is |
| FormatProofs.FormatBalanceDisplaySplits | src/problem2/src/utils/format.ts:17-20 | the display is the formatted amount, then " symbol" when a symbol is given |
| FormatProofs.FormatBalanceDisplayReadsBack | src/problem2/src/utils/format.ts:17-20 | the display starts with the amount, is longer iff the symbol is non-empty, and reads back as the amount |
| FormatProofs.ParseSignedText | src/problem2/src/utils/format.ts:7-15 | a sign before digit-led text negates the value read |
| FormatProofs.ReadsBackSigned | src/problem2/src/utils/format.ts:17-20 | a signed numeral followed by a suffix reads back as the numeral |
| FormatProofs.ReadsBackWithSuffix | src/problem2/src/utils/format.ts:17-20 | appending " symbol" does not change the number read |
| FormatProofs.FormatExchangeRateShape | src/problem2/src/utils/format.ts:34-45 | "0" for non-finite or non-positive rates; exponential form below 1e-8; otherwise the canonical numeral at 4 or 8 decimals, which reads back as `toFixed`'s value |
| FormatProofs.FormatExchangeRateCanonical | src/problem2/src/utils/format.ts:42-44 | a displayable rate prints as its canonical `toFixed` numeral |
| Api.CalculateExchangeRate | src/problem2/src/utils/api.ts:105-111 | 0 when the target price is 0; otherwise rate × toPrice = fromPrice |
| Api.CalculateToAmount | src/problem2/src/utils/api.ts:113-118 | dividing the result by a non-zero rate gives back the amount; a positive amount at a positive rate gives a positive result |
| Api.ToAmountAtRate | src/problem2/src/utils/api.ts:105-118 | converting at the computed rate gives amount × fromPrice / toPrice |
| Api.ToAmountKeepsValue | src/problem2/src/utils/api.ts:105-118 | the converted amount is worth exactly what was converted |
| Api.PositiveConversion | src/problem2/src/utils/api.ts:105-118 | positive prices give a positive rate, and a positive amount converts to a positive amount |
| Api.ToUpper | src/problem2/src/utils/api.ts:27 | upper-casing keeps the length and maps each character |
| Api.IconUrlSameIff | src/problem2/src/utils/api.ts:26-28 | two symbols share an icon URL iff they upper-case equally |
| Api.IconUrlIgnoresCase | src/problem2/src/utils/api.ts:26-28 | the icon URL does not depend on the symbol's case |
| Api.IconUrlShape | src/problem2/src/utils/api.ts:26-28 | the URL is the base, '/', the upper-cased symbol, then ".svg", so no lower-case letter appears between the base and ".svg" |
| Api.GetTokenIconUrl | src/problem2/src/utils/api.ts:26-28 | the URL is the base, '/', the upper-cased symbol, then ".svg" |
| Api.Translate | src/problem2/src/utils/api.ts:52-56 | every symbol priced is one whose id the response quotes with a `usd` field |
| Api.FetchCoinGeckoPrices | src/problem2/src/utils/api.ts:31-64 | a failed request gives the empty table; a successful one prices only symbols whose id was quoted |
| Api.FetchOriginalPrices | src/problem2/src/utils/api.ts:67-79 | a successful request gives the response body as the table, a failed one the empty table |
| Api.TranslateKeys | src/problem2/src/utils/api.ts:52-56 | a symbol gets a price iff its CoinGecko id is in the response with a `usd` field |
| Api.TranslateValue | src/problem2/src/utils/api.ts:52-56 | the price given is the response's `usd` value for that id |
| Api.CoinGeckoIdsDistinct | src/problem2/src/utils/api.ts:8-24 | no symbol appears twice in the id table |
| Api.FetchTokenPrices | src/problem2/src/utils/api.ts:81-103 | CoinGecko's prices when it gave any; otherwise the original API's, which may be empty |
| Api.CoinGeckoTranslation | src/problem2/src/utils/api.ts:31-64 | a successful CoinGecko response prices exactly the listed symbols it quotes, at the quoted value |
| Api.CoinGeckoFirst | src/problem2/src/utils/api.ts:83-89 | when CoinGecko gives prices, the fallback does not matter |
| Api.FailuresGiveEmpty | src/problem2/src/utils/api.ts:43-46 | when both sources fail the table is empty |
| Api.PricesFromASource | src/problem2/src/utils/api.ts:81-103 | the prices always come from one source, never a mix |
| SwapState.BuildTokens | src/problem2/src/hooks/useSwapForm.ts:96-101 | one token per symbol |
| SwapState.DefaultSource | src/problem2/src/hooks/useSwapForm.ts:120 | no source exactly for an empty catalog; otherwise a token of the catalog |
| SwapState.DefaultDestination | src/problem2/src/hooks/useSwapForm.ts:121-124 | a destination is a catalog token whose symbol differs from the source's; none exactly when every token has the source's symbol |
| SwapState.Load | src/problem2/src/hooks/useSwapForm.ts:92-117 | loading replaces the catalog, with prices when fetched and without when it failed, sets the default form of that catalog, and leaves balances, errors and the dialog alone |
| SwapState.WithCatalog | src/problem2/src/hooks/useSwapForm.ts:103-104 | setting a catalog also sets its default form and changes nothing else |
| SwapStateProofs.DefaultSourceChoice | src/problem2/src/hooks/useSwapForm.ts:120 | BTC when listed, else the first token, none only for an empty catalog |
| SwapStateProofs.DefaultDestinationChoice | src/problem2/src/hooks/useSwapForm.ts:121-124 | USDT unless it is the source, else the first token with another symbol; none only when every token has the source's symbol |
| SwapStateProofs.DefaultFormPair | src/problem2/src/hooks/useSwapForm.ts:119-132 | the default pair never has one symbol twice, and the amount is cleared |
| SwapStateProofs.CommonTokensFacts | src/problem2/src/hooks/useSwapForm.ts:40-56 | 15 symbols, with BTC third and USDT fifth |
| SwapStateProofs.CatalogEntry | src/problem2/src/hooks/useSwapForm.ts:96-101 | the i-th token is made from the i-th symbol |
| SwapStateProofs.BuildTokensEntries | src/problem2/src/hooks/useSwapForm.ts:96-101 | each token keeps its symbol, is priced iff the table has the symbol, and has the symbol's icon URL |
| SwapStateProofs.CatalogSize | src/problem2/src/hooks/useSwapForm.ts:96-111 | the catalog has one token per common symbol |
| SwapStateProofs.DefaultPairOf | src/problem2/src/hooks/useSwapForm.ts:119-132 | with BTC and USDT in the catalog the default pair is BTC to USDT |
| SwapStateProofs.DefaultPairOfSymbols | src/problem2/src/hooks/useSwapForm.ts:119-132 | a catalog built from the common symbols defaults to BTC to USDT |
| SwapStateProofs.LoadedDefaults | src/problem2/src/hooks/useSwapForm.ts:92-132 | whether or not prices arrive, the form becomes BTC to USDT with an empty amount |
| SwapDerived.FromBalance | src/problem2/src/hooks/useSwapForm.ts:137-140 | 0 with no source token or no balance entry, else the ledger's balance |
| SwapDerived.ToBalance | src/problem2/src/hooks/useSwapForm.ts:142-145 | 0 with no destination token or no balance entry, else the ledger's balance |
| SwapDerived.ExchangeRate | src/problem2/src/hooks/useSwapForm.ts:147-157 | a rate exists iff both prices are positive; it is positive and rate × toPrice = fromPrice |
| SwapDerived.FormattedExchangeRate | src/problem2/src/hooks/useSwapForm.ts:159-162 | present iff the rate is; "1 FROM = rate TO" |
| SwapDerived.FormattedToAmount | src/problem2/src/hooks/useSwapForm.ts:176-179 | empty iff nothing is received, otherwise text the amount field accepts |
| SwapDerived.FiatValue | src/problem2/src/hooks/useSwapForm.ts:181-189 | present iff there is a price and a positive amount; then the currency rendering of their product |
| SwapDerived.ConvertAtPrices | src/problem2/src/hooks/useSwapForm.ts:169-174 | converting at a rate of p/q is positive iff the amount is, and gives amount × p / q |
| SwapDerived.ConvertAtFormRate | src/problem2/src/hooks/useSwapForm.ts:147-174 | the received amount is positive iff both prices and the amount are positive, else 0; it is worth what was sent |
| SwapDerived.ToAmountIsPriceRatio | src/problem2/src/hooks/useSwapForm.ts:164-174 | `toAmountValue` is the typed amount times fromPrice / toPrice when everything is positive, else 0 |
| SwapDerived.FiatAtFormRate | src/problem2/src/hooks/useSwapForm.ts:181-189 | sent and received amounts have the same dollar value |
| SwapDerived.FiatAtPrices | src/problem2/src/hooks/useSwapForm.ts:181-189 | equal dollar products render equally |
| SwapDerived.FiatValuesAgree | src/problem2/src/hooks/useSwapForm.ts:181-189 | whenever something is received, both fiat labels show and agree |
| SwapDerived.NumericAmountOfPattern | src/problem2/src/hooks/useSwapForm.ts:164-167 | an accepted amount's number is non-negative, and 0 for "" and "." |
| SwapDerived.NumericFromAmount | src/problem2/src/hooks/useSwapForm.ts:164-167 | the number `parseFloat` reads from the amount, or 0 when it reads NaN |
| SwapDerived.ToAmountValue | src/problem2/src/hooks/useSwapForm.ts:169-174 | never negative, and positive exactly when there is a rate and a positive amount |
| SwapDerived.HasSufficientBalance | src/problem2/src/hooks/useSwapForm.ts:191-194 | sufficient iff, with a source and a positive amount, the amount is within the source balance |
| SwapDerived.IsSubmitDisabled | src/problem2/src/hooks/useSwapForm.ts:333-334 | enabled iff both tokens are chosen, the amount is positive and within the balance, and something is received |
| SwapDerived.EnabledMeans | src/problem2/src/hooks/useSwapForm.ts:333-334 | an enabled submit button means two tokens, a rate, a positive amount within the balance and a positive received amount |
| SwapDerived.NoPriceDisables | src/problem2/src/hooks/useSwapForm.ts:333-334 | a token without a price disables submit |
| SwapValidation.DestinationErrors | src/problem2/src/hooks/useSwapForm.ts:210-219 | at most one destination error |
| SwapValidation.GetError | src/problem2/src/hooks/useSwapForm.ts:196-201 | a message exists iff some error is for the field, and it is the message of the first such error |
| SwapValidation.ValidateForm | src/problem2/src/hooks/useSwapForm.ts:203-243 | valid iff no errors; only the errors change |
| SwapValidation.ValidIff | src/problem2/src/hooks/useSwapForm.ts:203-243 | no errors iff both tokens are chosen and differ, and the amount is present, within the balance and positive |
| SwapValidation.ValidationErrors | src/problem2/src/hooks/useSwapForm.ts:203-243 | at most three errors, none for the to-amount, and "Please select source token" first when no source is chosen |
| SwapValidation.AmountError | src/problem2/src/hooks/useSwapForm.ts:221-239 | no amount error iff the amount is present, within the balance and positive; otherwise one of the three amount messages |
| SwapValidation.ErrorsOrdered | src/problem2/src/hooks/useSwapForm.ts:203-243 | errors come in check order (source, destination, amount), at most one per field, never for the to-amount |
| SwapValidation.GetErrorAppend | src/problem2/src/hooks/useSwapForm.ts:198 | `find` over concatenated errors prefers the first part |
| SwapValidation.SourceTokenError | src/problem2/src/hooks/useSwapForm.ts:206-208 | the source field's message is "Please select source token" exactly when none is chosen |
| SwapValidation.DestinationTokenError | src/problem2/src/hooks/useSwapForm.ts:210-219 | the destination field's message: choose one, else same-symbol, else none |
| SwapValidation.AmountFieldError | src/problem2/src/hooks/useSwapForm.ts:221-239 | the amount field's message is the first of missing, insufficient or not positive, and none iff all pass |
| SwapValidation.ZeroIsNotPositive | src/problem2/src/hooks/useSwapForm.ts:221 | "0" is not a positive amount |
| SwapHandlers.WithoutFields | src/problem2/src/hooks/useSwapForm.ts:251 | clearing fields removes exactly their errors and keeps every other error |
| SwapHandlers.WithoutFieldsKeeps | src/problem2/src/hooks/useSwapForm.ts:251 | no error of a cleared field remains, and clearing twice is clearing once |
| SwapHandlers.SelectSource | src/problem2/src/hooks/useSwapForm.ts:245-252 | choosing a source sets it, clears the amount, drops exactly the source and amount errors, and changes nothing else |
| SwapHandlers.SelectDestination | src/problem2/src/hooks/useSwapForm.ts:254-260 | choosing a destination sets it, drops exactly its errors, and changes nothing else |
| SwapHandlers.EditAmount | src/problem2/src/hooks/useSwapForm.ts:262-270 | text in the amount syntax becomes the amount with exactly the amount errors dropped; other text changes nothing |
| SwapHandlers.Flip | src/problem2/src/hooks/useSwapForm.ts:272-279 | flipping swaps the tokens, makes the received amount the new amount (empty iff none), and clears all errors |
| SwapHandlers.MaxAsWritten | src/problem2/src/hooks/useSwapForm.ts:281-288 | Max does nothing without a source; otherwise the amount becomes the formatted balance, accepted by the field when the balance is non-negative, exactly the amount errors drop, and nothing else changes |
| SwapHandlers.AmountAcceptedIff | src/problem2/src/hooks/useSwapForm.ts:262-270 | the handler's two checks accept exactly the amount syntax |
| SwapHandlers.FormattedAmountAccepted | src/problem2/src/hooks/useSwapForm.ts:281-288 | a formatted non-negative number is accepted by the amount field |
| SwapHandlers.FlipTwice | src/problem2/src/hooks/useSwapForm.ts:272-279 | flipping twice restores the pair |
| SwapHandlers.SwapBalancesExact | src/problem2/src/hooks/useSwapForm.ts:308 | within the balance the debit is exact |
| SwapHandlers.SubmitGoesThroughIff | src/problem2/src/hooks/useSwapForm.ts:293-301 | a submit goes through iff validation passes and something is received; the symbols then differ |
| SwapHandlers.Submit | src/problem2/src/hooks/useSwapForm.ts:290-327 | submit always records the validation errors; a rejected submit changes nothing else; an accepted one opens the dialog with a summary, clears the amount and keeps both tokens and the catalog |
| SwapHandlers.SwapBalances | src/problem2/src/hooks/useSwapForm.ts:306-310 | the ledger gains the two symbols; the source is debited floored at 0, the destination credited, every other balance kept |
| SwapHandlers.SubmitAccepted | src/problem2/src/hooks/useSwapForm.ts:303-324 | an accepted submit moves exactly the sent and received amounts, adds the two symbols to the ledger, opens the dialog with both amounts formatted at 8 decimals and the pair, and clears only the amount |
| SwapHandlers.SubmitAmounts | src/problem2/src/hooks/useSwapForm.ts:303-324 | the same, stated for named amounts: the source is debited exactly, the destination credited, the summary holds their formatted text |
| SwapHandlers.CloseModal | src/problem2/src/hooks/useSwapForm.ts:329-331 | closing only closes the dialog; the swap summary stays |
| SwapHandlers.BalanceLabel | src/problem2/src/hooks/useSwapForm.ts:367-368 | no token gives ""; otherwise the formatted balance, then " symbol" for a non-empty symbol; `parseFloat` reads the label as it reads the formatted balance |
| MaxRounding.Pow10 | src/problem2/src/utils/format.ts:12 | a power of ten is at least 1 |
| MaxRounding.MaxCorrected | src/problem2/src/hooks/useSwapForm.ts:281-288 | corrected Max does nothing without a source; otherwise only the amount changes, to text the field accepts for a non-negative balance, and exactly the amount errors drop |
| MaxRounding.TruncateBounds | src/problem2/src/hooks/useSwapForm.ts:281-288 | truncation stays within [0, x], less than one unit of the last decimal below x, with at most d decimals, and at least 1 when x is |
| MaxRounding.ScaledFloor | src/problem2/src/hooks/useSwapForm.ts:281-288 | the same bounds for truncation to a multiple of 1/p |
| MaxRounding.QuotientBounds | src/problem2/src/hooks/useSwapForm.ts:281-288 | floor(x·p)/p lies within 1/p below x |
| MaxRounding.Pow10Whole | src/problem2/src/utils/format.ts:12 | powers of ten are whole numbers |
| MaxRounding.TruncateKeepsDecimals | src/problem2/src/utils/format.ts:12 | truncating does not change how many decimals the formatter uses |
| MaxRounding.FormatExactReadsBack | src/problem2/src/utils/format.ts:7-15 | a value with few enough decimals formats and reads back as itself |
| MaxRounding.MaxCorrectedFits | src/problem2/src/hooks/useSwapForm.ts:281-288 | corrected Max fills an accepted amount within one last-decimal unit below the balance, and never over it |
| MaxRounding.MaxReadsBack | src/problem2/src/hooks/useSwapForm.ts:191-194 | an amount within the balance passes the balance check |
| MaxRounding.MaxAsWrittenOverdraws | src/problem2/src/hooks/useSwapForm.ts:281-288 | Max as written turns a balance of 1.99999 into "2", which fails "Insufficient balance" |
| MaxRounding.ExampleBalance | src/problem2/src/hooks/useSwapForm.ts:137-140 | the example state's source balance is 1.99999 |
| MaxRounding.ExampleFormatsAsTwo | src/problem2/src/utils/format.ts:7-15 | 1.99999 printed with four decimals and trimmed is "2" |
| MaxRounding.FormatsAsWhole | src/problem2/src/utils/format.ts:7-15 | a value of at least 1 whose four decimals print as zeros formats as its whole part |
| MaxRounding.MaxReadsBackOver | src/problem2/src/hooks/useSwapForm.ts:191-194 | an amount above the balance fails the balance check |
| MaxRounding.MaxCorrectedExample | src/problem2/src/hooks/useSwapForm.ts:281-288 | on the same state, corrected Max passes the balance check |
| SwapInvariants.FilterKeepsOrder | src/problem2/src/hooks/useSwapForm.ts:251 | dropping errors keeps the rest in check order |
| SwapInvariants.WithoutFieldsOrdered | src/problem2/src/hooks/useSwapForm.ts:251 | clearing fields keeps errors in check order |
| SwapInvariants.SwapKeepsNonNegative | src/problem2/src/hooks/useSwapForm.ts:306-310 | the floored debit never makes a balance negative |
| SwapInvariants.InitialBalancesNonNegative | src/problem2/src/hooks/useSwapForm.ts:58-74 | the starting ledger has no negative balance |
| SwapInvariants.InitialInv | src/problem2/src/hooks/useSwapForm.ts:76-89 | the initial state satisfies the invariant |
| SwapInvariants.LoadInv | src/problem2/src/hooks/useSwapForm.ts:92-132 | loading keeps the invariant |
| SwapInvariants.SelectionInv | src/problem2/src/hooks/useSwapForm.ts:245-260 | choosing tokens keeps the invariant |
| SwapInvariants.EditAmountInv | src/problem2/src/hooks/useSwapForm.ts:262-270 | typing keeps the invariant |
| SwapInvariants.FlipInv | src/problem2/src/hooks/useSwapForm.ts:272-279 | flipping keeps the invariant |
| SwapInvariants.MaxInv | src/problem2/src/hooks/useSwapForm.ts:281-288 | the program's own Max keeps the invariant: it may overdraw, but the amount stays well-formed and the errors ordered |
| SwapInvariants.MaxCorrectedInv | src/problem2/src/hooks/useSwapForm.ts:281-288 | corrected Max keeps the invariant too |
| SwapInvariants.SubmitInv | src/problem2/src/hooks/useSwapForm.ts:290-327 | submitting keeps the invariant |
| SwapInvariants.Step | src/problem2/src/hooks/useSwapForm.ts:92-331 | only loading changes the catalog, to the one built from the fetched prices; only submit changes the balances |
| SwapInvariants.StepInv | src/problem2/src/hooks/useSwapForm.ts:245-331 | every handler as written, Max included, and loading keep the invariant |
| SwapInvariants.RunInv | src/problem2/src/hooks/useSwapForm.ts:245-331 | any sequence of handler calls keeps the invariant |
| SwapInvariants.ReachableInv | src/problem2/src/hooks/useSwapForm.ts:82-331 | every reachable state has non-negative balances, ordered errors and a well-formed amount |

## Left out

- Numerals.ParseFloat: leading whitespace, exponents (`1e3`) and the word "Infinity" are not read; the amount field only ever holds digits and at most one point, so the hook never passes such text.
- SwapDerived.ToAmountValue: its contract states only when the amount is positive; the value itself, amount × fromPrice / toPrice, is stated by SwapDerived.ToAmountIsPriceRatio.
- SwapValidation.ValidationErrors: its contract bounds the list and fixes the first error; the full content is stated by SwapValidation.ErrorsOrdered, SwapValidation.ValidIff and the per-field lemmas.
- Floating point. Binary rounding of prices, products and quotients is not modelled; all arithmetic is exact.
- `toFixed`'s switch to exponential notation for values of 1e21 and more is left out; the renderer always yields a digit numeral.
- The text of `toExponential` and of `Intl.NumberFormat` is left to the renderer; no property depends on it beyond equal inputs giving equal text.
- `toUpperCase` is modelled on ASCII letters only.
- `fetch`, response status codes, JSON parsing, the CoinGecko query URL (`api.ts` lines 33-34) and the console messages are left out; each source is an input that either gave a table or failed.
- `isLoading` and its `finally` are not part of the state, since no other value depends on them.
- React itself is left out: `useState`, `useEffect`, `useMemo`, `useCallback`, `preventDefault`, the presentation components and the rendered JSX of the wallet page.
- `successSwapData`'s amounts are kept as text, as in the hook; the dialog that shows them is out of scope.
- Lookups in `PRIORITY_MAP` and the balance ledger by inherited object keys such as "constructor" are not modelled: a key is present only when listed.
- WalletPage.FormattedBalances: NaN amounts and `undefined` fields of a balance are not modelled; amounts are reals.
- WalletPage.RowFormatted: assumes `toFixed(2)` writes exactly two decimals, as every engine does for values below 1e21.
- SumToN.SumFormula: JavaScript's exact-integer limit of 2^53 is not modelled; values are exact integers.
- SumToN.Range: non-integer `n` is not modelled (`n` is an integer).
- `result.js` declares `sum_to_n` three times, so only the last declaration is bound at run time; each version is modelled as its own function.
- MaxRounding.FormatExactReadsBack: assumes the renderer prints exactly a value that already has at most the requested decimals.

## Findings

| source | as written | input that shows it | evidently intended | confidence | as-written member | corrected member |
|---|---|---|---|---|---|---|
| src/problem2/src/hooks/useSwapForm.ts:281-288 | Max fills the amount with `formatTokenAmount(fromBalance)`, which rounds to the nearest 4 decimals (8 below 1) | a source balance of 1.99999 fills "2", and submitting then fails with "Insufficient balance" | the filled amount never exceeds the balance: round down before formatting | medium, not executed | MaxRounding.MaxAsWrittenOverdraws | MaxRounding.MaxCorrectedFits |
