# Payment verification and formatting helpers of the Kaspiano front end

A Dafny model of the decision logic in a KRC-20 token marketplace front end.

- **`verifyPaymentTransaction`** decides whether a Kaspa transaction paid an order. The indexer lookup yields a transaction record with inputs and outputs. The payment is accepted only when:
  - some input spends an outpoint owned by the sender;
  - some single output credits exactly the expected amount (in sompi) to the receiver.

  The receiver defaults to the platform wallet, whose address comes from the build environment.
- **Three string helpers** from the same file:
  - `shortenAddress` cuts a long address to a prefix, `...` and a suffix;
  - `capitalizeFirstLetter` upper-cases the first character;
  - `formatNumberWithCommas` inserts thousands separators with the regular expression `\B(?=(\d{3})+(?!\d))`.
- **`sendServerRequestAndSetErrorsIfNeeded`** handles a backend response. A 400 response passes its body to the caller's `setErrors` callback and yields `null`. A 200 or 201 response yields its body. Anything else yields `null`.

Every operation here is pure in the source, so the model uses datatypes, functions and lemmas:

- `wrappers.dfy`: `Option`, which stands for `null`/`undefined`.
- `js.dfy`: the JavaScript built-ins the code relies on:
  - `find`/`findIndex` return the first match;
  - `substring` clamps and swaps its indices;
  - `charAt` and `slice`;
  - `toUpperCase`, for ASCII letters only.
- `utils.dfy`: `src/utils/Utils.ts`.
- `backend_dal.dfy`: `sendServerRequestAndSetErrorsIfNeeded` of `src/DAL/BackendDAL.ts`.

Inputs and effects are handled as follows:

- The result of the indexer lookup is an `Option<TxnRecord>` parameter.
- The platform wallet address is a parameter, `kaspianoWallet`, and is the default value of `receiverAddr`.
- `formatNumberWithCommas` works on the text `value.toString()`.
- The `setErrors` callback becomes the list of its call arguments in the returned `RequestOutcome`.

The code does not tell apart a lookup that found nothing and a payment that does not match: both give `false`. The model follows the code here.

## Model

| member | source | states |
|---|---|---|
| `Js.Find` | src/utils/Utils.ts:78 | `Array.prototype.find`: returns an element iff some element satisfies the predicate; the element returned satisfies it and is the first such element (no earlier element satisfies it) |
| `Js.Substring` | src/utils/Utils.ts:36-37 | `substring` with in-range indices is the slice between them; with no end index it is the suffix |
| `Utils.VerifyPaymentTransaction` | src/utils/Utils.ts:65-97 | true iff a record was found, some input's `previous_outpoint_address` is the sender, and one single output has both the receiver's `script_public_key_address` and exactly the expected amount |
| `Utils.LookupMissRejects` | src/utils/Utils.ts:71-75 | a lookup that found no record gives `false` |
| `Utils.NoSenderInputRejects` | src/utils/Utils.ts:78-83 | with no input from the sender the result is `false`, whatever the outputs contain |
| `Utils.SplitMatchRejects` | src/utils/Utils.ts:86-93 | if no output to the receiver carries the amount, the result is `false`; an address match in one output and an amount match in another do not combine |
| `Utils.AmountIsExact` | src/utils/Utils.ts:86-88 | when the receiver's outputs all pay `paid`, the result for an asked amount is true iff `asked == paid` and the sender funded the transaction, so `paid ± 1` is never accepted |
| `Utils.VerifyMonotone` | src/utils/Utils.ts:78-93 | a transaction whose inputs and outputs contain those of an accepted one is accepted too |
| `Utils.VerifyIgnoresOrder` | src/utils/Utils.ts:78-93 | reordering inputs and outputs does not change the verdict |
| `Utils.SinglePaymentScenario` | src/utils/Utils.ts:65-97 | A→B paying 100000000 is accepted for sender A, receiver B and amount 100000000; it is rejected for 99999999, for 100000001 and for sender C |
| `Utils.DefaultReceiverIsPlatformWallet` | src/utils/Utils.ts:65-70 | without an explicit receiver, the output must pay the platform wallet (`KASPIANO_WALLET`, line 8) |
| `Utils.ShortenAddress` | src/utils/Utils.ts:32-39 | an address no longer than `startLength + endLength` is returned unchanged. Otherwise, for non-negative lengths, the result is the first `startLength` characters, `...` and the last `endLength` characters, of length `startLength + endLength + 3` |
| `Utils.ShortenAddressDefaults` | src/utils/Utils.ts:32-39 | with the default lengths 6 and 4, an address of more than 10 characters becomes 13 characters: its first 6, `...`, its last 4 |
| `Js.CharAt` | src/utils/Utils.ts:45 | `charAt(i)`: the one-character string at an in-range index, `""` out of range |
| `Js.Slice` | src/utils/Utils.ts:45 | `slice(start)`: the suffix from `start` when it is at most the length, `""` beyond it |
| `Js.ToUpperCase` | src/utils/Utils.ts:45 | `toUpperCase`: same length, each character mapped by the upper-case mapping (lower-case ASCII letters shifted to upper case, other characters unchanged) |
| `Utils.CapitalizeFirstLetter` | src/utils/Utils.ts:43-46 | the empty string is returned unchanged. Otherwise the length is kept, the first character is upper-cased and the rest is unchanged |
| `Utils.CapitalizeFirstLetterIdempotent` | src/utils/Utils.ts:43-46 | capitalising twice is the same as once; the first character is never a lower-case ASCII letter afterwards; a string that does not start with a lower-case ASCII letter is unchanged |
| `Utils.FormatNumberWithCommas` | src/utils/Utils.ts:30 | the replacement with `\B(?=(\d{3})+(?!\d))`, decided position by position: a comma goes before position `p` when `p` is not a word boundary and the run of digits starting at `p` is a positive multiple of three long. The function carries no contract of its own; its properties are stated by `Utils.FormatOnlyInsertsCommas`, `Utils.FormatDigitsIsGrouped` and `Utils.FormatNumberWithCommasGroups` |
| `Utils.FormatOnlyInsertsCommas` | src/utils/Utils.ts:30 | `formatNumberWithCommas` only inserts commas: removing the commas from input and output gives the same text, and the output is at least as long |
| `Utils.FormatDigitsIsGrouped` | src/utils/Utils.ts:30 | on a digit string the regular-expression replacement equals the reference grouping: the last three digits, preceded by a comma and the grouping of the rest |
| `Utils.FormatNumberWithCommasGroups` | src/utils/Utils.ts:30 | for a non-empty digit string: removing the commas gives the input back; there is no leading or trailing comma; each comma is followed by exactly three digits and then a comma or the end; the first group has 1 to 3 digits |
| `Utils.FractionIsGrouped` | src/utils/Utils.ts:30 | as written, `<digits>.<digits>` comes out with both the integer part and the fraction grouped |
| `Utils.FractionGroupingExample` | src/utils/Utils.ts:30 | as written, four integer digits, a point and four fraction digits get a comma after the first digit of each part: `"1234.5678"` becomes `"1,234.5,678"` |
| `Utils.DecimalOnlyInsertsCommas` | src/utils/Utils.ts:30 | the corrected formatter only inserts commas: removing them gives the input's text back, and everything from the first decimal point on is kept as it is |
| `Utils.DecimalFormatGroupsIntegerPart` | src/utils/Utils.ts:30 | the corrected formatter groups a digit string like the reference grouping. On `<digits>.<digits>` it groups only the integer part and keeps the fraction |
| `Utils.CorrectedFractionExample` | src/utils/Utils.ts:30 | corrected, four integer digits, a point and four fraction digits get a comma only after the first integer digit: `"1234.5678"` becomes `"1,234.5678"` |
| `BackendDAL.SendServerRequestAndSetErrorsIfNeeded` | src/DAL/BackendDAL.ts:149-169 | `setErrors` is called at most once, exactly when the response is present with status 400, and then with the response body. Data is returned exactly when the status is 200 or 201, and it is the response body. Returning data and calling `setErrors` never happen together |
| `BackendDAL.MissingResponseIsNull` | src/DAL/BackendDAL.ts:155-157 | a missing response yields `null` and does not call `setErrors` |
| `BackendDAL.OtherStatusIsNull` | src/DAL/BackendDAL.ts:164-166 | any status other than 200, 201 and 400 yields `null` and does not call `setErrors` |

## Findings

| source | as written | input that shows it | evidently intended | confidence | as-written member | corrected member |
|---|---|---|---|---|---|---|
| src/utils/Utils.ts:30 | the pattern `\B(?=(\d{3})+(?!\d))` also matches inside the digits after a decimal point, so a fraction of four or more digits gets thousands separators | `1234.5678` is formatted as `1,234.5,678` | separators only in the integer part: `1,234.5678` | not executed; the behaviour of the pattern is certain. The callers of this copy pass token supplies, which are whole numbers. The same pattern at src/components/navbar/Navbar.tsx:49 formats a wallet balance rounded to four decimals | `Utils.FractionGroupingExample` | `Utils.DecimalFormatGroupsIntegerPart` |

## Left out

- `getTxnInfo` (`src/DAL/KaspaApiDal`) is not part of this model. Its result is a parameter, and its network access, asynchrony and failures are not modelled.
- The `console.error` logging in `verifyPaymentTransaction` is left out: it does not affect the result.
- `Utils.VerifyPaymentTransaction` compares amounts as unbounded integers. JavaScript compares `number` values, which lose precision above 2^53 sompi. Its strict `===` would also never match an amount that the indexer returned as a string.
- `Utils.CapitalizeFirstLetter` upper-cases ASCII letters only. JavaScript's `toUpperCase` also maps other letters, and some of those change the length (`"ß"` becomes `"SS"`). A `null` or `undefined` argument is not modelled.
- `Utils.ShortenAddress` counts characters where JavaScript counts UTF-16 code units. Non-numeric length arguments (`NaN`) are not modelled.
- `Utils.FormatNumberWithCommas` starts from the text of the number. The number-to-text conversion (exponent notation from 1e21 on) and the `value?.` case of a missing value are not modelled.
- `BackendDAL.SendServerRequestAndSetErrorsIfNeeded` does not model a request function that throws. A 200 response whose body is `null` looks the same to the caller as a `null` result; the model keeps the two apart.
- The other functions of both files are left out:
  - HTTP wrappers: `fetchAllTokens`, `fetchTokenByTicker`, the referral and order calls;
  - floating-point formatting: `simplifyNumber`, `setWalletBalanceUtil`, `convertToProtocolFormat`;
  - randomness, time and browser storage: `generateNonce`, `generateRequestId`, `delay`, `formatDate`, `getLocalThemeMode`.

  They are network plumbing, floating-point arithmetic, randomness or clocks, with no decision logic to state.
- React components, pages, styling and the buy-lock countdown are view state and are not modelled.
