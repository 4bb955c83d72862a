# Verified models of the order, money and messaging helpers

Dafny models of the parts of this repository whose correctness is not visible from one
function body, with proofs over every input, every run or every interleaving. Each `.dfy`
file is one module.

| module | models |
|---|---|
| `Ieee754` | binary64 rounding (section 4.3.1 of IEEE 754-2019), defined concretely and proved nearest |
| `Quotients`, `Hundredths` | whole numbers divided, and hundredths read and printed, through two roundings: what comes out, in whole numbers |
| `Money`, `Percentages`, `MoneyText` | `lib/money.ts`: checked arithmetic, basis points, formatting and parsing, all in doubles |
| `TypedAmounts`, `PrintedAmounts` | what a typed amount says and what a printed price shows, defined without the program's reader and symbol table |
| `InclusiveTax`, `OrderTotals`, `OrderAccounts` | `server/domain/order-totals.ts`: the order-total engine on those doubles |
| `Cart`, `OrderPricing` | the order form of `components/orders/create-order-form.tsx`, and what `server/services/order/order.service.ts` charges for what it submits |
| `Bits`, `Base32`, `Base64`, `Utf8`, `SecretBox` | `lib/crypto.ts`: the base32 encoder, the secret envelope and the key cache |
| `Csv` | `lib/csv.ts`, read back by section 2 of RFC 4180 |
| `Phone` | `lib/phone.ts` |
| `Paging`, `OffsetPaging` | `lib/api-response.ts`: cursor walks over a growing store, and offset pages |
| `Connection` | `db/connection.ts`: the warm-up latch under interleaving |
| `StepEditor` | the step list of `components/automation/automation-form.tsx` |
| `Slugs`, `OrderNumbers` | `lib/ids.ts`, with the sequence reader of `server/repositories/order.repository.ts` |
| `ConcurrentNumbers` | numbering orders in interleaved transactions under the unique index of `prisma/schema.prisma` |
| `DotEnv` | `loadDotEnv` of `tools/production-readiness.ts` |
| `Text`, `Sequences`, `PowersOfTwo` | JavaScript `trim`, `split`, `join`, decimal numerals; removing one element; powers of two |

Code that updates state in place is a class or a method proved against a function
(`Base32.EncodeBase32`, `SecretBox.SecretStore`, `Connection.Warmer`, `StepEditor.StepForm`,
`Cart.OrderForm`, `DotEnv.LoadDotEnv`); the rest is functions and lemmas, as in the source.
Lemmas over sequences and datatypes switch automatic induction off: every induction is written out.

## Where the code and its comments differ

The models follow the code.

- `lib/money.ts:74-80` says `parseMoney` "is not subject to" binary rounding. It is:
  `35184372088832.02` is read one minor unit too large (`MoneyText.ParseFirstWrong`). For n
  hundredths either way, `TypedAmounts.ParseExactly` says which numerals are read as what they
  denote: all with n below 100 × 2^45; from there to 2^52 those with 18n mod 25 outside 9 to
  12; from 2^52 to 100 × 2^46 all again; from there to 2^53 − 1 those with 9n mod 25 at most 7
  or at least 18, or equal to 8 or 17 with n even; none beyond.
- `formatMoney` divides by 100 before it prints, so from 100 × 2^46 hundredths on some amounts
  are printed with another second decimal: those with 9n mod 25 from 8 to 16
  (`PrintedAmounts.PriceIsReadExactly`). The first, 70368744177664.01, is printed as
  70,368,744,177,664.02.
- `lib/money.ts:137-143` promises rounding half away from zero. It holds for every product of
  amount and rate up to 2^53 in size; up to 2^54 unless the product is 4999 modulo 10000, up to
  2^55 unless it is 4998 or 4999, and below 2^56 unless it is 4997, 4998 or 4999
  (`Percentages.PercentageByResidue`). From 2^56 on `Percentages.PercentageExactly` decides every
  product, by the residue after rounding it to a double and the spacing of the doubles around
  the quotient.
- `server/domain/order-totals.ts:211-212` gives the tax inside a marked price as
  base × rate / (10000 + rate). Rounded, that holds exactly for the prices that
  `InclusiveTax.ExtractionExactly` describes; for products base × rate up to 2^53 those are the
  ones far enough below the next tie (`InclusiveTax.ExtractionByTie`). The first product that
  is not is 4504424353260009, and the engine reports it one minor unit too large
  (`OrderAccounts.MarkedPriceFirstWrong`).
- `server/services/order/order.service.ts:328-332` says subtotal − discount + delivery + tax
  always equals the total. It does there (`OrderPricing.StoredColumnsReconcile`), because that
  caller passes no line discounts; for the engine alone it holds exactly when the line
  discounts equal the tax already inside the prices (`OrderAccounts.FiguresAccount`).
- A number whose national spelling starts with the access code 00 is read as international by
  `lib/phone.ts:78-79`; `Phone.SpellingsAgreeExactly` says exactly which numbers that affects.
- `lib/ids.ts:63-65` says two concurrent orders cannot share a number because the sequence is
  drawn inside the transaction. Two transactions draw the same number exactly when their
  prefixes agree and the newest order carries the same sequence at both reads
  (`ConcurrentNumbers.ReadersDrawAlike`); the unique index keeps the stored numbers distinct
  (`ConcurrentNumbers.StoredDistinct`). After any run, all readers draw numbers not yet stored
  exactly when no stored order carries a higher sequence than the newest one
  (`ConcurrentNumbers.ReadersFreshExactly`). Under one prefix that means that the orders are
  dated in the sequence they were inserted (`ConcurrentNumbers.InterleavedLikeSerial`), and once
  they are not, no order of the month is ever stored again
  (`ConcurrentNumbers.FurtherOrdersExactly`). `ConcurrentNumbers.LateDateBlocks` and
  `ConcurrentNumbers.RenamingBlocks` are runs that reach the failing side.
- `formatMoney` writes a negative amount with its symbol as "-Rs. 5", which `parseMoney`
  refuses (`MoneyText.FormatThenParse`).
- A slug may end in a hyphen when the cut at 48 falls behind one, although the two ends were
  stripped before (`Slugs.HyphenCanStay`, `Slugs.SlugShape`).

## Model

| member | source | states |
|---|---|---|
| `Money.AddExact` | lib/money.ts:109-112 | `add` in doubles is exact integer addition; it fails exactly on a currency clash or an unsafe sum |
| `Money.SubtractExact` | lib/money.ts:114-117 | the same for `subtract` |
| `Money.MultiplyExact` | lib/money.ts:127-135 | `multiply` by a whole quantity is exact when the product is safe and throws otherwise |
| `Money.FractionsRefused` | lib/money.ts:127-147 | a fractional quantity or rate is refused as one, and nothing else is |
| `Money.SumOrderIndependent` | lib/money.ts:119-124 | `sum` succeeds in every order of the values exactly when they share the currency and the gains alone and the losses alone are safe; the answer is then the one integer total |
| `Money.MultiplyDistributes` | lib/money.ts:119-135 | scaling each amount and adding up equals adding up and scaling once, within the safe range |
| `Percentages.HalfAwayCharacterised` | lib/money.ts:137-143 | the reference rounding is the nearest integer to a / 10000, ties away from zero, and the only such integer |
| `Percentages.PercentageExactly` | lib/money.ts:144-151 | on every amount and whole rate, `percentageOf` gives exact rounding half away from zero exactly when that is a safe integer and the two double roundings leave the residue of the product in its place |
| `Percentages.PercentageByResidue` | lib/money.ts:144-151 | for products below 2^56 in size the answer is exact unless the product lies below a tie of the division by 10000 by no more than 1 (2, 3) in the binade from 2^53 (2^54, 2^55), and then one minor unit too far from zero |
| `Percentages.PercentageExact` | lib/money.ts:144-151 | in particular for every product below 9007199254744999 in size |
| `Percentages.PercentageFirstWrong` | lib/money.ts:144-151 | at that product the answer is one minor unit too large |
| `Percentages.PercentageOdd` | lib/money.ts:148-150 | negating the amount negates the result or keeps the error, on every input |
| `Percentages.PercentageDriftAlways` | lib/money.ts:119-151 | whenever every line and the sum are rounded at all, n rounded lines added up differ from rounding their sum by at most 1.8192 (n + 1) minor units |
| `Percentages.PercentageDriftByResidue` | lib/money.ts:119-151 | for products that total less than 2^56 in size, by at most 0.5003 (n + 1); none of the roundings fails |
| `Percentages.PercentageDrift` | lib/money.ts:119-151 | for products that total less than the first wrong one in size, by at most n / 2 |
| `TypedAmounts.SaysDenotes` | lib/money.ts:275-288 | a text that is blanks, a currency code or symbol in either case or none, then a sign, digits, a point and one or two digits with commas and white space strewn in, is accepted as a numeral of the amount those digits write; one digit behind the point counts tenths |
| `TypedAmounts.ParseExactly` | lib/money.ts:275-291 | null is the answer exactly for all other texts and for amounts beyond the largest double; a text that says m hundredths gives exactly m just when the size of m and its remainder modulo 25 (and 2) allow it, although reading and scaling each round |
| `TypedAmounts.ParseValue` | lib/money.ts:275-291 | a text that says a safe amount is read as that amount or a neighbour, which one its remainder says; it throws only when that neighbour is unsafe, and is never null |
| `TypedAmounts.ParseExact` | lib/money.ts:275-291 | every amount up to 3518437208883201 either way is read exactly however it is typed, and the next one never |
| `TypedAmounts.SaidAlike` | lib/money.ts:275-291 | all ways of typing one amount (code or none, separators, leading zeros, 5 or 50 behind the point) get the same answer, right or wrong |
| `MoneyText.ParseFirstWrong` | lib/money.ts:74-80 | the plain numeral of that next amount, as typed, is read a minor unit too large |
| `Hundredths.ReadBackIs` | lib/money.ts:82-94 | n / 100 rounded to a double, times 100, rounded to whole is n or the neighbour its remainder names, for every safe n |
| `Hundredths.ReadBackExactly` | lib/money.ts:82-94 | it is n again exactly for the amounts of the condition in `ParseExactly` |
| `Hundredths.PrintedIs` | lib/money.ts:222-233 | n / 100 rounded to a double and printed at two decimals is n or the neighbour its remainder names, for every safe n, and n exactly for the amounts the condition gives |
| `Hundredths.PrintedSameDouble` | lib/money.ts:222-238 | every safe amount prints, at two decimals, as one with the same nearest double |
| `MoneyText.FormatThenParse` | lib/money.ts:222-238 | for every safe amount, any comma grouping and either decimals setting: a negative amount with its symbol gives null; any other comes back exactly when the condition of `ParseExactly` holds of it |
| `PrintedAmounts.PriceIsRead` | lib/money.ts:189-238 | a reader with its own table of symbols gets from every price printed with its symbol, negative ones included, the currency and the amount its decimals show, under any comma grouping |
| `PrintedAmounts.PriceIsReadExactly` | lib/money.ts:189-238 | that is the formatted amount itself exactly when it is whole under compact decimals or its nearest double is less than half a hundredth away |
| `PrintedAmounts.AmountIsRead` | lib/money.ts:222-238 | without the symbol the amount reads the same; it has a point, two digits from the end, exactly unless decimals are compact and the amount is whole |
| `Quotients.RatioExactly` | server/domain/order-totals.ts:210-215 | a whole number rounded, divided by up to 20000, rounded and rounded to whole gives the true quotient rounded half up exactly when the two roundings leave its residue in place |
| `Quotients.SmallMisses` | server/domain/order-totals.ts:210-215 | for numerators up to 2^53 that is a distance to the next tie, and one too close gives exactly one too much |
| `InclusiveTax.ExtractionExactly` | server/domain/order-totals.ts:210-215 | on every price and rate, the tax taken out is base × rate / (10000 + rate) rounded half up exactly when the two double roundings leave the residue of that quotient in place |
| `InclusiveTax.ExtractionByTie` | server/domain/order-totals.ts:210-215 | for products up to 2^53: exact when clear of the next tie by the spacing of the doubles there, one minor unit too much otherwise |
| `InclusiveTax.ExtractionExact` | server/domain/order-totals.ts:210-215 | so every product below 4504424353260009 is exact |
| `InclusiveTax.ExtractionFirstWrong` | server/domain/order-totals.ts:213-215 | at that product the extracted tax is one minor unit too large |
| `InclusiveTax.ExtractionBounded` | server/domain/order-totals.ts:211-223 | on every input the extracted tax lies between zero and the price |
| `InclusiveTax.ChargeMonotone` | lib/money.ts:144-151 | a larger amount is never charged less tax, rounding errors included |
| `InclusiveTax.ExtractionUndoesExactly` | server/domain/order-totals.ts:210-236 | where the charged tax is exact, extracting it from the sum gives it back exactly when the extraction is exact too |
| `InclusiveTax.ExtractionUndoesCharge` | server/domain/order-totals.ts:210-236 | charging tax on a net amount and extracting it from the sum gives the same tax, for products below the first wrong ones |
| `InclusiveTax.ChargeAfterExtraction` | server/domain/order-totals.ts:210-236 | extracting then charging gives the tax back to within one minor unit, and exactly for the prices that charging some net amount reaches |
| `OrderTotals.PriceLineExact` | server/domain/order-totals.ts:102-139 | a line is priced exactly when its rules hold and its gross is safe, with the whole-number figures; it is refused exactly when a rule stops it before an unsafe gross does |
| `OrderTotals.ComputeExact` | server/domain/order-totals.ts:90-239 | the engine answers exactly when the business rules hold and the figures are safe integers, and then with the figures computed in whole numbers; it refuses exactly when a rule is what stops the order (number of lines, first line not priced, or a charge), and fails on the integer range exactly otherwise |
| `OrderAccounts.FiguresAccount` | server/domain/order-totals.ts:90-239 | gross − discount + delivery + tax on top = total, no figure negative, discount within gross; subtotal − discount + delivery + tax = total exactly when the line discounts equal the tax inside the prices, both figures of the input |
| `OrderAccounts.LineOrderIrrelevant` | server/domain/order-totals.ts:102-141 | in whatever order the lines come, the engine answers with the same figures |
| `OrderAccounts.CheaperBasket` | server/domain/order-totals.ts:180-239 | of two baskets under the same charges, the one with more goods is cheaper exactly when only it earns free delivery and the extra goods cost less than the fee |
| `OrderAccounts.TaxExact` | server/domain/order-totals.ts:194-239 | for every answered order, the reported tax is the exact rational rounded to the nearest minor unit exactly when the double roundings leave the residue of its quotient in place, in both modes |
| `OrderAccounts.MarkedTotalReportsTax` | server/domain/order-totals.ts:210-239 | an article marked with the total of an order taxed on top, priced tax-inclusive, keeps that total; where the order's tax is exact it is reported again exactly when the extraction is exact, and always below the first wrong product |
| `OrderAccounts.MarkedPriceFirstWrong` | server/domain/order-totals.ts:210-224 | a marked price at the first wrong product makes the engine report a tax one minor unit too large |
| `OrderPricing.PricedExactly` | server/services/order/order.service.ts:286-335 | an order is priced exactly when all amounts are safe integers and the engine's rules and ranges hold, and the stored columns are the engine's with the typed tax on top |
| `OrderPricing.AiAmountsIgnored` | server/services/order/order.service.ts:286-292 | an order made by the AI is priced as the same order without discount, fee and tax |
| `OrderPricing.StoredColumnsReconcile` | server/services/order/order.service.ts:324-335 | subtotal − applied discount + delivery + tax = total as stored; no column negative without a negative tax override |
| `OrderPricing.EstimateAgainstTotal` | components/orders/create-order-form.tsx:148-195 | the form's estimate is never more than the server charges, and equals it exactly when the discount fits the goods (or nothing else is charged) and blank delivery and tax fields meet settings that charge nothing |
| `Cart.RunRefines` | components/orders/create-order-form.tsx:121-146 | over any run of add, update and remove, keys stay distinct, quantities at least 1, and the list is the map the same events build |
| `Cart.SubtotalIsMapTotal` | components/orders/create-order-form.tsx:148-152 | the running subtotal is the sum over that map |
| `Cart.EstimateMatchesSubmitted` | components/orders/create-order-form.tsx:153-195 | the estimate equals the total recomputed from the submitted input exactly when negative entries cancel or both come to nothing; in particular for non-negative entries |
| `Cart.SubmittedLinesDistinct` | components/orders/create-order-form.tsx:178-182 | over any run the submitted lines name each product and variant once, with quantity at least 1 |
| `Cart.OrderForm.AddItem` | components/orders/create-order-form.tsx:121-132 | the handler does to the list and to the map what the event says |
| `Cart.OrderForm.UpdateQuantity` | components/orders/create-order-form.tsx:134-142 | the same; zero or less removes the key |
| `Cart.OrderForm.RemoveItem` | components/orders/create-order-form.tsx:144-146 | the same |
| `Cart.OrderForm.SelectedMap` | components/orders/create-order-form.tsx:158-164 | the accumulator filled in place is exactly the key-to-quantity map |
| `Cart.OrderForm.SubtotalMinor` | components/orders/create-order-form.tsx:149-152 | the fold returns the sum over the map |
| `Bits.GroupingLossless` | lib/crypto.ts:33-50 | bytes cut into groups of at most eight bits, zero-padded, can be put together again |
| `Base32.BitByBit` | lib/crypto.ts:39-48 | the bitwise operators the accumulator is built with act on each bit alone |
| `Base32.EncodeBase32` | lib/crypto.ts:33-50 | the loop over a 32-bit accumulator that wraps and is never masked emits the bit string cut in fives |
| `Base32.SymbolsAre` | lib/crypto.ts:28-31 | the alphabet is the digits and the capitals without I, L, O and U |
| `Base32.EncodedReads` | lib/crypto.ts:33-50 | the text has ceil(8n / 5) symbols and a decoder gets the bytes back |
| `Base32.EncodedInjective` | lib/crypto.ts:33-50 | texts are equal exactly when the bytes are, over all lengths |
| `Base64.DecodeEncode` | lib/crypto.ts:182-187 | base64 decoding undoes encoding on every byte string |
| `Utf8.DecodeEncode` | lib/crypto.ts:179-207 | UTF-8 decoding undoes encoding on every text |
| `Utf8.EncodeDecode` | lib/crypto.ts:179-207 | bytes that decode without a replacement character are exactly the encoding of the text they decode to |
| `SecretBox.EnvelopeOpens` | lib/crypto.ts:176-208 | splitting the envelope at colons returns the four parts, whatever bytes they hold, so decrypting gives the text back |
| `SecretBox.EnvelopeIs` | lib/crypto.ts:190-196 | a text is taken for an envelope exactly when it begins with v1 and a colon and has three colons |
| `SecretBox.CacheHistory` | lib/crypto.ts:157-166 | after any history of calls from any agreeing cache, the cache holds the last secret with its derived key, and the key was derived once for each change of secret |
| `SecretBox.SecretStore.KeyFor` | lib/crypto.ts:159-166 | the key returned is the derived one from any cache state; the cache keeps agreeing |
| `SecretBox.SecretStore.EncryptSecret` | lib/crypto.ts:176-188 | the envelope opens to the text under the derived key |
| `SecretBox.SecretStore.DecryptSecret` | lib/crypto.ts:190-208 | the result is that of opening under the derived key; a malformed value leaves the cache alone |
| `Csv.FieldReads` | lib/csv.ts:11-19 | one serialized field, quoted or not, leaves exactly its text in the reader |
| `Csv.CsvReads` | lib/csv.ts:8-30 | a strict RFC 4180 reader gets back every table row by row, whatever text the cells hold |
| `Csv.CellsRead` | lib/csv.ts:8-30 | each cell comes back at its place: a text or number as it is, a boolean as true or false, null and undefined as nothing; and the headers above |
| `Csv.PlainRowJoined` | lib/csv.ts:11-21 | cells without comma, quote or line break are only put between commas |
| `Csv.CsvRoundTrip` | lib/csv.ts:23-30 | the round trip is exact precisely when no row, header row included, is without fields |
| `Csv.CsvInjective` | lib/csv.ts:23-30 | tables whose rows have fields are written alike only when their cells agree |
| `Phone.CountryRulesWellFormed` | lib/phone.ts:30-37 | the table's calling codes are prefix-free, and its lengths, trunk prefixes and names meet what the results need |
| `Phone.FindsLongest` | lib/phone.ts:41-44 | in any table the rule found is one with a longest matching calling code |
| `Phone.FindsOwnRule` | lib/phone.ts:115-118 | a number behind its calling code leads back to its own rule |
| `Phone.NormaliseCanonical` | lib/phone.ts:68-189 | every result is valid E.164, its id is that number without the plus, and normalising it again under any default country gives the same record |
| `Phone.ReadByDigits` | lib/phone.ts:56-79 | a text whose digits stand in it in order, with blanks and any separators around and between, is read like the bare digits, behind a plus if it starts with one or with 00 |
| `Phone.LengthRefused` | lib/phone.ts:81 | fewer than six digits and more than fifteen are refused, whatever the table and the separators |
| `Phone.SpellingsAgree` | lib/phone.ts:77-137 | every way of writing a legal subscriber number (bare, behind the trunk prefix, the calling code, or both; behind a plus or 00) with separators anywhere behind the plus or 00 comes to one record |
| `Phone.SpellingsAgreeExactly` | lib/phone.ts:77-137 | the six plain spellings agree exactly when neither the number nor the number behind its trunk prefix starts with 00 |
| `Phone.NumbersStayApart` | lib/phone.ts:165-173 | two legal numbers, of one country or two, share an e164 only when they are the same |
| `Phone.RuleReads` | lib/phone.ts:115-133 | behind a plus, digits that a rule reads are that rule's number, whatever the default country |
| `Phone.NoRuleKept` | lib/phone.ts:115-163 | digits that no rule reads are kept without a country, and refused when they are no E.164 number |
| `Phone.OtherwiseInternational` | lib/phone.ts:77-112 | digits behind 00, and digits that are none of the default country's three national forms, are read as if behind a plus |
| `Phone.FormattedGroups` | lib/phone.ts:165-185 | the printed form is the e164 with a blank behind the calling code and, from nine digits on, one behind the next three |
| `Phone.CountriesDial` | lib/phone.ts:30-37 | trunk prefix, calling code and length of the six countries |
| `Phone.NationalIsInternational` | lib/phone.ts:30-112 | in each of them the national and the international spelling give one e164, behind that calling code |
| `Paging.FetchSplits` | lib/api-response.ts:105-121 | one fetch is a full page and a cursor on its last row, or the whole rest and no cursor |
| `Paging.WalkExact` | lib/api-response.ts:91-121 | a finished walk over a store that grows ahead of the cursor returns each row of the start exactly once, in order |
| `Paging.WalkFinishes` | lib/api-response.ts:105-121 | such a walk is finished exactly when there were fetches enough for those rows |
| `Paging.WalkSandwiched` | lib/api-response.ts:91-97 | wherever rows are inserted between fetches, a finished walk returns every row present at the start and only rows present at the end, in order |
| `Paging.WalkTerminates` | lib/api-response.ts:105-121 | no walk over a growing store repeats a row, and enough fetches finish it |
| `OffsetPaging.CeilExact` | lib/api-response.ts:80 | the rounded division gives the true page count |
| `OffsetPaging.PaginatedExact` | lib/api-response.ts:74-89 | `hasMore` says exactly that rows remain behind this page; a page size below 1 has no pages |
| `OffsetPaging.OffsetPagesDrift` | lib/api-response.ts:91-97 | with k new rows in front, the next offset page begins with the last k rows of this one |
| `Connection.RunInvariant` | db/connection.ts:42-90 | the relation between latch, warm flag and attempts is kept by every run of steps from any state that has it |
| `Connection.HandshakesCounted` | db/connection.ts:56-81 | in every interleaving at most one handshake runs; those started are the failed ones plus one exactly when a promise is stored; a connect time implies warm |
| `Connection.WarmExactly` | db/connection.ts:56-86 | after any run the pool is warm exactly if it was before, a query marked it, or a handshake has succeeded |
| `Connection.TestsConnectNothing` | db/connection.ts:56-57 | under test no handshake ever starts |
| `Connection.SuccessIsFinal` | db/connection.ts:56-90 | warm never reverts, the connect time is set at most once, and after a success no handshake starts |
| `Connection.CallersShare` | db/connection.ts:59-80 | callers share the stored handshake; one who gets another promise starts a fresh handshake after the earlier one failed |
| `Connection.Warmer.WarmUpDatabase` | db/connection.ts:56-81 | the call is the protocol's call step and returns that step's promise |
| `Connection.Warmer.ConnectResolves` | db/connection.ts:64-67 | the handshake's first await, as a protocol step |
| `Connection.Warmer.QueryResolves` | db/connection.ts:67-70 | its second await, which marks warm and sets the connect time |
| `Connection.Warmer.AwaitRejects` | db/connection.ts:63-71 | a failed await, before its handler runs |
| `Connection.Warmer.HandleFailure` | db/connection.ts:71-78 | the handler clears the latch |
| `Connection.Warmer.MarkDatabaseWarm` | db/connection.ts:84-86 | sets warm and nothing else |
| `StepEditor.IdsStayDistinct` | components/automation/automation-form.tsx:99-154 | ids stay distinct over every run of events exactly when the initial ids are distinct and none has the form of a new step's id |
| `StepEditor.MoveUndone` | components/automation/automation-form.tsx:123-136 | a move keeps the multiset of steps and the opposite move undoes it |
| `StepEditor.MovesReorder` | components/automation/automation-form.tsx:123-136 | moves only reorder |
| `StepEditor.EveryOrderReachable` | components/automation/automation-form.tsx:123-136 | every order of the same steps is reached by moves alone, each of which exchanges two steps |
| `StepEditor.PayloadDescribes` | components/automation/automation-form.tsx:156-167 | however the payload's entries are shuffled, their positions are distinct and put the steps back in order |
| `StepEditor.AddAppends` | components/automation/automation-form.tsx:115-121 | a new step stands last, under the next id, with its kind's initial config; the others stay |
| `StepEditor.NewStepStartsWith` | components/automation/automation-step-fields.tsx:53-79 | what a new step of each kind is filled with |
| `StepEditor.MoveExchanges` | components/automation/automation-form.tsx:123-136 | a move puts each of two neighbours in the other's place and leaves the rest; past an end it does nothing |
| `StepEditor.RemoveDrops` | components/automation/automation-form.tsx:138-140 | the steps before the index stay, those behind it move up by one |
| `StepEditor.PatchMerges` | components/automation/automation-form.tsx:142-148 | at that step a key of the patch has the patch's value and any other its old one; its id and kind and every other step are unchanged |
| `StepEditor.ReplaceSets` | components/automation/automation-form.tsx:150-154 | at that step the config is the new one; its id and kind and every other step are unchanged |
| `StepEditor.StepForm.AddStep` | components/automation/automation-form.tsx:115-121 | the handler does what the event says, counter included; distinct ids behind the counter stay so |
| `StepEditor.StepForm.MoveStep` | components/automation/automation-form.tsx:123-136 | writing the two elements of the copy is the exchange; distinct ids behind the counter stay so |
| `StepEditor.StepForm.RemoveStep` | components/automation/automation-form.tsx:138-140 | the filter by position removes that step; distinct ids behind the counter stay so |
| `StepEditor.StepForm.PatchStepConfig` | components/automation/automation-form.tsx:142-148 | the handler does what the event says (`StepEditor.PatchMerges`); distinct ids behind the counter stay so |
| `StepEditor.StepForm.ReplaceStepConfig` | components/automation/automation-form.tsx:150-154 | the handler does what the event says (`StepEditor.ReplaceSets`); distinct ids behind the counter stay so |
| `Slugs.MarkIgnored` | lib/ids.ts:21-24 | a combining mark anywhere adds nothing; text without any is left as it is (`Slugs.UnmarkedKept`) |
| `Slugs.SlugOfWords` | lib/ids.ts:25-27 | of words of slug letters with any other characters around and between, the slug before the cut is the words with one hyphen between neighbours |
| `Slugs.SlugSays` | lib/ids.ts:21-29 | so a slug is the words of the folded text, hyphenated, up to 48 characters; `Slugs.Space` cuts every text into words |
| `Slugs.SlugShape` | lib/ids.ts:21-29 | every slug is over a-z, 0-9 and hyphen, at most 48 long, without leading or doubled hyphen, and ends in a hyphen exactly when the cut fell right behind one |
| `Slugs.SlugFixedPoint` | lib/ids.ts:21-29 | a slug is a fixed point exactly when it does not end in a hyphen |
| `Slugs.SlugifyTwice` | lib/ids.ts:21-29 | the second application always reaches the fixed point |
| `Slugs.HyphenCanStay` | lib/ids.ts:27-28 | a family of names whose slug does end in a hyphen |
| `OrderNumbers.OrderNumberPrefix` | lib/ids.ts:79-96 | the prefix is one to three capital letters, whatever the name |
| `Text.WhitespaceListed` | lib/money.ts:282-285 | what `trim` and `\s` take for white space, character by character |
| `OrderNumbers.PrefixSays` | lib/ids.ts:79-96 | the capitals of the first letters of the first three words, or of the first three letters of a single word, or ORD; characters that are no letters do not matter |
| `OrderNumbers.OrderNumberLaidOut` | lib/ids.ts:67-72 | prefix, hyphen, four digits of year and month, hyphen, and a sequence of at least four digits, of just four up to 9999 |
| `OrderNumbers.OrderNumberReads` | lib/ids.ts:67-72 | a written number reads back whole, also when the sequence outgrows its padding |
| `OrderNumbers.OrderNumbersUnique` | lib/ids.ts:67-72 | two texts are equal exactly when prefix, year of the century, month and sequence are |
| `OrderNumbers.OrderNumbersOfNames` | lib/ids.ts:67-96 | with prefixes from business names and years of one century, equal texts mean equal orders |
| `OrderNumbers.NextAfterGenerated` | server/repositories/order.repository.ts:361-371 | the number after a generated one carries the next sequence |
| `OrderNumbers.NextReads` | server/repositories/order.repository.ts:361-371 | of any text of three parts the number at the start of the third counts, behind white space and a plus or none; without digits there the sequence starts at 1 |
| `OrderNumbers.NextUnread` | server/repositories/order.repository.ts:361-371 | it also starts at 1 when there is no last order, or one whose text has more or fewer than two hyphens |
| `OrderNumbers.GeneratedSequence` | server/repositories/order.repository.ts:338-375 | of orders placed one after the other in a month, the k-th carries sequence k, past 9999 and across renamings of the business |
| `OrderNumbers.GeneratedDistinct` | server/repositories/order.repository.ts:338-375 | no two of them share a number |
| `ConcurrentNumbers.StoredDistinct` | prisma/schema.prisma:817 | in every interleaving of reads and inserts, however numbers are drawn, the stored ones are distinct |
| `ConcurrentNumbers.ReadersDrawAlike` | server/repositories/order.repository.ts:351-374 | whatever happens before and between two reads, the two transactions draw the same number exactly when their prefixes agree and the newest sequence is the same at both reads; then the one that inserts second is refused |
| `ConcurrentNumbers.ReadersFreshExactly` | server/repositories/order.repository.ts:351-374 | after every interleaving, with any names and dates, all readers draw numbers nobody has stored exactly when no stored row carries a higher sequence than the newest |
| `ConcurrentNumbers.InterleavedLikeSerial` | server/repositories/order.repository.ts:338-375 | after every interleaving under one prefix, with any dates, the stored numbers are those of a serial run, and the next reader draws one nobody has stored exactly when the rows are in date order |
| `ConcurrentNumbers.FurtherOrdersExactly` | server/repositories/order.repository.ts:338-375 | under one prefix some further run stores another order of the month exactly when the rows are in date order; otherwise none ever does |
| `ConcurrentNumbers.LateDateBlocks` | server/repositories/order.repository.ts:352-359 | a run under one prefix, of two orders of which the second is dated before the first, that leaves the rows out of date order |
| `ConcurrentNumbers.RenamingBlocks` | server/repositories/order.repository.ts:361-374 | a run of three orders under two prefixes, all in date order, after which the newest row does not carry the highest sequence and some reader draws a stored number |
| `DotEnv.LoadDotEnv` | tools/production-readiness.ts:850-870 | the loop over lines, `continue` and in-place unquoting included, returns the last-wins map of the lines read one by one |
| `DotEnv.PrintThenRead` | tools/production-readiness.ts:850-870 | printed settings, bare or in either kind of quotes, with white space at the ends and around the equals sign, and blank lines, comments and lines that set nothing between, LF or CRLF, read back as the last-wins map |
| `DotEnv.SettingRoundTrip` | tools/production-readiness.ts:855-868 | one setting, however dressed, survives the round trip exactly when its key is readable and its value has no line feed |
| `DotEnv.FilesAreReadable` | tools/production-readiness.ts:855-868 | no file yields an unreadable key or a value with a line feed |
| `DotEnv.ReadableExactly` | tools/production-readiness.ts:850-870 | the maps some file can say are exactly those with readable keys and one-line values |

## Left out

- Doubles: no NaN, no infinities (`Number` overflow in `parseMoney` is an explicit case), no negative zero; the exponent of `Ieee754.Fl` has no upper bound.
- Money refusals: "not an integer" and "not a safe integer" are one error in `Money.MakeMoney`.
- `Intl.NumberFormat`: grouping is any placement of commas among the digits; other digit shapes and locales are not modelled.
- `toMajor`, `min`, `max`, `equals`, `formatUsdMicros`, `maskPhone`, `slugSuffix`, `workspaceSlug`: easy members.
- AES-GCM, scrypt and randomness: given functions; decryption is assumed to undo encryption under the same key, iv and tag.
- Base64 text that no encoder produces (the URL alphabet, stray characters), and how many replacement characters malformed UTF-8 reads as: nothing is stated.
- Text is sequences of Unicode scalar values: lone surrogates and UTF-16 lengths are not modelled.
- NFKD, lower-casing of slugs: given functions that leave a-z, 0-9 and hyphen alone; upper-casing is for ASCII letters.
- Cart: quantities and prices are unbounded integers on the form's side; the server side of `OrderPricing` uses the checked doubles.
- `OrderPricing.PriceOrder`: the catalogue look-up, stock checks, idempotency, persistence and the contact aggregates of `createOrder` are not modelled; a price is a given function of product and variant.
- Step configs are maps: key order and the JSON text of the payload are not modelled.
- `Paging.WalkExact` and its companions: rows are inserted between fetches but never deleted, so the cursor's own row stays.
- OrderNumbers.GeneratedSequence: one transaction at a time; interleaved ones are `ConcurrentNumbers`, in one month, without rollbacks after an insert and without deleted orders. Of rows with one date the one inserted last counts as newest there, where the database leaves the choice open.
- `Connection`: the logger is assumed not to throw; each `await` is one step.
- State updaters of both forms run before the next event.
- React rendering, the agent, automation engine, job queue, knowledge ingestion, WhatsApp integration, tenancy, Prisma queries, configuration parsing and the file-system audits.
