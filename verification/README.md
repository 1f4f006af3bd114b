# Post-purchase upsell extension, modelled in Dafny

This project models the core of a Shopify post-purchase checkout extension
(`src/index.js`).  After the buyer's first purchase, the extension offers one
extra product variant.  It renders an accept ("Pay now · …") and a decline
button, asks the host to calculate the changeset that adds the variant, and
then either:

- signs that changeset with the app's backend and asks the host to apply it, or
- ends the session on decline.

The model has three parts.

- **`formatCurrency`** (`currency.dfy`) and the JavaScript `parseInt(…, 10)` it
  relies on (`parse_int.dfy`).  `parseInt` follows section 19.2.5 of ECMA-262:
  leading StrWhiteSpace is skipped, then an optional sign, then the longest run
  of decimal digits.  NaN is `None`.  Amounts are `undefined`, `null` or a
  string.  JavaScript falsiness of an amount is `IsFalsy`.
- **The render callback** as a state machine (`post_purchase.dfy`).
  `Render` is the synchronous part:
  - the changeset literal;
  - the initial button props;
  - the `calculateChangeset` request.

  `Step` applies one event that the host's event loop can deliver:
  - the price calculation settling;
  - a press on an enabled button;
  - the signing request settling;
  - `applyChangeset` settling.

  Each handler runs atomically up to its next `await`, as JavaScript's
  single-threaded event loop does.  Outside calls go to a log.  Each entry
  holds the call and a snapshot of both buttons at the moment the call was made.
  `Run` folds a sequence of events.
- **Properties** (`session_properties.dfy`, `scenarios.dfy`).
  - `Inv` is an invariant that every reachable session satisfies.
  - Lemmas about runs build on it: the calculation and signing requests
    carry the same changeset (`applyChangeset` receives only the signed
    token), the buttons are locked before signing, and `done` is counted
    exactly.
  - Per-handler lemmas state what each handler does.
  - Whole-run scenarios cover an accepted offer and a late price.

`changes.dfy` models the one-entry changeset.  `wrappers.dfy` holds `Option`.

The model follows the code as written:

- `formatCurrency` keeps any text that `parseInt` does not read as zero:
  - `"abc"` becomes `"$abc"`;
  - `"-5"` becomes `"$-5"`;
  - `"12.50"` becomes `"$12.50"`.

  Only a falsy amount, or text whose leading numeral is all zeros, gives
  `"Free"` (`"0.99"` and `"0x1A"` included).
- The signing response's `token` field goes to `applyChangeset` unchecked.  A
  response without one passes `undefined`, which the model writes as
  `SignResolved(None)`.
- The price continuation has no guard.  A price that arrives after a decline
  enables accept again, and accepting then makes a second `done` call
  (`Scenarios.LatePriceAfterDecline`).
- A calculation result with no `calculatedPurchase` does not throw.  Its
  optional chains make shipping, taxes and total `undefined`.  The breakdown
  still goes in, and accept is enabled with the caption "Pay now · Free"
  (`Scenarios.MissingPurchaseShowsFree`).

## Model

| member | source | states |
|---|---|---|
| JsParseInt.WhiteSpacePrefix | src/index.js:239 | the length of the longest all-whitespace prefix: every character before it is StrWhiteSpace, and the next one is not |
| JsParseInt.DigitPrefix | src/index.js:239 | the length of the longest run of decimal digits at the front: all characters before it are digits, and the next one is not |
| JsParseInt.DigitsValueZeroIff | src/index.js:239 | a digit run has decimal value zero exactly when every digit in it is '0' |
| JsParseInt.ParseIntOfNumeral | src/index.js:239 | whitespace, an optional sign, a non-empty digit run and then a non-digit parse to the run's decimal value, negated for '-' |
| JsParseInt.ParseIntOfNonNumeral | src/index.js:239 | text with no digit after the whitespace and optional sign parses to NaN |
| JsParseInt.ParseInt | src/index.js:239 | blank text is NaN; text starting with a digit reads as a non-negative number; text starting with anything but whitespace, a sign or a digit is NaN |
| JsParseInt.NumeralSplit | src/index.js:239 | every string splits into whitespace, sign, digit run and rest, and parseInt yields a number exactly when that digit run is non-empty |
| JsParseInt.SplitIsCanonical | src/index.js:239 | in any such split, the whitespace is the longest whitespace prefix, and the sign is the one parseInt reads after it |
| JsParseInt.NumeralSplitUnique | src/index.js:239 | two splits of the same string are equal part by part, so parseInt's reading of a string is unique |
| Currency.IsFalsy | src/index.js:239 | `!amount` holds for undefined, null and the empty string, and for nothing else: every non-empty string, "0" included, is truthy |
| Currency.FormatCurrency | src/index.js:238-243 | a falsy amount, or text that parseInt reads as 0, formats as "Free"; any other non-empty text formats as "$" followed by that text unchanged; a result is priced exactly when it starts with '$' |
| Currency.FreeForZeroNumeral | src/index.js:239-240 | text whose leading numeral, after whitespace and sign, is all zeros formats as "Free" |
| Currency.PricedForNonZeroNumeral | src/index.js:239-242 | text whose leading numeral has a non-zero digit formats as "$" followed by the text unchanged |
| Currency.PricedForNonNumeral | src/index.js:239-242 | non-empty text that parseInt reads as NaN formats as "$" followed by the text unchanged |
| Currency.FreeIffLeadingZeros | src/index.js:238-243 | non-empty text formats as "Free" if and only if it is whitespace, an optional sign and a non-empty run of zeros, followed by a non-digit or nothing |
| Currency.ZeroReadingsAreFree | src/index.js:239-240 | "0", "00", "0.99", "-0", " 0" and "0x1A" all format as "Free" |
| Currency.NumberReadingsKeepRawText | src/index.js:241-242 | "1200", "12.50" and "-5" format as "$" followed by the raw text |
| Currency.TextReadingsKeepRawText | src/index.js:241-242 | "abc" and "$5" format as "$" followed by the raw text |
| Changes.Plan | src/index.js:38 | the changeset adds exactly one unit of the offered variant and nothing of any other variant |
| PostPurchase.PayNowLabel | src/index.js:172 | the caption is "Pay now · " followed by "Free" for a falsy total or text that parseInt reads as 0, and by "$" and the total's raw text for any other non-empty text |
| PostPurchase.Render | src/index.js:38-110 | render builds the changeset once; accept starts disabled and loading with no caption; decline starts enabled; the only call so far is the calculation of that changeset |
| PostPurchase.Step | src/index.js:108-208 | an event is accepted exactly when the host can deliver it; no handler alters the changeset, reference or session token; each handler appends at most one outside call |
| PostPurchase.Run | src/index.js:108-208 | a run keeps the changeset, reference and session token, and only appends to the call log, at most one call per event |
| SessionProperties.RenderEstablishesInv | src/index.js:38-110 | the freshly rendered session satisfies the invariant |
| SessionProperties.StepPreservesInv | src/index.js:165-208 | every handler, run on a session satisfying the invariant, yields one that satisfies it |
| SessionProperties.RunPreservesInv | src/index.js:165-208 | any deliverable run of events keeps the invariant |
| SessionProperties.Reachable | src/index.js:38-208 | every reachable session satisfies the invariant and still holds the changeset, reference and token it was rendered with |
| SessionProperties.CalculateAndSignShareChangeset | src/index.js:38 | the calculation request and the signing request carry the same one-variant changeset; the signing request carries the purchase reference and session token |
| SessionProperties.DecisionLockedDuringSigning | src/index.js:183-208 | at the moment of the signing request and of the apply call, both buttons are disabled and accept is loading |
| SessionProperties.SigningRequestedAtMostOnce | src/index.js:183-208 | the price is calculated exactly once; at most one signing request is made; there are never more apply calls than signing requests |
| SessionProperties.AcceptEnabledOnlyWhenPriced | src/index.js:165-172 | when accept is enabled, the price is known, the breakdown is shown, accept has its one caption, and no signing request has been made |
| SessionProperties.PricedAndUndecidedEnablesAccept | src/index.js:165-180 | conversely, when the price is known and neither button has been pressed, accept is enabled with its one caption |
| SessionProperties.DoneAccounting | src/index.js:176-201 | the number of done calls is one for a decline plus one for a resolved apply; on the accept path, done follows the apply call |
| SessionProperties.FailedAcceptNeverSignalsDone | src/index.js:184-201 | after a failed signing request or a rejected apply, the only done call can be a decline's |
| SessionProperties.EndedAcceptPathIsFinal | src/index.js:200-207 | once the accept path is applied or has failed, no event can be delivered |
| SessionProperties.DeclineAfterPricingIsFinal | src/index.js:176-180 | a decline pressed after the price calculation settled leaves no deliverable event |
| SessionProperties.ApplyUsesSignedToken | src/index.js:186-200 | every apply call in a run carries the token from a signing response of that run |
| SessionProperties.StepDoneDelta | src/index.js:176-201 | a step makes a done call exactly when it is a decline press or a resolved apply |
| SessionProperties.DoneCountMatchesTrace | src/index.js:176-201 | the done calls a run adds equal its decline presses plus its resolved applies |
| SessionProperties.PriceResolvedEnablesAccept | src/index.js:165-172 | a settled price enables accept, clears its loading flag and appends "Pay now · " and the formatted total; decline and the calls are left alone |
| SessionProperties.DeclineLocksAndSignalsDone | src/index.js:176-180 | decline disables accept (keeping its loading flag), disables decline and shows it loading, then calls done with the buttons in that state |
| SessionProperties.AcceptLocksBeforeSigning | src/index.js:205-208 | accept locks both buttons, then makes the signing request for the session's reference, changeset and token |
| SessionProperties.SignResolvedAppliesToken | src/index.js:196-200 | the signing response's token goes unchanged to applyChangeset; the task becomes applying with that token; no button, pricing state or breakdown changes |
| SessionProperties.ApplyResolvedSignalsDone | src/index.js:200-201 | a resolved apply appends one done call and marks the task applied with its token; buttons, pricing state and breakdown are unchanged |
| Scenarios.AcceptedOffer | src/index.js:108-208 | price, accept, sign and apply give exactly the calls calculate, sign, apply and done, with the same changeset and the signed token, and accept shows the "Pay now" caption |
| Scenarios.PayNowLabelExample | src/index.js:172 | a total of "2300" gives the caption "Pay now · $2300" |
| Scenarios.MissingPurchaseShowsFree | src/index.js:113-172 | a calculation result without a calculated purchase still inserts the breakdown and enables accept, with the caption "Pay now · Free" |
| Scenarios.LatePriceAfterDecline | src/index.js:165-201 | a price arriving after a decline enables accept again; accepting then signs after the decline's done and calls done a second time |

## Left out

- The `ShouldRender` extension point (`src/index.js:16-24`) is left out. It
  fetches the offer over the network and stores it, so the model takes the
  stored offer as the input of `Render`.
- Component trees and layout are left out: the callout banner, heading,
  price header, description, image and layout media (`src/index.js:40-105`,
  `211-234`).  Of the UI, only the accept and decline props and captions are
  modelled, plus whether the price breakdown has been inserted.
- The contents of the price breakdown (`src/index.js:113-162`) are left out:
  the subtotal, shipping and tax lines.  Only the total reaches the model, as
  the amount of `PriceResolved`.
  - A response with no `calculatedPurchase` throws nothing: all three
    amounts are `undefined`, which is `PriceResolved(Undefined)`.
  - A calculation that rejects is `PriceRejected`.  So is a response whose
    `calculatedPurchase` lacks `addedShippingLines`, `addedTaxLines` or
    `totalOutstandingSet`, since reading it throws.
- The HTTP request to the signing backend and its JSON handling
  (`src/index.js:186-196`) are left out.  The request is modelled as the
  logged `SignChangeset` call with its payload; its outcome is
  `SignResolved(token)` or `SignRejected`.
- `console.log` (`src/index.js:198`) is left out: it has no effect on the
  extension's state.
- The host's own `calculateChangeset`, `applyChangeset` and `done` are left
  out.  They are external; the model records each call and lets the host's
  answer arrive as an event.
- Currency.FormatCurrency: amounts that are JavaScript numbers are not
  modelled.  `parseInt` would turn them into strings first, and Number
  precision is not modelled; amounts are strings, `undefined` or `null`.
- JsParseInt.ParseInt and JsParseInt.ParseIntOfNumeral: results are exact
  integers.
  - The rounding of very long numerals to IEEE doubles is left out.  A
    non-zero numeral never rounds to zero, so `formatCurrency` is unaffected.
  - A negative zero (`"-0"`) is returned as `0`, since `-0 === 0` holds in
    JavaScript.
- Strings are Dafny strings, that is sequences of Unicode scalar values, not
  JavaScript's UTF-16 code units, so lone surrogates cannot be written.  What
  `parseInt` reads is unaffected: every white space, sign and digit it
  recognises lies in the Basic Multilingual Plane.
- Unhandled promise rejections are left out.  The model only records that
  the continuation stopped (`PricingFailed`, `SigningFailed`, `ApplyFailed`); how the
  host reports such a rejection is not modelled.
