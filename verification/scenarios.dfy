/** Whole runs of the upsell extension, for any offer, input, total and
    signing token. */
module Scenarios {
  import opened Wrappers
  import opened Currency
  import opened Changes
  import opened PostPurchase
  import opened SessionProperties

  /** The accepted upsell: the price arrives, the shopper accepts, the
      backend signs, the host applies.  `done` is called exactly once, after
      the apply call, and the calls carry the one changeset, the session's
      reference and token, and the signed token. */
  lemma AcceptedOffer(offer: Offer, input: InputData, total: Amount, token: Option<string>)
    ensures var trace := [PriceResolved(total), PressAccept, SignResolved(token), ApplyResolved];
            var r := Run(Render(offer, input), trace);
            && r.Some?
            && r.value.task == Applied(token)
            && r.value.accept.captions == [PayNowLabel(total)]
            && |r.value.log| == 4
            && r.value.log[0].call == CalculateChangeset(Plan(offer.variantId))
            && r.value.log[1].call == SignChangeset(input.referenceId, Plan(offer.variantId), input.token)
            && r.value.log[2].call == ApplyChangeset(token)
            && r.value.log[3].call == Done
  {
    var s0 := Render(offer, input);
    PriceResolvedEnablesAccept(s0, total);
    var s1 := Step(s0, PriceResolved(total)).value;
    AcceptLocksBeforeSigning(s1);
    var s2 := Step(s1, PressAccept).value;
    SignResolvedAppliesToken(s2, token);
    var s3 := Step(s2, SignResolved(token)).value;
    ApplyResolvedSignalsDone(s3);
    var s4 := Step(s3, ApplyResolved).value;
    var trace := [PriceResolved(total), PressAccept, SignResolved(token), ApplyResolved];
    assert Run(s4, trace[4..]) == Some(s4);
    assert Run(s3, trace[3..]) == Some(s4);
    assert Run(s2, trace[2..]) == Some(s4);
    assert Run(s1, trace[1..]) == Some(s4);
    assert Run(s0, trace) == Some(s4);
  }

  /** The accept caption for a total of 2300. */
  lemma PayNowLabelExample()
    ensures PayNowLabel(Str("2300")) == PayNowPrefix + "$2300"
  {
    PricedForNonZeroNumeral("2300", "", "", "2300", "", 0);
  }

  /** A calculation result without a calculated purchase makes every amount
      `undefined` without throwing: the breakdown still goes in, and accept is
      enabled with the caption "Pay now · Free". */
  lemma MissingPurchaseShowsFree(offer: Offer, input: InputData)
    ensures var r := Step(Render(offer, input), PriceResolved(Undefined));
            && r.Some?
            && r.value.breakdownInserted
            && !r.value.accept.disabled && !r.value.accept.loading
            && r.value.accept.captions == [PayNowPrefix + "Free"]
  {
    PriceResolvedEnablesAccept(Render(offer, input), Undefined);
  }

  /** The price continuation has no guard: a price that arrives after a
      decline enables accept again, and accepting then calls `done` a second
      time, after a signing request made behind the decline's `done`. */
  lemma LatePriceAfterDecline(offer: Offer, input: InputData, total: Amount, token: Option<string>)
    ensures var trace := [PressDecline, PriceResolved(total), PressAccept, SignResolved(token), ApplyResolved];
            var r := Run(Render(offer, input), trace);
            && r.Some?
            && Calls(r.value.log, DoneKind) == 2
            && |r.value.log| == 5
            && r.value.log[1].call == Done
            && r.value.log[2].call == SignChangeset(input.referenceId, Plan(offer.variantId), input.token)
            && r.value.log[4].call == Done
  {
    var s0 := Render(offer, input);
    DeclineLocksAndSignalsDone(s0);
    var s1 := Step(s0, PressDecline).value;
    PriceResolvedEnablesAccept(s1, total);
    var s2 := Step(s1, PriceResolved(total)).value;
    AcceptLocksBeforeSigning(s2);
    var s3 := Step(s2, PressAccept).value;
    SignResolvedAppliesToken(s3, token);
    var s4 := Step(s3, SignResolved(token)).value;
    ApplyResolvedSignalsDone(s4);
    var s5 := Step(s4, ApplyResolved).value;
    var trace := [PressDecline, PriceResolved(total), PressAccept, SignResolved(token), ApplyResolved];
    assert Run(s5, trace[5..]) == Some(s5);
    assert Run(s4, trace[4..]) == Some(s5);
    assert Run(s3, trace[3..]) == Some(s5);
    assert Run(s2, trace[2..]) == Some(s5);
    assert Run(s1, trace[1..]) == Some(s5);
    assert Run(s0, trace) == Some(s5);
    DoneAccounting(offer, input, trace, s5);
  }
}
