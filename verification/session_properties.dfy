/** What every reachable session of the upsell extension satisfies, and
    the ordering guarantees the event handlers make. */
module SessionProperties {
  import opened Wrappers
  import opened Currency
  import opened Changes
  import opened PostPurchase

  /** The accept task has issued its `applyChangeset` call. */
  predicate ApplyIssued(t: AcceptTask) {
    t.Applying? || t.Applied? || t.ApplyFailed?
  }

  /** The accept path is over: applied, or stuck after a failure. */
  predicate AcceptPathEnded(t: AcceptTask) {
    t.Applied? || t.SigningFailed? || t.ApplyFailed?
  }

  /** What a logged call carries: the session's own changeset, purchase
      reference and session token, and for `applyChangeset` the token of the
      running accept task. */
  predicate CallFitsSession(s: Session, c: HostCall) {
    match c
    case CalculateChangeset(ch) => ch == s.changes
    case SignChangeset(r, ch, t) => r == s.referenceId && ch == s.changes && t == s.sessionToken
    case ApplyChangeset(t) => ApplyIssued(s.task) && t == s.task.token
    case Done => true
  }

  /** The invariant of reachable sessions. */
  ghost predicate Inv(s: Session) {
    && (forall i :: 0 <= i < |s.log| ==> CallFitsSession(s, s.log[i].call))
    && (forall i :: 0 <= i < |s.log| && (s.log[i].call.SignChangeset? || s.log[i].call.ApplyChangeset?) ==>
          DecisionLocked(s.log[i].accept, s.log[i].decline))
    && (s.pricing.Calculating? ==>
          s.accept.disabled && s.accept.loading && s.accept.captions == [] && s.task.NotStarted?)
    && (s.pricing.Priced? <==> s.breakdownInserted)
    && |s.accept.captions| == (if s.pricing.Priced? then 1 else 0)
    && (!s.accept.disabled ==> s.pricing.Priced? && s.task.NotStarted?)
    && (s.pricing.Priced? && s.task.NotStarted? && !s.decline.disabled ==> !s.accept.disabled)
    && (!s.task.NotStarted? ==> DecisionLocked(s.accept, s.decline) && s.pricing.Priced?)
    && (s.decline.loading ==> s.decline.disabled)
    && Calls(s.log, CalculateKind) == 1
    && Calls(s.log, SignKind) == (if s.task.NotStarted? then 0 else 1)
    && Calls(s.log, ApplyKind) == (if ApplyIssued(s.task) then 1 else 0)
    && Calls(s.log, DoneKind) == (if s.decline.loading then 1 else 0) + (if s.task.Applied? then 1 else 0)
    && (s.task.Applied? ==>
          exists i, j :: 0 <= i < j < |s.log| && s.log[i].call == ApplyChangeset(s.task.token) && s.log[j].call == Done)
  }

  lemma CallsAppend(log: seq<LogEntry>, e: LogEntry, k: CallKind)
    ensures Calls(log + [e], k) == Calls(log, k) + (if KindOf(e.call) == k then 1 else 0)
  {
    assert (log + [e])[..|log|] == log;
  }

  lemma {:induction false} CallsPositive(log: seq<LogEntry>, k: CallKind) returns (i: nat)
    requires Calls(log, k) > 0
    ensures i < |log| && KindOf(log[i].call) == k
  {
    var p := log[..|log| - 1];
    if KindOf(log[|log| - 1].call) == k {
      i := |log| - 1;
    } else {
      i := CallsPositive(p, k);
      assert log[i] == p[i];
    }
  }

  /** A freshly rendered session satisfies the invariant. */
  lemma RenderEstablishesInv(offer: Offer, input: InputData)
    ensures Inv(Render(offer, input))
  {
    var s := Render(offer, input);
    assert s.log == [] + [s.log[0]];
    CallsAppend([], s.log[0], CalculateKind);
    CallsAppend([], s.log[0], SignKind);
    CallsAppend([], s.log[0], ApplyKind);
    CallsAppend([], s.log[0], DoneKind);
  }

  lemma AppendCounts(log: seq<LogEntry>, e: LogEntry)
    ensures forall k :: Calls(log + [e], k) == Calls(log, k) + (if KindOf(e.call) == k then 1 else 0)
  {
    forall k {
      CallsAppend(log, e, k);
    }
  }

  lemma PriceStepPreservesInv(s: Session, e: Event)
    requires Inv(s) && (e.PriceResolved? || e.PriceRejected?)
    requires Step(s, e).Some?
    ensures Inv(Step(s, e).value)
  {
    assert Step(s, e).value.log == s.log;
  }

  lemma DeclinePreservesInv(s: Session)
    requires Inv(s)
    requires Step(s, PressDecline).Some?
    ensures Inv(Step(s, PressDecline).value)
  {
    var t := Step(s, PressDecline).value;
    AppendCounts(s.log, t.log[|s.log|]);
    assert t.log == s.log + [t.log[|s.log|]];
  }

  lemma AcceptPreservesInv(s: Session)
    requires Inv(s)
    requires Step(s, PressAccept).Some?
    ensures Inv(Step(s, PressAccept).value)
  {
    var t := Step(s, PressAccept).value;
    AppendCounts(s.log, t.log[|s.log|]);
    assert t.log == s.log + [t.log[|s.log|]];
  }

  lemma SignResolvedPreservesInv(s: Session, token: Option<string>)
    requires Inv(s)
    requires Step(s, SignResolved(token)).Some?
    ensures Inv(Step(s, SignResolved(token)).value)
  {
    var t := Step(s, SignResolved(token)).value;
    AppendCounts(s.log, t.log[|s.log|]);
    assert t.log == s.log + [t.log[|s.log|]];
  }

  lemma SignRejectedPreservesInv(s: Session)
    requires Inv(s)
    requires Step(s, SignRejected).Some?
    ensures Inv(Step(s, SignRejected).value)
  {
    assert Step(s, SignRejected).value.log == s.log;
  }

  lemma ApplyResolvedPreservesInv(s: Session)
    requires Inv(s)
    requires Step(s, ApplyResolved).Some?
    ensures Inv(Step(s, ApplyResolved).value)
  {
    var t := Step(s, ApplyResolved).value;
    var i := CallsPositive(s.log, ApplyKind);
    AppendCounts(s.log, t.log[|s.log|]);
    assert t.log == s.log + [t.log[|s.log|]];
    assert t.log[i] == s.log[i];
    assert t.log[|s.log|].call == Done;
  }

  lemma ApplyRejectedPreservesInv(s: Session)
    requires Inv(s)
    requires Step(s, ApplyRejected).Some?
    ensures Inv(Step(s, ApplyRejected).value)
  {
    assert Step(s, ApplyRejected).value.log == s.log;
  }

  /** Every deliverable event keeps the invariant. */
  lemma StepPreservesInv(s: Session, e: Event)
    requires Inv(s)
    requires Step(s, e).Some?
    ensures Inv(Step(s, e).value)
  {
    match e
    case PriceResolved(_) => PriceStepPreservesInv(s, e);
    case PriceRejected => PriceStepPreservesInv(s, e);
    case PressDecline => DeclinePreservesInv(s);
    case PressAccept => AcceptPreservesInv(s);
    case SignResolved(token) => SignResolvedPreservesInv(s, token);
    case SignRejected => SignRejectedPreservesInv(s);
    case ApplyResolved => ApplyResolvedPreservesInv(s);
    case ApplyRejected => ApplyRejectedPreservesInv(s);
  }

  /** Every run of deliverable events keeps the invariant. */
  lemma {:induction false} RunPreservesInv(s: Session, trace: seq<Event>)
    requires Inv(s)
    requires Run(s, trace).Some?
    ensures Inv(Run(s, trace).value)
    decreases |trace|
  {
    if |trace| > 0 {
      StepPreservesInv(s, trace[0]);
      RunPreservesInv(Step(s, trace[0]).value, trace[1..]);
    }
  }

  /** Every session a run of the extension can reach satisfies the invariant,
      and still holds the changeset, purchase reference and session token it
      was rendered with. */
  lemma Reachable(offer: Offer, input: InputData, trace: seq<Event>, s: Session)
    requires Run(Render(offer, input), trace) == Some(s)
    ensures Inv(s)
    ensures s.changes == Plan(offer.variantId)
    ensures s.referenceId == input.referenceId && s.sessionToken == input.token
  {
    RenderEstablishesInv(offer, input);
    RunPreservesInv(Render(offer, input), trace);
  }

  /** The changeset is built once: the calculation request and the signing
      request carry that same value, and the signing request carries the
      purchase reference and session token of the host's input. */
  lemma CalculateAndSignShareChangeset(offer: Offer, input: InputData, trace: seq<Event>, s: Session)
    requires Run(Render(offer, input), trace) == Some(s)
    ensures forall i :: 0 <= i < |s.log| && s.log[i].call.CalculateChangeset? ==>
              s.log[i].call.changes == [AddVariant(offer.variantId, 1)]
    ensures forall i :: 0 <= i < |s.log| && s.log[i].call.SignChangeset? ==>
              s.log[i].call == SignChangeset(input.referenceId, [AddVariant(offer.variantId, 1)], input.token)
  {
    Reachable(offer, input, trace, s);
    assert forall i :: 0 <= i < |s.log| ==> CallFitsSession(s, s.log[i].call);
  }

  /** The signing request and the `applyChangeset` call are only ever issued
      while both decision buttons are disabled and accept shows it is busy. */
  lemma DecisionLockedDuringSigning(offer: Offer, input: InputData, trace: seq<Event>, s: Session)
    requires Run(Render(offer, input), trace) == Some(s)
    ensures forall i :: 0 <= i < |s.log| && (s.log[i].call.SignChangeset? || s.log[i].call.ApplyChangeset?) ==>
              DecisionLocked(s.log[i].accept, s.log[i].decline)
  {
    Reachable(offer, input, trace, s);
  }

  /** The price is calculated once, at most one signing request is made, and
      there are never more `applyChangeset` calls than signing requests. */
  lemma SigningRequestedAtMostOnce(offer: Offer, input: InputData, trace: seq<Event>, s: Session)
    requires Run(Render(offer, input), trace) == Some(s)
    ensures Calls(s.log, CalculateKind) == 1
    ensures Calls(s.log, SignKind) <= 1
    ensures Calls(s.log, ApplyKind) <= Calls(s.log, SignKind)
  {
    Reachable(offer, input, trace, s);
  }

  /** Accept is enabled only once the price is known, the breakdown is
      shown, the button carries its one "Pay now" caption, and no accept
      task has started.  (Decline having been pressed does not prevent it.) */
  lemma AcceptEnabledOnlyWhenPriced(offer: Offer, input: InputData, trace: seq<Event>, s: Session)
    requires Run(Render(offer, input), trace) == Some(s)
    requires !s.accept.disabled
    ensures s.pricing.Priced? && s.breakdownInserted && |s.accept.captions| == 1
    ensures s.task.NotStarted? && Calls(s.log, SignKind) == 0
  {
    Reachable(offer, input, trace, s);
  }

  /** Conversely, once the price is known and the shopper has pressed
      neither button, accept is enabled: only a press disables it again. */
  lemma PricedAndUndecidedEnablesAccept(offer: Offer, input: InputData, trace: seq<Event>, s: Session)
    requires Run(Render(offer, input), trace) == Some(s)
    requires s.pricing.Priced? && s.task.NotStarted? && !s.decline.disabled
    ensures !s.accept.disabled && |s.accept.captions| == 1
  {
    Reachable(offer, input, trace, s);
  }

  /** `done` is called once for a decline press and once for a resolved
      `applyChangeset`, and on the accept path it comes after that call. */
  lemma DoneAccounting(offer: Offer, input: InputData, trace: seq<Event>, s: Session)
    requires Run(Render(offer, input), trace) == Some(s)
    ensures Calls(s.log, DoneKind) == (if s.decline.loading then 1 else 0) + (if s.task.Applied? then 1 else 0)
    ensures s.task.Applied? ==>
              exists i, j :: 0 <= i < j < |s.log| && s.log[i].call.ApplyChangeset? && s.log[j].call.Done?
  {
    Reachable(offer, input, trace, s);
  }

  /** A failed signing request or a rejected `applyChangeset` never leads to
      `done`: the only `done` such a session can have made is a decline's. */
  lemma FailedAcceptNeverSignalsDone(offer: Offer, input: InputData, trace: seq<Event>, s: Session)
    requires Run(Render(offer, input), trace) == Some(s)
    requires s.task.SigningFailed? || s.task.ApplyFailed?
    ensures Calls(s.log, DoneKind) == (if s.decline.loading then 1 else 0)
  {
    Reachable(offer, input, trace, s);
  }

  /** Once the accept path has applied the changeset, or got stuck after a
      failure, no event can be delivered any more: both buttons stay
      disabled and nothing retries. */
  lemma EndedAcceptPathIsFinal(s: Session, e: Event)
    requires Inv(s)
    requires AcceptPathEnded(s.task)
    ensures Step(s, e).None?
  {
  }

  /** A decline pressed after the price calculation settled really ends the
      session: nothing can be delivered afterwards. */
  lemma DeclineAfterPricingIsFinal(s: Session, e: Event)
    requires Inv(s)
    requires !s.pricing.Calculating? && Step(s, PressDecline).Some?
    ensures Step(Step(s, PressDecline).value, e).None?
  {
  }

  /** `applyChangeset` receives exactly the token the signing backend
      returned: every apply call a run adds carries the payload of a
      `SignResolved` event of that run. */
  lemma {:induction false} ApplyUsesSignedToken(s: Session, trace: seq<Event>)
    requires Run(s, trace).Some?
    ensures var t := Run(s, trace).value;
            forall j :: |s.log| <= j < |t.log| && t.log[j].call.ApplyChangeset? ==>
              SignResolved(t.log[j].call.signed) in trace
    decreases |trace|
  {
    if |trace| > 0 {
      var next := Step(s, trace[0]).value;
      var t := Run(s, trace).value;
      ApplyUsesSignedToken(next, trace[1..]);
      assert trace == [trace[0]] + trace[1..];
      forall j | |s.log| <= j < |t.log| && t.log[j].call.ApplyChangeset?
        ensures SignResolved(t.log[j].call.signed) in trace
      {
        if j < |next.log| {
          assert t.log[j] == next.log[j];
        }
      }
    }
  }

  /** A step adds a `done` call exactly for a decline press and for a
      resolved `applyChangeset`. */
  lemma StepDoneDelta(s: Session, e: Event)
    requires Step(s, e).Some?
    ensures Calls(Step(s, e).value.log, DoneKind)
            == Calls(s.log, DoneKind) + (if e == PressDecline || e == ApplyResolved then 1 else 0)
  {
    var next := Step(s, e).value;
    match e
    case PressDecline =>
      DeclineLocksAndSignalsDone(s);
      CallsAppend(s.log, LogEntry(Done, next.accept, next.decline), DoneKind);
    case PressAccept =>
      AcceptLocksBeforeSigning(s);
      CallsAppend(s.log, LogEntry(SignChangeset(s.referenceId, s.changes, s.sessionToken), next.accept, next.decline), DoneKind);
    case SignResolved(token) =>
      SignResolvedAppliesToken(s, token);
      CallsAppend(s.log, LogEntry(ApplyChangeset(token), s.accept, s.decline), DoneKind);
    case ApplyResolved =>
      ApplyResolvedSignalsDone(s);
      CallsAppend(s.log, LogEntry(Done, s.accept, s.decline), DoneKind);
    case _ =>
      assert next.log == s.log;
  }

  /** The number of `done` calls a run adds is the number of decline presses
      plus the number of resolved `applyChangeset` calls in it: a rejection
      or a still-pending request never signals completion. */
  lemma {:induction false} DoneCountMatchesTrace(s: Session, trace: seq<Event>)
    requires Run(s, trace).Some?
    ensures Calls(Run(s, trace).value.log, DoneKind)
            == Calls(s.log, DoneKind) + Occurrences(trace, PressDecline) + Occurrences(trace, ApplyResolved)
    decreases |trace|
  {
    if |trace| > 0 {
      var next := Step(s, trace[0]).value;
      DoneCountMatchesTrace(next, trace[1..]);
      StepDoneDelta(s, trace[0]);
    }
  }

  /** The price continuation inserts the breakdown, enables accept and
      appends its "Pay now" caption whatever the shopper already did: its
      only precondition is that the calculation is still pending.  Decline
      and the log are left alone. */
  lemma PriceResolvedEnablesAccept(s: Session, total: Amount)
    requires s.pricing.Calculating?
    ensures Step(s, PriceResolved(total)).Some?
    ensures var t := Step(s, PriceResolved(total)).value;
            && !t.accept.disabled && !t.accept.loading
            && t.accept.captions == s.accept.captions + [PayNowPrefix + FormatCurrency(total)]
            && t.breakdownInserted && t.decline == s.decline && t.log == s.log && t.task == s.task
  {
  }

  /** Decline disables accept without touching its loading flag, disables
      decline and shows it loading, and calls `done` right away, issuing no
      signing or apply call. */
  lemma DeclineLocksAndSignalsDone(s: Session)
    requires !s.decline.disabled
    ensures Step(s, PressDecline).Some?
    ensures var t := Step(s, PressDecline).value;
            && t.accept.disabled && t.accept.loading == s.accept.loading
            && t.accept.captions == s.accept.captions
            && t.decline.disabled && t.decline.loading
            && t.log == s.log + [LogEntry(Done, t.accept, t.decline)]
            && t.task == s.task
  {
  }

  /** Accept locks both buttons before the signing request goes out: the
      request is the only call the press makes, and when it is issued accept
      is disabled and loading and decline is disabled. */
  lemma AcceptLocksBeforeSigning(s: Session)
    requires !s.accept.disabled
    ensures Step(s, PressAccept).Some?
    ensures var t := Step(s, PressAccept).value;
            && t.log == s.log + [LogEntry(SignChangeset(s.referenceId, s.changes, s.sessionToken), t.accept, t.decline)]
            && DecisionLocked(t.accept, t.decline)
            && t.decline.loading == s.decline.loading
            && t.task.Signing?
  {
  }

  /** The signing continuation passes the token it received, unchanged, to
      `applyChangeset`, and changes no button. */
  lemma SignResolvedAppliesToken(s: Session, token: Option<string>)
    requires s.task.Signing?
    ensures Step(s, SignResolved(token)).Some?
    ensures var t := Step(s, SignResolved(token)).value;
            && t.log == s.log + [LogEntry(ApplyChangeset(token), s.accept, s.decline)]
            && t.task == Applying(token)
            && t.accept == s.accept && t.decline == s.decline
            && t.pricing == s.pricing && t.breakdownInserted == s.breakdownInserted
  {
  }

  /** `done` follows the resolution of `applyChangeset`, and nothing else
      happens at that point. */
  lemma ApplyResolvedSignalsDone(s: Session)
    requires s.task.Applying?
    ensures Step(s, ApplyResolved).Some?
    ensures var t := Step(s, ApplyResolved).value;
            && t.log == s.log + [LogEntry(Done, s.accept, s.decline)]
            && t.task == Applied(s.task.token)
            && t.accept == s.accept && t.decline == s.decline
            && t.pricing == s.pricing && t.breakdownInserted == s.breakdownInserted
  {
  }
}
