/** The `Checkout::PostPurchase::Render` callback as a state machine.

    The callback renders the offer, fires a price calculation, and wires the
    accept and decline buttons to handlers.  Its continuations run one at a
    time on JavaScript's event loop, so each handler (or each stretch of an
    async function between two awaits) is one atomic `Step` on an explicit
    `Session`, and a run of the extension is a sequence of `Event`s.  The
    layout tree is reduced to the two buttons' props, the accept label and
    whether the price breakdown was inserted; every call the extension makes
    to the host or to the signing backend is logged together with the state
    both buttons were in when it was issued. */
module PostPurchase {
  import opened Wrappers
  import opened JsParseInt
  import opened Currency
  import opened Changes

  /** The offer the render gate cached in `storage.initialData`. */
  datatype Offer = Offer(
    variantId: string,
    productTitle: string,
    productImageUrl: string,
    productDescription: seq<string>,
    discountedPrice: Amount,
    originalPrice: Amount)

  /** The part of the host's `inputData` the extension reads. */
  datatype InputData = InputData(referenceId: string, token: string)

  /** The accept button's `disabled` and `loading` props and the text
      children, in the order they were appended. */
  datatype AcceptButton = AcceptButton(disabled: bool, loading: bool, captions: seq<string>)

  /** The decline button's `disabled` and `loading` props. */
  datatype DeclineButton = DeclineButton(disabled: bool, loading: bool)

  /** The price calculation started at render time. */
  datatype Pricing = Calculating | Priced | PricingFailed

  /** The `doAcceptOrder` task started by an accept press.  The token is
      what the signing backend's response carried in its `token` field
      (`None` when the field was missing, i.e. `undefined`). */
  datatype AcceptTask =
    | NotStarted
    | Signing
    | Applying(token: Option<string>)
    | Applied(token: Option<string>)
    | SigningFailed
    | ApplyFailed(token: Option<string>)

  /** The outside calls the extension makes. */
  datatype HostCall =
    | CalculateChangeset(changes: Changeset)
    | SignChangeset(referenceId: string, changes: Changeset, sessionToken: string)
    | ApplyChangeset(signed: Option<string>)
    | Done

  /** A call together with both buttons as they stood when it was issued. */
  datatype LogEntry = LogEntry(call: HostCall, accept: AcceptButton, decline: DeclineButton)

  datatype Session = Session(
    referenceId: string,
    sessionToken: string,
    changes: Changeset,
    accept: AcceptButton,
    decline: DeclineButton,
    breakdownInserted: bool,
    pricing: Pricing,
    task: AcceptTask,
    log: seq<LogEntry>)

  /** What the event loop can deliver to the extension: the settling of one
      of its pending promises, or a press of a button. */
  datatype Event =
    | PriceResolved(total: Amount)
    | PriceRejected
    | PressDecline
    | PressAccept
    | SignResolved(signed: Option<string>)
    | SignRejected
    | ApplyResolved
    | ApplyRejected

  /** What the accept caption starts with: "Pay now", a middle dot and a space. */
  const PayNowPrefix := "Pay now \U{00B7} "

  /** The text appended to the accept button once the total is known: the
      prefix, then "Free" for a falsy or zero total and the raw amount behind
      a dollar sign otherwise. */
  function PayNowLabel(total: Amount): (r: string)
    ensures IsFalsy(total) ==> r == PayNowPrefix + "Free"
    ensures total.Str? && ParseInt(total.text) == Some(0) ==> r == PayNowPrefix + "Free"
    ensures total.Str? && total.text != "" && ParseInt(total.text) != Some(0) ==>
              r == PayNowPrefix + ("$" + total.text)
    ensures r == PayNowPrefix + "Free" || (total.Str? && r == PayNowPrefix + ("$" + total.text))
  {
    PayNowPrefix + FormatCurrency(total)
  }

  /** Both decision controls are disabled and the accept control shows it is busy. */
  predicate DecisionLocked(accept: AcceptButton, decline: DeclineButton) {
    accept.disabled && accept.loading && decline.disabled
  }

  /** When the host delivers an event: a promise settles only while it is
      pending, and a button's `onPress` fires only while it is enabled. */
  predicate CanDeliver(s: Session, e: Event) {
    match e
    case PriceResolved(_) => s.pricing.Calculating?
    case PriceRejected => s.pricing.Calculating?
    case PressDecline => !s.decline.disabled
    case PressAccept => !s.accept.disabled
    case SignResolved(_) => s.task.Signing?
    case SignRejected => s.task.Signing?
    case ApplyResolved => s.task.Applying?
    case ApplyRejected => s.task.Applying?
  }

  /** The fields a session never changes after render. */
  predicate SameContext(s: Session, t: Session) {
    s.referenceId == t.referenceId && s.sessionToken == t.sessionToken && s.changes == t.changes
  }

  /** The synchronous part of the render callback: the changeset is built
      once, the accept button starts disabled and loading with no label, the
      decline button starts enabled, and the price calculation is requested. */
  function Render(offer: Offer, input: InputData): (s: Session)
    ensures s.changes == Plan(offer.variantId)
    ensures s.accept.disabled && s.accept.loading && |s.accept.captions| == 0
    ensures !s.decline.disabled && !s.decline.loading
    ensures |s.log| == 1 && s.log[0].call == CalculateChangeset(s.changes)
    ensures s.pricing.Calculating? && s.task.NotStarted? && !s.breakdownInserted
  {
    var changes := Plan(offer.variantId);
    var accept := AcceptButton(true, true, []);
    var decline := DeclineButton(false, false);
    Session(input.referenceId, input.token, changes, accept, decline,
            false, Calculating, NotStarted,
            [LogEntry(CalculateChangeset(changes), accept, decline)])
  }

  /** One atomic step of the extension; `None` when the host cannot deliver
      the event in this state.  The changeset, the purchase reference and the
      session token are never touched, and the log only grows, by at most
      one call. */
  function Step(s: Session, e: Event): (r: Option<Session>)
    ensures r.Some? <==> CanDeliver(s, e)
    ensures r.Some? ==> SameContext(s, r.value)
    ensures r.Some? ==> s.log <= r.value.log && |r.value.log| <= |s.log| + 1
  {
    if !CanDeliver(s, e) then None
    else
      match e
      case PriceResolved(total) =>
        // The breakdown goes in before the buttons, then accept is enabled and
        // labelled; nothing here looks at what the shopper already did.
        Some(s.(breakdownInserted := true,
                accept := AcceptButton(false, false, s.accept.captions + [PayNowLabel(total)]),
                pricing := Priced))
      case PriceRejected =>
        // A rejected calculation, or a response that has a calculated purchase
        // but lacks one of the lists read from it, ends the price continuation
        // before any UI change.
        Some(s.(pricing := PricingFailed))
      case PressDecline =>
        var accept := s.accept.(disabled := true);
        var decline := DeclineButton(true, true);
        Some(s.(accept := accept, decline := decline,
                log := s.log + [LogEntry(Done, accept, decline)]))
      case PressAccept =>
        // Both buttons are updated first; `doAcceptOrder` then runs up to its
        // first await, which issues the signing request.
        var accept := s.accept.(disabled := true, loading := true);
        var decline := s.decline.(disabled := true);
        var request := SignChangeset(s.referenceId, s.changes, s.sessionToken);
        Some(s.(accept := accept, decline := decline, task := Signing,
                log := s.log + [LogEntry(request, accept, decline)]))
      case SignResolved(token) =>
        Some(s.(task := Applying(token),
                log := s.log + [LogEntry(ApplyChangeset(token), s.accept, s.decline)]))
      case SignRejected =>
        Some(s.(task := SigningFailed))
      case ApplyResolved =>
        Some(s.(task := Applied(s.task.token),
                log := s.log + [LogEntry(Done, s.accept, s.decline)]))
      case ApplyRejected =>
        Some(s.(task := ApplyFailed(s.task.token)))
  }

  /** A run of events; `None` as soon as one of them cannot be delivered. */
  function Run(s: Session, trace: seq<Event>): (r: Option<Session>)
    ensures r.Some? ==> SameContext(s, r.value)
    ensures r.Some? ==> s.log <= r.value.log && |r.value.log| <= |s.log| + |trace|
    decreases |trace|
  {
    if |trace| == 0 then Some(s)
    else
      match Step(s, trace[0])
      case None => None
      case Some(next) => Run(next, trace[1..])
  }

  /** The kinds of outside call, for counting them. */
  datatype CallKind = CalculateKind | SignKind | ApplyKind | DoneKind

  function KindOf(c: HostCall): CallKind {
    match c
    case CalculateChangeset(_) => CalculateKind
    case SignChangeset(_, _, _) => SignKind
    case ApplyChangeset(_) => ApplyKind
    case Done => DoneKind
  }

  /** How many calls of kind `k` the log holds. */
  function Calls(log: seq<LogEntry>, k: CallKind): nat {
    if |log| == 0 then 0
    else Calls(log[..|log| - 1], k) + (if KindOf(log[|log| - 1].call) == k then 1 else 0)
  }

  /** How many times `e` occurs in a trace. */
  function Occurrences(trace: seq<Event>, e: Event): nat {
    if |trace| == 0 then 0
    else (if trace[0] == e then 1 else 0) + Occurrences(trace[1..], e)
  }
}
