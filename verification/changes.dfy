/** The changeset the upsell submits: the order changes the host prices,
    the backend signs and the host applies. */
module Changes {

  /** One order change.  The extension only ever adds a variant. */
  datatype ChangeOperation = AddVariant(variantId: string, quantity: nat)

  type Changeset = seq<ChangeOperation>

  /** Units of `variantId` the changeset adds to the order. */
  function UnitsAdded(c: Changeset, variantId: string): nat {
    if |c| == 0 then 0
    else UnitsAdded(c[..|c| - 1], variantId) + (if c[|c| - 1].variantId == variantId then c[|c| - 1].quantity else 0)
  }

  /** The changeset built once from the offer: add one unit of the offered
      variant and touch nothing else. */
  function Plan(variantId: string): (c: Changeset)
    ensures UnitsAdded(c, variantId) == 1
    ensures forall other :: other != variantId ==> UnitsAdded(c, other) == 0
    ensures |c| == 1
  {
    [AddVariant(variantId, 1)]
  }
}
