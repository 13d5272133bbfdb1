/** The price of one request: frozen when it starts, completed from its usage, and merged into its
    stored row by every later write. */
module RequestPricing {
  import opened Money

  /** A price rule of the configuration. */
  datatype Rule = Rule(pattern: string, price: UnitPrice, multiplier: Option<string>)

  /** What a request is priced with, frozen when it starts. */
  datatype Context = Context(
    billingModel: Option<string>, matchedRule: Option<Rule>, reason: Option<string>, frozenAt: string, target: string)

  datatype Usage = Usage(buckets: Buckets, source: string)

  /** The usage that a response showed, or why it showed none. */
  datatype Resolution = Known(usage: Usage) | Unknown(reason: string)

  datatype Status = Pending | Priced | Unpriced

  datatype Snapshot = Snapshot(
    pattern: string, price: UnitPrice, algorithmVersion: int, frozenAt: string, target: string)

  /** What a row says of its price, whether stored already or about to be. */
  datatype Pricing = Pricing(
    status: Status,
    reason: Option<string>,
    billingModel: Option<string>,
    snapshot: Option<Snapshot>,
    cost: Option<int>,
    usage: Option<Usage>)

  function FreezeRequestPricing(model: Option<string>, match_: string -> Option<Rule>, frozenAt: string,
                                target: string): Context {
    if model.None? || model.value == "" then Context(None, None, Some("missing_model"), frozenAt, target)
    else
      var rule := match_(model.value);
      Context(model, rule, if rule.None? then Some("no_matching_price") else None, frozenAt, target)
  }

  /** Every price of a rule times its multiplier. */
  function EffectiveUnitPrice(rule: Rule): Result<UnitPrice> {
    var input :- EffectivePricePerMillion(rule.price.input, rule.multiplier);
    var output :- EffectivePricePerMillion(rule.price.output, rule.multiplier);
    var cacheRead :- EffectivePricePerMillion(rule.price.cacheRead, rule.multiplier);
    var cacheWrite :- EffectivePricePerMillion(rule.price.cacheWrite, rule.multiplier);
    Ok(UnitPrice(input, output, cacheRead, cacheWrite))
  }

  function SnapshotOf(c: Context): Result<Option<Snapshot>> {
    if c.matchedRule.None? then Ok(None)
    else
      var price :- EffectiveUnitPrice(c.matchedRule.value);
      Ok(Some(Snapshot(c.matchedRule.value.pattern, price, 2, c.frozenAt, c.target)))
  }

  function PendingRequestPricing(c: Context): Result<Pricing> {
    var snapshot :- SnapshotOf(c);
    Ok(Pricing(Pending, c.reason, c.billingModel, snapshot, None, None))
  }

  /** The streamed usage when there was a stream, else that of the buffered payload. */
  function ResolveUsage(streamed: Option<Resolution>, buffered: Resolution): Resolution {
    if streamed.Some? then streamed.value else buffered
  }

  function CompleteRequestPricing(c: Context, streamed: Option<Resolution>, buffered: Resolution): Result<Pricing> {
    var pending :- PendingRequestPricing(c);
    var resolved := ResolveUsage(streamed, buffered);
    if c.reason.Some? then
      Ok(pending.(status := Unpriced, usage := if resolved.Known? then Some(resolved.usage) else None))
    else if resolved.Unknown? then Ok(pending.(status := Unpriced, reason := Some(resolved.reason)))
    else if c.matchedRule.None? then Ok(pending.(status := Unpriced, reason := Some("no_matching_price")))
    else
      var price :- EffectiveUnitPrice(c.matchedRule.value);
      Charged(pending, resolved.usage, CalculateCost(resolved.usage.buckets, price))
  }

  /** The pending block with its cost; a cost that cannot be stored leaves it unpriced. */
  function Charged(pending: Pricing, usage: Usage, cost: Result<Cost>): Result<Pricing> {
    match cost
    case Ok(cost) => Ok(pending.(status := Priced, reason := None, cost := Some(cost.nano), usage := Some(usage)))
    case Err(AmountOverflow) => Ok(pending.(status := Unpriced, reason := Some("amount_overflow")))
    case Err(error) => Err(error)
  }

  // ----- What a completed pricing is

  /** Priced means with the cost that its own usage and snapshot give; anything else has no cost. */
  predicate Consistent(p: Pricing) {
    match p.status
    case Priced =>
      && p.usage.Some? && p.snapshot.Some? && p.cost.Some?
      && CalculateCost(p.usage.value.buckets, p.snapshot.value.price).Ok?
      && p.cost.value == CalculateCost(p.usage.value.buckets, p.snapshot.value.price).value.nano
    case _ => p.cost.None?
  }

  /** The block belongs to the context: it carries its snapshot and model. */
  predicate Carries(c: Context, p: Pricing) {
    SnapshotOf(c).Ok? && p.snapshot == SnapshotOf(c).value && p.billingModel == c.billingModel
  }

  lemma ChargedConsistent(pending: Pricing, usage: Usage, price: UnitPrice)
    requires pending.snapshot.Some? && pending.snapshot.value.price == price && pending.cost.None?
    ensures var charged := Charged(pending, usage, CalculateCost(usage.buckets, price));
            charged.Ok? ==>
              && Consistent(charged.value) && charged.value.snapshot == pending.snapshot
              && charged.value.billingModel == pending.billingModel
  {
  }

  lemma PendingConsistent(c: Context)
    ensures PendingRequestPricing(c).Ok? ==>
      Consistent(PendingRequestPricing(c).value) && Carries(c, PendingRequestPricing(c).value)
  {
  }

  lemma SnapshotPrice(c: Context)
    requires SnapshotOf(c).Ok? && c.matchedRule.Some?
    ensures SnapshotOf(c).value.Some? && EffectiveUnitPrice(c.matchedRule.value) == Ok(SnapshotOf(c).value.value.price)
  {
  }

  lemma CompleteConsistent(c: Context, streamed: Option<Resolution>, buffered: Resolution)
    ensures var p := CompleteRequestPricing(c, streamed, buffered);
            p.Ok? ==> Consistent(p.value) && Carries(c, p.value)
  {
    PendingConsistent(c);
    var pending, resolved := PendingRequestPricing(c), ResolveUsage(streamed, buffered);
    if pending.Ok? && c.reason.None? && resolved.Known? && c.matchedRule.Some? {
      SnapshotPrice(c);
      var price := EffectiveUnitPrice(c.matchedRule.value).value;
      ChargedConsistent(pending.value, resolved.usage, price);
      assert CompleteRequestPricing(c, streamed, buffered) ==
        Charged(pending.value, resolved.usage, CalculateCost(resolved.usage.buckets, price));
    }
  }

  /** Every price of the rule and its multiplier can be read. */
  predicate RuleReadable(rule: Rule) {
    && Accepted(rule.price.input, PRICE_PLACES) && Accepted(rule.price.output, PRICE_PLACES)
    && Accepted(rule.price.cacheRead, PRICE_PLACES) && Accepted(rule.price.cacheWrite, PRICE_PLACES)
    && Accepted(Factor(rule.multiplier), PRICE_PLACES)
  }

  /** A rule has effective prices exactly when it can be read, and then they can be read too. */
  lemma EffectiveReadable(rule: Rule)
    ensures EffectiveUnitPrice(rule).Ok? <==> RuleReadable(rule)
    ensures EffectiveUnitPrice(rule).Ok? ==> EffectiveUnitPrice(rule).value.Readable()
  {
    EffectiveExact(rule.price.input, rule.multiplier);
    EffectiveExact(rule.price.output, rule.multiplier);
    EffectiveExact(rule.price.cacheRead, rule.multiplier);
    EffectiveExact(rule.price.cacheWrite, rule.multiplier);
  }

  /** The price text reads as the configured price times the multiplier, or times one. */
  predicate Multiplied(effective: string, price: string, multiplier: Option<string>)
    requires Accepted(price, PRICE_PLACES) && (multiplier.Some? ==> Accepted(multiplier.value, PRICE_PLACES))
  {
    && Accepted(effective, UNIT_PLACES)
    && ScaledValue(effective, UNIT_PLACES) ==
       ScaledValue(price, PRICE_PLACES)
       * if multiplier.Some? then ScaledValue(multiplier.value, PRICE_PLACES) else 1_000_000
  }

  /** Each effective price is that configured price times the multiplier. */
  lemma EffectiveItemized(rule: Rule)
    requires EffectiveUnitPrice(rule).Ok?
    ensures RuleReadable(rule) && (rule.multiplier.Some? ==> Accepted(rule.multiplier.value, PRICE_PLACES))
    ensures var effective := EffectiveUnitPrice(rule).value;
            && Multiplied(effective.input, rule.price.input, rule.multiplier)
            && Multiplied(effective.output, rule.price.output, rule.multiplier)
            && Multiplied(effective.cacheRead, rule.price.cacheRead, rule.multiplier)
            && Multiplied(effective.cacheWrite, rule.price.cacheWrite, rule.multiplier)
  {
    OneIsMillion();
    EffectiveExact(rule.price.input, rule.multiplier);
    EffectiveExact(rule.price.output, rule.multiplier);
    EffectiveExact(rule.price.cacheRead, rule.multiplier);
    EffectiveExact(rule.price.cacheWrite, rule.multiplier);
  }

  /** What is frozen: the rule that the model name matches, or why there is none, and the pricing that
      a pending write shows. */
  lemma FreezeFinds(model: Option<string>, match_: string -> Option<Rule>, frozenAt: string, target: string)
    ensures var c := FreezeRequestPricing(model, match_, frozenAt, target);
            var named := model.Some? && model.value != "";
            && c.frozenAt == frozenAt && c.target == target
            && c.matchedRule == (if named then match_(model.value) else None)
            && c.billingModel == (if named then model else None)
            && c.reason == (if !named then Some("missing_model")
                            else if match_(model.value).None? then Some("no_matching_price") else None)
            && (PendingRequestPricing(c).Ok? ==>
                  var pending := PendingRequestPricing(c).value;
                  pending.(snapshot := None) == Pricing(Pending, c.reason, c.billingModel, None, None, None))
  {
  }

  /** The snapshot names the rule's pattern, its effective prices, and where and when it was frozen. */
  lemma SnapshotNames(c: Context)
    requires c.matchedRule.Some?
    ensures SnapshotOf(c).Ok? <==> RuleReadable(c.matchedRule.value)
    ensures SnapshotOf(c).Ok? ==>
              var snapshot := SnapshotOf(c).value;
              && snapshot.Some? && snapshot.value.pattern == c.matchedRule.value.pattern
              && Ok(snapshot.value.price) == EffectiveUnitPrice(c.matchedRule.value)
              && snapshot.value.algorithmVersion == 2
              && snapshot.value.frozenAt == c.frozenAt && snapshot.value.target == c.target
  {
    EffectiveReadable(c.matchedRule.value);
  }

  lemma ChargedOutcome(pending: Pricing, usage: Usage, cost: Result<Cost>)
    requires pending.status != Priced
    ensures Charged(pending, usage, cost).Ok? <==> cost.Ok? || cost == Err(AmountOverflow)
    ensures Charged(pending, usage, cost).Ok? ==> (Charged(pending, usage, cost).value.status == Priced <==> cost.Ok?)
  {
  }

  /** Completing a frozen request fails exactly for a matched rule that cannot be read, or negative
      token counts to charge it with. */
  lemma CompletesExactly(model: Option<string>, match_: string -> Option<Rule>, frozenAt: string, target: string,
                         streamed: Option<Resolution>, buffered: Resolution)
    ensures var c := FreezeRequestPricing(model, match_, frozenAt, target);
            var resolved := ResolveUsage(streamed, buffered);
            CompleteRequestPricing(c, streamed, buffered).Ok? <==>
              (c.matchedRule.Some? ==>
                 RuleReadable(c.matchedRule.value) && (resolved.Known? ==> resolved.usage.buckets.NonNegative()))
  {
    var c := FreezeRequestPricing(model, match_, frozenAt, target);
    CompletesOrPrices(c, streamed, buffered);
  }

  /** A frozen request is priced exactly when a readable rule matched, its usage is known and not
      negative, and the total stays below the first that overflows. */
  lemma PricedExactly(model: Option<string>, match_: string -> Option<Rule>, frozenAt: string, target: string,
                      streamed: Option<Resolution>, buffered: Resolution)
    ensures var c := FreezeRequestPricing(model, match_, frozenAt, target);
            var p := CompleteRequestPricing(c, streamed, buffered);
            p.Ok? && p.value.status == Priced <==>
              && c.matchedRule.Some? && RuleReadable(c.matchedRule.value)
              && Payable(c.matchedRule.value, ResolveUsage(streamed, buffered))
  {
    var c := FreezeRequestPricing(model, match_, frozenAt, target);
    CompletesOrPrices(c, streamed, buffered);
  }

  /** The usage is known, not negative, and costs less than can be stored. */
  predicate Payable(rule: Rule, resolved: Resolution)
    requires RuleReadable(rule)
  {
    EffectiveReadable(rule);
    && resolved.Known? && resolved.usage.buckets.NonNegative()
    && TotalProduct(resolved.usage.buckets, EffectiveUnitPrice(rule).value) < FIRST_OVERFLOW
  }

  /** What was observed of the usage: the capture of the stream, and the payload only without one. */
  predicate Observes(streamed: Option<Resolution>, buffered: Resolution, resolved: Resolution) {
    (streamed.Some? ==> resolved == streamed.value) && (streamed.None? ==> resolved == buffered)
  }

  /** The outcome in full, for any context: a price is that of the observed usage; without one, the
      reason is the first that applies, and only a request that had one before keeps its usage. */
  lemma CompleteOutcome(c: Context, streamed: Option<Resolution>, buffered: Resolution, resolved: Resolution)
    requires Observes(streamed, buffered, resolved)
    ensures var p := CompleteRequestPricing(c, streamed, buffered); p.Ok? ==> Outcome(c, resolved, p.value)
  {
    if c.reason.None? && c.matchedRule.Some? && resolved.Known? && CompleteRequestPricing(c, streamed, buffered).Ok? {
      var pending, price := PendingRequestPricing(c).value, EffectiveUnitPrice(c.matchedRule.value).value;
      var cost := CalculateCost(resolved.usage.buckets, price);
      assert CompleteRequestPricing(c, streamed, buffered) == Charged(pending, resolved.usage, cost);
      ChargedIs(c, pending, resolved.usage, cost);
    }
  }

  predicate Outcome(c: Context, resolved: Resolution, p: Pricing) {
    match p.status
    case Pending => false
    case Priced => p.reason.None? && resolved.Known? && p.usage == Some(resolved.usage)
    case Unpriced =>
      && p.reason == (if c.reason.Some? then c.reason
                      else if resolved.Unknown? then Some(resolved.reason)
                      else if c.matchedRule.None? then Some("no_matching_price") else Some("amount_overflow"))
      && p.usage == (if c.reason.Some? && resolved.Known? then Some(resolved.usage) else None)
  }

  lemma ChargedIs(c: Context, pending: Pricing, usage: Usage, cost: Result<Cost>)
    requires c.reason.None? && c.matchedRule.Some? && pending.usage.None? && Charged(pending, usage, cost).Ok?
    ensures Outcome(c, Known(usage), Charged(pending, usage, cost).value)
  {
  }

  /** What these tokens cost at a configured price: micros of the price times micros of the multiplier. */
  function Configured(tokens: int, price: string, multiplier: Option<string>): int
    requires Accepted(price, PRICE_PLACES) && (multiplier.Some? ==> Accepted(multiplier.value, PRICE_PLACES))
  {
    tokens * (ScaledValue(price, PRICE_PLACES)
              * if multiplier.Some? then ScaledValue(multiplier.value, PRICE_PLACES) else 1_000_000)
  }

  /** From the configuration to the bill: a priced request costs its tokens at the configured prices
      and multiplier, rounded once to a nanoyuan. */
  lemma PricedAmount(c: Context, streamed: Option<Resolution>, buffered: Resolution)
    requires var p := CompleteRequestPricing(c, streamed, buffered); p.Ok? && p.value.status == Priced
    ensures c.matchedRule.Some? && RuleReadable(c.matchedRule.value)
    ensures var p, rule := CompleteRequestPricing(c, streamed, buffered).value, c.matchedRule.value;
            && p.usage.Some? && p.cost.Some?
            && (rule.multiplier.Some? ==> Accepted(rule.multiplier.value, PRICE_PLACES))
            && var b := p.usage.value.buckets;
               var exact := Configured(b.inputUncached, rule.price.input, rule.multiplier)
                            + Configured(b.output, rule.price.output, rule.multiplier)
                            + Configured(b.cacheRead, rule.price.cacheRead, rule.multiplier)
                            + Configured(b.cacheWrite, rule.price.cacheWrite, rule.multiplier);
               -500_000_000 < p.cost.value * 1_000_000_000 - exact <= 500_000_000
  {
    CompleteConsistent(c, streamed, buffered);
    var p, rule := CompleteRequestPricing(c, streamed, buffered).value, c.matchedRule.value;
    EffectiveReadable(rule);
    SnapshotPrice(c);
    EffectiveItemized(rule);
    var price := EffectiveUnitPrice(rule).value;
    CostItemized(p.usage.value.buckets, price);
    CostRounded(p.usage.value.buckets, price);
  }

  lemma CompletesOrPrices(c: Context, streamed: Option<Resolution>, buffered: Resolution)
    requires c.reason.Some? <==> c.matchedRule.None?
    ensures var resolved := ResolveUsage(streamed, buffered);
            var p := CompleteRequestPricing(c, streamed, buffered);
            && (p.Ok? <==> (c.matchedRule.Some? ==>
                 RuleReadable(c.matchedRule.value) && (resolved.Known? ==> resolved.usage.buckets.NonNegative())))
            && (p.Ok? ==> (p.value.status == Priced <==> c.matchedRule.Some? && Payable(c.matchedRule.value, resolved)))
  {
    if c.matchedRule.Some? {
      var rule, resolved := c.matchedRule.value, ResolveUsage(streamed, buffered);
      EffectiveReadable(rule);
      if RuleReadable(rule) {
        SnapshotPrice(c);
        CompletesReadable(c, streamed, buffered, EffectiveUnitPrice(rule).value);
      }
    }
  }

  lemma CompletesReadable(c: Context, streamed: Option<Resolution>, buffered: Resolution, price: UnitPrice)
    requires c.matchedRule.Some? && c.reason.None? && PendingRequestPricing(c).Ok?
    requires EffectiveUnitPrice(c.matchedRule.value) == Ok(price) && price.Readable()
    ensures var resolved := ResolveUsage(streamed, buffered);
            var p := CompleteRequestPricing(c, streamed, buffered);
            && (p.Ok? <==> (resolved.Known? ==> resolved.usage.buckets.NonNegative()))
            && (p.Ok? ==> (p.value.status == Priced <==>
                 && resolved.Known? && resolved.usage.buckets.NonNegative()
                 && TotalProduct(resolved.usage.buckets, price) < FIRST_OVERFLOW))
  {
    var pending, resolved := PendingRequestPricing(c).value, ResolveUsage(streamed, buffered);
    if resolved.Known? {
      var cost := CalculateCost(resolved.usage.buckets, price);
      CostExactly(resolved.usage.buckets, price);
      ChargedOutcome(pending, resolved.usage, cost);
      assert CompleteRequestPricing(c, streamed, buffered) == Charged(pending, resolved.usage, cost);
    }
  }

  // ----- The stored row

  /** What a write makes of the stored block: a priced row keeps its price against any other write,
      and model and snapshot are never replaced. */
  function Merged(stored: Pricing, written: Pricing): Pricing {
    var keep := stored.status == Priced && written.status != Priced;
    Pricing(
      if keep then stored.status else written.status,
      if keep then stored.reason else written.reason,
      if stored.billingModel.Some? then stored.billingModel else written.billingModel,
      if stored.snapshot.Some? then stored.snapshot else written.snapshot,
      if keep then stored.cost else written.cost,
      if keep then stored.usage else written.usage)
  }

  function Interrupted(stored: Pricing): Pricing {
    if stored.status == Pending then stored.(status := Unpriced, reason := Some("incomplete_usage")) else stored
  }

  /** What happens to the row of one request. */
  datatype RowStep = WritePending | WriteComplete(streamed: Option<Resolution>, buffered: Resolution) | Interrupt

  /** The row after a step, when the request was priced with this context; the first write inserts. */
  function RowAfter(c: Context, row: Option<Pricing>, step: RowStep): Result<Option<Pricing>> {
    match step
    case Interrupt => Ok(if row.Some? then Some(Interrupted(row.value)) else None)
    case WritePending =>
      var written :- PendingRequestPricing(c);
      Ok(Some(if row.Some? then Merged(row.value, written) else written))
    case WriteComplete(streamed, buffered) =>
      var written :- CompleteRequestPricing(c, streamed, buffered);
      Ok(Some(if row.Some? then Merged(row.value, written) else written))
  }

  /** The row after a list of steps; a step that fails writes nothing. */
  function RowRun(c: Context, steps: seq<RowStep>): Option<Pricing> {
    if steps == [] then None
    else
      var before := RowRun(c, steps[..|steps| - 1]);
      var after := RowAfter(c, before, steps[|steps| - 1]);
      if after.Ok? then after.value else before
  }

  /** A price written over a stored snapshot is the one that this snapshot gives. */
  predicate SamePrice(stored: Pricing, written: Pricing) {
    written.status == Priced && written.usage.Some? && stored.snapshot.Some? ==>
      var cost := CalculateCost(written.usage.value.buckets, stored.snapshot.value.price);
      cost.Ok? && written.cost == Some(cost.value.nano)
  }

  /** Whatever contexts two consistent blocks have, merging them is consistent exactly when a price
      written over a stored snapshot is the one that this snapshot gives. */
  lemma MergedExactly(stored: Pricing, written: Pricing)
    requires Consistent(stored) && Consistent(written)
    ensures Consistent(Merged(stored, written)) <==> SamePrice(stored, written)
  {
    if written.status == Priced && stored.snapshot.Some? {
      assert Merged(stored, written).snapshot == stored.snapshot;
      assert Merged(stored, written).usage == written.usage && Merged(stored, written).cost == written.cost;
    }
  }

  /** Merging blocks of one context keeps their price. */
  lemma MergedConsistent(c: Context, stored: Pricing, written: Pricing)
    requires Consistent(stored) && Carries(c, stored) && Consistent(written) && Carries(c, written)
    ensures Consistent(Merged(stored, written)) && Carries(c, Merged(stored, written))
    ensures stored.status == Priced ==> Merged(stored, written).status == Priced
  {
    MergedExactly(stored, written);
  }

  /** Field by field, what a write leaves of the stored block: all of a price against anything that is
      not priced, else all of the written outcome; model and snapshot of the first that had them. */
  predicate Takes(stored: Pricing, written: Pricing, after: Pricing) {
    && (stored.billingModel.Some? ==> after.billingModel == stored.billingModel)
    && (stored.billingModel.None? ==> after.billingModel == written.billingModel)
    && (stored.snapshot.Some? ==> after.snapshot == stored.snapshot)
    && (stored.snapshot.None? ==> after.snapshot == written.snapshot)
    && var outcome := if written.status != Priced && stored.status == Priced then stored else written;
       && after.status == outcome.status && after.reason == outcome.reason
       && after.cost == outcome.cost && after.usage == outcome.usage
  }

  /** What an interruption leaves: a pending block is unpriced for want of its usage, any other stands. */
  predicate Settles(stored: Pricing, after: Pricing) {
    match stored.status
    case Pending =>
      && after.status == Unpriced && after.reason == Some("incomplete_usage")
      && after.(status := Pending, reason := stored.reason) == stored
    case Priced => after == stored
    case Unpriced => after == stored
  }

  lemma MergedTakes(stored: Pricing, written: Pricing)
    ensures Takes(stored, written, Merged(stored, written))
  {
  }

  lemma InterruptedSettles(stored: Pricing)
    ensures Settles(stored, Interrupted(stored))
  {
  }

  /** The last completion decides: when it prices, the row has its price, with its usage; when it does
      not and the row was not priced, the row has its reason. The first write makes the row. */
  lemma LastDecides(c: Context, steps: seq<RowStep>, streamed: Option<Resolution>, buffered: Resolution)
    requires CompleteRequestPricing(c, streamed, buffered).Ok?
    ensures var p, before := CompleteRequestPricing(c, streamed, buffered).value, RowRun(c, steps);
            var after := RowRun(c, steps + [WriteComplete(streamed, buffered)]);
            && after.Some?
            && (before.None? ==> after == Some(p))
            && (before.Some? ==> Takes(before.value, p, after.value))
  {
    var all := steps + [WriteComplete(streamed, buffered)];
    assert all[..|all| - 1] == steps;
    if RowRun(c, steps).Some? {
      MergedTakes(RowRun(c, steps).value, CompleteRequestPricing(c, streamed, buffered).value);
    }
  }

  /** The same for a pending write and for an interruption. */
  lemma PendingAndInterrupt(c: Context, steps: seq<RowStep>)
    ensures PendingRequestPricing(c).Ok? ==>
              var p, before := PendingRequestPricing(c).value, RowRun(c, steps);
              var after := RowRun(c, steps + [WritePending]);
              && after.Some? && (before.None? ==> after == Some(p))
              && (before.Some? ==> Takes(before.value, p, after.value))
    ensures var before, after := RowRun(c, steps), RowRun(c, steps + [Interrupt]);
            (before.None? <==> after.None?) && (before.Some? ==> Settles(before.value, after.value))
  {
    assert (steps + [WritePending])[..|steps|] == steps && (steps + [Interrupt])[..|steps|] == steps;
    if RowRun(c, steps).Some? {
      InterruptedSettles(RowRun(c, steps).value);
      if PendingRequestPricing(c).Ok? {
        MergedTakes(RowRun(c, steps).value, PendingRequestPricing(c).value);
      }
    }
  }

  lemma StepConsistent(c: Context, row: Option<Pricing>, step: RowStep)
    requires row.Some? ==> Consistent(row.value) && Carries(c, row.value)
    requires RowAfter(c, row, step).Ok?
    ensures var after := RowAfter(c, row, step).value;
            && (after.Some? ==> Consistent(after.value) && Carries(c, after.value))
            && (row.Some? && row.value.status == Priced ==> after.Some? && after.value.status == Priced)
  {
    match step
    case Interrupt =>
    case WritePending =>
      PendingConsistent(c);
      if row.Some? {
        MergedConsistent(c, row.value, PendingRequestPricing(c).value);
      }
    case WriteComplete(streamed, buffered) =>
      CompleteConsistent(c, streamed, buffered);
      if row.Some? {
        MergedConsistent(c, row.value, CompleteRequestPricing(c, streamed, buffered).value);
      }
  }

  /** Over any steps made from one frozen context, the row's cost is that of its own usage and
      snapshot. */
  lemma {:induction false} RunConsistent(c: Context, steps: seq<RowStep>)
    ensures var row := RowRun(c, steps);
            row.Some? ==> Consistent(row.value) && Carries(c, row.value)
  {
    if steps != [] {
      var before := steps[..|steps| - 1];
      RunConsistent(c, before);
      if RowAfter(c, RowRun(c, before), steps[|steps| - 1]).Ok? {
        StepConsistent(c, RowRun(c, before), steps[|steps| - 1]);
      }
    }
  }

  /** A priced row stays priced, whatever comes after. */
  lemma {:induction false} PricedStays(c: Context, steps: seq<RowStep>, more: seq<RowStep>)
    requires RowRun(c, steps).Some? && RowRun(c, steps).value.status == Priced
    ensures RowRun(c, steps + more).Some? && RowRun(c, steps + more).value.status == Priced
    decreases |more|
  {
    if more == [] {
      assert steps + more == steps;
    } else {
      var less, last := more[..|more| - 1], more[|more| - 1];
      assert (steps + more)[..|steps + more| - 1] == steps + less;
      PricedStays(c, steps, less);
      RunConsistent(c, steps + less);
      if RowAfter(c, RowRun(c, steps + less), last).Ok? {
        StepConsistent(c, RowRun(c, steps + less), last);
      }
    }
  }

  /** A consistent block of the context. */
  predicate Fits(c: Context, p: Pricing) {
    Consistent(p) && Carries(c, p)
  }

  /** The table of pricing blocks, by record. */
  class PricingTable {
    var rows: map<string, Pricing>

    constructor ()
      ensures rows == map[]
    {
      rows := map[];
    }

    /** Store one block: other rows stay, a priced row stays priced and the last price written stands,
        model and snapshot are set once, and a row of one context stays consistent. */
    method Write(id: string, written: Pricing)
      modifies this
      ensures rows == old(rows)[id := if id in old(rows) then Merged(old(rows)[id], written) else written]
      ensures forall other :: other in old(rows) && other != id ==> other in rows && rows[other] == old(rows)[other]
      ensures if id in old(rows) then Takes(old(rows)[id], written, rows[id]) else rows[id] == written
      ensures id in old(rows) && old(rows)[id].status == Priced ==> rows[id].status == Priced
      ensures written.status == Priced ==>
                rows[id].status == Priced && rows[id].cost == written.cost && rows[id].usage == written.usage
      ensures id in old(rows) && old(rows)[id].snapshot.Some? ==> rows[id].snapshot == old(rows)[id].snapshot
      ensures id in old(rows) && old(rows)[id].billingModel.Some? ==>
        rows[id].billingModel == old(rows)[id].billingModel
      ensures id in old(rows) && Consistent(old(rows)[id]) && Consistent(written) ==>
                (Consistent(rows[id]) <==> SamePrice(old(rows)[id], written))
      ensures forall c {:trigger Carries(c, written)} ::
        Fits(c, written) && (id in old(rows) ==> Fits(c, old(rows)[id])) ==> Fits(c, rows[id])
    {
      forall c | Fits(c, written) && (id in rows ==> Fits(c, rows[id]))
        ensures Fits(c, if id in rows then Merged(rows[id], written) else written)
      {
        if id in rows {
          MergedConsistent(c, rows[id], written);
        }
      }
      if id in rows {
        if Consistent(rows[id]) && Consistent(written) {
          MergedExactly(rows[id], written);
        }
        rows := rows[id := Merged(rows[id], written)];
      } else {
        rows := rows[id := written];
      }
    }

    /** Settle every row that is still pending; returns how many there were. */
    method MarkPendingPricingInterrupted() returns (changes: nat)
      modifies this
      ensures rows == map id | id in old(rows) :: Interrupted(old(rows)[id])
      ensures changes == |set id | id in old(rows) && old(rows)[id].status == Pending|
      ensures rows.Keys == old(rows).Keys && forall id :: id in rows ==> Settles(old(rows)[id], rows[id])
      ensures forall id :: id in rows ==> rows[id].status != Pending
    {
      var left := set id | id in rows && rows[id].status == Pending;
      changes := |left|;
      while left != {}
        invariant rows.Keys == old(rows).Keys
        invariant left <= rows.Keys
        invariant forall id :: id in rows ==>
          rows[id] == if id in left then old(rows)[id] else Interrupted(old(rows)[id])
        decreases left
      {
        var id :| id in left;
        rows := rows[id := Interrupted(rows[id])];
        left := left - {id};
      }
    }
  }
}
