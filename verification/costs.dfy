/**
 * `core/costs.py`: the price table and the cost estimate in cents.
 *
 * Prices and costs are Dafny `real`s; the floating-point rounding of the
 * Python arithmetic is not modelled.
 */
module Costs {

  /** Dollars per thousand prompt tokens and per thousand completion tokens. */
  datatype Price = Price(promptPer1k: real, completionPer1k: real)

  /** `PRICES`. */
  const Prices: map<string, Price> := map[
    "gpt-4o-mini" := Price(0.15, 0.60),
    "claude-3-haiku" := Price(0.25, 1.25),
    "gpt-4o" := Price(2.50, 10.00),
    "claude-3-opus" := Price(15.00, 75.00)
  ]

  /** `estimate_cost_cents`. A `Price` instance is always truthy in Python, so
      the zero result is reached only for a model that is not in the table. */
  function EstimateCostCents(model: string, promptTokens: int, outputTokens: int): (cents: real)
    ensures model !in Prices ==> cents == 0.0
    ensures model in Prices ==>
      cents * 10.0 == promptTokens as real * Prices[model].promptPer1k + outputTokens as real * Prices[model].completionPer1k
  {
    if model !in Prices then 0.0
    else
      var price := Prices[model];
      var dollars := (promptTokens as real / 1000.0) * price.promptPer1k + (outputTokens as real / 1000.0) * price.completionPer1k;
      dollars * 100.0
  }

  /** Every price in the table is positive. */
  lemma PricesArePositive(model: string)
    requires model in Prices
    ensures Prices[model].promptPer1k > 0.0 && Prices[model].completionPer1k > 0.0
  {
  }

  /** Using no tokens costs nothing, whatever the model. */
  lemma ZeroTokensCostNothing(model: string)
    ensures EstimateCostCents(model, 0, 0) == 0.0
  {
  }

  /** Non-negative token counts never give a negative cost. */
  lemma CostIsNonNegative(model: string, p: int, o: int)
    requires 0 <= p && 0 <= o
    ensures EstimateCostCents(model, p, o) >= 0.0
  {
    if model in Prices {
      PricesArePositive(model);
      var price := Prices[model];
      assert p as real * price.promptPer1k >= 0.0;
      assert o as real * price.completionPer1k >= 0.0;
    }
  }

  /** For a fixed model, more prompt tokens or more output tokens never cost less. */
  lemma CostIsMonotone(model: string, p: int, o: int, p2: int, o2: int)
    requires p <= p2 && o <= o2
    ensures EstimateCostCents(model, p, o) <= EstimateCostCents(model, p2, o2)
  {
    if model in Prices {
      PricesArePositive(model);
      var price := Prices[model];
      assert p as real * price.promptPer1k <= p2 as real * price.promptPer1k;
      assert o as real * price.completionPer1k <= o2 as real * price.completionPer1k;
    }
  }

  /** The cost of a model is additive in the token counts. */
  lemma CostIsAdditive(model: string, p: int, o: int, p2: int, o2: int)
    ensures EstimateCostCents(model, p + p2, o + o2) == EstimateCostCents(model, p, o) + EstimateCostCents(model, p2, o2)
  {
    if model in Prices {
      var price := Prices[model];
      assert (p + p2) as real * price.promptPer1k == p as real * price.promptPer1k + p2 as real * price.promptPer1k;
      assert (o + o2) as real * price.completionPer1k == o as real * price.completionPer1k + o2 as real * price.completionPer1k;
    }
  }

  /** For the same non-negative token counts the table orders the models
      gpt-4o-mini, claude-3-haiku, gpt-4o, claude-3-opus from cheapest up. */
  lemma CostOrder(p: int, o: int)
    requires 0 <= p && 0 <= o
    ensures EstimateCostCents("gpt-4o-mini", p, o) <= EstimateCostCents("claude-3-haiku", p, o)
    ensures EstimateCostCents("claude-3-haiku", p, o) <= EstimateCostCents("gpt-4o", p, o)
    ensures EstimateCostCents("gpt-4o", p, o) <= EstimateCostCents("claude-3-opus", p, o)
  {
    var pr, outr := p as real, o as real;
    assert pr * 0.15 <= pr * 0.25 <= pr * 2.50 <= pr * 15.00;
    assert outr * 0.60 <= outr * 1.25 <= outr * 10.00 <= outr * 75.00;
  }
}
