/**
  `analyze.estructural_params`: the long-run Taylor-rule coefficients recovered from the fitted
  short-run ones. The interest-rate smoothing coefficient is kept; every other coefficient is
  divided by one minus it. A regressor the model does not contain counts as 0.
*/
module Analytics {
  import opened Estimation

  /** `(alpha1, alpha2, alpha3, alpha4)`. */
  datatype Structural = Structural(alpha1: real, alpha2: real, alpha3: real, alpha4: real)

  /** `params.get(name, 0)`. */
  function CoefficientOr0(params: map<string, real>, name: string): (v: real)
    ensures name in params ==> v == params[name]
    ensures name !in params ==> v == 0.0
  {
    if name in params then params[name] else 0.0
  }

  /**
    `estructural_params`: reading the two required coefficients fails for a model without them,
    and the division is not guarded, so both are preconditions together with alpha1 != 1.
  */
  function StructuralParams(params: map<string, real>): (s: Structural)
    requires SelicLagColumn in params && InfDevColumn in params && params[SelicLagColumn] != 1.0
    ensures s.alpha1 == params[SelicLagColumn]
    ensures s.alpha2 * (1.0 - s.alpha1) == params[InfDevColumn]
    ensures s.alpha3 * (1.0 - s.alpha1) == CoefficientOr0(params, OutputGapLagColumn)
    ensures s.alpha4 * (1.0 - s.alpha1) == CoefficientOr0(params, ExchangeVarLagColumn)
    ensures OutputGapLagColumn !in params ==> s.alpha3 == 0.0
    ensures ExchangeVarLagColumn !in params ==> s.alpha4 == 0.0
  {
    var alpha1 := params[SelicLagColumn];
    DivideBack(params[InfDevColumn], 1.0 - alpha1);
    DivideBack(CoefficientOr0(params, OutputGapLagColumn), 1.0 - alpha1);
    DivideBack(CoefficientOr0(params, ExchangeVarLagColumn), 1.0 - alpha1);
    Structural(
      alpha1,
      params[InfDevColumn] / (1.0 - alpha1),
      CoefficientOr0(params, OutputGapLagColumn) / (1.0 - alpha1),
      CoefficientOr0(params, ExchangeVarLagColumn) / (1.0 - alpha1))
  }

  /** Dividing by a non-zero factor can be undone, and leaves 0 at 0. */
  lemma DivideBack(a: real, f: real)
    requires f != 0.0
    ensures (a / f) * f == a
    ensures a == 0.0 ==> a / f == 0.0
  {
  }

  /**
    The three long-run coefficients share the factor 1 / (1 - alpha1), so their ratios are those
    of the short-run coefficients.
  */
  lemma StructuralRatios(params: map<string, real>)
    requires SelicLagColumn in params && InfDevColumn in params && params[SelicLagColumn] != 1.0
    requires params[InfDevColumn] != 0.0
    ensures var s := StructuralParams(params);
      s.alpha2 != 0.0
      && s.alpha3 / s.alpha2 == CoefficientOr0(params, OutputGapLagColumn) / params[InfDevColumn]
      && s.alpha4 / s.alpha2 == CoefficientOr0(params, ExchangeVarLagColumn) / params[InfDevColumn]
  {
    var s := StructuralParams(params);
    var f := 1.0 - s.alpha1;
    var b := params[InfDevColumn];
    assert s.alpha2 == b / f;
    RatioOfQuotients(CoefficientOr0(params, OutputGapLagColumn), b, f);
    RatioOfQuotients(CoefficientOr0(params, ExchangeVarLagColumn), b, f);
  }

  lemma RatioOfQuotients(a: real, b: real, f: real)
    requires b != 0.0 && f != 0.0
    ensures b / f != 0.0 && (a / f) / (b / f) == a / b
  {
    assert (a / f) / (b / f) == (a / f) * (f / b);
  }

  /**
    For model I, whose regressors are the interest-rate lag and `inf_dev` only, the output-gap
    and exchange-rate responses come out as 0.
  */
  lemma ModelIResponses(params: map<string, real>)
    requires SelicLagColumn in params && InfDevColumn in params && params[SelicLagColumn] != 1.0
    requires forall k :: k in params ==> k == "Intercept" || Var(k) in NaiveSpecs()[0].regressors
    ensures StructuralParams(params).alpha3 == 0.0 && StructuralParams(params).alpha4 == 0.0
  {
    assert NaiveSpecs()[0].regressors == [Var(SelicLagColumn), Var(InfDevColumn)];
    NamesDistinct();
    assert OutputGapLagColumn != "Intercept" by { assert OutputGapLagColumn[0] == 'o'; }
    assert ExchangeVarLagColumn != "Intercept" by { assert ExchangeVarLagColumn[0] == 'e'; }
  }

  /** Smoothing 0.5 and an inflation coefficient 0.3 give a long-run inflation response of 0.6. */
  lemma StructuralExample()
    ensures var params := map[SelicLagColumn := 0.5, InfDevColumn := 0.3];
      StructuralParams(params) == Structural(0.5, 0.6, 0.0, 0.0)
  {
    NamesDistinct();
    assert OutputGapLagColumn != SelicLagColumn && OutputGapLagColumn != InfDevColumn;
  }
}
