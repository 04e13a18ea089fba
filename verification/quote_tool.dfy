/** streamlit_app.py: the lease quote for one vehicle in dealer stock: VIN
    match, tier, county tax, the offers for the vehicle's model and tier, the
    mileage-adjusted residual and the monthly payment for every offer and
    mileage. */
module QuoteTool {
  import opened Results
  import opened Seqs
  import opened Strings
  import opened Numerals
  import opened Rounding
  import opened Mileage

  /** A row of the dealer stock file, as far as the app reads it. */
  datatype Vehicle = Vehicle(vin: string, msrp: real, modelNumber: string)

  /** A row of the combined lease programs file, as far as the app reads it. */
  datatype Offer = Offer(modelNumber: string, tier: int, term: int, leaseCash: real, mf: real, residual: real)

  /** A row of the county tax reference file. */
  datatype County = County(name: string, taxRate: real)

  // ---------------------------------------------------------------------
  // Inputs
  // ---------------------------------------------------------------------

  /** `tier_map`: the credit tier labels offered and the tier numbers. */
  const TierMap: map<string, int> :=
    map["Tier 1" := 1, "Tier 2" := 2, "Tier 3" := 3, "Tier 4" := 4, "Tier 5" := 5]

  /** The label the tier selector shows for tier `k`. */
  function TierLabel(k: int): string
    requires 1 <= k <= 5
  {
    "Tier " + NatToString(k)
  }

  /** `tier_map` sends the label of tier `k` to `k`, and every label it knows
      is the label of its tier. */
  lemma TierMapRoundTrip()
    ensures forall k :: 1 <= k <= 5 ==> TierLabel(k) in TierMap && TierMap[TierLabel(k)] == k
    ensures forall l :: l in TierMap ==> 1 <= TierMap[l] <= 5 && TierLabel(TierMap[l]) == l
  {
    assert TierLabel(1) == "Tier 1" && TierLabel(2) == "Tier 2" && TierLabel(3) == "Tier 3";
    assert TierLabel(4) == "Tier 4" && TierLabel(5) == "Tier 5";
  }

  /** The vehicle whose VIN equals the stripped input, exactly (the
      comparison is case-sensitive); the first such row when there are
      several. */
  function MatchVin(stock: seq<Vehicle>, input: string): (r: Option<Vehicle>)
    ensures r.None? <==> forall i :: 0 <= i < |stock| ==> stock[i].vin != Strip(input)
    ensures r.Some? ==> r.value in stock && r.value.vin == Strip(input)
    ensures r.Some? ==> r.value == stock[IndexOfVin(stock, Strip(input))]
  {
    var key := Strip(input);
    var k := IndexOfVin(stock, key);
    if k < |stock| then Some(stock[k]) else None
  }

  /** Position of the first vehicle with VIN `vin`, or `|stock|`. */
  function IndexOfVin(stock: seq<Vehicle>, vin: string): (k: nat)
    ensures k <= |stock|
    ensures k < |stock| ==> stock[k].vin == vin
    ensures forall i :: 0 <= i < k ==> stock[i].vin != vin
  {
    match FirstFrom(stock, (v: Vehicle) => v.vin == vin, 0)
    case Some(k) => k
    case None => |stock|
  }

  /** A lower-case VIN does not find its upper-case row: the match does not
      fold case. */
  lemma VinMatchIsCaseSensitive()
    ensures MatchVin([Vehicle("KMH1", 30000.0, "F4S42")], " KMH1 ").Some?
    ensures MatchVin([Vehicle("KMH1", 30000.0, "F4S42")], "kmh1").None?
  {
    var s := " KMH1 ";
    assert LeadingSpaces(s) == 1;
    assert TrailingSpaces(s) == 1;
    assert Strip(s) == "KMH1";
    var t := "kmh1";
    assert NoSpaceAtEnds(t);
    assert Strip(t) != "KMH1" by {
      assert Strip(t)[0] == 'k';
    }
  }

  /** The tax rate of the county picked (the first row with that name). */
  function TaxRate(counties: seq<County>, name: string): (rate: real)
    requires exists i :: 0 <= i < |counties| && counties[i].name == name
    ensures exists i :: 0 <= i < |counties| && counties[i].name == name && counties[i].taxRate == rate &&
              forall j :: 0 <= j < i ==> counties[j].name != name
  {
    match FirstFrom(counties, (c: County) => c.name == name, 0)
    case Some(i) => counties[i].taxRate
    case None => assert false; 0.0
  }

  // ---------------------------------------------------------------------
  // Offers
  // ---------------------------------------------------------------------

  /** The two masks of the selection, and the single mask by both. */
  function OfModel(model: string): Offer -> bool {
    (o: Offer) => o.modelNumber == model
  }

  function OfTier(tier: int): Offer -> bool {
    (o: Offer) => o.tier == tier
  }

  function OfModelAndTier(model: string, tier: int): Offer -> bool {
    (o: Offer) => o.modelNumber == model && o.tier == tier
  }

  function SelectOffers(offers: seq<Offer>, model: string, tier: int): (r: seq<Offer>)
    ensures forall o :: o in r <==> o in offers && o.modelNumber == model && o.tier == tier
    ensures forall o :: multiset(r)[o] == if o.modelNumber == model && o.tier == tier then multiset(offers)[o] else 0
  {
    var byModel := OfModel(model);
    var byTier := OfTier(tier);
    var r := Filter(byTier, Filter(byModel, offers));
    assert forall o :: multiset(r)[o] == if o.modelNumber == model && o.tier == tier then multiset(offers)[o] else 0 by {
      forall o: Offer
        ensures multiset(r)[o] == if o.modelNumber == model && o.tier == tier then multiset(offers)[o] else 0
      {
        FilterMultiset(byTier, Filter(byModel, offers), o);
        FilterMultiset(byModel, offers, o);
      }
    }
    r
  }

  /** The selection keeps source order: the offers selected from two files
      read one after the other are those of the first, then those of the
      second. */
  lemma SelectOffersOrder(a: seq<Offer>, b: seq<Offer>, model: string, tier: int)
    ensures SelectOffers(a + b, model, tier) == SelectOffers(a, model, tier) + SelectOffers(b, model, tier)
  {
    var byModel := OfModel(model);
    var byTier := OfTier(tier);
    FilterAppend(byModel, a, b);
    FilterAppend(byTier, Filter(byModel, a), Filter(byModel, b));
  }

  /** The two successive masks pick the offers one mask would pick by model
      number and tier together, in the same order. */
  lemma SelectOffersOneFilter(offers: seq<Offer>, model: string, tier: int)
    ensures SelectOffers(offers, model, tier) == Filter(OfModelAndTier(model, tier), offers)
  {
    var byModel := OfModel(model);
    var byTier := OfTier(tier);
    FilterFilter(byModel, byTier, offers);
    FilterSameTest(Both(byModel, byTier), OfModelAndTier(model, tier), offers);
  }

  // ---------------------------------------------------------------------
  // Residual
  // ---------------------------------------------------------------------

  /** Some selected offer has a term in the 33 to 48 month band. */
  predicate AnyMidTerm(offers: seq<Offer>) {
    exists i :: 0 <= i < |offers| && MidTerm(offers[i].term)
  }

  /** `calculate_residual` as written: the low-mileage bonus is granted when
      ANY of the selected offers has a 33 to 48 month term, whatever the
      term of the offer being priced. */
  function ResidualAsWritten(offers: seq<Offer>, pct: real, msrp: real, miles: int): (r: real)
    ensures OnCents(r)
  {
    Round2(msrp * AdjustedRate(pct, AnyMidTerm(offers), miles))
  }

  /** The residual of an offer: MSRP times the residual fraction adjusted for
      the offer's own term and the mileage, to the cent. */
  function Residual(term: int, pct: real, msrp: real, miles: int): (r: real)
    ensures OnCents(r)
    ensures -0.005 <= r - msrp * AdjustedRate(pct, MidTerm(term), miles) <= 0.005
  {
    Round2(msrp * AdjustedRate(pct, MidTerm(term), miles))
  }

  lemma ResidualRate(term: int, pct: real, msrp: real, miles: int)
    ensures Residual(term, pct, msrp, miles) == Round2(msrp * AdjustedRate(pct, MidTerm(term), miles))
  {
  }

  /** The residual is the MSRP times the adjusted fraction `rate`, rounded. */
  lemma ResidualAt(term: int, pct: real, msrp: real, miles: int, rate: real)
    requires AdjustedRate(pct, MidTerm(term), miles) == rate
    ensures Residual(term, pct, msrp, miles) == Round2(msrp * rate)
  {
    ResidualRate(term, pct, msrp, miles);
    Round2Congruent(msrp * AdjustedRate(pct, MidTerm(term), miles), msrp * rate);
  }

  /** The code as written and the intended rule agree exactly when the other
      offers do not change the answer to "is the term in the band". */
  lemma ResidualAsWrittenAgrees(offers: seq<Offer>, term: int, pct: real, msrp: real, miles: int)
    requires AnyMidTerm(offers) == MidTerm(term) || miles != 10000
    ensures ResidualAsWritten(offers, pct, msrp, miles) == Residual(term, pct, msrp, miles)
  {
    assert AdjustedRate(pct, MidTerm(term), miles) == AdjustedRate(pct, AnyMidTerm(offers), miles);
    SameRateSameResidual(offers, term, pct, msrp, miles);
  }

  lemma SameRateSameResidual(offers: seq<Offer>, term: int, pct: real, msrp: real, miles: int)
    requires AdjustedRate(pct, MidTerm(term), miles) == AdjustedRate(pct, AnyMidTerm(offers), miles)
    ensures ResidualAsWritten(offers, pct, msrp, miles) == Residual(term, pct, msrp, miles)
  {
    ResidualAt(term, pct, msrp, miles, AdjustedRate(pct, AnyMidTerm(offers), miles));
    ResidualAsWrittenRate(offers, pct, msrp, miles);
  }

  lemma ResidualAsWrittenRate(offers: seq<Offer>, pct: real, msrp: real, miles: int)
    ensures ResidualAsWritten(offers, pct, msrp, miles) == Round2(msrp * AdjustedRate(pct, AnyMidTerm(offers), miles))
  {
  }

  /** A 24-month offer priced alongside a 36-month one gets the bonus it
      should not: 18,300 instead of 18,000 on a 30,000 MSRP at 60%. */
  lemma ResidualAsWrittenCounterexample()
    ensures var offers := [Offer("F4S42", 1, 24, 0.0, 0.002, 0.6), Offer("F4S42", 1, 36, 0.0, 0.002, 0.6)];
      ResidualAsWritten(offers, 0.6, 30000.0, 10000) == 18300.0 &&
      Residual(24, 0.6, 30000.0, 10000) == 18000.0
  {
    var offers := [Offer("F4S42", 1, 24, 0.0, 0.002, 0.6), Offer("F4S42", 1, 36, 0.0, 0.002, 0.6)];
    assert MidTerm(offers[1].term);
    assert (18300.0 * 100.0).Floor as real == 18300.0 * 100.0;
    assert (18000.0 * 100.0).Floor as real == 18000.0 * 100.0;
  }

  // ---------------------------------------------------------------------
  // Payment
  // ---------------------------------------------------------------------

  /** The money factor markup the toggle adds. */
  const Markup: real := 0.0004

  /** The fee added to the capitalised cost. */
  const AcquisitionFee: real := 962.50

  /** The two toggles of one scenario. */
  datatype Toggles = Toggles(rebate: bool, markup: bool)

  /** The figures of one scenario. */
  datatype Quote = Quote(mf: real, rebate: real, residual: real, capCost: real, depreciation: real,
                         basePayment: real, rent: real, pretax: real, withTax: real)

  /** The payment block for one offer and residual; `None` where the term is
      0 and the payment has no real value. */
  function Price(offer: Offer, residual: real, sellingPrice: real, taxRate: real, t: Toggles): (r: Option<Quote>)
    ensures r.None? <==> offer.term == 0
    ensures r.Some? ==> r.value.depreciation + r.value.residual == r.value.capCost
    ensures r.Some? ==> r.value.basePayment * offer.term as real == r.value.depreciation
    ensures r.Some? ==> r.value.pretax == r.value.basePayment + r.value.rent
    ensures r.Some? ==> r.value.withTax == r.value.pretax + r.value.pretax * taxRate
  {
    if offer.term == 0 then None
    else
      var mf := offer.mf + (if t.markup then Markup else 0.0);
      var rebate := if t.rebate then offer.leaseCash else 0.0;
      var capCost := sellingPrice - rebate + AcquisitionFee;
      var depreciation := capCost - residual;
      var basePayment := depreciation / offer.term as real;
      var rent := (capCost + residual) * mf;
      var pretax := basePayment + rent;
      Some(Quote(mf, rebate, residual, capCost, depreciation, basePayment, rent, pretax, pretax * (1.0 + taxRate)))
  }

  /** The markup toggle adds exactly 0.0004 to the money factor; off, the
      money factor is the offer's. */
  lemma MarkupExact(offer: Offer, residual: real, sellingPrice: real, taxRate: real, rebate: bool)
    requires offer.term != 0
    ensures Price(offer, residual, sellingPrice, taxRate, Toggles(rebate, false)).value.mf == offer.mf
    ensures Price(offer, residual, sellingPrice, taxRate, Toggles(rebate, true)).value.mf == offer.mf + 0.0004
  {
  }

  /** Without the rebate the capitalised cost is the selling price plus the
      fee; the rebate lowers it by exactly the offer's lease cash. */
  lemma RebateExact(offer: Offer, residual: real, sellingPrice: real, taxRate: real, markup: bool)
    requires offer.term != 0
    ensures Price(offer, residual, sellingPrice, taxRate, Toggles(false, markup)).value.capCost == sellingPrice + 962.50
    ensures Price(offer, residual, sellingPrice, taxRate, Toggles(true, markup)).value.capCost ==
            Price(offer, residual, sellingPrice, taxRate, Toggles(false, markup)).value.capCost - offer.leaseCash
  {
  }

  /** The monthly payment, as one formula: depreciation spread over the term
      plus rent, taxed. With no tax it is the pre-tax payment. */
  lemma PaymentFormula(offer: Offer, residual: real, sellingPrice: real, taxRate: real, t: Toggles)
    requires offer.term != 0
    ensures var q := Price(offer, residual, sellingPrice, taxRate, t).value;
      q.withTax == ((q.capCost - residual) / offer.term as real + (q.capCost + residual) * q.mf) * (1.0 + taxRate)
    ensures taxRate == 0.0 ==> Price(offer, residual, sellingPrice, taxRate, t).value.withTax ==
                               Price(offer, residual, sellingPrice, taxRate, t).value.pretax
  {
  }

  /** Taking the rebate lowers the taxed payment by exactly the lease cash
      times (1/term + money factor), taxed. */
  lemma RebateSaving(offer: Offer, residual: real, sellingPrice: real, taxRate: real, markup: bool)
    requires offer.term != 0
    ensures var off := Price(offer, residual, sellingPrice, taxRate, Toggles(false, markup)).value;
      var on := Price(offer, residual, sellingPrice, taxRate, Toggles(true, markup)).value;
      off.withTax - on.withTax ==
        offer.leaseCash * (1.0 / offer.term as real + off.mf) * (1.0 + taxRate)
  {
    var off := Price(offer, residual, sellingPrice, taxRate, Toggles(false, markup)).value;
    var on := Price(offer, residual, sellingPrice, taxRate, Toggles(true, markup)).value;
    PretaxShift(off.capCost, on.capCost, residual, offer.term as real, off.mf);
    TaxedShift(off.pretax, on.pretax, taxRate);
  }

  /** Moving the capitalised cost from `c2` to `c1` moves the pre-tax
      payment by (c1 - c2) times (1/n + mf). */
  lemma PretaxShift(c1: real, c2: real, residual: real, n: real, mf: real)
    requires n != 0.0
    ensures ((c1 - residual) / n + (c1 + residual) * mf) - ((c2 - residual) / n + (c2 + residual) * mf) ==
            (c1 - c2) * (1.0 / n + mf)
  {
    var d := c1 - c2;
    assert (c1 - residual) / n - (c2 - residual) / n == d / n;
    assert (c1 + residual) * mf - (c2 + residual) * mf == d * mf;
    assert d / n == d * (1.0 / n);
  }

  lemma TaxedShift(a: real, b: real, taxRate: real)
    ensures a * (1.0 + taxRate) - b * (1.0 + taxRate) == (a - b) * (1.0 + taxRate)
  {
  }

  /** A higher selling price never lowers the payment when the money factor,
      the term and the tax rate are not negative. */
  lemma PaymentMonotone(offer: Offer, residual: real, p1: real, p2: real, taxRate: real, t: Toggles)
    requires offer.term > 0 && offer.mf >= 0.0 && taxRate >= 0.0 && p1 <= p2
    ensures Price(offer, residual, p1, taxRate, t).value.withTax <= Price(offer, residual, p2, taxRate, t).value.withTax
  {
    var q1 := Price(offer, residual, p1, taxRate, t).value;
    var q2 := Price(offer, residual, p2, taxRate, t).value;
    var n := offer.term as real;
    PretaxShift(q2.capCost, q1.capCost, residual, n, q1.mf);
    assert q2.capCost - q1.capCost == p2 - p1;
    NonNegativeProduct(p2 - p1, 1.0 / n + q1.mf);
    TaxedShift(q2.pretax, q1.pretax, taxRate);
    NonNegativeProduct(q2.pretax - q1.pretax, 1.0 + taxRate);
  }

  lemma NonNegativeProduct(a: real, b: real)
    requires a >= 0.0 && b >= 0.0
    ensures a * b >= 0.0
  {
  }

  // ---------------------------------------------------------------------
  // Scenarios and the page
  // ---------------------------------------------------------------------

  /** One line of the page: an offer's term, a mileage and the figures. */
  datatype Scenario = Scenario(term: int, miles: int, quote: Quote)

  /** Which mileage rule prices the residual: the app's (the band test over
      all selected offers) or the intended one (the offer's own term). */
  datatype ResidualRule = AsWritten | Intended

  /** The residual of offer `o`, one of the selected `offers`, under `rule`. */
  function OfferResidual(rule: ResidualRule, offers: seq<Offer>, o: Offer, msrp: real, miles: int): (r: real)
    ensures OnCents(r)
    ensures (AnyMidTerm(offers) == MidTerm(o.term) || miles != 10000) ==>
              r == Residual(o.term, o.residual, msrp, miles)
  {
    match rule
    case AsWritten =>
      if AnyMidTerm(offers) == MidTerm(o.term) || miles != 10000 then
        ResidualAsWrittenAgrees(offers, o.term, o.residual, msrp, miles);
        ResidualAsWritten(offers, o.residual, msrp, miles)
      else ResidualAsWritten(offers, o.residual, msrp, miles)
    case Intended => Residual(o.term, o.residual, msrp, miles)
  }

  /** The figures for offer `o` at `miles` a year with the given residual;
      `Err` where the term is 0. */
  function ScenarioFor(o: Offer, miles: int, residual: real, sellingPrice: real, taxRate: real, t: Toggles): (r: Result<Scenario, string>)
    ensures r.Err? <==> o.term == 0
    ensures r.Ok? ==> r.value.term == o.term && r.value.miles == miles
    ensures r.Ok? ==> r.value.quote.residual == residual
    ensures r.Ok? ==> Price(o, residual, sellingPrice, taxRate, t) == Some(r.value.quote)
  {
    match Price(o, residual, sellingPrice, taxRate, t)
    case None => Err("no payment for a zero term")
    case Some(q) => Ok(Scenario(o.term, miles, q))
  }

  /** Offer `i` has the term of an offer before it, so its toggles' keys
      (built from the term and the mileage) are taken already. */
  predicate RepeatsTerm(offers: seq<Offer>, i: nat)
    requires i < |offers|
  {
    exists j :: 0 <= j < i && offers[j].term == offers[i].term
  }

  /** No two offers have the same term. */
  predicate DistinctTerms(offers: seq<Offer>) {
    forall i, j :: 0 <= j < i < |offers| ==> offers[j].term != offers[i].term
  }

  /** The scenario at position `n` of the page: offer `n / 3`, mileage
      option `n % 3`; a toggle whose key is taken stops the page. */
  function ScenarioAt(rule: ResidualRule, offers: seq<Offer>, n: nat, msrp: real, sellingPrice: real, taxRate: real,
                      toggles: (int, int) -> Toggles): (r: Result<Scenario, string>)
    requires n < 3 * |offers|
    ensures r.Err? <==> offers[n / 3].term == 0 || RepeatsTerm(offers, n / 3)
    ensures r.Ok? ==> var o, miles := offers[n / 3], MilesOptions[n % 3];
              r.value.term == o.term && r.value.miles == miles &&
              Price(o, OfferResidual(rule, offers, o, msrp, miles), sellingPrice, taxRate, toggles(o.term, miles)) == Some(r.value.quote)
  {
    var o := offers[n / 3];
    var miles := MilesOptions[n % 3];
    if RepeatsTerm(offers, n / 3) then Err("duplicate widget key")
    else ScenarioFor(o, miles, OfferResidual(rule, offers, o, msrp, miles), sellingPrice, taxRate, toggles(o.term, miles))
  }

  /** Each position of the page, in order, before the first stop. */
  function Lines(rule: ResidualRule, offers: seq<Offer>, msrp: real, sellingPrice: real, taxRate: real,
                 toggles: (int, int) -> Toggles): (r: seq<Result<Scenario, string>>)
    ensures |r| == 3 * |offers|
  {
    seq(3 * |offers|, n requires 0 <= n < 3 * |offers| => ScenarioAt(rule, offers, n, msrp, sellingPrice, taxRate, toggles))
  }

  /** Every offer in order, each at 10,000, 12,000 and 15,000 miles; the
      toggles are looked up by term and mileage, as their widget keys are.
      A zero term, or two offers with one term, stops the page. */
  function Scenarios(rule: ResidualRule, offers: seq<Offer>, msrp: real, sellingPrice: real, taxRate: real,
                     toggles: (int, int) -> Toggles): (r: Result<seq<Scenario>, string>)
    ensures r.Ok? <==> DistinctTerms(offers) && forall i :: 0 <= i < |offers| ==> offers[i].term != 0
    ensures r.Ok? ==> |r.value| == 3 * |offers|
    ensures r.Ok? ==> forall n :: 0 <= n < |r.value| ==>
                        r.value[n].term == offers[n / 3].term && r.value[n].miles == MilesOptions[n % 3]
  {
    var each := Lines(rule, offers, msrp, sellingPrice, taxRate, toggles);
    var r := AllOk(each);
    assert r.Ok? <==> DistinctTerms(offers) && forall i :: 0 <= i < |offers| ==> offers[i].term != 0 by {
      if r.Ok? {
        forall i | 0 <= i < |offers|
          ensures offers[i].term != 0 && !RepeatsTerm(offers, i)
        {
          assert each[3 * i].Ok?;
        }
      } else {
        var n :| 0 <= n < |each| && each[n].Err?;
        var i := n / 3;
        if offers[i].term != 0 {
          var j :| 0 <= j < i && offers[j].term == offers[i].term;
        }
      }
    }
    r
  }

  /** Every offer gets its three lines: the line for offer `i` at mileage
      option `j` sits at position 3i + j. */
  lemma ScenarioPosition(rule: ResidualRule, offers: seq<Offer>, msrp: real, sellingPrice: real, taxRate: real,
                         toggles: (int, int) -> Toggles, i: nat, j: nat)
    requires Scenarios(rule, offers, msrp, sellingPrice, taxRate, toggles).Ok?
    requires i < |offers| && j < 3
    ensures var s := Scenarios(rule, offers, msrp, sellingPrice, taxRate, toggles).value[3 * i + j];
      s.term == offers[i].term && s.miles == MilesOptions[j] &&
      s.quote.residual == OfferResidual(rule, offers, offers[i], msrp, MilesOptions[j]) &&
      Price(offers[i], OfferResidual(rule, offers, offers[i], msrp, MilesOptions[j]), sellingPrice, taxRate,
            toggles(offers[i].term, MilesOptions[j])) == Some(s.quote)
  {
    var n := 3 * i + j;
    assert n / 3 == i && n % 3 == j;
  }

  /** Every selected offer is on the same side of the 33 to 48 month band:
      then "some offer is in the band" answers the question for each. */
  predicate OneSideOfBand(offers: seq<Offer>) {
    forall i :: 0 <= i < |offers| ==> MidTerm(offers[i].term) == AnyMidTerm(offers)
  }

  /** When the selected offers are all on one side of the band, the app's
      residual rule and the intended one give the same page lines. */
  lemma ScenariosRulesAgree(offers: seq<Offer>, msrp: real, sellingPrice: real, taxRate: real,
                            toggles: (int, int) -> Toggles)
    requires OneSideOfBand(offers)
    ensures Scenarios(AsWritten, offers, msrp, sellingPrice, taxRate, toggles) ==
            Scenarios(Intended, offers, msrp, sellingPrice, taxRate, toggles)
  {
    var a := Lines(AsWritten, offers, msrp, sellingPrice, taxRate, toggles);
    var b := Lines(Intended, offers, msrp, sellingPrice, taxRate, toggles);
    forall n | 0 <= n < |a|
      ensures a[n] == b[n]
    {
      var o := offers[n / 3];
      assert MidTerm(o.term) == AnyMidTerm(offers);
    }
    assert a == b;
  }

  /** What the page shows; `Crashed` is a page whose scenario list stops
      part-way. */
  datatype Page =
    | VinNotFound
    | NoOffers(vehicle: Vehicle)
    | Crashed(vehicle: Vehicle)
    | Shown(vehicle: Vehicle, scenarios: seq<Scenario>)

  /** Offer `o` is one of the programs for the vehicle's model and the tier. */
  predicate Eligible(o: Offer, programs: seq<Offer>, v: Vehicle, tier: int) {
    o in programs && o.modelNumber == v.modelNumber && o.tier == tier
  }

  /** The app, from the VIN typed to the scenarios. The tier label and the
      county are picked from lists, so they are known; the selling price
      defaults to the MSRP. */
  function QuotePage(rule: ResidualRule, stock: seq<Vehicle>, programs: seq<Offer>, counties: seq<County>, vinInput: string,
                     tierLabel: string, countyName: string, sellingPrice: Option<real>,
                     toggles: (int, int) -> Toggles): (r: Page)
    requires tierLabel in TierMap
    requires exists i :: 0 <= i < |counties| && counties[i].name == countyName
    ensures r.VinNotFound? <==> MatchVin(stock, vinInput).None?
    ensures !r.VinNotFound? ==> r.vehicle == MatchVin(stock, vinInput).value
    ensures r.NoOffers? <==> !r.VinNotFound? && SelectOffers(programs, r.vehicle.modelNumber, TierMap[tierLabel]) == []
    ensures r.Shown? ==> Scenarios(rule, SelectOffers(programs, r.vehicle.modelNumber, TierMap[tierLabel]),
                                   r.vehicle.msrp, PriceOf(sellingPrice, r.vehicle),
                                   TaxRate(counties, countyName), toggles) == Ok(r.scenarios)
    ensures r.Crashed? ==> Scenarios(rule, SelectOffers(programs, r.vehicle.modelNumber, TierMap[tierLabel]),
                                     r.vehicle.msrp, PriceOf(sellingPrice, r.vehicle),
                                     TaxRate(counties, countyName), toggles).Err?
  {
    match MatchVin(stock, vinInput)
    case None => VinNotFound
    case Some(v) =>
      var offers := SelectOffers(programs, v.modelNumber, TierMap[tierLabel]);
      if offers == [] then NoOffers(v)
      else match Scenarios(rule, offers, v.msrp, PriceOf(sellingPrice, v), TaxRate(counties, countyName), toggles)
        case Err(_) => Crashed(v)
        case Ok(rows) => Shown(v, rows)
  }

  /** The app's page and the intended one are the same whenever the offers
      selected for the vehicle found are all on one side of the band. */
  lemma QuotePageRulesAgree(stock: seq<Vehicle>, programs: seq<Offer>, counties: seq<County>, vinInput: string,
                            tierLabel: string, countyName: string, sellingPrice: Option<real>,
                            toggles: (int, int) -> Toggles)
    requires tierLabel in TierMap
    requires exists i :: 0 <= i < |counties| && counties[i].name == countyName
    requires MatchVin(stock, vinInput).Some? ==>
               OneSideOfBand(SelectOffers(programs, MatchVin(stock, vinInput).value.modelNumber, TierMap[tierLabel]))
    ensures QuotePage(AsWritten, stock, programs, counties, vinInput, tierLabel, countyName, sellingPrice, toggles) ==
            QuotePage(Intended, stock, programs, counties, vinInput, tierLabel, countyName, sellingPrice, toggles)
  {
    match MatchVin(stock, vinInput)
    case None =>
    case Some(v) =>
      ScenariosRulesAgree(SelectOffers(programs, v.modelNumber, TierMap[tierLabel]), v.msrp,
                          PriceOf(sellingPrice, v), TaxRate(counties, countyName), toggles);
  }

  /** The selling price entered, or the MSRP by default. */
  function PriceOf(sellingPrice: Option<real>, v: Vehicle): real {
    match sellingPrice
    case Some(p) => p
    case None => v.msrp
  }

  /** A page that stops has an eligible program with a zero term or two
      selected offers with one term; a page shown lists three lines per selected offer, each for
      an eligible offer's term. */
  lemma QuotePageOffers(rule: ResidualRule, stock: seq<Vehicle>, programs: seq<Offer>, counties: seq<County>, vinInput: string,
                        tierLabel: string, countyName: string, sellingPrice: Option<real>,
                        toggles: (int, int) -> Toggles)
    requires tierLabel in TierMap
    requires exists i :: 0 <= i < |counties| && counties[i].name == countyName
    ensures var r := QuotePage(rule, stock, programs, counties, vinInput, tierLabel, countyName, sellingPrice, toggles);
      r.Crashed? ==> (exists o :: Eligible(o, programs, r.vehicle, TierMap[tierLabel]) && o.term == 0) ||
                     !DistinctTerms(SelectOffers(programs, r.vehicle.modelNumber, TierMap[tierLabel]))
    ensures var r := QuotePage(rule, stock, programs, counties, vinInput, tierLabel, countyName, sellingPrice, toggles);
      r.Shown? ==> |r.scenarios| == 3 * |SelectOffers(programs, r.vehicle.modelNumber, TierMap[tierLabel])| > 0 &&
                   forall n :: 0 <= n < |r.scenarios| ==>
                     exists o :: Eligible(o, programs, r.vehicle, TierMap[tierLabel]) && o.term == r.scenarios[n].term
  {
    var r := QuotePage(rule, stock, programs, counties, vinInput, tierLabel, countyName, sellingPrice, toggles);
    if r.Crashed? || r.Shown? {
      ScenarioOffers(rule, programs, r.vehicle, TierMap[tierLabel], r.vehicle.msrp, PriceOf(sellingPrice, r.vehicle),
                     TaxRate(counties, countyName), toggles);
    }
  }

  /** The scenarios of the offers selected for a vehicle and tier: what stops
      them is an eligible program with a zero term or two selected offers
      with one term, and every line shown is for an eligible program's
      term. */
  lemma ScenarioOffers(rule: ResidualRule, programs: seq<Offer>, v: Vehicle, tier: int, msrp: real, price: real, taxRate: real,
                       toggles: (int, int) -> Toggles)
    ensures var offers := SelectOffers(programs, v.modelNumber, tier);
      Scenarios(rule, offers, msrp, price, taxRate, toggles).Err? ==>
        (exists o :: Eligible(o, programs, v, tier) && o.term == 0) || !DistinctTerms(offers)
    ensures var offers := SelectOffers(programs, v.modelNumber, tier);
      var rows := Scenarios(rule, offers, msrp, price, taxRate, toggles);
      rows.Ok? ==> |rows.value| == 3 * |offers| &&
                   forall n :: 0 <= n < |rows.value| ==>
                     exists o :: Eligible(o, programs, v, tier) && o.term == rows.value[n].term
  {
    var offers := SelectOffers(programs, v.modelNumber, tier);
    var rows := Scenarios(rule, offers, msrp, price, taxRate, toggles);
    if rows.Err? {
      if DistinctTerms(offers) {
        var i :| 0 <= i < |offers| && offers[i].term == 0;
        assert Eligible(offers[i], programs, v, tier);
      }
    } else {
      forall n | 0 <= n < |rows.value|
        ensures exists o :: Eligible(o, programs, v, tier) && o.term == rows.value[n].term
      {
        assert Eligible(offers[n / 3], programs, v, tier);
      }
    }
  }
}
