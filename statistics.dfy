/**
 * The per-state significance summary of PlasmaSites.py:251-274: for each state, the
 * poverty universe of every county is spread over its plasma sites, and Welch's t-test
 * compares the counties' numbers in poverty with those shares, unless the state has no
 * share to compare. Python floats are modelled as reals.
 */
module Statistics {

  /** A county of the poverty table, with the number of plasma sites found in it. */
  datatype County = County(state: string, povertyUniverse: real, numberInPoverty: real, countOfSites: nat)

  /** What the significance test reports. */
  datatype TTest = TTest(pValue: real, statistic: real)

  /** `scipy.stats.ttest_ind(a, b, equal_var=False)`, left uninterpreted. */
  type WelchTest = (seq<real>, seq<real>) -> TTest

  /** The defaults `p_value = 1`, `tstat = 0` of a state whose test is skipped. */
  const NoTest: TTest := TTest(1.0, 0.0)

  /**
   * The `pop_per_site` of a county (PlasmaSites.py:255-256): zero for a county without
   * sites, otherwise the share of the poverty universe that falls to each site.
   */
  function PopPerSite(c: County): (r: real)
    ensures c.countOfSites == 0 ==> r == 0.0
    ensures c.countOfSites > 0 ==> r * (c.countOfSites as real) == c.povertyUniverse
  {
    if c.countOfSites == 0 then 0.0 else c.povertyUniverse / (c.countOfSites as real)
  }

  /** A county with sites and a non-negative universe has a non-negative share, positive when its universe is. */
  lemma PopPerSiteSign(c: County)
    requires c.povertyUniverse >= 0.0
    ensures PopPerSite(c) >= 0.0
    ensures PopPerSite(c) > 0.0 <==> c.countOfSites > 0 && c.povertyUniverse > 0.0
  {
  }

  /** The `pop_per_site` column of a state's counties. */
  function PopPerSites(cs: seq<County>): seq<real>
  {
    seq(|cs|, i requires 0 <= i < |cs| => PopPerSite(cs[i]))
  }

  /** The `Number in Poverty` column of a state's counties. */
  function NumbersInPoverty(cs: seq<County>): seq<real>
  {
    seq(|cs|, i requires 0 <= i < |cs| => cs[i].numberInPoverty)
  }

  /** The column sum, zero for no counties. */
  function Sum(xs: seq<real>): real
  {
    if xs == [] then 0.0 else Sum(xs[..|xs| - 1]) + xs[|xs| - 1]
  }

  /** A sum of non-negative values is positive exactly when one of them is. */
  lemma {:induction false} SumPositive(xs: seq<real>)
    requires forall i :: 0 <= i < |xs| ==> xs[i] >= 0.0
    ensures Sum(xs) >= 0.0
    ensures Sum(xs) > 0.0 <==> exists i :: 0 <= i < |xs| && xs[i] > 0.0
  {
    if xs != [] {
      var front := xs[..|xs| - 1];
      assert forall i :: 0 <= i < |front| ==> front[i] == xs[i];
      SumPositive(front);
    }
  }

  /**
   * The test of one state (PlasmaSites.py:257-266): run only when the `pop_per_site`
   * column sums to more than zero, otherwise the defaults.
   */
  function StateTest(cs: seq<County>, test: WelchTest): TTest
  {
    if Sum(PopPerSites(cs)) > 0.0 then test(NumbersInPoverty(cs), PopPerSites(cs)) else NoTest
  }

  /**
   * With non-negative poverty universes, a state gets its t-test exactly when one of its
   * counties has a site and people in its poverty universe; otherwise it keeps the
   * defaults p = 1 and statistic = 0.
   */
  lemma TestRunsOnlyWithPopulatedSite(cs: seq<County>, test: WelchTest)
    requires forall i :: 0 <= i < |cs| ==> cs[i].povertyUniverse >= 0.0
    ensures (exists i :: 0 <= i < |cs| && cs[i].countOfSites > 0 && cs[i].povertyUniverse > 0.0) ==>
      StateTest(cs, test) == test(NumbersInPoverty(cs), PopPerSites(cs))
    ensures (forall i :: 0 <= i < |cs| ==> cs[i].countOfSites == 0 || cs[i].povertyUniverse == 0.0) ==>
      StateTest(cs, test) == NoTest
  {
    var shares := PopPerSites(cs);
    forall i | 0 <= i < |cs|
      ensures shares[i] >= 0.0
      ensures shares[i] > 0.0 <==> cs[i].countOfSites > 0 && cs[i].povertyUniverse > 0.0
    {
      PopPerSiteSign(cs[i]);
    }
    SumPositive(shares);
  }

  /** A state none of whose counties has a site never gets a t-test, whatever the universes. */
  lemma {:induction false} NoSitesSkipsTest(cs: seq<County>, test: WelchTest)
    requires forall i :: 0 <= i < |cs| ==> cs[i].countOfSites == 0
    ensures StateTest(cs, test) == NoTest
  {
    SumOfZeros(PopPerSites(cs));
  }

  lemma {:induction false} SumOfZeros(xs: seq<real>)
    requires forall i :: 0 <= i < |xs| ==> xs[i] == 0.0
    ensures Sum(xs) == 0.0
  {
    if xs != [] {
      SumOfZeros(xs[..|xs| - 1]);
    }
  }

  /** The counties of one state, in table order: `county_master[county_master.State == state]`. */
  function CountiesOf(counties: seq<County>, state: string): (cs: seq<County>)
    ensures forall c :: c in cs <==> c in counties && c.state == state
  {
    if counties == [] then []
    else
      var front := CountiesOf(counties[..|counties| - 1], state);
      var c := counties[|counties| - 1];
      assert counties == counties[..|counties| - 1] + [c];
      if c.state == state then front + [c] else front
  }

  /**
   * The loop of PlasmaSites.py:252-271 filling `state_dict`: every state listed, and no
   * other, gets the test of its own counties.
   */
  method SummarizeStates(states: seq<string>, counties: seq<County>, test: WelchTest)
    returns (stateDict: map<string, TTest>)
    ensures forall s :: s in stateDict <==> s in states
    ensures forall s :: s in stateDict ==> stateDict[s] == StateTest(CountiesOf(counties, s), test)
  {
    stateDict := map[];
    for k := 0 to |states|
      invariant forall s :: s in stateDict <==> s in states[..k]
      invariant forall s :: s in stateDict ==> stateDict[s] == StateTest(CountiesOf(counties, s), test)
    {
      var stateFacts := CountiesOf(counties, states[k]);
      var shares := PopPerSites(stateFacts);
      var pValue, tstat := 1.0, 0.0;
      if Sum(shares) > 0.0 {
        var ttest := test(NumbersInPoverty(stateFacts), shares);
        pValue, tstat := ttest.pValue, ttest.statistic;
      }
      stateDict := stateDict[states[k] := TTest(pValue, tstat)];
      assert states[..k + 1] == states[..k] + [states[k]];
    }
    assert states[..|states|] == states;
  }

  /** One row of `state_master` with its two added columns. */
  datatype StateRow = StateRow(state: string, significance: real, direction: real)

  /** The `significance` and `direction` columns of PlasmaSites.py:273-274, read from `state_dict`. */
  function StateRows(states: seq<string>, stateDict: map<string, TTest>): (rows: seq<StateRow>)
    requires forall s :: s in states ==> s in stateDict
    ensures |rows| == |states|
    ensures forall i :: 0 <= i < |states| ==> rows[i].state == states[i]
    ensures forall i :: 0 <= i < |states| ==>
      rows[i].significance == stateDict[states[i]].pValue && rows[i].direction == stateDict[states[i]].statistic
  {
    seq(|states|, i requires 0 <= i < |states| => StateRow(states[i], stateDict[states[i]].pValue, stateDict[states[i]].statistic))
  }

  /**
   * In the summary built from a complete `state_dict`, a state none of whose counties has
   * both a site and people in its poverty universe has significance 1 and direction 0, and
   * a state with a site in a populated county carries the test's p-value and statistic.
   */
  lemma StateRowMeaning(states: seq<string>, counties: seq<County>, test: WelchTest, stateDict: map<string, TTest>, i: nat)
    requires forall s :: s in states ==> s in stateDict && stateDict[s] == StateTest(CountiesOf(counties, s), test)
    requires forall c :: c in counties ==> c.povertyUniverse >= 0.0
    requires i < |states|
    ensures var cs := CountiesOf(counties, states[i]);
      && ((forall c :: c in cs ==> c.countOfSites == 0 || c.povertyUniverse == 0.0) ==>
          StateRows(states, stateDict)[i] == StateRow(states[i], 1.0, 0.0))
      && ((exists c :: c in cs && c.countOfSites > 0 && c.povertyUniverse > 0.0) ==>
          var t := test(NumbersInPoverty(cs), PopPerSites(cs));
          StateRows(states, stateDict)[i] == StateRow(states[i], t.pValue, t.statistic))
  {
    var cs := CountiesOf(counties, states[i]);
    TestRunsOnlyWithPopulatedSite(cs, test);
  }
}
