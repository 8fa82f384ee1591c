/**
 * The county enrichment of PlasmaSites.py:169-200: a facility's ZIP is cut to its first
 * five characters, every distinct (county, state) pair of the poverty table gets an id in
 * order of first appearance, and a facility's county id is looked up by its own pair.
 * Counties and states are taken as already upper-cased.
 */
module Enrichment {
  import opened Wrappers

  // ---------------------------------------------------------------------------------
  // ZIP truncation (PlasmaSites.py:169)
  // ---------------------------------------------------------------------------------

  /** The slice `zip[:5]`: the whole string when it is shorter than five characters. */
  function Truncate5(zip: string): (r: string)
    ensures |r| == if |zip| < 5 then |zip| else 5
    ensures r <= zip
  {
    if |zip| < 5 then zip else zip[..5]
  }

  /** The exception `r[:5]` raises on a missing ZIP, which pandas holds as the float NaN. */
  datatype ZipError = NotSubscriptable

  /**
   * Line 169 as written: a facility whose ZIP the detail search did not find has no ZIP
   * in the reloaded frame, and slicing that missing value raises.
   */
  function ZipSimpleAsWritten(zip: Option<string>): (r: Result<string, ZipError>)
    ensures r.Failure? <==> zip.None?
    ensures r.Success? ==> r.value <= zip.value && |r.value| == if |zip.value| < 5 then |zip.value| else 5
  {
    match zip
    case None => Failure(NotSubscriptable)
    case Some(z) => Success(Truncate5(z))
  }

  /** A facility without a ZIP stops the whole `apply` of line 169. */
  lemma MissingZipRaises()
    ensures ZipSimpleAsWritten(None) == Failure(NotSubscriptable)
    ensures forall z: string :: ZipSimpleAsWritten(Some(z)).Success?
  {
  }

  /**
   * The ZIP truncation as evidently intended: a present ZIP is cut to its first five
   * characters, a missing one stays missing (and so matches no ZIP in the later merge).
   */
  function ZipSimple(zip: Option<string>): (r: Option<string>)
    ensures r.None? <==> zip.None?
    ensures zip.Some? ==> r.value <= zip.value && |r.value| == if |zip.value| < 5 then |zip.value| else 5
  {
    match zip
    case None => None
    case Some(z) => Some(Truncate5(z))
  }

  /**
   * The corrected truncation agrees with the written one wherever that one does not
   * raise, and truncating twice is truncating once.
   */
  lemma ZipSimpleCorrectsAsWritten(zip: Option<string>)
    ensures ZipSimpleAsWritten(zip).Success? ==> ZipSimple(zip) == Some(ZipSimpleAsWritten(zip).value)
    ensures ZipSimple(ZipSimple(zip)) == ZipSimple(zip)
  {
    if zip.Some? {
      var r := Truncate5(zip.value);
      assert Truncate5(r) == r;
    }
  }

  // ---------------------------------------------------------------------------------
  // County ids (PlasmaSites.py:179-191)
  // ---------------------------------------------------------------------------------

  /** One row of the poverty table, reduced to its upper-cased county and state. */
  datatype PovertyRow = PovertyRow(county: string, state: string)

  /** The dictionary key `county + ',' + state`. */
  function Key(county: string, state: string): (k: string)
    ensures |k| == |county| + 1 + |state| && k[|county|] == ','
  {
    county + "," + state
  }

  /** In a key whose state has no comma, the comma after the county is the last one. */
  lemma LastComma(county: string, state: string)
    requires ',' !in state
    ensures Key(county, state)[|county|] == ','
    ensures forall p :: |county| <= p < |Key(county, state)| && Key(county, state)[p] == ',' ==> p == |county|
  {
    var k := Key(county, state);
    forall p | |county| < p < |k| ensures k[p] == state[p - |county| - 1] {
    }
  }

  /** A key names a single (county, state) pair as long as state names contain no comma. */
  lemma KeyInjective(c1: string, s1: string, c2: string, s2: string)
    requires ',' !in s1 && ',' !in s2
    requires Key(c1, s1) == Key(c2, s2)
    ensures c1 == c2 && s1 == s2
  {
    var k := Key(c1, s1);
    LastComma(c1, s1);
    LastComma(c2, s2);
    assert |c1| == |c2|;
    assert c1 == k[..|c1|] == c2;
    assert s1 == k[|c1| + 1..] == s2;
  }

  /** The key of every row, in table order. */
  function Keys(rows: seq<PovertyRow>): seq<string>
  {
    seq(|rows|, i requires 0 <= i < |rows| => Key(rows[i].county, rows[i].state))
  }

  /** The distinct keys, each once, in order of first appearance. */
  function Distinct(keys: seq<string>): (d: seq<string>)
    ensures |d| <= |keys|
  {
    if keys == [] then []
    else
      var d := Distinct(keys[..|keys| - 1]);
      if keys[|keys| - 1] in d then d else d + [keys[|keys| - 1]]
  }

  /** No key occurs twice. */
  predicate Unique(keys: seq<string>)
  {
    forall i, j :: 0 <= i < j < |keys| ==> keys[i] != keys[j]
  }

  /** The distinct keys are exactly the keys of the table. */
  lemma {:induction false} DistinctSameKeys(keys: seq<string>)
    ensures forall k :: k in Distinct(keys) <==> k in keys
  {
    if keys != [] {
      var front := keys[..|keys| - 1];
      DistinctSameKeys(front);
      assert keys == front + [keys[|keys| - 1]];
    }
  }

  /** Appending a key keeps a sequence free of repeats exactly when the key is new. */
  lemma UniqueSnoc(front: seq<string>, last: string)
    ensures Unique(front + [last]) <==> Unique(front) && last !in front
  {
    var keys := front + [last];
    assert forall i :: 0 <= i < |front| ==> keys[i] == front[i];
    assert keys[|front|] == last;
    if Unique(front) && last !in front {
      forall i, j | 0 <= i < j < |keys| ensures keys[i] != keys[j] {
        if j < |front| {
          assert keys[i] == front[i] && keys[j] == front[j];
        } else {
          assert keys[i] == front[i] && keys[j] == last;
        }
      }
    }
  }

  /** No distinct key occurs twice. */
  lemma {:induction false} DistinctUnique(keys: seq<string>)
    ensures Unique(Distinct(keys))
  {
    if keys != [] {
      var front := keys[..|keys| - 1];
      DistinctUnique(front);
      DistinctSameKeys(front);
      UniqueSnoc(Distinct(front), keys[|keys| - 1]);
    }
  }

  /** A table without repeated keys is its own list of distinct keys. */
  lemma {:induction false} DistinctOfUnique(keys: seq<string>)
    requires Unique(keys)
    ensures Distinct(keys) == keys
  {
    if keys != [] {
      var front := keys[..|keys| - 1];
      var last := keys[|keys| - 1];
      assert keys == front + [last];
      UniqueSnoc(front, last);
      DistinctOfUnique(front);
    }
  }

  /** There are as many distinct keys as rows only when no key repeats. */
  lemma {:induction false} FullDistinctIsUnique(keys: seq<string>)
    requires |Distinct(keys)| == |keys|
    ensures Unique(keys)
  {
    if keys != [] {
      var front := keys[..|keys| - 1];
      var last := keys[|keys| - 1];
      assert keys == front + [last];
      FullDistinctIsUnique(front);
      DistinctSameKeys(front);
      UniqueSnoc(front, last);
    }
  }

  /** The `ids` dictionary after the loop has seen the rows with keys `keys`. */
  function CountyIds(keys: seq<string>): (ids: map<string, nat>)
    ensures forall k :: k in ids <==> k in keys
  {
    if keys == [] then map[]
    else
      var ids := CountyIds(keys[..|keys| - 1]);
      var k := keys[|keys| - 1];
      if k in ids then ids else ids[k := |Distinct(keys[..|keys| - 1])|]
  }

  /**
   * Every key of the table has an id and nothing else has one; the id of a key is its
   * position among the distinct keys in order of first appearance, so the ids are
   * 0 .. n-1 for n distinct keys and distinct keys never share one.
   */
  lemma {:induction false} CountyIdsMeaning(keys: seq<string>)
    ensures forall k :: k in CountyIds(keys) <==> k in keys
    ensures forall k :: k in CountyIds(keys) ==>
      CountyIds(keys)[k] < |Distinct(keys)| && Distinct(keys)[CountyIds(keys)[k]] == k
  {
    if keys != [] {
      var front := keys[..|keys| - 1];
      CountyIdsMeaning(front);
      DistinctSameKeys(front);
      assert keys == front + [keys[|keys| - 1]];
    }
  }

  /** Two keys share an id only when they are the same key. */
  lemma CountyIdsInjective(keys: seq<string>, a: string, b: string)
    requires a in keys && b in keys
    requires CountyIds(keys)[a] == CountyIds(keys)[b]
    ensures a == b
  {
    CountyIdsMeaning(keys);
  }

  /** Every id 0 .. n-1 belongs to some key. */
  lemma CountyIdsOnto(keys: seq<string>, id: nat)
    requires id < |Distinct(keys)|
    ensures Distinct(keys)[id] in CountyIds(keys) && CountyIds(keys)[Distinct(keys)[id]] == id
  {
    CountyIdsMeaning(keys);
    DistinctUnique(keys);
  }

  /** Reading more rows never changes an id already handed out. */
  lemma {:induction false} CountyIdsKeepEarlierIds(keys: seq<string>, n: nat)
    requires n <= |keys|
    ensures forall k :: k in CountyIds(keys[..n]) ==> CountyIds(keys)[k] == CountyIds(keys[..n])[k]
    decreases |keys| - n
  {
    if n < |keys| {
      CountyIdsKeepEarlierIds(keys, n + 1);
      assert keys[..n + 1][..n] == keys[..n];
    } else {
      assert keys[..n] == keys;
    }
  }

  /** Reading more rows never loses a distinct key: the count of distinct keys only grows. */
  lemma {:induction false} DistinctGrows(keys: seq<string>, m: nat, n: nat)
    requires m <= n <= |keys|
    ensures |Distinct(keys[..m])| <= |Distinct(keys[..n])|
    decreases n - m
  {
    if m < n {
      DistinctGrows(keys, m, n - 1);
      assert keys[..n][..n - 1] == keys[..n - 1];
    }
  }

  /**
   * Ids are handed out in order of first appearance: the key first seen at row r gets as
   * id the number of distinct keys in the rows before it.
   */
  lemma CountyIdsFollowFirstAppearance(keys: seq<string>, r: nat)
    requires r < |keys| && keys[r] !in keys[..r]
    ensures keys[r] in CountyIds(keys) && CountyIds(keys)[keys[r]] == |Distinct(keys[..r])|
  {
    assert keys[..r + 1][..r] == keys[..r];
    CountyIdsKeepEarlierIds(keys, r + 1);
  }

  /** Of two keys, the one whose first row comes earlier has the smaller id. */
  lemma EarlierKeysGetSmallerIds(keys: seq<string>, r1: nat, r2: nat)
    requires r1 < r2 < |keys|
    requires keys[r1] !in keys[..r1] && keys[r2] !in keys[..r2]
    ensures CountyIds(keys)[keys[r1]] < CountyIds(keys)[keys[r2]]
  {
    CountyIdsFollowFirstAppearance(keys, r1);
    CountyIdsFollowFirstAppearance(keys, r2);
    NewKeyGrowsDistinct(keys, r1);
    DistinctGrows(keys, r1 + 1, r2);
  }

  /** A key not seen in the rows before row r adds one distinct key. */
  lemma NewKeyGrowsDistinct(keys: seq<string>, r: nat)
    requires r < |keys| && keys[r] !in keys[..r]
    ensures |Distinct(keys[..r + 1])| == |Distinct(keys[..r])| + 1
  {
    var prefix := keys[..r + 1];
    assert prefix[..r] == keys[..r] && prefix[r] == keys[r];
    DistinctSameKeys(keys[..r]);
  }

  /** The list `[0, 1, ..., n-1]`. */
  function Range(n: nat): seq<nat>
  {
    seq(n, i requires 0 <= i < n => i)
  }

  /** Appending n to `[0, ..., n-1]` gives `[0, ..., n]`. */
  lemma RangeSnoc(n: nat)
    ensures Range(n + 1) == Range(n) + [n]
  {
    var a, b := Range(n + 1), Range(n) + [n];
    forall i | 0 <= i < n + 1 ensures a[i] == b[i] {
      if i < n {
        assert b[i] == Range(n)[i];
      }
    }
  }

  /**
   * One more row: its key gets the next id exactly when neither the dictionary nor the
   * distinct keys have it yet.
   */
  lemma AssignStep(keys: seq<string>, i: nat)
    requires i < |keys|
    ensures var ids, d := CountyIds(keys[..i]), Distinct(keys[..i]);
      && (keys[i] in ids <==> keys[i] in d)
      && CountyIds(keys[..i + 1]) == (if keys[i] in ids then ids else ids[keys[i] := |d|])
      && Distinct(keys[..i + 1]) == (if keys[i] in d then d else d + [keys[i]])
  {
    assert keys[..i + 1][..i] == keys[..i];
    DistinctSameKeys(keys[..i]);
  }

  /**
   * The loop of PlasmaSites.py:179-189: every row whose key has not been seen yet gets
   * the next id, recorded both in `ids` and in the list `county_ids`.
   */
  method AssignCountyIds(rows: seq<PovertyRow>) returns (ids: map<string, nat>, countyIds: seq<nat>)
    ensures ids == CountyIds(Keys(rows))
    ensures countyIds == Range(|Distinct(Keys(rows))|)
  {
    var keys := Keys(rows);
    ids := map[];
    countyIds := [];
    var id := 0;
    for i := 0 to |rows|
      invariant ids == CountyIds(keys[..i])
      invariant id == |Distinct(keys[..i])|
      invariant countyIds == Range(id)
    {
      var key := Key(rows[i].county, rows[i].state);
      AssignStep(keys, i);
      if key !in ids {
        RangeSnoc(id);
        ids := ids[key := id];
        countyIds := countyIds + [id];
        id := id + 1;
      }
    }
    assert keys[..|rows|] == keys;
  }

  /** The exception of assigning a list of the wrong length as a column (PlasmaSites.py:191). */
  datatype ColumnError = LengthMismatch(values: nat, index: nat)

  /** `poverty_info['county_id'] = county_ids`: the column, or the exception when the lengths differ. */
  function CountyIdColumn(rows: seq<PovertyRow>, countyIds: seq<nat>): (r: Result<seq<nat>, ColumnError>)
    ensures r.Success? <==> |countyIds| == |rows|
    ensures r.Success? ==> |r.value| == |rows| && forall i :: 0 <= i < |rows| ==> r.value[i] == countyIds[i]
    ensures r.Failure? ==> r.error == LengthMismatch(|countyIds|, |rows|)
  {
    if |countyIds| == |rows| then Success(countyIds) else Failure(LengthMismatch(|countyIds|, |rows|))
  }

  /**
   * The column assignment after the loop succeeds exactly when no (county, state) key
   * repeats, and then gives each row the id its own key has in `ids`.
   */
  lemma CountyIdColumnNeedsUniqueKeys(rows: seq<PovertyRow>)
    ensures var column := CountyIdColumn(rows, Range(|Distinct(Keys(rows))|));
      && (column.Success? <==> Unique(Keys(rows)))
      && (column.Success? ==> forall r :: 0 <= r < |rows| ==>
            Keys(rows)[r] in CountyIds(Keys(rows)) && column.value[r] == CountyIds(Keys(rows))[Keys(rows)[r]])
  {
    var keys := Keys(rows);
    if |Distinct(keys)| == |keys| {
      FullDistinctIsUnique(keys);
    }
    if Unique(keys) {
      DistinctOfUnique(keys);
      forall r | 0 <= r < |rows|
        ensures keys[r] in CountyIds(keys) && CountyIds(keys)[keys[r]] == r
      {
        CountyIdsOnto(keys, r);
      }
    }
  }

  // ---------------------------------------------------------------------------------
  // County id lookup (PlasmaSites.py:193-200)
  // ---------------------------------------------------------------------------------

  /**
   * The exception of `county + ','` when the county (or state) is missing: pandas holds a
   * missing value as the float NaN, and a float plus a string raises.
   */
  datatype LookupError = TypeError

  /**
   * fetch_county_id as written: the key is built before the `try`, so a facility whose
   * county or state is missing raises; a key absent from `ids` is caught and answers None.
   */
  function FetchCountyIdAsWritten(ids: map<string, nat>, county: Option<string>, state: Option<string>): (r: Result<Option<nat>, LookupError>)
    ensures r.Failure? <==> county.None? || state.None?
    ensures r.Success? ==> (r.value.Some? <==> Key(county.value, state.value) in ids)
    ensures r.Success? && r.value.Some? ==> r.value.value == ids[Key(county.value, state.value)]
  {
    if county.None? || state.None? then Failure(TypeError)
    else
      var id := Key(county.value, state.value);
      Success(if id in ids then Some(ids[id]) else None)
  }

  /**
   * A facility whose ZIP has no row in the ZIP table has no county after the left merge,
   * and its lookup stops the whole `apply` instead of answering None.
   */
  lemma MissingCountyRaises(ids: map<string, nat>, county: Option<string>, state: Option<string>)
    requires county.None? || state.None?
    ensures FetchCountyIdAsWritten(ids, county, state) == Failure(TypeError)
  {
  }

  /**
   * fetch_county_id as evidently intended: the id of the facility's own (county, state)
   * key, or None when the county or state is missing or the key has no id.
   */
  function FetchCountyId(ids: map<string, nat>, county: Option<string>, state: Option<string>): (r: Option<nat>)
    ensures r.Some? <==> county.Some? && state.Some? && Key(county.value, state.value) in ids
    ensures r.Some? ==> r.value == ids[Key(county.value, state.value)]
  {
    if county.None? || state.None? then None
    else
      var id := Key(county.value, state.value);
      if id in ids then Some(ids[id]) else None
  }

  /**
   * The corrected lookup agrees with the written one wherever that one does not raise,
   * and answers None where it raises.
   */
  lemma FetchCountyIdCorrectsAsWritten(ids: map<string, nat>, county: Option<string>, state: Option<string>)
    ensures FetchCountyIdAsWritten(ids, county, state).Success? ==>
      FetchCountyId(ids, county, state) == FetchCountyIdAsWritten(ids, county, state).value
    ensures FetchCountyIdAsWritten(ids, county, state).Failure? ==> FetchCountyId(ids, county, state) == None
  {
  }

  /**
   * Against the dictionary the loop builds, a facility with a county and a state finds an
   * id exactly when its key occurs in the poverty table, and the id found is that key's
   * position among the distinct keys.
   */
  lemma FetchAfterAssign(rows: seq<PovertyRow>, county: string, state: string)
    ensures var r := FetchCountyId(CountyIds(Keys(rows)), Some(county), Some(state));
      && (r.Some? <==> exists i :: 0 <= i < |rows| && Keys(rows)[i] == Key(county, state))
      && (r.Some? ==> r.value < |Distinct(Keys(rows))| && Distinct(Keys(rows))[r.value] == Key(county, state))
  {
    CountyIdsMeaning(Keys(rows));
  }

  /**
   * When no state name contains a comma, a facility finds an id exactly when its own
   * (county, state) pair is a row of the poverty table.
   */
  lemma FetchFindsOwnPair(rows: seq<PovertyRow>, county: string, state: string)
    requires ',' !in state
    requires forall i :: 0 <= i < |rows| ==> ',' !in rows[i].state
    ensures FetchCountyId(CountyIds(Keys(rows)), Some(county), Some(state)).Some? <==>
      exists i :: 0 <= i < |rows| && rows[i] == PovertyRow(county, state)
  {
    FetchAfterAssign(rows, county, state);
    var keys := Keys(rows);
    if exists i :: 0 <= i < |rows| && keys[i] == Key(county, state) {
      var i :| 0 <= i < |rows| && keys[i] == Key(county, state);
      KeyInjective(rows[i].county, rows[i].state, county, state);
      assert rows[i] == PovertyRow(county, state);
    }
    if exists i :: 0 <= i < |rows| && rows[i] == PovertyRow(county, state) {
      var i :| 0 <= i < |rows| && rows[i] == PovertyRow(county, state);
      assert keys[i] == Key(county, state);
    }
  }
}
