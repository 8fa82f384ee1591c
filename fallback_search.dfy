/**
 * The bounded fallback search `loop_and_search` (PlasmaSites.py:88-101): probe the
 * row at a known anchor and, while nothing matches, up to 60 rows after it.
 */
module FallbackSearch {
  import opened Wrappers

  /**
   * The regular-expression engine, left uninterpreted: `find(pattern, text)` is the
   * first capture group of the first match of `pattern` in `text`, or None when
   * `pattern` does not match. A match whose first group takes no part (Python's `None`
   * group) would also stop the loop and answer None; that case is not expressed. It
   * cannot arise for the six patterns of PlasmaSites.py:119-124, whose first group takes
   * part in every match.
   */
  type Matcher = (string, string) -> Option<string>

  /** How many rows past the anchor are retried. */
  const MaxTick: nat := 60

  /** The exception raised by indexing a row past the end of the table. */
  datatype SearchError = IndexError(index: nat)

  /** The rows the search may look at: the anchor and up to MaxTick rows after it, cut at the end of the table. */
  function Window(blob: seq<string>, origin: nat): (w: seq<string>)
    requires origin < |blob|
    ensures 1 <= |w| <= MaxTick + 1
    ensures |w| == MaxTick + 1 || origin + |w| == |blob|
    ensures forall k :: 0 <= k < |w| ==> origin + k < |blob| && w[k] == blob[origin + k]
  {
    blob[origin .. if origin + MaxTick + 1 <= |blob| then origin + MaxTick + 1 else |blob|]
  }

  /** The position of the first row of `rows` that `pattern` matches, or |rows| when none does. */
  function FirstHit(find: Matcher, pattern: string, rows: seq<string>): (k: nat)
    ensures k <= |rows|
    ensures forall j :: 0 <= j < k ==> find(pattern, rows[j]).None?
    ensures k < |rows| ==> find(pattern, rows[k]).Some?
  {
    if rows == [] then 0
    else if find(pattern, rows[0]).Some? then 0
    else 1 + FirstHit(find, pattern, rows[1..])
  }

  /**
   * What `loop_and_search(pattern, blob, origin)` returns: the first capture group of the
   * first matching row of the window, None when no row of the window matches, and an
   * IndexError when the anchor row itself does not exist.
   */
  function Search(find: Matcher, pattern: string, blob: seq<string>, origin: nat): (r: Result<Option<string>, SearchError>)
    ensures r.Failure? <==> |blob| <= origin
    ensures r.Failure? ==> r.error == IndexError(origin)
    ensures r.Success? && r.value.Some? ==> exists k :: origin <= k < |blob| && find(pattern, blob[k]) == r.value
  {
    if |blob| <= origin then Failure(IndexError(origin))
    else
      var w := Window(blob, origin);
      var k := FirstHit(find, pattern, w);
      Success(if k < |w| then find(pattern, w[k]) else None)
  }

  /**
   * `field` is what a search from `origin` should report: the capture of the nearest
   * matching row at most MaxTick rows past `origin`, or None when none of those rows matches.
   */
  ghost predicate FoundNearest(find: Matcher, pattern: string, blob: seq<string>, origin: nat, field: Option<string>)
  {
    match field
    case Some(v) =>
      exists i :: origin <= i <= origin + MaxTick && i < |blob| && find(pattern, blob[i]) == Some(v) &&
        forall j :: origin <= j < i ==> find(pattern, blob[j]).None?
    case None =>
      forall i :: origin <= i <= origin + MaxTick && i < |blob| ==> find(pattern, blob[i]).None?
  }

  /**
   * The search finds value `v` exactly when some row at offset at most MaxTick from the
   * anchor yields `v` and every row between the anchor and that row fails to match.
   */
  lemma SearchFindsLowestOffset(find: Matcher, pattern: string, blob: seq<string>, origin: nat, v: string)
    requires origin < |blob|
    ensures Search(find, pattern, blob, origin) == Success(Some(v)) <==> FoundNearest(find, pattern, blob, origin, Some(v))
  {
    var w := Window(blob, origin);
    var k := FirstHit(find, pattern, w);
    if Search(find, pattern, blob, origin) == Success(Some(v)) {
      assert k < |w| && find(pattern, blob[origin + k]) == Some(v);
      assert forall j :: origin <= j < origin + k ==> blob[j] == w[j - origin];
    }
    if exists i :: origin <= i <= origin + MaxTick && i < |blob| && find(pattern, blob[i]) == Some(v) &&
        forall j :: origin <= j < i ==> find(pattern, blob[j]).None? {
      var i :| origin <= i <= origin + MaxTick && i < |blob| && find(pattern, blob[i]) == Some(v) &&
        forall j :: origin <= j < i ==> find(pattern, blob[j]).None?;
      assert w[i - origin] == blob[i];
      assert k == i - origin;
    }
  }

  /** The search yields None exactly when no row of the window, anchor included, matches. */
  lemma SearchMissesOnlyEmptyWindow(find: Matcher, pattern: string, blob: seq<string>, origin: nat)
    requires origin < |blob|
    ensures Search(find, pattern, blob, origin) == Success(None) <==> FoundNearest(find, pattern, blob, origin, None)
  {
    var w := Window(blob, origin);
    var k := FirstHit(find, pattern, w);
    if k < |w| {
      assert find(pattern, blob[origin + k]).Some?;
    } else {
      forall i | origin <= i <= origin + MaxTick && i < |blob|
        ensures find(pattern, blob[i]).None?
      {
        assert w[i - origin] == blob[i];
      }
    }
  }

  /**
   * A field whose row has drifted `shift` rows past the anchor (with no earlier row
   * matching) is recovered when `shift` is at most MaxTick, and reported missing,
   * without raising, when it is further away.
   */
  lemma {:induction false} ShiftedAnchor(find: Matcher, pattern: string, blob: seq<string>, origin: nat, shift: nat)
    requires origin + shift < |blob|
    requires find(pattern, blob[origin + shift]).Some?
    requires forall j :: origin <= j < origin + shift ==> find(pattern, blob[j]).None?
    ensures shift <= MaxTick ==> Search(find, pattern, blob, origin) == Success(find(pattern, blob[origin + shift]))
    ensures MaxTick < shift ==> Search(find, pattern, blob, origin) == Success(None)
  {
    if shift <= MaxTick {
      SearchFindsLowestOffset(find, pattern, blob, origin, find(pattern, blob[origin + shift]).value);
    } else {
      SearchMissesOnlyEmptyWindow(find, pattern, blob, origin);
    }
  }

  /**
   * loop_and_search itself. `probed` lists the row indices it tries, in order: the anchor,
   * then each following row, never more than MaxTick past the anchor; every probe but the
   * last missed, and a found value comes from the last probe. A retry past the end of the
   * table is caught and answers None; the anchor probe is not guarded and raises.
   */
  method LoopAndSearch(find: Matcher, pattern: string, blob: seq<string>, origin: nat)
    returns (r: Result<Option<string>, SearchError>, ghost probed: seq<nat>)
    ensures r == Search(find, pattern, blob, origin)
    ensures 1 <= |probed| <= MaxTick + 1
    ensures forall j :: 0 <= j < |probed| ==> probed[j] == origin + j
    ensures forall j :: 0 <= j < |probed| - 1 ==> probed[j] < |blob| && find(pattern, blob[probed[j]]).None?
    ensures r.Success? && r.value.Some? ==>
      probed[|probed| - 1] < |blob| && find(pattern, blob[probed[|probed| - 1]]) == r.value
  {
    probed := [origin];
    if |blob| <= origin {
      return Failure(IndexError(origin)), probed;
    }
    ghost var w := Window(blob, origin);
    var target := find(pattern, blob[origin]);
    var tick := 0;
    while target.None? && tick < MaxTick
      invariant tick <= MaxTick && origin + tick < |blob|
      invariant |probed| == tick + 1
      invariant forall j :: 0 <= j < |probed| ==> probed[j] == origin + j
      invariant forall i :: origin <= i < origin + tick ==> find(pattern, blob[i]).None?
      invariant target == find(pattern, blob[origin + tick])
    {
      tick := tick + 1;
      probed := probed + [origin + tick];
      if |blob| <= origin + tick {
        // the handler of PlasmaSites.py:95-97: every row up to the end missed
        assert |w| == tick;
        assert FirstHit(find, pattern, w) == |w| by {
          forall j | 0 <= j < |w| ensures find(pattern, w[j]).None? {
            assert w[j] == blob[origin + j];
          }
        }
        return Success(None), probed;
      }
      target := find(pattern, blob[origin + tick]);
    }
    var k := FirstHit(find, pattern, w);
    if target.Some? {
      assert w[tick] == blob[origin + tick];
      assert k == tick;
    } else {
      assert |w| == MaxTick + 1;
      assert k == |w|;
    }
    return Success(target), probed;
  }
}
