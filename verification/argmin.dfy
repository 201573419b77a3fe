/** Python's `min(items, key=...)` over a non-empty list of scores. */
module ArgMin {

  /** The index `min` picks: it scans left to right and replaces its current choice only
      on a strictly smaller score, so the first least score wins. */
  function FirstMinIndex(scores: seq<real>): (k: nat)
    requires |scores| > 0
    ensures k < |scores|
    ensures forall j :: 0 <= j < |scores| ==> scores[k] <= scores[j]
    ensures forall j :: 0 <= j < k ==> scores[k] < scores[j]
    decreases |scores|
  {
    if |scores| == 1 then 0
    else
      var k := FirstMinIndex(scores[..|scores| - 1]);
      if scores[|scores| - 1] < scores[k] then |scores| - 1 else k
  }

  /** The first least score is unique: any index that is least and beaten by every
      earlier one is the index `min` picks. */
  lemma FirstMinIndexUnique(scores: seq<real>, k: nat)
    requires k < |scores|
    requires forall j :: 0 <= j < |scores| ==> scores[k] <= scores[j]
    requires forall j :: 0 <= j < k ==> scores[k] < scores[j]
    ensures FirstMinIndex(scores) == k
  {
  }
}
