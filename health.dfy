/** The connection-failure tracker of `NodeManager`: a consecutive-failure count per
    (host, port) pair that asks for the peer's removal on the eighth failure in a row. */
module Health {

  /** The key `hostNameOrIp + "___" + port`, kept as the pair it is built from. */
  datatype FailureKey = FailureKey(hostNameOrIp: string, port: int)

  const ConsecutiveFailuresBeforeRemoval: int := 8

  type FailureMap = map<FailureKey, int>

  /** The new failure map, and whether the node at the host is to be removed from the mesh. */
  datatype FailureOutcome = FailureOutcome(failures: FailureMap, removeNode: bool)

  /** The stored count, zero when the key is absent. */
  function FailureCount(f: FailureMap, key: FailureKey): (n: int)
  {
    if key in f then f[key] else 0
  }

  /** `markFailedConnection` on the failure map: other keys are never touched. */
  function MarkFailedConnection(f: FailureMap, key: FailureKey): (r: FailureOutcome)
    ensures forall k :: k in f && k != key ==> k in r.failures && r.failures[k] == f[k]
    ensures forall k :: k in r.failures && k != key ==> k in f
  {
    var count := FailureCount(f, key) + 1;
    if count < ConsecutiveFailuresBeforeRemoval then
      FailureOutcome(f[key := count], false)
    else
      FailureOutcome(f - {key}, true)
  }

  /** `markSuccessfulConnection` on the failure map: the pair's counter is gone and every other
      counter stays as it was. */
  function MarkSuccessfulConnection(f: FailureMap, key: FailureKey): (r: FailureMap)
    ensures key !in r
    ensures forall k :: k in f && k != key ==> k in r && r[k] == f[k]
    ensures forall k :: k in r ==> k in f
  {
    f - {key}
  }

  /** Every stored count lies in 1..7. */
  ghost predicate CountsInRange(f: FailureMap)
  {
    forall k :: k in f ==> 1 <= f[k] < ConsecutiveFailuresBeforeRemoval
  }

  /** Both operations keep every stored count in 1..7. */
  lemma TrackerKeepsRange(f: FailureMap, key: FailureKey)
    requires CountsInRange(f)
    ensures CountsInRange(MarkFailedConnection(f, key).failures)
    ensures CountsInRange(MarkSuccessfulConnection(f, key))
  {
  }

  /** `k` failures in a row for one key; `removeNode` tells whether any of them asked for removal. */
  function RepeatFailures(f: FailureMap, key: FailureKey, k: nat): (r: FailureOutcome)
    decreases k
  {
    if k == 0 then FailureOutcome(f, false)
    else
      var before := RepeatFailures(f, key, k - 1);
      var last := MarkFailedConnection(before.failures, key);
      FailureOutcome(last.failures, before.removeNode || last.removeNode)
  }

  /** Starting from no recorded failure, the k-th failure in a row (k < 8) stores k for the key,
      asks for no removal, and leaves the other keys as they were. */
  lemma {:induction false} FailuresBelowThreshold(f: FailureMap, key: FailureKey, k: nat)
    requires key !in f
    requires 1 <= k < ConsecutiveFailuresBeforeRemoval
    ensures var r := RepeatFailures(f, key, k);
      && !r.removeNode
      && r.failures == f[key := k]
  {
    if k > 1 {
      FailuresBelowThreshold(f, key, k - 1);
    }
  }

  /** The eighth failure in a row deletes the counter and asks for the node's removal: the map is
      back to what it was before the streak. */
  lemma EighthFailureRemoves(f: FailureMap, key: FailureKey)
    requires key !in f
    ensures var before := RepeatFailures(f, key, ConsecutiveFailuresBeforeRemoval - 1);
      var last := MarkFailedConnection(before.failures, key);
      && !before.removeNode
      && last.removeNode
      && last.failures == f
  {
    FailuresBelowThreshold(f, key, ConsecutiveFailuresBeforeRemoval - 1);
    assert f[key := ConsecutiveFailuresBeforeRemoval - 1] - {key} == f;
  }

  /** A success deletes the counter whatever its value, so the next streak starts again at one:
      after it, the k-th failure (k < 8) stores k. */
  lemma SuccessResetsStreak(f: FailureMap, key: FailureKey, k: nat)
    requires 1 <= k < ConsecutiveFailuresBeforeRemoval
    ensures key !in MarkSuccessfulConnection(f, key)
    ensures var r := RepeatFailures(MarkSuccessfulConnection(f, key), key, k);
      !r.removeNode && key in r.failures && r.failures[key] == k
  {
    FailuresBelowThreshold(MarkSuccessfulConnection(f, key), key, k);
  }
}
