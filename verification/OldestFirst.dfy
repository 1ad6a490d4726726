/** What `ORDER BY created_at ASC LIMIT n` may answer over candidates with creation times. */
module OldestFirst {

  /** At most `limit` different candidates, oldest first, and none is left out for a younger one.
      Candidates of equal age come in any order. */
  ghost predicate ValidPick(candidates: map<nat, int>, ids: seq<nat>, limit: nat) {
    && |ids| <= limit
    && (forall i :: 0 <= i < |ids| ==> ids[i] in candidates)
    && (forall i, j :: 0 <= i < j < |ids| ==> ids[i] != ids[j] && candidates[ids[i]] <= candidates[ids[j]])
    && (forall id :: id in candidates && id !in ids ==>
          |ids| == limit && forall i :: 0 <= i < |ids| ==> candidates[ids[i]] <= candidates[id])
  }

  lemma {:induction false} SomeOldest(candidates: map<nat, int>, left: set<nat>) returns (id: nat)
    requires left != {} && left <= candidates.Keys
    ensures id in left && forall other :: other in left ==> candidates[id] <= candidates[other]
    decreases |left|
  {
    id :| id in left;
    if left != {id} {
      var rest := SomeOldest(candidates, left - {id});
      if candidates[rest] < candidates[id] {
        id := rest;
      }
    }
  }

  /** `ids` holds the oldest candidates in order, `left` the other ones. */
  ghost predicate Selecting(candidates: map<nat, int>, ids: seq<nat>, left: set<nat>) {
    && left <= candidates.Keys
    && (forall i :: 0 <= i < |ids| ==> ids[i] in candidates)
    && (forall i, j :: 0 <= i < j < |ids| ==> ids[i] != ids[j] && candidates[ids[i]] <= candidates[ids[j]])
    && (forall i, id :: 0 <= i < |ids| && id in left ==> ids[i] != id && candidates[ids[i]] <= candidates[id])
    && (forall id :: id in candidates ==> id in left || id in ids)
  }

  method Pick(candidates: map<nat, int>, limit: nat) returns (ids: seq<nat>)
    ensures ValidPick(candidates, ids, limit)
  {
    ids := [];
    var left := candidates.Keys;
    while left != {} && |ids| < limit
      invariant |ids| <= limit
      invariant Selecting(candidates, ids, left)
      decreases limit - |ids|
    {
      ghost var oldest := SomeOldest(candidates, left);
      var id :| id in left && forall other :: other in left ==> candidates[id] <= candidates[other];
      ids := ids + [id];
      left := left - {id};
    }
  }
}
