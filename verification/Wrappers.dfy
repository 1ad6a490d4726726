/** Results of operations that can fail, and optional values. */
module Wrappers {

  datatype Option<+T> = None | Some(value: T)

  datatype Result<+T, +E> = Ok(value: T) | Err(error: E)

  /** The values that are present, in order. */
  function Somes<T>(options: seq<Option<T>>): seq<T> {
    if options == [] then []
    else
      var n := |options| - 1;
      if options[n].Some? then Somes(options[..n]) + [options[n].value] else Somes(options[..n])
  }

  lemma SomesNext<T>(options: seq<Option<T>>, i: nat)
    requires i < |options|
    ensures Somes(options[..i + 1])
         == if options[i].Some? then Somes(options[..i]) + [options[i].value] else Somes(options[..i])
  {
    assert options[..i + 1][..i] == options[..i];
  }

  /** The values are those at these positions, in order, and no other position has one. */
  ghost predicate Picks<T>(options: seq<Option<T>>, positions: seq<nat>, values: seq<T>) {
    && |positions| == |values|
    && (forall i, j :: 0 <= i < j < |positions| ==> positions[i] < positions[j])
    && (forall i :: 0 <= i < |values| ==> positions[i] < |options| && options[positions[i]] == Some(values[i]))
    && forall n :: 0 <= n < |options| ==> (n in positions <==> options[n].Some?)
  }

  lemma PicksMore<T>(options: seq<Option<T>>, last: Option<T>, positions: seq<nat>, values: seq<T>)
    requires Picks(options, positions, values)
    ensures if last.Some? then Picks(options + [last], positions + [|options|], values + [last.value])
            else Picks(options + [last], positions, values)
  {
    var more, n := options + [last], |options|;
    assert forall i :: 0 <= i < |positions| ==> positions[i] < n && more[positions[i]] == options[positions[i]];
    assert forall k :: k in positions ==> k < n;
    if last.Some? {
      assert forall k :: k in positions + [n] <==> k in positions || k == n;
    }
  }

  lemma {:induction false} SomesAre<T>(options: seq<Option<T>>) returns (positions: seq<nat>)
    ensures Picks(options, positions, Somes(options))
  {
    if options == [] {
      positions := [];
    } else {
      var n := |options| - 1;
      positions := SomesAre(options[..n]);
      PicksMore(options[..n], options[n], positions, Somes(options[..n]));
      assert options[..n] + [options[n]] == options;
      if options[n].Some? {
        positions := positions + [n];
      }
    }
  }
}
