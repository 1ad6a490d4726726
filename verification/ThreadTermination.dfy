/** For which tables the recursive query ends at all. */
module ThreadTermination {
  import opened Wrappers
  import opened PostStore
  import opened Thread

  /** The working table after n rounds, on any table with a primary key. */
  function Round(posts: seq<Post>, root: Id, n: nat): seq<Post> {
    if n == 0 then RowsOf(posts, root) else Join(posts, Round(posts, root, n - 1))
  }

  ghost predicate Ends(posts: seq<Post>, root: Id) {
    exists n :: Round(posts, root, n) == []
  }

  /** The root answers itself, directly or through other posts. */
  ghost predicate OnCycle(posts: seq<Post>, root: Id) {
    exists chain :: IsCycle(posts, root, chain)
  }

  ghost predicate IsCycle(posts: seq<Post>, root: Id, chain: seq<Post>) {
    Chain(posts, chain) && |chain| >= 2 && chain[0].id == root && chain[|chain| - 1].id == root
  }

  lemma {:induction false} JoinMembers(posts: seq<Post>, working: seq<Post>)
    ensures forall p :: p in Join(posts, working) <==> p in posts && exists t :: t in working && p.parent == Some(t.id)
  {
    if working != [] {
      JoinMembers(posts, working[1..]);
      ChildrenAre(posts, working[0].id);
      forall p, t | p in posts && t in working && p.parent == Some(t.id) ensures p in Join(posts, working) {
        assert t == working[0] || t in working[1..];
      }
    }
  }

  lemma {:induction false} RoundIsLevel(posts: seq<Post>, root: Id, n: nat)
    requires Distinct(posts)
    ensures forall p :: p in Round(posts, root, n) <==> AtLevel(posts, root, n, p)
  {
    if n == 0 {
      RowsOfAre(posts, root);
      forall p ensures p in Round(posts, root, 0) <==> AtLevel(posts, root, 0, p) {
        LevelZero(posts, root, p);
      }
    } else {
      var working := Round(posts, root, n - 1);
      RoundIsLevel(posts, root, n - 1);
      forall p ensures p in Join(posts, working) <==> AtLevel(posts, root, n, p) {
        NextIsLevel(posts, root, n - 1, working, p);
      }
    }
  }

  lemma NextIsLevel(posts: seq<Post>, root: Id, n: nat, working: seq<Post>, p: Post)
    requires Distinct(posts) && forall t :: t in working <==> AtLevel(posts, root, n, t)
    ensures p in Join(posts, working) <==> AtLevel(posts, root, n + 1, p)
  {
    JoinMembers(posts, working);
    if p in Join(posts, working) {
      var t :| t in working && p.parent == Some(t.id);
      LevelUp(posts, root, n, t, p);
    }
    if AtLevel(posts, root, n + 1, p) {
      var t := LevelDown(posts, root, n, p);
    }
  }

  /** A chain longer than the table meets some row twice. */
  lemma {:induction false} Pigeonhole(chain: seq<Post>, rows: set<Post>) returns (i: nat, j: nat)
    requires |chain| > |rows| && forall k :: 0 <= k < |chain| ==> chain[k] in rows
    ensures i < j < |chain| && chain[i] == chain[j]
    decreases |chain|
  {
    var n := |chain| - 1;
    if k :| 0 <= k < n && chain[k] == chain[n] {
      i, j := k, n;
    } else {
      i, j := Pigeonhole(chain[..n], rows - {chain[n]});
    }
  }

  /** Every row answers one row at most, so a meeting of a chain with itself leads back to its start. */
  lemma {:induction false} MeetAtStart(posts: seq<Post>, chain: seq<Post>, i: nat, j: nat)
    requires Distinct(posts) && Chain(posts, chain) && i < j < |chain| && chain[i] == chain[j]
    ensures chain[0] == chain[j - i]
  {
    if i > 0 {
      SameIdSamePost(posts, chain[i - 1], chain[j - 1]);
      MeetAtStart(posts, chain, i - 1, j - 1);
    }
  }

  lemma RowCount(posts: seq<Post>)
    ensures |set p | p in posts| <= |posts|
  {
    if posts != [] {
      RowCount(posts[1..]);
      assert (set p | p in posts) == (set p | p in posts[1..]) + {posts[0]};
    }
  }

  lemma {:induction false} CycleNeverEnds(posts: seq<Post>, root: Id, cycle: seq<Post>, n: nat)
    returns (p: Post)
    requires Distinct(posts) && IsCycle(posts, root, cycle)
    ensures AtLevel(posts, root, n, p)
    decreases n
  {
    var length := |cycle| - 1;
    if n < length {
      p := cycle[n];
      assert ChainTo(posts, root, cycle[..n + 1], p);
    } else {
      p := CycleNeverEnds(posts, root, cycle, n - length);
      var chain :| ChainTo(posts, root, chain, p) && |chain| == n - length + 1;
      SameIdSamePost(posts, cycle[length], chain[0]);
      assert ChainTo(posts, root, cycle + chain[1..], p);
    }
  }

  /** A round after as many rounds as there are rows finds a cycle. */
  lemma LateRoundFindsCycle(posts: seq<Post>, root: Id)
    requires Distinct(posts) && Round(posts, root, |posts|) != []
    ensures OnCycle(posts, root)
  {
    var n := |posts|;
    RoundIsLevel(posts, root, n);
    var p := Round(posts, root, n)[0];
    assert p in Round(posts, root, n);
    var chain :| ChainTo(posts, root, chain, p) && |chain| == n + 1;
    RowCount(posts);
    var i, j := Pigeonhole(chain, set p | p in posts);
    MeetAtStart(posts, chain, i, j);
    assert IsCycle(posts, root, chain[..j - i + 1]);
  }

  /** The query ends exactly for roots that do not answer themselves. The schema does not exclude such
      roots; the look-up before every insertion does. */
  lemma EndsExactlyOffCycles(posts: seq<Post>, root: Id)
    requires Distinct(posts)
    ensures Ends(posts, root) <==> !OnCycle(posts, root)
  {
    if OnCycle(posts, root) {
      var cycle :| IsCycle(posts, root, cycle);
      forall n ensures Round(posts, root, n) != [] {
        var p := CycleNeverEnds(posts, root, cycle, n);
        RoundIsLevel(posts, root, n);
      }
    } else if Round(posts, root, |posts|) != [] {
      LateRoundFindsCycle(posts, root);
    }
  }

  /** In a forest, and so in every reachable store, no post answers itself. */
  lemma ForestHasNoCycle(posts: seq<Post>, root: Id)
    requires Forest(posts)
    ensures !OnCycle(posts, root) && Ends(posts, root)
  {
    if OnCycle(posts, root) {
      var cycle :| IsCycle(posts, root, cycle);
      var p := cycle[|cycle| - 1];
      assert ChainTo(posts, root, cycle, p);
      assert AtLevel(posts, root, |cycle| - 1, p);
      LevelZero(posts, root, p);
      OneLevel(posts, root, 0, |cycle| - 1, p);
    }
    EndsExactlyOffCycles(posts, root);
  }
}
