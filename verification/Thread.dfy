/**
  The thread query: WITH RECURSIVE with UNION ALL, evaluated by a working table as section 7.8.2 of
  the PostgreSQL manual describes, then filtered and sorted.
*/
module Thread {
  import opened Wrappers
  import opened PostStore

  /** The rows that answer `id`, in table order. */
  function Children(posts: seq<Post>, id: Id): seq<Post> {
    if posts == [] then []
    else
      Children(posts[..|posts| - 1], id) + (if posts[|posts| - 1].parent == Some(id) then [posts[|posts| - 1]] else [])
  }

  /** One round of the recursive term: the table joined with the working table. */
  function Join(posts: seq<Post>, working: seq<Post>): seq<Post> {
    if working == [] then [] else Children(posts, working[0].id) + Join(posts, working[1..])
  }

  ghost predicate Distinct(rows: seq<Post>) {
    forall i, j :: 0 <= i < j < |rows| ==> rows[i].id != rows[j].id
  }

  lemma {:induction false} ChildrenAre(posts: seq<Post>, id: Id)
    ensures forall p :: p in Children(posts, id) <==> p in posts && p.parent == Some(id)
    ensures Distinct(posts) ==> Distinct(Children(posts, id))
  {
    if posts != [] {
      var before, last := posts[..|posts| - 1], posts[|posts| - 1];
      ChildrenAre(before, id);
      assert posts == before + [last];
      if Distinct(posts) {
        forall p | p in Children(before, id) ensures p.id != last.id {
          var i :| 0 <= i < |before| && before[i] == p;
          assert posts[i] == p;
        }
      }
    }
  }

  lemma {:induction false} JoinIs(posts: seq<Post>, working: seq<Post>)
    requires Distinct(posts) && Distinct(working)
    ensures forall p :: p in Join(posts, working) <==> p in posts && exists t :: t in working && p.parent == Some(t.id)
    ensures Distinct(Join(posts, working))
  {
    if working != [] {
      var front, rest := Children(posts, working[0].id), Join(posts, working[1..]);
      JoinIs(posts, working[1..]);
      ChildrenAre(posts, working[0].id);
      forall p | p in posts && exists t :: t in working && p.parent == Some(t.id) ensures p in Join(posts, working) {
        var t :| t in working && p.parent == Some(t.id);
        assert t == working[0] || t in working[1..];
      }
      forall p, q | p in front && q in rest ensures p.id != q.id {
        var t :| t in working[1..] && q.parent == Some(t.id);
        var i :| 0 <= i < |working[1..]| && working[1..][i] == t;
        assert working[0].id != working[i + 1].id;
        SameIdSamePost(posts, p, q);
      }
    }
  }

  lemma SameIdSamePost(posts: seq<Post>, p: Post, q: Post)
    requires Distinct(posts) && p in posts && q in posts
    ensures p.id == q.id <==> p == q
  {
    var i :| 0 <= i < |posts| && posts[i] == p;
    var j :| 0 <= j < |posts| && posts[j] == q;
    assert i < j || j < i || i == j;
  }

  // ---------------------------------------------------------------------------------------------
  // Reachability along replies

  /** A chain of rows in which each one answers the one before it. */
  ghost predicate Chain(posts: seq<Post>, chain: seq<Post>) {
    && chain != []
    && (forall i :: 0 <= i < |chain| ==> chain[i] in posts)
    && (forall i :: 0 < i < |chain| ==> chain[i].parent == Some(chain[i - 1].id))
  }

  ghost predicate ChainTo(posts: seq<Post>, root: Id, chain: seq<Post>, p: Post) {
    Chain(posts, chain) && chain[0].id == root && chain[|chain| - 1] == p
  }

  /** p is the root or answers it directly or through other posts, deleted or not. */
  ghost predicate Under(posts: seq<Post>, root: Id, p: Post) {
    exists chain :: ChainTo(posts, root, chain, p)
  }

  /** The rows that a chain of length n + 1 leads to. */
  ghost predicate AtLevel(posts: seq<Post>, root: Id, n: nat, p: Post) {
    exists chain :: ChainTo(posts, root, chain, p) && |chain| == n + 1
  }

  lemma LevelUp(posts: seq<Post>, root: Id, n: nat, t: Post, p: Post)
    requires AtLevel(posts, root, n, t) && p in posts && p.parent == Some(t.id)
    ensures AtLevel(posts, root, n + 1, p)
  {
    var chain :| ChainTo(posts, root, chain, t) && |chain| == n + 1;
    assert ChainTo(posts, root, chain + [p], p);
  }

  lemma LevelDown(posts: seq<Post>, root: Id, n: nat, p: Post) returns (t: Post)
    requires AtLevel(posts, root, n + 1, p)
    ensures AtLevel(posts, root, n, t) && p in posts && p.parent == Some(t.id) && t in posts
  {
    var chain :| ChainTo(posts, root, chain, p) && |chain| == n + 2;
    t := chain[n];
    assert ChainTo(posts, root, chain[..n + 1], t);
  }

  lemma LevelZero(posts: seq<Post>, root: Id, p: Post)
    ensures AtLevel(posts, root, 0, p) <==> p in posts && p.id == root
  {
    if p in posts && p.id == root {
      assert ChainTo(posts, root, [p], p);
    }
  }

  /** The position of a row; in a forest replies stand after what they answer. */
  ghost function Position(posts: seq<Post>, p: Post): (i: nat)
    requires p in posts
    ensures i < |posts| && posts[i] == p
  {
    var i :| 0 <= i < |posts| && posts[i] == p;
    i
  }

  lemma {:induction false} LevelAtMostPosition(posts: seq<Post>, root: Id, n: nat, p: Post)
    requires Forest(posts) && AtLevel(posts, root, n, p)
    ensures p in posts && n <= Position(posts, p)
    ensures n > 0 ==> exists t :: t in posts && t.id == root && Position(posts, t) < Position(posts, p)
  {
    if n > 0 {
      var t := LevelDown(posts, root, n - 1, p);
      LevelAtMostPosition(posts, root, n - 1, t);
      if n == 1 {
        LevelZero(posts, root, t);
      }
    } else {
      LevelZero(posts, root, p);
    }
  }

  /** In a forest a row is on one level only, so no round repeats a row of an earlier one. */
  lemma {:induction false} OneLevel(posts: seq<Post>, root: Id, m: nat, n: nat, p: Post)
    requires Forest(posts) && AtLevel(posts, root, m, p) && AtLevel(posts, root, n, p)
    ensures m == n
  {
    if m > 0 && n > 0 {
      var t := LevelDown(posts, root, m - 1, p);
      var u := LevelDown(posts, root, n - 1, p);
      SameIdSamePost(posts, t, u);
      OneLevel(posts, root, m - 1, n - 1, t);
    } else if m != n {
      LevelAtMostPosition(posts, root, m, p);
      LevelAtMostPosition(posts, root, n, p);
      LevelZero(posts, root, p);
    }
  }

  // ---------------------------------------------------------------------------------------------
  // ORDER BY created_at

  function InsertByTime(sorted: seq<Post>, p: Post): seq<Post> {
    if sorted == [] || p.created < sorted[0].created then [p] + sorted
    else [sorted[0]] + InsertByTime(sorted[1..], p)
  }

  function SortByTime(rows: seq<Post>): seq<Post> {
    if rows == [] then [] else InsertByTime(SortByTime(rows[..|rows| - 1]), rows[|rows| - 1])
  }

  ghost predicate Ordered(rows: seq<Post>) {
    forall i, j :: 0 <= i < j < |rows| ==> rows[i].created <= rows[j].created
  }

  lemma {:induction false} InsertByTimeIs(sorted: seq<Post>, p: Post)
    requires Ordered(sorted) && Distinct(sorted) && forall q :: q in sorted ==> q.id != p.id
    ensures Ordered(InsertByTime(sorted, p)) && Distinct(InsertByTime(sorted, p))
    ensures forall q :: q in InsertByTime(sorted, p) <==> q in sorted || q == p
  {
    if sorted == [] || p.created < sorted[0].created {
    } else {
      var first, rest := sorted[0], InsertByTime(sorted[1..], p);
      InsertByTimeIs(sorted[1..], p);
      assert sorted == [first] + sorted[1..];
      forall j | 0 <= j < |rest| ensures first.created <= rest[j].created && first.id != rest[j].id {
        assert rest[j] in rest;
        if rest[j] in sorted[1..] {
          var i :| 0 <= i < |sorted[1..]| && sorted[1..][i] == rest[j];
          assert sorted[i + 1] == rest[j];
        }
      }
    }
  }

  lemma {:induction false} SortByTimeIs(rows: seq<Post>)
    requires Distinct(rows)
    ensures Ordered(SortByTime(rows)) && Distinct(SortByTime(rows))
    ensures forall q :: q in SortByTime(rows) <==> q in rows
  {
    if rows != [] {
      var before, last := rows[..|rows| - 1], rows[|rows| - 1];
      SortByTimeIs(before);
      assert rows == before + [last];
      InsertByTimeIs(SortByTime(before), last);
    }
  }

  function Live(rows: seq<Post>): seq<Post> {
    if rows == [] then []
    else Live(rows[..|rows| - 1]) + (if rows[|rows| - 1].deleted then [] else [rows[|rows| - 1]])
  }

  lemma {:induction false} LiveIs(rows: seq<Post>)
    requires Distinct(rows)
    ensures forall p :: p in Live(rows) <==> p in rows && !p.deleted
    ensures Distinct(Live(rows))
  {
    if rows != [] {
      var before, last := rows[..|rows| - 1], rows[|rows| - 1];
      LiveIs(before);
      assert rows == before + [last];
      forall p | p in Live(before) ensures p.id != last.id {
        var i :| 0 <= i < |before| && before[i] == p;
        assert rows[i] == p;
      }
    }
  }

  // ---------------------------------------------------------------------------------------------
  // The query

  /** The rows of all rounds up to n. */
  ghost predicate UpTo(posts: seq<Post>, root: Id, n: nat, p: Post) {
    exists m: nat :: m <= n && AtLevel(posts, root, m, p)
  }

  ghost predicate IsRound(posts: seq<Post>, root: Id, n: nat, rows: seq<Post>) {
    Distinct(rows) && forall p :: p in rows <==> AtLevel(posts, root, n, p)
  }

  ghost predicate AreRounds(posts: seq<Post>, root: Id, n: nat, rows: seq<Post>) {
    Distinct(rows) && forall p :: p in rows <==> UpTo(posts, root, n, p)
  }

  lemma NextRound(posts: seq<Post>, root: Id, n: nat, working: seq<Post>)
    requires Forest(posts) && IsRound(posts, root, n, working)
    ensures IsRound(posts, root, n + 1, Join(posts, working))
  {
    JoinIs(posts, working);
    forall p ensures p in Join(posts, working) <==> AtLevel(posts, root, n + 1, p) {
      if p in Join(posts, working) {
        var t :| t in working && p.parent == Some(t.id);
        LevelUp(posts, root, n, t, p);
      }
      if AtLevel(posts, root, n + 1, p) {
        var t := LevelDown(posts, root, n, p);
      }
    }
  }

  lemma AppendRound(posts: seq<Post>, root: Id, n: nat, result: seq<Post>, next: seq<Post>)
    requires Forest(posts) && AreRounds(posts, root, n, result) && IsRound(posts, root, n + 1, next)
    ensures AreRounds(posts, root, n + 1, result + next)
  {
    forall p, q | p in result && q in next ensures p.id != q.id {
      var m: nat :| m <= n && AtLevel(posts, root, m, p);
      LevelAtMostPosition(posts, root, m, p);
      LevelAtMostPosition(posts, root, n + 1, q);
      SameIdSamePost(posts, p, q);
      if p == q {
        OneLevel(posts, root, m, n + 1, p);
      }
    }
    forall p ensures p in result + next <==> UpTo(posts, root, n + 1, p) {
      if UpTo(posts, root, n + 1, p) {
        var m: nat :| m <= n + 1 && AtLevel(posts, root, m, p);
        assert m <= n ==> UpTo(posts, root, n, p);
      }
      if UpTo(posts, root, n, p) {
        var m: nat :| m <= n && AtLevel(posts, root, m, p);
        assert m <= n + 1;
      }
    }
  }

  lemma {:induction false} NothingAbove(posts: seq<Post>, root: Id, n: nat, m: nat, p: Post)
    requires IsRound(posts, root, n, []) && AtLevel(posts, root, m, p)
    ensures m < n
    decreases m
  {
    if m > n {
      var t := LevelDown(posts, root, m - 1, p);
      NothingAbove(posts, root, n, m - 1, t);
    }
  }

  lemma LastRound(posts: seq<Post>, root: Id, n: nat, result: seq<Post>)
    requires Forest(posts) && IsRound(posts, root, n, []) && AreRounds(posts, root, n, result)
    ensures forall p :: p in result <==> Under(posts, root, p)
  {
    forall p ensures p in result <==> Under(posts, root, p) {
      if Under(posts, root, p) {
        var chain :| ChainTo(posts, root, chain, p);
        assert AtLevel(posts, root, |chain| - 1, p);
        NothingAbove(posts, root, n, |chain| - 1, p);
        assert UpTo(posts, root, n, p);
      }
      if p in result {
        var m: nat :| m <= n && AtLevel(posts, root, m, p);
      }
    }
  }

  lemma FirstRound(posts: seq<Post>, root: Id)
    requires Forest(posts)
    ensures IsRound(posts, root, 0, RowsOf(posts, root)) && AreRounds(posts, root, 0, RowsOf(posts, root))
  {
    RowsOfAre(posts, root);
    forall p ensures p in RowsOf(posts, root) <==> AtLevel(posts, root, 0, p) {
      LevelZero(posts, root, p);
    }
    forall p ensures AtLevel(posts, root, 0, p) <==> UpTo(posts, root, 0, p) {
    }
  }

  lemma RoundsEnd(posts: seq<Post>, root: Id, n: nat, working: seq<Post>)
    requires Forest(posts) && IsRound(posts, root, n, working) && working != []
    ensures n < |posts|
  {
    assert working[0] in working;
    LevelAtMostPosition(posts, root, n, working[0]);
  }

  function RowsOf(posts: seq<Post>, id: Id): seq<Post> {
    if posts == [] then []
    else RowsOf(posts[..|posts| - 1], id) + (if posts[|posts| - 1].id == id then [posts[|posts| - 1]] else [])
  }

  lemma {:induction false} RowsOfAre(posts: seq<Post>, id: Id)
    requires Distinct(posts)
    ensures forall p :: p in RowsOf(posts, id) <==> p in posts && p.id == id
    ensures Distinct(RowsOf(posts, id))
  {
    if posts != [] {
      var before, last := posts[..|posts| - 1], posts[|posts| - 1];
      RowsOfAre(before, id);
      assert posts == before + [last];
      forall p | p in before ensures p.id != last.id {
        var i :| 0 <= i < |before| && before[i] == p;
        assert posts[i] == p;
      }
    }
  }

  /** Exactly the posts that are not deleted and hang under the root, each once, oldest first; also
      those that are reached through deleted posts. */
  method GetThread(posts: seq<Post>, root: Id) returns (rows: seq<Post>)
    requires Forest(posts)
    ensures forall p :: p in rows <==> Under(posts, root, p) && !p.deleted
    ensures Distinct(rows)
    ensures Ordered(rows)
  {
    var working := RowsOf(posts, root);
    var result := working;
    ghost var n := 0;
    FirstRound(posts, root);
    while working != []
      invariant IsRound(posts, root, n, working)
      invariant AreRounds(posts, root, n, result)
      decreases |posts| - n
    {
      RoundsEnd(posts, root, n, working);
      var next := Join(posts, working);
      NextRound(posts, root, n, working);
      AppendRound(posts, root, n, result, next);
      working := next;
      result := result + next;
      n := n + 1;
    }
    LastRound(posts, root, n, result);
    LiveIs(result);
    SortByTimeIs(Live(result));
    rows := SortByTime(Live(result));
  }

  /** With a clock that always advances every post of a thread comes after the posts it answers, and
      a root that is not deleted comes first. */
  lemma ThreadReadsInOrder(posts: seq<Post>, root: Id, rows: seq<Post>)
    requires Forest(posts) && Ticking(posts)
    requires Distinct(rows) && Ordered(rows) && forall p :: p in rows <==> Under(posts, root, p) && !p.deleted
    ensures forall i, j :: 0 <= i < |rows| && 0 <= j < |rows| && rows[j].parent == Some(rows[i].id) ==> i < j
    ensures forall p :: p in posts && p.id == root && !p.deleted ==> rows != [] && rows[0] == p
  {
    forall i, j | 0 <= i < |rows| && 0 <= j < |rows| && rows[j].parent == Some(rows[i].id) ensures i < j {
      assert rows[i].created < rows[j].created;
    }
    forall p | p in posts && p.id == root && !p.deleted ensures rows != [] && rows[0] == p {
      assert ChainTo(posts, root, [p], p);
      var k :| 0 <= k < |rows| && rows[k] == p;
      var chain :| ChainTo(posts, root, chain, rows[0]);
      assert AtLevel(posts, root, |chain| - 1, rows[0]);
      LevelAtMostPosition(posts, root, |chain| - 1, rows[0]);
    }
  }
}
