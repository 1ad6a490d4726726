/**
  The table of posts with the constraints of the schema, and the commands and inbox handlers that
  write to it. Posts are kept in the order of their insertion; a row is never removed, deleting only
  sets its mark.
*/
module PostStore {
  import opened Wrappers

  type Id = nat

  /** The identifier that the inbox handler gives to every remote author. */
  const NIL: Id := 0

  /** Width of the column `local_id`, and length of a printed UUID. */
  const LOCAL_ID_WIDTH := 32
  const UUID_LENGTH := 36

  datatype Visibility = Public | Unlisted

  datatype Post = Post(id: Id, localId: string, author: Id, content: string, visibility: Visibility,
                       parent: Option<Id>, apId: string, remoteId: Option<string>, deleted: bool, created: int)

  datatype User = User(id: Id, username: string, isAdmin: bool, isSilenced: bool)

  // ---------------------------------------------------------------------------------------------
  // Constraints of the schema

  /** Primary key, the two unique columns, the column width and the two references. The reference of a
      row to itself is satisfied by its own insertion. */
  ghost predicate CanInsert(users: set<Id>, posts: seq<Post>, p: Post) {
    && p.author in users
    && |p.localId| <= LOCAL_ID_WIDTH
    && (forall q :: q in posts ==> q.id != p.id && q.localId != p.localId && q.apId != p.apId)
    && (p.parent.Some? ==> p.parent.value == p.id || HasId(posts, p.parent.value))
  }

  ghost predicate HasId(posts: seq<Post>, id: Id) {
    exists q :: q in posts && q.id == id
  }

  function MarkDeleted(posts: seq<Post>, id: Id, author: Id): seq<Post> {
    seq(|posts|, i requires 0 <= i < |posts| =>
      if posts[i].id == id && posts[i].author == author then posts[i].(deleted := true) else posts[i])
  }

  // ---------------------------------------------------------------------------------------------
  // The invariant of the store

  ghost predicate Unique(posts: seq<Post>) {
    forall i, j :: 0 <= i < j < |posts| ==>
      posts[i].id != posts[j].id && posts[i].localId != posts[j].localId && posts[i].apId != posts[j].apId
  }

  /** Every reply stands after the post that it answers. */
  ghost predicate RepliesFollow(posts: seq<Post>) {
    forall i :: 0 <= i < |posts| && posts[i].parent.Some? ==> HasId(posts[..i], posts[i].parent.value)
  }

  ghost predicate Forest(posts: seq<Post>) {
    Unique(posts) && RepliesFollow(posts)
  }

  /** Creation times of a clock that never shows the same time twice. */
  ghost predicate Ticking(posts: seq<Post>) {
    forall i, j :: 0 <= i < j < |posts| ==> posts[i].created < posts[j].created
  }

  lemma InsertKeepsForest(users: set<Id>, posts: seq<Post>, p: Post)
    requires Forest(posts) && CanInsert(users, posts, p)
    requires p.parent.Some? ==> HasId(posts, p.parent.value)
    ensures Forest(posts + [p])
  {
    var longer := posts + [p];
    forall i | 0 <= i < |longer| && longer[i].parent.Some?
      ensures HasId(longer[..i], longer[i].parent.value)
    {
      assert longer[..i] == posts[..i];
      if i == |posts| {
        assert posts[..i] == posts;
      }
    }
  }

  /** Without the look-up of the parent the schema alone would let a row answer itself. */
  lemma SchemaAllowsSelfReply(users: set<Id>, posts: seq<Post>, p: Post)
    requires CanInsert(users, posts, p) && p.parent == Some(p.id)
    ensures !Forest(posts + [p])
  {
    var longer := posts + [p];
    assert longer[|posts|] == p && longer[..|posts|] == posts;
  }

  /** A row as it was, but for its mark, which is never taken back. */
  predicate Continues(old_: Post, new_: Post) {
    new_ == old_.(deleted := new_.deleted) && (old_.deleted ==> new_.deleted)
  }

  /** Rows are only appended and marked. */
  ghost predicate Evolves(before: seq<Post>, after: seq<Post>) {
    && |before| <= |after|
    && forall i :: 0 <= i < |before| ==> Continues(before[i], after[i])
  }

  lemma MarkKeepsForest(posts: seq<Post>, id: Id, author: Id)
    requires Forest(posts)
    ensures Forest(MarkDeleted(posts, id, author)) && Evolves(posts, MarkDeleted(posts, id, author))
  {
    var marked := MarkDeleted(posts, id, author);
    forall i | 0 <= i < |marked| && marked[i].parent.Some? ensures HasId(marked[..i], marked[i].parent.value) {
      assert Evolves(posts[..i], marked[..i]);
    }
  }

  // ---------------------------------------------------------------------------------------------
  // Statements of any number of sessions and handlers, interleaved

  /** `seen` holds the identifiers that some look-up has returned; a reply names one of these. */
  datatype World = World(users: set<Id>, posts: seq<Post>, seen: set<Id>)

  datatype Statement =
    | AddUser(user: Id)
    | RemoveUser(user: Id)
    | LookUp(id: Id)
    | Insert(post: Post)
    | Delete(id: Id, author: Id)

  const EMPTY := World({}, [], {})

  ghost predicate Enabled(w: World, s: Statement) {
    match s
    case AddUser(_) => true
    case RemoveUser(user) => forall p :: p in w.posts ==> p.author != user
    case LookUp(id) => HasId(w.posts, id)
    case Insert(p) => CanInsert(w.users, w.posts, p) && (p.parent.Some? ==> p.parent.value in w.seen)
    case Delete(_, _) => true
  }

  function Apply(w: World, s: Statement): World {
    match s
    case AddUser(user) => w.(users := w.users + {user})
    case RemoveUser(user) => w.(users := w.users - {user})
    case LookUp(id) => w.(seen := w.seen + {id})
    case Insert(p) => w.(posts := w.posts + [p])
    case Delete(id, author) => w.(posts := MarkDeleted(w.posts, id, author))
  }

  ghost predicate Possible(w: World, run: seq<Statement>)
    decreases |run|
  {
    run == [] || (Enabled(w, run[0]) && Possible(Apply(w, run[0]), run[1..]))
  }

  function Exec(w: World, run: seq<Statement>): World
    decreases |run|
  {
    if run == [] then w else Exec(Apply(w, run[0]), run[1..])
  }

  ghost predicate WorldOk(w: World) {
    Forest(w.posts) && forall id :: id in w.seen ==> HasId(w.posts, id)
  }

  lemma StepKeepsWorld(w: World, s: Statement)
    requires WorldOk(w) && Enabled(w, s)
    ensures WorldOk(Apply(w, s)) && Evolves(w.posts, Apply(w, s).posts)
  {
    var v := Apply(w, s);
    match s {
      case Insert(p) => InsertKeepsForest(w.users, w.posts, p);
      case Delete(id, author) => MarkKeepsForest(w.posts, id, author);
      case _ =>
    }
    forall id | id in w.seen ensures HasId(v.posts, id) {
    }
  }

  /** In every reachable store replies form a forest in the order of insertion. */
  lemma {:induction false} RunsKeepWorld(w: World, run: seq<Statement>)
    requires WorldOk(w) && Possible(w, run)
    ensures WorldOk(Exec(w, run)) && Evolves(w.posts, Exec(w, run).posts)
    decreases |run|
  {
    if run != [] {
      StepKeepsWorld(w, run[0]);
      RunsKeepWorld(Apply(w, run[0]), run[1..]);
    }
  }

  lemma ReachableIsForest(run: seq<Statement>)
    requires Possible(EMPTY, run)
    ensures Forest(Exec(EMPTY, run).posts)
  {
    RunsKeepWorld(EMPTY, run);
  }

  /** Every row has an author among the users, and a local id that fits its column. */
  ghost predicate RowsFit(w: World) {
    forall i :: 0 <= i < |w.posts| ==> w.posts[i].author in w.users && |w.posts[i].localId| <= 32
  }

  /** In every reachable store authors exist and columns are wide enough. */
  lemma {:induction false} RowsAlwaysFit(w: World, run: seq<Statement>)
    requires RowsFit(w) && Possible(w, run)
    ensures RowsFit(Exec(w, run))
    decreases |run|
  {
    if run != [] {
      RowsAlwaysFit(Apply(w, run[0]), run[1..]);
    }
  }

  // ---------------------------------------------------------------------------------------------
  // Tombstones

  predicate Visible(posts: seq<Post>, apId: string) {
    exists i :: 0 <= i < |posts| && posts[i].apId == apId && !posts[i].deleted
  }

  /** Once the post of an ActivityPub id is deleted, no run shows a post of this id again, and the id
      keeps belonging to that one row. */
  lemma TombstonesStay(w: World, run: seq<Statement>, i: nat)
    requires WorldOk(w) && Possible(w, run) && i < |w.posts| && w.posts[i].deleted
    ensures var posts := Exec(w, run).posts;
            && i < |posts| && posts[i] == w.posts[i]
            && !Visible(posts, w.posts[i].apId)
            && forall j :: 0 <= j < |posts| && posts[j].apId == w.posts[i].apId ==> j == i
  {
    RunsKeepWorld(w, run);
    var posts := Exec(w, run).posts;
    assert Continues(w.posts[i], posts[i]);
  }

  lemma {:induction false} RunParts(w: World, run: seq<Statement>, more: seq<Statement>)
    requires Possible(w, run + more)
    ensures Possible(w, run) && Possible(Exec(w, run), more) && Exec(w, run + more) == Exec(Exec(w, run), more)
    decreases |run|
  {
    if run == [] {
      assert run + more == more;
    } else {
      assert (run + more)[0] == run[0] && (run + more)[1..] == run[1..] + more;
      RunParts(Apply(w, run[0]), run[1..], more);
    }
  }

  /** Local-only posts are all stored with the empty ActivityPub id, and in the whole life of an instance
      there is only one: what is found at any later time is the row that was found first. */
  lemma OneLocalOnlyPost(run: seq<Statement>, more: seq<Statement>, i: nat, j: nat)
    requires Possible(EMPTY, run + more)
    requires var posts := Exec(EMPTY, run).posts; i < |posts| && posts[i].apId == ""
    requires var posts := Exec(EMPTY, run + more).posts; j < |posts| && posts[j].apId == ""
    ensures i == j
  {
    RunParts(EMPTY, run, more);
    RunsKeepWorld(EMPTY, run);
    RunsKeepWorld(Exec(EMPTY, run), more);
    var before, after := Exec(EMPTY, run).posts, Exec(EMPTY, run + more).posts;
    assert Continues(before[i], after[i]);
  }
}
