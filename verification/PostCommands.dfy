/** The commands and inbox handlers that write posts, statement by statement on one store. */
module PostCommands {
  import opened Wrappers
  import opened Sanitize
  import opened PostStore
  import Thread

  datatype Error = EmptyContent | TooLong | LookupFailed | NotFound | NotYours | StoreFailed

  datatype Config = Config(domain: string, maxPostLength: nat)

  /** What the process draws or reads for one insertion: identifiers, the time, and whether the
      statement reaches the database. */
  datatype Draw = Draw(id: Id, localId: string, now: int, reached: bool)

  /** A remote object as the inbox handler decodes it. */
  datatype Note = Note(kind: string, id: string, content: string, inReplyTo: Option<string>)

  /** The content of a post made from user input, or why there is none. */
  function Content(text: string, limit: nat): Result<string, Error> {
    var content := Strip(text);
    if content == "" then Err(EmptyContent)
    else if |content| > limit then Err(TooLong)
    else Ok(content)
  }

  function ApId(cfg: Config, user: User, localId: string): string {
    "https://" + cfg.domain + "/users/" + user.username + "/posts/" + localId
  }

  /** A content is accepted exactly if it is the stripped text, not empty and within the limit. */
  lemma ContentExactly(text: string, limit: nat, content: string)
    ensures Content(text, limit) == Ok(content) <==> content == Strip(text) && 0 < |content| <= limit
    ensures Content(text, limit) == Err(EmptyContent) <==> Strip(text) == ""
    ensures Content(text, limit) == Err(TooLong) <==> |Strip(text)| > limit && Strip(text) != ""
  {
  }

  /** A post of its own: it answers nothing, and its ActivityPub id is empty exactly if it stays local, which
      all posts of silenced users do. */
  ghost predicate IsNewPost(p: Post, cfg: Config, user: User, content: string, visibility: Visibility, localOnly: bool,
                            d: Draw) {
    && p.id == d.id && p.localId == d.localId && p.created == d.now
    && p.author == user.id && p.content == content && p.parent == None && p.remoteId == None && !p.deleted
    && p.visibility == (if user.isSilenced then Unlisted else visibility)
    && p.apId == (if localOnly || user.isSilenced then ""
                  else "https://" + cfg.domain + "/users/" + user.username + "/posts/" + d.localId)
  }

  /** A public post that answers this one. */
  ghost predicate IsReply(p: Post, cfg: Config, user: User, content: string, parent: Id, d: Draw) {
    && p.id == d.id && p.localId == d.localId && p.created == d.now
    && p.author == user.id && p.content == content && p.parent == Some(parent) && p.remoteId == None && !p.deleted
    && p.visibility == Public
    && p.apId == "https://" + cfg.domain + "/users/" + user.username + "/posts/" + d.localId
  }

  /** The live row with this local id, if any. */
  ghost predicate IsLive(posts: seq<Post>, localId: string, p: Post) {
    p in posts && p.localId == localId && !p.deleted
  }

  ghost predicate HasApId(posts: seq<Post>, apId: string) {
    exists i :: 0 <= i < |posts| && posts[i].apId == apId
  }

  /** The statements that a database has executed, as a run of the machine of the store. */
  class Database {
    var users: set<Id>
    var posts: seq<Post>
    ghost var run: seq<Statement>

    constructor ()
      ensures Valid() && users == {} && posts == []
    {
      users, posts, run := {}, [], [];
    }

    /** The tables are what this run makes of empty ones. */
    ghost predicate Valid()
      reads this
    {
      Possible(EMPTY, run) && Exec(EMPTY, run).users == users && Exec(EMPTY, run).posts == posts
    }

    /** Inserts the row of a user. */
    method CreateUser(user: Id, reached: bool) returns (ok: bool)
      requires Valid()
      modifies this`users, this`run
      ensures Valid() && old(run) <= run
      ensures ok <==> reached && user !in old(users)
      ensures users == if ok then old(users) + {user} else old(users)
    {
      ok := reached && user !in users;
      if ok {
        RunOneMore(EMPTY, run, AddUser(user));
        run := run + [AddUser(user)];
        users := users + {user};
      }
    }

    /** Refused while the user has posts, deleted ones included. */
    method DeleteUser(user: Id, reached: bool) returns (ok: bool)
      requires Valid()
      modifies this`users, this`run
      ensures Valid() && old(run) <= run
      ensures ok <==> reached && forall p :: p in posts ==> p.author != user
      ensures users == if ok then old(users) - {user} else old(users)
    {
      ok := reached && forall p :: p in posts ==> p.author != user;
      if ok {
        RunOneMore(EMPTY, run, RemoveUser(user));
        run := run + [RemoveUser(user)];
        users := users - {user};
      }
    }

    method HasNoConflict(p: Post) returns (ok: bool)
      ensures ok <==> CanInsert(users, posts, p)
    {
      if p.author !in users || |p.localId| > LOCAL_ID_WIDTH {
        return false;
      }
      var parentFound := p.parent.None? || p.parent.value == p.id;
      var i := 0;
      while i < |posts|
        invariant 0 <= i <= |posts|
        invariant forall k :: 0 <= k < i ==>
                    posts[k].id != p.id && posts[k].localId != p.localId && posts[k].apId != p.apId
        invariant parentFound <==>
                    p.parent.None? || p.parent.value == p.id || HasId(posts[..i], p.parent.value)
      {
        if posts[i].id == p.id || posts[i].localId == p.localId || posts[i].apId == p.apId {
          assert posts[i] in posts;
          return false;
        }
        assert posts[..i + 1] == posts[..i] + [posts[i]];
        if p.parent == Some(posts[i].id) {
          parentFound := true;
          assert posts[i] in posts[..i + 1];
        }
        i := i + 1;
      }
      assert posts[..i] == posts;
      return parentFound;
    }

    method CreatePost(p: Post, reached: bool) returns (ok: bool)
      modifies this`posts
      ensures ok <==> reached && CanInsert(users, old(posts), p)
      ensures ok <==>
                && reached && p.author in users && |p.localId| <= 32
                && (forall q :: q in old(posts) ==> q.id != p.id && q.localId != p.localId && q.apId != p.apId)
                && (p.parent == None || p.parent == Some(p.id) || exists q :: q in old(posts) && p.parent == Some(q.id))
      ensures posts == if ok then old(posts) + [p] else old(posts)
    {
      ok := HasNoConflict(p);
      ok := ok && reached;
      if ok {
        posts := posts + [p];
      }
    }

    method DeletePost(id: Id, author: Id, reached: bool) returns (ok: bool)
      modifies this`posts
      ensures ok == reached
      ensures posts == if ok then MarkDeleted(old(posts), id, author) else old(posts)
      ensures |posts| == |old(posts)|
      ensures forall i :: 0 <= i < |posts| ==>
                posts[i] == if ok && old(posts)[i].id == id && old(posts)[i].author == author
                            then old(posts)[i].(deleted := true) else old(posts)[i]
    {
      if reached {
        posts := MarkDeleted(posts, id, author);
      }
      ok := reached;
    }

    /** Does not find deleted posts. */
    method GetPostByLocalID(localId: string, reached: bool) returns (r: Result<Option<Post>, Error>)
      ensures r.Err? <==> !reached
      ensures r.Err? ==> r.error == LookupFailed
      ensures r.Ok? && r.value.Some? ==> IsLive(posts, localId, r.value.value)
      ensures r.Ok? && r.value.None? ==> forall p :: !IsLive(posts, localId, p)
    {
      if !reached {
        return Err(LookupFailed);
      }
      for i := 0 to |posts|
        invariant forall k :: 0 <= k < i ==> posts[k].localId != localId || posts[k].deleted
      {
        if posts[i].localId == localId && !posts[i].deleted {
          return Ok(Some(posts[i]));
        }
      }
      return Ok(None);
    }

    /** Finds deleted posts too. */
    method GetPostByAPID(apId: string, reached: bool) returns (r: Result<Option<Post>, Error>)
      ensures r.Err? <==> !reached
      ensures r.Err? ==> r.error == LookupFailed
      ensures r.Ok? && r.value.Some? ==> r.value.value in posts && r.value.value.apId == apId
      ensures r.Ok? ==> (r.value.Some? <==> HasApId(posts, apId))
    {
      if !reached {
        return Err(LookupFailed);
      }
      for i := 0 to |posts|
        invariant forall k :: 0 <= k < i ==> posts[k].apId != apId
      {
        if posts[i].apId == apId {
          return Ok(Some(posts[i]));
        }
      }
      return Ok(None);
    }

    method PostCreate(cfg: Config, user: User, text: string, visibility: Visibility, localOnly: bool, d: Draw)
      returns (r: Result<Post, Error>)
      requires Valid()
      modifies this`posts, this`run
      ensures Valid() && old(run) <= run
      ensures Strip(text) == "" ==> r == Err(EmptyContent)
      ensures Strip(text) != "" && |Strip(text)| > cfg.maxPostLength ==> r == Err(TooLong)
      ensures 0 < |Strip(text)| <= cfg.maxPostLength ==>
                exists p :: IsNewPost(p, cfg, user, Strip(text), visibility, localOnly, d)
                            && r == if d.reached && CanInsert(users, old(posts), p) then Ok(p) else Err(StoreFailed)
      ensures posts == if r.Ok? then old(posts) + [r.value] else old(posts)
    {
      var content := Content(text, cfg.maxPostLength);
      if content.Err? {
        return Err(content.error);
      }
      var local, shown := localOnly, visibility;
      if user.isSilenced {
        local, shown := true, Unlisted;
      }
      var apId := ApId(cfg, user, d.localId);
      if local {
        apId := "";
      }
      var p := Post(d.id, d.localId, user.id, content.value, shown, None, apId, None, false, d.now);
      assert IsNewPost(p, cfg, user, Strip(text), visibility, localOnly, d);
      var ok := CreatePost(p, d.reached);
      if !ok {
        return Err(StoreFailed);
      }
      RunOneMore(EMPTY, run, Insert(p));
      run := run + [Insert(p)];
      return Ok(p);
    }

    /** The limit on the length is checked only after the parent was found; `found` says whether the look-up
        of the parent succeeds. */
    method PostReply(cfg: Config, user: User, parentLocalId: string, text: string, found: bool, d: Draw)
      returns (r: Result<Post, Error>)
      requires Valid()
      modifies this`posts, this`run
      ensures Valid() && old(run) <= run
      ensures Strip(text) == "" ==> r == Err(EmptyContent)
      ensures Strip(text) != "" && !found ==> r == Err(LookupFailed)
      ensures Strip(text) != "" && found && (forall q :: !IsLive(old(posts), parentLocalId, q)) ==> r == Err(NotFound)
      ensures forall q :: Strip(text) != "" && found && IsLive(old(posts), parentLocalId, q) ==>
                if |Strip(text)| > cfg.maxPostLength then r == Err(TooLong)
                else
                  exists p :: IsReply(p, cfg, user, Strip(text), q.id, d)
                              && r == if d.reached && CanInsert(users, old(posts), p) then Ok(p) else Err(StoreFailed)
      ensures forall q :: IsLive(old(posts), parentLocalId, q) && r.Ok? ==> Thread.Under(posts, q.id, r.value)
      ensures posts == if r.Ok? then old(posts) + [r.value] else old(posts)
    {
      var content := Strip(text);
      if content == "" {
        return Err(EmptyContent);
      }
      var answer := GetPostByLocalID(parentLocalId, found);
      if answer.Err? {
        return Err(answer.error);
      }
      if answer.value.None? {
        return Err(NotFound);
      }
      var parent := answer.value.value;
      ReachableIsForest(run);
      LiveIsUnique(posts, parentLocalId, parent);
      if |content| > cfg.maxPostLength {
        return Err(TooLong);
      }
      var p := Post(d.id, d.localId, user.id, content, Public, Some(parent.id), ApId(cfg, user, d.localId), None, false,
                    d.now);
      assert IsReply(p, cfg, user, Strip(text), parent.id, d);
      var ok := CreatePost(p, d.reached);
      if !ok {
        return Err(StoreFailed);
      }
      RunTwoMore(EMPTY, run, LookUp(parent.id), Insert(p));
      run := run + [LookUp(parent.id), Insert(p)];
      assert Thread.ChainTo(posts, parent.id, [parent, p], p);
      return Ok(p);
    }

    method PostDelete(user: User, localId: string, found: bool, reached: bool) returns (r: Result<Id, Error>)
      requires Valid()
      modifies this`posts, this`run
      ensures Valid() && old(run) <= run && Evolves(old(posts), posts)
      ensures !found ==> r == Err(LookupFailed)
      ensures found && (forall q :: !IsLive(old(posts), localId, q)) ==> r == Err(NotFound)
      ensures forall q :: found && IsLive(old(posts), localId, q) ==>
                r == if q.author != user.id && !user.isAdmin then Err(NotYours)
                     else if reached then Ok(q.id) else Err(StoreFailed)
      ensures forall q :: IsLive(old(posts), localId, q) && r.Ok? ==>
                && (forall p :: !IsLive(posts, localId, p))
                && |posts| == |old(posts)|
                && forall i :: 0 <= i < |posts| ==>
                     posts[i] == if old(posts)[i].id == q.id then q.(deleted := true) else old(posts)[i]
      ensures r.Err? ==> posts == old(posts)
    {
      var answer := GetPostByLocalID(localId, found);
      if answer.Err? {
        return Err(answer.error);
      }
      if answer.value.None? {
        return Err(NotFound);
      }
      var post := answer.value.value;
      ReachableIsForest(run);
      LiveIsUnique(posts, localId, post);
      if post.author != user.id && !user.isAdmin {
        return Err(NotYours);
      }
      MarkKeepsForest(posts, post.id, post.author);
      MarkHides(posts, localId, post);
      var ok := DeletePost(post.id, post.author, reached);
      if !ok {
        return Err(StoreFailed);
      }
      RunTwoMore(EMPTY, run, LookUp(post.id), Delete(post.id, post.author));
      run := run + [LookUp(post.id), Delete(post.id, post.author)];
      return Ok(post.id);
    }

    /** The row that the handler builds: no author, and a printed UUID as local id. */
    function RemotePost(note: Note, parent: Option<Id>, d: Draw): Post {
      Post(d.id, d.localId, NIL, note.content, Public, parent, note.id, Some(note.id), false, d.now)
    }

    /** Receiving a note never adds a row: an object of another kind or one that is already known, even
        as a deleted post, is skipped, and any other row is refused by the schema. A parent whose look-up
        fails is left out. */
    method HandleCreate(note: Note, found: bool, parentFound: bool, d: Draw) returns (ok: bool)
      requires |d.localId| == UUID_LENGTH
      modifies this`posts
      ensures posts == old(posts)
      ensures ok <==> note.kind != "Note" || (found && HasApId(posts, note.id))
    {
      if note.kind != "Note" {
        return true;
      }
      var existing := GetPostByAPID(note.id, found);
      if existing.Err? {
        return false;
      }
      if existing.value.Some? {
        return true;
      }
      var parent := None;
      if note.inReplyTo.Some? && note.inReplyTo.value != "" {
        var answer := GetPostByAPID(note.inReplyTo.value, parentFound);
        if answer.Ok? && answer.value.Some? {
          parent := Some(answer.value.value.id);
        }
      }
      var p := RemotePost(note, parent, d);
      ok := CreatePost(p, d.reached);
    }

    /** A failed look-up passes for a post that is not there. */
    method HandleDelete(objectId: string, found: bool, reached: bool) returns (ok: bool)
      requires Valid()
      modifies this`posts, this`run
      ensures Valid() && old(run) <= run && Evolves(old(posts), posts)
      ensures found && reached ==> !Visible(posts, objectId)
      ensures |posts| == |old(posts)|
      ensures forall i :: 0 <= i < |posts| && old(posts)[i].apId != objectId ==> posts[i] == old(posts)[i]
      ensures ok <==> !found || reached || !HasApId(old(posts), objectId)
      ensures !found || !reached ==> posts == old(posts)
    {
      ReachableIsForest(run);
      var answer := GetPostByAPID(objectId, found);
      if answer.Err? || answer.value.None? {
        return true;
      }
      var post := answer.value.value;
      MarkKeepsForest(posts, post.id, post.author);
      assert post in posts;
      assert HasId(posts, post.id);
      ok := DeletePost(post.id, post.author, reached);
      if ok {
        RunTwoMore(EMPTY, run, LookUp(post.id), Delete(post.id, post.author));
        run := run + [LookUp(post.id), Delete(post.id, post.author)];
      }
    }
  }

  lemma {:induction false} RunOneMore(w: World, run: seq<Statement>, s: Statement)
    requires Possible(w, run) && Enabled(Exec(w, run), s)
    ensures Possible(w, run + [s]) && Exec(w, run + [s]) == Apply(Exec(w, run), s)
    decreases |run|
  {
    if run == [] {
      assert run + [s] == [s] && [s][1..] == [];
    } else {
      RunOneMore(Apply(w, run[0]), run[1..], s);
      assert (run + [s])[1..] == run[1..] + [s];
    }
  }

  lemma RunTwoMore(w: World, run: seq<Statement>, s: Statement, t: Statement)
    requires Possible(w, run) && Enabled(Exec(w, run), s) && Enabled(Apply(Exec(w, run), s), t)
    ensures Possible(w, run + [s, t]) && Exec(w, run + [s, t]) == Apply(Apply(Exec(w, run), s), t)
  {
    RunOneMore(w, run, s);
    RunOneMore(w, run + [s], t);
    assert run + [s] + [t] == run + [s, t];
  }

  lemma LiveIsUnique(posts: seq<Post>, localId: string, p: Post)
    requires Forest(posts) && IsLive(posts, localId, p)
    ensures forall q :: IsLive(posts, localId, q) ==> q == p
  {
    var i :| 0 <= i < |posts| && posts[i] == p;
    forall q | IsLive(posts, localId, q) ensures q == p {
      var j :| 0 <= j < |posts| && posts[j] == q;
      assert i < j || j < i || i == j;
    }
  }

  lemma MarkHides(posts: seq<Post>, localId: string, p: Post)
    requires Forest(posts) && IsLive(posts, localId, p)
    ensures forall q :: !IsLive(MarkDeleted(posts, p.id, p.author), localId, q)
  {
    var marked := MarkDeleted(posts, p.id, p.author);
    LiveIsUnique(posts, localId, p);
    forall i | 0 <= i < |marked| ensures marked[i].localId == localId ==> marked[i].deleted {
      assert posts[i] in posts && (IsLive(posts, localId, posts[i]) ==> posts[i] == p);
    }
  }
}
