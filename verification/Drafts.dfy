/** Drafts: saved, posted, or thrown away; and what is kept of them when statements fail. */
module Drafts {
  import opened Wrappers
  import opened Sanitize
  import opened PostStore
  import opened PostCommands

  datatype Draft = Draft(id: string, user: Id, content: string, visibility: Visibility, updated: int)

  datatype DraftError = Rejected(error: Error) | ListFailed | NoSuchDraft | NotDeleted

  /** A draft passes the checks of `post` with exactly the content that was saved, so saving a text and
      posting the draft under the same limit stores what posting the text directly would. */
  lemma DraftThenPostIsPost(text: string, limit: nat)
    ensures match Content(text, limit)
            case Ok(content) => Content(content, limit) == Ok(content)
            case Err(_) => true
  {
    StripFixpoint(text);
  }

  function Remove(drafts: seq<Draft>, id: string, user: Id): (left: seq<Draft>)
    ensures forall d :: d in left <==> d in drafts && (d.id != id || d.user != user)
  {
    if drafts == [] then []
    else if drafts[0].id == id && drafts[0].user == user then Remove(drafts[1..], id, user)
    else [drafts[0]] + Remove(drafts[1..], id, user)
  }

  ghost predicate Matches(d: Draft, user: Id, prefix: string) {
    d.user == user && prefix <= d.id
  }

  // ---------------------------------------------------------------------------------------------
  // Any number of sessions, statement by statement, with failures

  /** Where a session stands inside `draft post` or `draft delete`. */
  datatype Stage = Idle | PostFound(draft: Draft) | PostInserted(draft: Draft) | DeleteFound(draft: Draft)

  /** A post as far as drafts are concerned. */
  datatype Published = Published(author: Id, content: string)

  /** `saved` records every draft ever created, `discarded` those removed by `draft delete`. */
  datatype DraftWorld = DraftWorld(drafts: seq<Draft>, posts: seq<Published>, sessions: map<nat, Stage>,
                         saved: seq<Draft>, discarded: seq<Draft>)

  datatype Event =
    | Save(text: string, limit: nat, draft: Draft)
    | FindToPost(session: nat, draft: Draft)
    | InsertPost(session: nat, limit: nat, succeeds: bool)
    | RemovePosted(session: nat, succeeds: bool)
    | FindToDelete(session: nat, draft: Draft)
    | RemoveDeleted(session: nat, succeeds: bool)

  const START := DraftWorld([], [], map[], [], [])

  function StageOf(w: DraftWorld, session: nat): Stage {
    if session in w.sessions then w.sessions[session] else Idle
  }

  /** Identifiers of drafts are never drawn twice. */
  ghost predicate Enabled(w: DraftWorld, e: Event) {
    match e
    case Save(text, limit, draft) =>
      Content(text, limit) == Ok(draft.content) && forall other :: other in w.saved ==> other.id != draft.id
    case FindToPost(session, draft) => StageOf(w, session).Idle? && draft in w.drafts
    case InsertPost(session, _, _) => StageOf(w, session).PostFound?
    case RemovePosted(session, _) => StageOf(w, session).PostInserted?
    case FindToDelete(session, draft) => StageOf(w, session).Idle? && draft in w.drafts
    case RemoveDeleted(session, _) => StageOf(w, session).DeleteFound?
  }

  function Goto(w: DraftWorld, session: nat, stage: Stage): DraftWorld {
    w.(sessions := w.sessions[session := stage])
  }

  ghost function Apply(w: DraftWorld, e: Event): DraftWorld
    requires Enabled(w, e)
  {
    match e
    case Save(_, _, draft) => w.(drafts := w.drafts + [draft], saved := w.saved + [draft])
    case FindToPost(session, draft) => Goto(w, session, PostFound(draft))
    case InsertPost(session, limit, succeeds) =>
      var draft := w.sessions[session].draft;
      var content := Content(draft.content, limit);
      if succeeds && content.Ok? then
        Goto(w, session, PostInserted(draft)).(posts := w.posts + [Published(draft.user, content.value)])
      else Goto(w, session, Idle)
    case RemovePosted(session, succeeds) =>
      var draft := w.sessions[session].draft;
      Goto(w, session, Idle).(drafts := if succeeds then Remove(w.drafts, draft.id, draft.user) else w.drafts)
    case FindToDelete(session, draft) => Goto(w, session, DeleteFound(draft))
    case RemoveDeleted(session, succeeds) =>
      var draft := w.sessions[session].draft;
      if succeeds then
        Goto(w, session, Idle).(drafts := Remove(w.drafts, draft.id, draft.user), discarded := w.discarded + [draft])
      else Goto(w, session, Idle)
  }

  ghost function ExecDrafts(w: DraftWorld, run: seq<Event>): Option<DraftWorld>
    decreases |run|
  {
    if run == [] then Some(w)
    else if Enabled(w, run[0]) then ExecDrafts(Apply(w, run[0]), run[1..])
    else None
  }

  /** The draft is still there, was published by its author word for word, or was thrown away on purpose. */
  ghost predicate Kept(w: DraftWorld, draft: Draft) {
    draft in w.drafts || Published(draft.user, draft.content) in w.posts || draft in w.discarded
  }

  ghost predicate StageOk(w: DraftWorld, stage: Stage) {
    match stage
    case Idle => true
    case PostInserted(d) => d in w.saved && Published(d.user, d.content) in w.posts
    case PostFound(d) => d in w.saved
    case DeleteFound(d) => d in w.saved
  }

  ghost predicate DraftsOk(w: DraftWorld) {
    && (forall d :: d in w.saved ==> TagFree(d.content) && Kept(w, d))
    && (forall d, e :: d in w.saved && e in w.saved && d.id == e.id ==> d == e)
    && (forall d :: d in w.drafts ==> d in w.saved)
    && (forall s :: s in w.sessions ==> StageOk(w, w.sessions[s]))
  }

  lemma SaveKeepsDrafts(w: DraftWorld, draft: Draft)
    requires DraftsOk(w) && TagFree(draft.content) && forall other :: other in w.saved ==> other.id != draft.id
    ensures DraftsOk(w.(drafts := w.drafts + [draft], saved := w.saved + [draft]))
  {
    var v := w.(drafts := w.drafts + [draft], saved := w.saved + [draft]);
    forall d | d in v.saved ensures TagFree(d.content) && Kept(v, d) {
      assert d in w.saved ==> Kept(w, d);
    }
    forall s | s in v.sessions ensures StageOk(v, v.sessions[s]) {
      assert StageOk(w, w.sessions[s]);
    }
  }

  lemma PublishKeepsDrafts(w: DraftWorld, post: Published)
    requires DraftsOk(w)
    ensures DraftsOk(w.(posts := w.posts + [post]))
  {
    var v := w.(posts := w.posts + [post]);
    forall d | d in v.saved ensures Kept(v, d) {
      assert Kept(w, d);
    }
    forall s | s in v.sessions ensures StageOk(v, v.sessions[s]) {
      assert StageOk(w, w.sessions[s]);
    }
  }

  /** Removing a draft is harmless once it is published, or when it counts as thrown away. */
  lemma RemoveKeepsDrafts(w: DraftWorld, draft: Draft, discarded: seq<Draft>)
    requires DraftsOk(w) && draft in w.saved
    requires (forall d :: d in w.discarded ==> d in discarded)
    requires draft in discarded || Published(draft.user, draft.content) in w.posts
    ensures DraftsOk(w.(drafts := Remove(w.drafts, draft.id, draft.user), discarded := discarded))
  {
    var v := w.(drafts := Remove(w.drafts, draft.id, draft.user), discarded := discarded);
    forall d | d in v.saved ensures Kept(v, d) {
      assert Kept(w, d);
    }
    forall s | s in v.sessions ensures StageOk(v, v.sessions[s]) {
      assert StageOk(w, w.sessions[s]);
    }
  }

  lemma GotoKeepsDrafts(w: DraftWorld, session: nat, stage: Stage)
    requires DraftsOk(w) && StageOk(w, stage)
    ensures DraftsOk(Goto(w, session, stage))
  {
    var v := Goto(w, session, stage);
    forall d | d in v.saved ensures Kept(v, d) {
      assert Kept(w, d);
    }
    forall s | s in v.sessions ensures StageOk(v, v.sessions[s]) {
      assert s in w.sessions ==> StageOk(w, w.sessions[s]);
    }
  }

  lemma InsertPostKeepsDrafts(w: DraftWorld, session: nat, limit: nat, succeeds: bool)
    requires DraftsOk(w) && Enabled(w, InsertPost(session, limit, succeeds))
    ensures DraftsOk(Apply(w, InsertPost(session, limit, succeeds)))
  {
    var draft := w.sessions[session].draft;
    assert StageOk(w, w.sessions[session]);
    var content := Content(draft.content, limit);
    if succeeds && content.Ok? {
      StripFixpoint(draft.content);
      var post := Published(draft.user, content.value);
      PublishKeepsDrafts(w, post);
      GotoKeepsDrafts(w.(posts := w.posts + [post]), session, PostInserted(draft));
    } else {
      GotoKeepsDrafts(w, session, Idle);
    }
  }

  lemma EventKeepsDrafts(w: DraftWorld, e: Event)
    requires DraftsOk(w) && Enabled(w, e)
    ensures DraftsOk(Apply(w, e))
  {
    match e {
      case Save(text, _, draft) =>
        StripFixpoint(text);
        SaveKeepsDrafts(w, draft);
      case FindToPost(session, draft) =>
        GotoKeepsDrafts(w, session, PostFound(draft));
      case FindToDelete(session, draft) =>
        GotoKeepsDrafts(w, session, DeleteFound(draft));
      case InsertPost(session, limit, succeeds) =>
        InsertPostKeepsDrafts(w, session, limit, succeeds);
      case RemovePosted(session, succeeds) =>
        assert StageOk(w, w.sessions[session]);
        GotoKeepsDrafts(w, session, Idle);
        RemoveKeepsDrafts(Goto(w, session, Idle), w.sessions[session].draft, w.discarded);
      case RemoveDeleted(session, succeeds) =>
        assert StageOk(w, w.sessions[session]);
        GotoKeepsDrafts(w, session, Idle);
        RemoveKeepsDrafts(Goto(w, session, Idle), w.sessions[session].draft,
                          w.discarded + [w.sessions[session].draft]);
    }
  }

  lemma {:induction false} EventsKeepDrafts(w: DraftWorld, run: seq<Event>)
    requires DraftsOk(w) && ExecDrafts(w, run).Some?
    ensures DraftsOk(ExecDrafts(w, run).value)
    decreases |run|
  {
    if run != [] {
      EventKeepsDrafts(w, run[0]);
      EventsKeepDrafts(Apply(w, run[0]), run[1..]);
    }
  }

  /** In every run, whichever statements fail, no draft is lost. */
  lemma NoDraftIsLost(run: seq<Event>, draft: Draft)
    requires ExecDrafts(START, run).Some? && draft in ExecDrafts(START, run).value.saved
    ensures Kept(ExecDrafts(START, run).value, draft)
  {
    EventsKeepDrafts(START, run);
  }

  // ---------------------------------------------------------------------------------------------
  // The commands of one session

  /** A post of this author with this content, deleted or not. */
  ghost predicate Posted(posts: seq<Post>, p: Published) {
    exists i :: 0 <= i < |posts| && posts[i].author == p.author && posts[i].content == p.content
  }

  lemma {:induction false} ExecOneMore(w: DraftWorld, run: seq<Event>, e: Event)
    requires ExecDrafts(w, run).Some? && Enabled(ExecDrafts(w, run).value, e)
    ensures ExecDrafts(w, run + [e]) == Some(Apply(ExecDrafts(w, run).value, e))
    decreases |run|
  {
    if run == [] {
      assert run + [e] == [e] && [e][1..] == [];
    } else {
      ExecOneMore(Apply(w, run[0]), run[1..], e);
      assert (run + [e])[1..] == run[1..] + [e];
    }
  }

  ghost predicate AllIdle(w: DraftWorld) {
    forall s :: s in w.sessions ==> w.sessions[s].Idle?
  }

  /** The table of drafts is what this run leaves, and what it published is in the store. */
  ghost predicate Shows(w: DraftWorld, drafts: seq<Draft>, posts: seq<Post>) {
    && w.drafts == drafts && AllIdle(w)
    && forall p :: p in w.posts ==> Posted(posts, p)
  }

  lemma PostedStays(posts: seq<Post>, more: seq<Post>, p: Published)
    requires Evolves(posts, more) && Posted(posts, p)
    ensures Posted(more, p)
  {
    var i :| 0 <= i < |posts| && posts[i].author == p.author && posts[i].content == p.content;
    assert Continues(posts[i], more[i]);
  }

  /** Commands on posts, which only append and mark rows, do not disturb this. */
  lemma ShowsStays(w: DraftWorld, drafts: seq<Draft>, posts: seq<Post>, more: seq<Post>)
    requires Shows(w, drafts, posts) && Evolves(posts, more)
    ensures Shows(w, drafts, more)
  {
    forall p | p in w.posts ensures Posted(more, p) {
      PostedStays(posts, more, p);
    }
  }

  /** `draft post` up to a failure, as events of session 0. */
  lemma PostingIsARun(w: DraftWorld, draft: Draft, limit: nat, inserted: bool, removed: bool)
    returns (events: seq<Event>, v: DraftWorld)
    requires AllIdle(w) && draft in w.drafts
    requires inserted ==> Content(draft.content, limit).Ok?
    ensures AllIdle(v) && forall run :: ExecDrafts(START, run) == Some(w) ==> ExecDrafts(START, run + events) == Some(v)
    ensures v.drafts == (if inserted && removed then Remove(w.drafts, draft.id, draft.user) else w.drafts)
    ensures v.posts == if inserted then w.posts + [Published(draft.user, Content(draft.content, limit).value)] else w.posts
    ensures v.saved == w.saved && v.discarded == w.discarded
  {
    var find, insert, remove := FindToPost(0, draft), InsertPost(0, limit, inserted), RemovePosted(0, removed);
    var w1 := Apply(w, find);
    var w2 := Apply(w1, insert);
    if inserted {
      v := Apply(w2, remove);
      events := [find, insert, remove];
      forall run | ExecDrafts(START, run) == Some(w) ensures ExecDrafts(START, run + events) == Some(v) {
        ExecOneMore(START, run, find);
        ExecOneMore(START, run + [find], insert);
        ExecOneMore(START, run + [find] + [insert], remove);
        assert run + [find] + [insert] + [remove] == run + events;
      }
    } else {
      v := w2;
      events := [find, insert];
      forall run | ExecDrafts(START, run) == Some(w) ensures ExecDrafts(START, run + events) == Some(v) {
        ExecOneMore(START, run, find);
        ExecOneMore(START, run + [find], insert);
        assert run + [find] + [insert] == run + events;
      }
    }
  }

  lemma DiscardingIsARun(w: DraftWorld, draft: Draft, removed: bool) returns (events: seq<Event>, v: DraftWorld)
    requires AllIdle(w) && draft in w.drafts
    ensures AllIdle(v) && forall run :: ExecDrafts(START, run) == Some(w) ==> ExecDrafts(START, run + events) == Some(v)
    ensures v.drafts == (if removed then Remove(w.drafts, draft.id, draft.user) else w.drafts)
    ensures v.discarded == if removed then w.discarded + [draft] else w.discarded
    ensures v.saved == w.saved && v.posts == w.posts
  {
    var find, remove := FindToDelete(0, draft), RemoveDeleted(0, removed);
    v := Apply(Apply(w, find), remove);
    events := [find, remove];
    forall run | ExecDrafts(START, run) == Some(w) ensures ExecDrafts(START, run + events) == Some(v) {
      ExecOneMore(START, run, find);
      ExecOneMore(START, run + [find], remove);
      assert run + [find] + [remove] == run + events;
    }
  }

  class DraftCommands {
    const db: Database
    var drafts: seq<Draft>
    ghost var run: seq<Event>

    constructor (db: Database)
      requires db.Valid()
      ensures this.db == db && drafts == [] && Valid() && Saved() == []
    {
      this.db := db;
      drafts, run := [], [];
    }

    ghost predicate Valid()
      reads this, db
    {
      db.Valid() && ExecDrafts(START, run).Some? && Shows(ExecDrafts(START, run).value, drafts, db.posts)
    }

    /** All drafts ever created. */
    ghost function Saved(): seq<Draft>
      reads this
    {
      if ExecDrafts(START, run).Some? then ExecDrafts(START, run).value.saved else []
    }

    /** All drafts that `draft delete` has removed. */
    ghost function Discarded(): seq<Draft>
      reads this
    {
      if ExecDrafts(START, run).Some? then ExecDrafts(START, run).value.discarded else []
    }

    /** Identifiers of drafts are random and never drawn twice. */
    method DraftNew(cfg: Config, user: User, text: string, id: string, now: int, reached: bool)
      returns (r: Result<Draft, DraftError>)
      requires Valid() && forall other :: other in Saved() ==> other.id != id
      modifies this
      ensures Valid()
      ensures match Content(text, cfg.maxPostLength)
              case Err(e) => r == Err(Rejected(e))
              case Ok(content) =>
                r == if reached && user.id in db.users then Ok(Draft(id, user.id, content, Public, now))
                     else Err(Rejected(StoreFailed))
      ensures drafts == if r.Ok? then old(drafts) + [r.value] else old(drafts)
      ensures Saved() == if r.Ok? then old(Saved()) + [r.value] else old(Saved())
      ensures Discarded() == old(Discarded())
    {
      var content := Content(text, cfg.maxPostLength);
      if content.Err? {
        return Err(Rejected(content.error));
      }
      if !reached || user.id !in db.users {
        return Err(Rejected(StoreFailed));
      }
      var d := Draft(id, user.id, content.value, Public, now);
      ExecOneMore(START, run, Save(text, cfg.maxPostLength, d));
      run := run + [Save(text, cfg.maxPostLength, d)];
      drafts := drafts + [d];
      return Ok(d);
    }

    /** The most recent of the user's drafts whose id starts with the prefix. */
    method FindDraft(user: Id, prefix: string, listed: bool) returns (r: Result<Draft, DraftError>)
      ensures !listed ==> r == Err(ListFailed)
      ensures r.Ok? ==>
                && r.value in drafts && Matches(r.value, user, prefix)
                && forall d :: d in drafts && Matches(d, user, prefix) ==> d.updated <= r.value.updated
      ensures listed && r.Err? ==> r.error == NoSuchDraft && forall d :: d in drafts ==> !Matches(d, user, prefix)
    {
      if !listed {
        return Err(ListFailed);
      }
      var found: Option<Draft> := None;
      for i := 0 to |drafts|
        invariant found.Some? ==>
                    && found.value in drafts[..i] && Matches(found.value, user, prefix)
                    && forall k :: 0 <= k < i && Matches(drafts[k], user, prefix) ==>
                         drafts[k].updated <= found.value.updated
        invariant found.None? ==> forall k :: 0 <= k < i ==> !Matches(drafts[k], user, prefix)
      {
        assert drafts[..i + 1] == drafts[..i] + [drafts[i]];
        if drafts[i].user == user && prefix <= drafts[i].id {
          if found.None? || found.value.updated < drafts[i].updated {
            found := Some(drafts[i]);
          }
        }
      }
      return if found.Some? then Ok(found.value) else Err(NoSuchDraft);
    }

    /** Inserts the post first and removes the draft only after that succeeded. The row is that of a user who is
        not silenced. */
    method DraftPost(cfg: Config, user: User, prefix: string, listed: bool, d: Draw, deleteReached: bool)
      returns (draft: Option<Draft>, r: Result<Post, DraftError>)
      requires Valid()
      modifies this, db`posts, db`run
      ensures Valid() && old(db.run) <= db.run
      ensures !listed ==> draft.None? && r == Err(ListFailed)
      ensures listed && draft.None? ==> r == Err(NoSuchDraft) && forall x :: x in old(drafts) ==> !Matches(x, user.id, prefix)
      ensures draft.Some? ==>
                && draft.value in old(drafts) && Matches(draft.value, user.id, prefix)
                && (forall x :: x in old(drafts) && Matches(x, user.id, prefix) ==> x.updated <= draft.value.updated)
                && match Content(draft.value.content, cfg.maxPostLength)
                   case Err(e) => r == Err(Rejected(e))
                   case Ok(content) =>
                     exists p ::
                       && IsNewPost(p, cfg, user.(isSilenced := false), content, draft.value.visibility, false, d)
                       && if d.reached && CanInsert(db.users, old(db.posts), p) then
                            && db.posts == old(db.posts) + [p]
                            && r == (if deleteReached then Ok(p) else Err(NotDeleted))
                          else r == Err(Rejected(StoreFailed))
      ensures r.Ok? ==> drafts == Remove(old(drafts), draft.value.id, user.id)
      ensures r.Err? ==> drafts == old(drafts)
      ensures r.Err? && r.error != NotDeleted ==> db.posts == old(db.posts)
      ensures Saved() == old(Saved()) && Discarded() == old(Discarded())
    {
      var found := FindDraft(user.id, prefix, listed);
      if found.Err? {
        return None, Err(found.error);
      }
      draft := Some(found.value);
      ghost var w := ExecDrafts(START, run).value;
      var content := Content(found.value.content, cfg.maxPostLength);
      if content.Err? {
        return draft, Err(Rejected(content.error));
      }
      var p := Post(d.id, d.localId, user.id, content.value, found.value.visibility, None, ApId(cfg, user, d.localId),
                    None, false, d.now);
      assert IsNewPost(p, cfg, user.(isSilenced := false), content.value, found.value.visibility, false, d);
      var ok := db.CreatePost(p, d.reached);
      ghost var events, v := PostingIsARun(w, found.value, cfg.maxPostLength, ok, deleteReached);
      run := run + events;
      if !ok {
        return draft, Err(Rejected(StoreFailed));
      }
      RunOneMore(EMPTY, db.run, Insert(p));
      db.run := db.run + [Insert(p)];
      ShowsStays(w, old(drafts), old(db.posts), db.posts);
      assert db.posts[|old(db.posts)|] == p;
      if !deleteReached {
        return draft, Err(NotDeleted);
      }
      drafts := Remove(drafts, found.value.id, user.id);
      return draft, Ok(p);
    }

    method DraftDelete(user: Id, prefix: string, listed: bool, reached: bool) returns (r: Result<Draft, DraftError>)
      requires Valid()
      modifies this
      ensures Valid()
      ensures r.Ok? ==> r.value in old(drafts) && Matches(r.value, user, prefix)
                        && drafts == Remove(old(drafts), r.value.id, user)
      ensures r.Err? ==> drafts == old(drafts)
      ensures !listed ==> r == Err(ListFailed)
      ensures listed ==> (r == Err(NoSuchDraft) <==> forall x :: x in old(drafts) ==> !Matches(x, user, prefix))
      ensures listed && reached ==> r.Ok? || r == Err(NoSuchDraft)
      ensures Saved() == old(Saved())
      ensures Discarded() == if r.Ok? then old(Discarded()) + [r.value] else old(Discarded())
    {
      var found := FindDraft(user, prefix, listed);
      if found.Err? {
        return Err(found.error);
      }
      ghost var events, v := DiscardingIsARun(ExecDrafts(START, run).value, found.value, reached);
      run := run + events;
      if !reached {
        return Err(NotDeleted);
      }
      drafts := Remove(drafts, found.value.id, user);
      return Ok(found.value);
    }
  }

  /** In every state that the commands can reach, each draft ever saved is still there, is in the store of
      posts by its author word for word, or was thrown away. */
  lemma CommandsLoseNoDraft(c: DraftCommands, draft: Draft)
    requires c.Valid() && draft in c.Saved()
    ensures draft in c.drafts || Posted(c.db.posts, Published(draft.user, draft.content)) || draft in c.Discarded()
  {
    NoDraftIsLost(c.run, draft);
  }

  // ---------------------------------------------------------------------------------------------
  // Two ways to publish

  lemma {:induction false} RemoveNew(drafts: seq<Draft>, d: Draft)
    requires forall other :: other in drafts ==> other.id != d.id
    ensures Remove(drafts + [d], d.id, d.user) == drafts
  {
    if drafts == [] {
      assert drafts + [d] == [d] && [d][1..] == [];
    } else {
      assert (drafts + [d])[1..] == drafts[1..] + [d];
      RemoveNew(drafts[1..], d);
    }
  }

  lemma SamePosts(cfg: Config, user: User, content: string, d: Draw)
    ensures forall p, q :: IsNewPost(p, cfg, user, content, Public, false, d)
                           && IsNewPost(q, cfg, user.(isSilenced := false), content, Public, false, d)
                           ==> (p == q <==> !user.isSilenced)
  {
  }

  /** `draft new` and then `draft post` of what it saved, which is found by any part of the id that is printed,
      since no older draft of the user is as recent. */
  method SaveAndPost(c: DraftCommands, cfg: Config, user: User, text: string, id: string, prefix: string, now: int,
                     d: Draw)
    returns (r: Result<Post, DraftError>)
    requires c.Valid() && prefix <= id && forall x :: x in c.Saved() ==> x.id != id
    requires forall x :: x in c.drafts && Matches(x, user.id, prefix) ==> x.updated < now
    modifies c, c.db`posts, c.db`run
    ensures match Content(text, cfg.maxPostLength)
            case Err(e) => r == Err(Rejected(e))
            case Ok(content) =>
              exists p :: IsNewPost(p, cfg, user.(isSilenced := false), content, Public, false, d)
                          && r == if d.reached && CanInsert(c.db.users, old(c.db.posts), p) then Ok(p)
                                  else Err(Rejected(StoreFailed))
    ensures c.db.posts == if r.Ok? then old(c.db.posts) + [r.value] else old(c.db.posts)
    ensures r.Ok? ==> c.drafts == old(c.drafts)
  {
    var saved := c.DraftNew(cfg, user, text, id, now, true);
    if saved.Err? {
      if Content(text, cfg.maxPostLength).Ok? {
        var p := Post(d.id, d.localId, user.id, Content(text, cfg.maxPostLength).value, Public, None,
                      ApId(cfg, user, d.localId), None, false, d.now);
        assert IsNewPost(p, cfg, user.(isSilenced := false), p.content, Public, false, d);
      }
      return Err(saved.error);
    }
    DraftThenPostIsPost(text, cfg.maxPostLength);
    assert saved.value in c.drafts && Matches(saved.value, user.id, prefix);
    var draft;
    draft, r := c.DraftPost(cfg, user, prefix, true, d, true);
    assert draft == Some(saved.value);
    EventsKeepDrafts(START, old(c.run));
    RemoveNew(old(c.drafts), saved.value);
  }

  /** From equal stores: a text that is saved as a draft and then posted under the same limit gives exactly
      the post and the store that `post global` gives, and leaves no draft behind. Only for a silenced user
      the posts differ: the draft is published openly and with an ActivityPub id. */
  method PublishBothWays(direct: Database, c: DraftCommands, cfg: Config, user: User, text: string, id: string,
                         prefix: string, now: int, d: Draw)
    returns (posted: Result<Post, Error>, drafted: Result<Post, DraftError>)
    requires direct.Valid() && c.Valid() && direct != c.db && direct.users == c.db.users && direct.posts == c.db.posts
    requires prefix <= id && forall x :: x in c.Saved() ==> x.id != id
    requires forall x :: x in c.drafts && Matches(x, user.id, prefix) ==> x.updated < now
    modifies direct`posts, direct`run, c, c.db`posts, c.db`run
    ensures Content(text, cfg.maxPostLength).Err? ==>
              posted == Err(Content(text, cfg.maxPostLength).error) && drafted == Err(Rejected(posted.error))
    ensures !user.isSilenced ==>
              && direct.posts == c.db.posts
              && drafted == match posted case Ok(p) => Ok(p) case Err(e) => Err(Rejected(e))
    ensures posted.Ok? && drafted.Ok? ==>
              && posted.value.content == drafted.value.content
              && (posted.value == drafted.value <==> !user.isSilenced)
    ensures drafted.Ok? ==> c.drafts == old(c.drafts)
  {
    ContentExactly(text, cfg.maxPostLength, Strip(text));
    SamePosts(cfg, user, Strip(text), d);
    posted := direct.PostCreate(cfg, user, text, Public, false, d);
    drafted := SaveAndPost(c, cfg, user, text, id, prefix, now, d);
  }
}
