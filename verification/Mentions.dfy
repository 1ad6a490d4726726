/** Notifications for the users that a received note mentions. */
module Mentions {
  import opened Wrappers
  import opened Text
  import opened PostStore

  const PUNCTUATION := ".,!?;:\"'<>"

  datatype Handle = Handle(username: string, domain: Option<string>)

  datatype Notification = Notification(user: Id, post: Id)

  /** The handle in one word of the text, if there is one. */
  function Mention(word: string): Option<Handle> {
    var w := Trim(word, PUNCTUATION);
    if "@" <= w then HandleIn(w[1..]) else None
  }

  /** Name and, behind another "@", domain. */
  function HandleIn(rest: string): Option<Handle> {
    var k := IndexOf(rest, '@');
    if k == 0 then None
    else Some(Handle(rest[..k], if k == |rest| then None else Some(rest[k + 1..])))
  }

  // ---------------------------------------------------------------------------------------------
  // Who is to be notified

  ghost predicate Names(word: string, username: string) {
    Mention(word).Some? && Mention(word).value.username == username
  }

  ghost predicate FirstNamed(words: seq<string>, i: int, username: string) {
    && 0 <= i < |words| && Names(words[i], username)
    && forall j :: 0 <= j < i ==> !Names(words[j], username)
  }

  predicate IsLocal(domain: Option<string>, local: string) {
    domain == None || domain == Some(local)
  }

  /** The first mention of this name has no domain, or the local one. */
  ghost predicate Targeted(words: seq<string>, local: string, username: string) {
    exists i :: FirstNamed(words, i, username)
                && (Mention(words[i]).value.domain == None || Mention(words[i]).value.domain == Some(local))
  }

  ghost predicate Named(words: seq<string>, username: string) {
    exists i :: 0 <= i < |words| && Names(words[i], username)
  }

  lemma TargetedOneMore(words: seq<string>, word: string, local: string, username: string)
    ensures Targeted(words + [word], local, username)
            <==> Targeted(words, local, username)
                 || (!Named(words, username) && Names(word, username) && IsLocal(Mention(word).value.domain, local))
  {
    var longer := words + [word];
    assert forall i :: 0 <= i < |words| ==> longer[i] == words[i];
    if Targeted(words, local, username) {
      var i :| FirstNamed(words, i, username) && IsLocal(Mention(words[i]).value.domain, local);
      assert FirstNamed(longer, i, username);
    }
    if !Named(words, username) && Names(word, username) && IsLocal(Mention(word).value.domain, local) {
      assert FirstNamed(longer, |words|, username);
    }
    if Targeted(longer, local, username) {
      var i :| FirstNamed(longer, i, username) && IsLocal(Mention(longer[i]).value.domain, local);
      if i < |words| {
        assert FirstNamed(words, i, username);
      }
    }
  }

  lemma NamedOneMore(words: seq<string>, word: string, username: string)
    ensures Named(words + [word], username) <==> Named(words, username) || Names(word, username)
  {
    var longer := words + [word];
    assert longer[|words|] == word;
    if Named(words, username) {
      var i :| 0 <= i < |words| && Names(words[i], username);
      assert Names(longer[i], username);
    }
  }

  lemma OneMoreWord(words: seq<string>, word: string, local: string)
    ensures forall u :: Named(words + [word], u) <==> Named(words, u) || Names(word, u)
    ensures forall u :: Targeted(words + [word], local, u)
                        <==> Targeted(words, local, u)
                             || (!Named(words, u) && Names(word, u) && IsLocal(Mention(word).value.domain, local))
  {
    forall u ensures Named(words + [word], u) <==> Named(words, u) || Names(word, u) {
      NamedOneMore(words, word, u);
    }
    forall u ensures Targeted(words + [word], local, u)
                     <==> Targeted(words, local, u)
                          || (!Named(words, u) && Names(word, u) && IsLocal(Mention(word).value.domain, local))
    {
      TargetedOneMore(words, word, local, u);
    }
  }

  /** After these words: the names that were mentioned, and those whose users were notified. */
  ghost predicate Tracks(words: seq<string>, local: string, users: map<string, Id>, failing: set<string>,
                         seen: set<string>, names: seq<string>) {
    && (forall u :: u in seen <==> Named(words, u))
    && forall u :: u in names <==> u in users && u !in failing && Targeted(words, local, u)
  }

  function SeenAfter(word: string, seen: set<string>): set<string> {
    if Mention(word) == None then seen else seen + {Mention(word).value.username}
  }

  /** The name whose user is notified because of this word, if any. */
  function NewNames(word: string, local: string, users: map<string, Id>, failing: set<string>, seen: set<string>)
    : (names: seq<string>)
    ensures |names| <= 1 && forall u :: u in names ==> u in users && u !in seen
  {
    match Mention(word)
    case None => []
    case Some(h) =>
      if h.username !in seen && IsLocal(h.domain, local) && h.username in users && h.username !in failing
      then [h.username] else []
  }

  function Notices(names: seq<string>, users: map<string, Id>, post: Id): (sent: seq<Notification>)
    requires forall u :: u in names ==> u in users
    ensures |sent| == |names|
  {
    seq(|names|, i requires 0 <= i < |names| => Notification(users[names[i]], post))
  }

  lemma TracksOneMore(words: seq<string>, word: string, local: string, users: map<string, Id>, failing: set<string>,
                      seen: set<string>, names: seq<string>)
    requires Tracks(words, local, users, failing, seen, names)
    ensures Tracks(words + [word], local, users, failing, SeenAfter(word, seen),
                   names + NewNames(word, local, users, failing, seen))
    ensures forall u :: u in names ==> u in seen
  {
    OneMoreWord(words, word, local);
  }

  /** The users with these names, each once, have each one notification for the post. */
  ghost predicate Notifies(sent: seq<Notification>, names: seq<string>, users: map<string, Id>, post: Id) {
    && |sent| == |names|
    && (forall i :: 0 <= i < |names| ==> names[i] in users && sent[i] == Notification(users[names[i]], post))
    && forall i, j :: 0 <= i < j < |names| ==> names[i] != names[j]
  }

  lemma NotifiesMore(sent: seq<Notification>, names: seq<string>, users: map<string, Id>, post: Id, more: seq<string>)
    requires Notifies(sent, names, users, post) && |more| <= 1
    requires forall u :: u in more ==> u in users && u !in names
    ensures Notifies(sent + Notices(more, users, post), names + more, users, post)
  {
  }

  lemma TracksAtStart(local: string, users: map<string, Id>, failing: set<string>)
    ensures Tracks([], local, users, failing, {}, [])
  {
  }

  /** Names of users are unique, and so are their identifiers. */
  ghost predicate Directory(users: map<string, Id>) {
    forall u, v :: u in users && v in users && users[u] == users[v] ==> u == v
  }

  ghost predicate Receives(sent: seq<Notification>, user: Id) {
    exists i :: 0 <= i < |sent| && sent[i].user == user
  }

  /** All are notifications of the post for existing users, no two for the same user, and a user has one
      exactly if the first mention of the name is a local one and its statements do not fail. */
  ghost predicate Answers(sent: seq<Notification>, words: seq<string>, local: string, users: map<string, Id>,
                          failing: set<string>, post: Id) {
    && (forall i :: 0 <= i < |sent| ==> sent[i].post == post && exists u :: u in users && users[u] == sent[i].user)
    && (forall i, j :: 0 <= i < j < |sent| ==> sent[i].user != sent[j].user)
    && forall u :: u in users ==> (Receives(sent, users[u]) <==> Targeted(words, local, u) && u !in failing)
  }

  lemma NobodyTwice(words: seq<string>, local: string, users: map<string, Id>, failing: set<string>,
                    seen: set<string>, sent: seq<Notification>, names: seq<string>, post: Id)
    requires Tracks(words, local, users, failing, seen, names)
    requires Notifies(sent, names, users, post) && Directory(users)
    ensures Answers(sent, words, local, users, failing, post)
  {
    forall i | 0 <= i < |sent| ensures exists u :: u in users && users[u] == sent[i].user {
      assert names[i] in users;
    }
    forall i, j | 0 <= i < j < |sent| ensures sent[i].user != sent[j].user {
      assert names[i] != names[j];
    }
    forall u | u in users ensures Receives(sent, users[u]) <==> u in names {
      if u in names {
        var i :| 0 <= i < |names| && names[i] == u;
        assert sent[i].user == users[u];
      }
      if Receives(sent, users[u]) {
        var i :| 0 <= i < |sent| && sent[i].user == users[u];
        assert names[i] == u;
      }
    }
  }

  class InboxProcessor {
    const domain: string
    const users: map<string, Id>
    var notifications: seq<Notification>

    constructor (domain: string, users: map<string, Id>)
      ensures this.domain == domain && this.users == users && notifications == []
    {
      this.domain := domain;
      this.users := users;
      notifications := [];
    }

    /** `failing` holds the names whose look-up or insertion fails. */
    method CreateMentionNotifications(content: string, post: Id, failing: set<string>)
      requires Directory(users)
      modifies this`notifications
      ensures old(notifications) <= notifications
      ensures Answers(notifications[|old(notifications)|..], Fields(content), domain, users, failing, post)
    {
      var words := Fields(content);
      var seen: set<string> := {};
      ghost var names: seq<string> := [];
      ghost var sent: seq<Notification> := [];
      TracksAtStart(domain, users, failing);
      assert words[..0] == [];
      for i := 0 to |words|
        invariant notifications == old(notifications) + sent
        invariant Tracks(words[..i], domain, users, failing, seen, names)
        invariant Notifies(sent, names, users, post)
      {
        assert words[..i + 1] == words[..i] + [words[i]];
        TracksOneMore(words[..i], words[i], domain, users, failing, seen, names);
        ghost var more := NewNames(words[i], domain, users, failing, seen);
        NotifiesMore(sent, names, users, post, more);
        seen := NotifyMention(words[i], post, failing, seen);
        sent, names := sent + Notices(more, users, post), names + more;
      }
      assert words[..|words|] == words;
      assert notifications[|old(notifications)|..] == sent;
      NobodyTwice(words, domain, users, failing, seen, sent, names, post);
    }

    /** One turn of the loop over the words. */
    method NotifyMention(word: string, post: Id, failing: set<string>, seenBefore: set<string>)
      returns (seen: set<string>)
      modifies this`notifications
      ensures seen == SeenAfter(word, seenBefore)
      ensures notifications
           == old(notifications) + Notices(NewNames(word, domain, users, failing, seenBefore), users, post)
    {
      seen := seenBefore;
      var mention := Mention(word);
      if mention == None || mention.value.username in seen {
        return;
      }
      var username := mention.value.username;
      seen := seen + {username};
      if !IsLocal(mention.value.domain, domain) {
        return;
      }
      if username !in users || username in failing {
        return;
      }
      notifications := notifications + [Notification(users[username], post)];
    }
  }

  // ---------------------------------------------------------------------------------------------
  // What is read as a handle

  lemma {:induction false} IndexOfAt(a: string, b: string)
    requires '@' !in a && (b == "" || b[0] == '@')
    ensures IndexOf(a + b, '@') == |a|
  {
    if a == "" {
      assert a + b == b;
    } else {
      assert (a + b)[1..] == a[1..] + b;
      IndexOfAt(a[1..], b);
    }
  }

  /** The written form of a handle. */
  function Written(h: Handle): string {
    "@" + h.username + if h.domain.Some? then "@" + h.domain.value else ""
  }

  lemma HandleInWritten(h: Handle)
    requires h.username != "" && '@' !in h.username
    ensures HandleIn(Written(h)[1..]) == Some(h)
  {
    var domain := if h.domain.Some? then "@" + h.domain.value else "";
    assert Written(h)[1..] == h.username + domain;
    IndexOfAt(h.username, domain);
    assert (h.username + domain)[..|h.username|] == h.username;
    if h.domain.Some? {
      assert (h.username + domain)[|h.username| + 1..] == h.domain.value;
    }
  }

  lemma HandleInReads(rest: string, h: Handle)
    requires HandleIn(rest) == Some(h)
    ensures h.username != "" && '@' !in h.username && "@" + rest == Written(h)
  {
    var k := IndexOf(rest, '@');
    IndexOfIs(rest, '@');
    if k < |rest| {
      assert rest == rest[..k] + ("@" + rest[k + 1..]);
      assert "@" + (rest[..k] + ("@" + rest[k + 1..])) == "@" + rest[..k] + ("@" + rest[k + 1..]);
    } else {
      assert rest[..k] == rest;
    }
  }

  /** A handle that can stand alone: a name without "@", and no punctuation at the end. */
  predicate IsHandle(h: Handle) {
    h.username != "" && '@' !in h.username && Written(h)[|Written(h)| - 1] !in ".,!?;:\"'<>"
  }

  /** The trimmed word reads as the handle exactly if it is its written form. */
  lemma TrimmedReads(w: string, h: Handle)
    requires NoOuter(w, PUNCTUATION)
    ensures "@" <= w && HandleIn(w[1..]) == Some(h) <==> w == Written(h) && IsHandle(h)
  {
    if "@" <= w && HandleIn(w[1..]) == Some(h) {
      HandleInReads(w[1..], h);
      assert w == "@" + w[1..];
    }
    if w == Written(h) && IsHandle(h) {
      HandleInWritten(h);
    }
  }

  /** A word mentions a handle exactly if it is the written handle between any punctuation, and the
      handle does not itself end in some. */
  lemma MentionExactly(word: string, h: Handle)
    ensures Mention(word) == Some(h)
            <==> IsHandle(h) && exists pre, post :: Surrounded(word, pre, Written(h), post, ".,!?;:\"'<>")
  {
    var w := Trim(word, PUNCTUATION);
    TrimIs(word, PUNCTUATION);
    TrimmedReads(w, h);
    TrimExactly(word, PUNCTUATION, Written(h));
  }

  /** Only the brackets of a tag are cut, not its name: a handle right behind a tag is not seen. */
  lemma TagHidesMention(tag: string, rest: string)
    requires tag != "" && tag[0] !in PUNCTUATION && tag[0] != '@'
    ensures Mention("<" + tag + ">" + rest) == None
  {
    var word := "<" + tag + ">" + rest;
    forall h, pre, post ensures !Surrounded(word, pre, Written(h), post, PUNCTUATION) {
      var other := pre + Written(h) + post;
      assert other[|pre|] == '@' && word[1] == tag[0];
      assert |pre| >= 2 ==> other[1] == pre[1] && pre[1] in pre;
    }
    if Mention(word).Some? {
      MentionExactly(word, Mention(word).value);
    }
  }
}
