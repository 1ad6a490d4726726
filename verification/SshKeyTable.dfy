/** The rows of the table of SSH keys, and what inserting candidates and removing keys does to them. */
module SshKeyTable {
  import opened Wrappers
  import PostStore
  import Utf8

  type Id = PostStore.Id

  const COLUMN_WIDTH := 255

  datatype Row = Row(user: Id, name: string, publicKey: string, fingerprint: string)

  ghost predicate Owns(rows: seq<Row>, user: Id, fingerprint: string) {
    exists r :: r in rows && r.user == user && r.fingerprint == fingerprint
  }

  predicate Registered(rows: seq<Row>, fingerprint: string) {
    exists i :: 0 <= i < |rows| && rows[i].fingerprint == fingerprint
  }

  ghost predicate OneOwner(rows: seq<Row>) {
    forall i, j :: 0 <= i < j < |rows| ==> rows[i].fingerprint != rows[j].fingerprint
  }

  /** Characters of a text in UTF-8. */
  function Width(s: string): nat {
    if s == "" then 0 else (if Utf8.IsTail(s[0]) then 0 else 1) + Width(s[1..])
  }

  /** The row fits the columns and its user exists. */
  predicate Fits(users: set<Id>, r: Row) {
    r.user in users && Width(r.name) <= COLUMN_WIDTH && Width(r.fingerprint) <= COLUMN_WIDTH
  }

  predicate CanInsert(users: set<Id>, rows: seq<Row>, r: Row) {
    Fits(users, r) && !Registered(rows, r.fingerprint)
  }

  /** The table after one candidate; there is none for a key that is not readable or whose statements fail. */
  function Inserted(users: set<Id>, rows: seq<Row>, candidate: Option<Row>): seq<Row> {
    if candidate.None? || !CanInsert(users, rows, candidate.value) then rows else rows + [candidate.value]
  }

  function InsertAll(users: set<Id>, rows: seq<Row>, candidates: seq<Option<Row>>): seq<Row> {
    if candidates == [] then rows
    else
      var n := |candidates| - 1;
      Inserted(users, InsertAll(users, rows, candidates[..n]), candidates[n])
  }

  lemma InsertNext(users: set<Id>, rows: seq<Row>, candidates: seq<Option<Row>>, i: nat)
    requires i < |candidates|
    ensures InsertAll(users, rows, candidates[..i + 1])
         == Inserted(users, InsertAll(users, rows, candidates[..i]), candidates[i])
  {
    assert candidates[..i + 1][..i] == candidates[..i];
  }

  function Without(rows: seq<Row>, user: Id, fingerprint: string): (left: seq<Row>)
    ensures forall r :: r in left <==> r in rows && !(r.user == user && r.fingerprint == fingerprint)
  {
    if rows == [] then []
    else if rows[0].user == user && rows[0].fingerprint == fingerprint then Without(rows[1..], user, fingerprint)
    else [rows[0]] + Without(rows[1..], user, fingerprint)
  }

  lemma OwnerIsUnique(rows: seq<Row>, r: Row)
    requires OneOwner(rows) && r in rows
    ensures forall u :: Owns(rows, u, r.fingerprint) <==> u == r.user
  {
    var i :| 0 <= i < |rows| && rows[i] == r;
    forall u | Owns(rows, u, r.fingerprint) ensures u == r.user {
      var q :| q in rows && q.user == u && q.fingerprint == r.fingerprint;
      var j :| 0 <= j < |rows| && rows[j] == q;
      assert i < j || j < i || i == j;
    }
  }

  // ---------------------------------------------------------------------------------------------
  // What a list of candidates adds

  /** A candidate with this fingerprint that fits the table. */
  ghost predicate Offers(users: set<Id>, candidate: Option<Row>, fp: string) {
    candidate.Some? && candidate.value.fingerprint == fp && Fits(users, candidate.value)
  }

  ghost predicate Offered(users: set<Id>, candidates: seq<Option<Row>>, fp: string) {
    exists i :: 0 <= i < |candidates| && Offers(users, candidates[i], fp)
  }

  lemma OfferedOneMore(users: set<Id>, candidates: seq<Option<Row>>, last: Option<Row>, fp: string)
    ensures Offered(users, candidates + [last], fp) <==> Offered(users, candidates, fp) || Offers(users, last, fp)
  {
    var more := candidates + [last];
    assert more[|candidates|] == last;
    if Offered(users, candidates, fp) {
      var i :| 0 <= i < |candidates| && Offers(users, candidates[i], fp);
      assert Offers(users, more[i], fp);
    }
  }

  lemma RegisteredOneMore(rows: seq<Row>, r: Row, fp: string)
    ensures Registered(rows + [r], fp) <==> Registered(rows, fp) || r.fingerprint == fp
  {
    assert (rows + [r])[|rows|] == r;
    if Registered(rows, fp) {
      var i :| 0 <= i < |rows| && rows[i].fingerprint == fp;
      assert (rows + [r])[i].fingerprint == fp;
    }
  }

  /** Afterwards the registered fingerprints are those from before and exactly those on offer. */
  lemma {:induction false} InsertAllRegisters(users: set<Id>, rows: seq<Row>, candidates: seq<Option<Row>>, fp: string)
    ensures Registered(InsertAll(users, rows, candidates), fp)
            <==> Registered(rows, fp) || Offered(users, candidates, fp)
  {
    if candidates != [] {
      var n := |candidates| - 1;
      InsertAllRegisters(users, rows, candidates[..n], fp);
      assert candidates == candidates[..n] + [candidates[n]];
      OfferedOneMore(users, candidates[..n], candidates[n], fp);
      if candidates[n].Some? {
        RegisteredOneMore(InsertAll(users, rows, candidates[..n]), candidates[n].value, fp);
      }
    }
  }

  /** The rows from before stay in front, and all that follow are candidates. */
  lemma {:induction false} InsertAllAdds(users: set<Id>, rows: seq<Row>, candidates: seq<Option<Row>>)
    ensures var after := InsertAll(users, rows, candidates);
            && rows <= after
            && (OneOwner(rows) ==> OneOwner(after))
            && forall i :: |rows| <= i < |after| ==> Some(after[i]) in candidates
  {
    if candidates != [] {
      InsertAllAdds(users, rows, candidates[..|candidates| - 1]);
    }
  }

  lemma {:induction false} NothingOnOffer(users: set<Id>, rows: seq<Row>, candidates: seq<Option<Row>>)
    requires forall fp :: Offered(users, candidates, fp) ==> Registered(rows, fp)
    ensures InsertAll(users, rows, candidates) == rows
  {
    if candidates != [] {
      var n := |candidates| - 1;
      assert candidates == candidates[..n] + [candidates[n]];
      forall fp | Offered(users, candidates[..n], fp) ensures Registered(rows, fp) {
        OfferedOneMore(users, candidates[..n], candidates[n], fp);
      }
      NothingOnOffer(users, rows, candidates[..n]);
      if candidates[n].Some? {
        OfferedOneMore(users, candidates[..n], candidates[n], candidates[n].value.fingerprint);
      }
    }
  }

  // ---------------------------------------------------------------------------------------------
  // Characters

  lemma {:induction false} WidthAdds(a: string, b: string)
    ensures Width(a + b) == Width(a) + Width(b)
  {
    if a == "" {
      assert a + b == b;
    } else {
      assert (a + b)[1..] == a[1..] + b;
      WidthAdds(a[1..], b);
    }
  }

  ghost predicate Ascii(s: string) {
    forall i :: 0 <= i < |s| ==> s[i] < '\U{80}'
  }

  lemma {:induction false} WidthOfAscii(s: string)
    requires Ascii(s)
    ensures Width(s) == |s|
  {
    if s != "" {
      WidthOfAscii(s[1..]);
    }
  }

  lemma {:induction false} WithoutKeepsOneOwner(rows: seq<Row>, user: Id, fp: string)
    requires OneOwner(rows)
    ensures OneOwner(Without(rows, user, fp))
  {
    if rows != [] {
      var rest := Without(rows[1..], user, fp);
      WithoutKeepsOneOwner(rows[1..], user, fp);
      forall j | 0 <= j < |rest| ensures rest[j].fingerprint != rows[0].fingerprint {
        assert rest[j] in rows[1..];
      }
    }
  }

  function Encoded(runes: seq<int>): string
    requires forall r :: r in runes ==> Utf8.IsScalar(r)
  {
    if runes == [] then "" else Utf8.EncodeRune(runes[0]) + Encoded(runes[1..])
  }

  /** The columns count the characters of a text and not its bytes. */
  lemma {:induction false} WidthCountsCharacters(runes: seq<int>)
    requires forall r :: r in runes ==> Utf8.IsScalar(r)
    ensures Width(Encoded(runes)) == |runes|
  {
    if runes != [] {
      OneWide(runes[0]);
      WidthAdds(Utf8.EncodeRune(runes[0]), Encoded(runes[1..]));
      WidthCountsCharacters(runes[1..]);
    }
  }

  lemma OneWide(rune: int)
    requires Utf8.IsScalar(rune)
    ensures Width(Utf8.EncodeRune(rune)) == 1
  {
    var s := Utf8.EncodeRune(rune);
    assert !Utf8.IsTail(s[0]) && forall i :: 1 <= i < |s| ==> Utf8.IsTail(s[i]);
    OnlyTails(s[1..]);
  }

  lemma {:induction false} OnlyTails(s: string)
    requires forall i :: 0 <= i < |s| ==> Utf8.IsTail(s[i])
    ensures Width(s) == 0
  {
    if s != "" {
      OnlyTails(s[1..]);
    }
  }
}
