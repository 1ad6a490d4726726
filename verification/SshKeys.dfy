/** SSH keys: fingerprints, importing a fetched list of keys, removing a key, and who owns one. */
module SshKeys {
  import opened Wrappers
  import opened Base64
  import opened Text
  import opened SshKeyTable
  import Utf8

  const MAX_RESPONSE := 64 * 1024

  datatype KeyError = FetchFailed | NoKeysFound | NothingImported | LookupFailed | KeyNotFound | KeyStoreFailed

  /** The SHA-256 digest of the key on a line in authorized_keys format, if it is one. */
  type Reader = string -> Option<seq<Byte>>

  // ---------------------------------------------------------------------------------------------
  // Fingerprints

  function Fingerprint(digest: seq<Byte>): string {
    TrimEnd("SHA256:" + Encode(digest, true), "=")
  }

  function CalcFingerprint(read: Reader, line: string): Option<string> {
    match read(line)
    case None => None
    case Some(digest) => Some(Fingerprint(digest))
  }

  /** The display name of a key: the first word of its line and the end of the fingerprint. */
  function KeyName(line: string, fingerprint: string): string {
    var parts := Fields(line);
    if parts == [] then fingerprint
    else parts[0] + if |fingerprint| > 8 then " " + fingerprint[|fingerprint| - 8..] else ""
  }

  lemma {:induction false} EncodedIs(bytes: seq<Byte>)
    ensures exists pad :: OnlyOf(pad, "=") && Encode(bytes, true) == Encode(bytes, false) + pad
    ensures |Encode(bytes, false)| == (|bytes| * 4 + 2) / 3
  {
    if |bytes| <= 2 {
      var pad := if |bytes| == 0 then "" else if |bytes| == 1 then "==" else "=";
      assert Encode(bytes, true) == Encode(bytes, false) + pad;
    } else {
      EncodedIs(bytes[3..]);
      var pad :| OnlyOf(pad, "=") && Encode(bytes[3..], true) == Encode(bytes[3..], false) + pad;
      assert Encode(bytes, true) == Encode(bytes, false) + pad;
    }
  }

  /** The padding is cut and nothing else. */
  lemma FingerprintIsUnpadded(digest: seq<Byte>)
    ensures Fingerprint(digest) == "SHA256:" + Encode(digest, false)
  {
    EncodedIs(digest);
    var pad :| OnlyOf(pad, "=") && Encode(digest, true) == Encode(digest, false) + pad;
    var core := "SHA256:" + Encode(digest, false);
    assert "SHA256:" + Encode(digest, true) == core + pad;
    assert Encode(digest, false) != "" ==> core[|core| - 1] in Encode(digest, false);
    TrimEndPeels(core, pad, "=");
  }

  /** Keys with different digests have different fingerprints. */
  lemma FingerprintIsInjective(a: seq<Byte>, b: seq<Byte>)
    ensures Fingerprint(a) == Fingerprint(b) <==> a == b
  {
    FingerprintIsUnpadded(a);
    FingerprintIsUnpadded(b);
    RoundTrip(a, false);
    RoundTrip(b, false);
    assert ("SHA256:" + Encode(a, false))[7..] == Encode(a, false);
    assert ("SHA256:" + Encode(b, false))[7..] == Encode(b, false);
  }

  // ---------------------------------------------------------------------------------------------
  // Reading a list of keys

  function KeyOnLine(read: Reader, line: string): Option<string> {
    var key := Utf8.TrimSpace(line);
    if key == "" || "#" <= key || read(key).None? then None else Some(key)
  }

  function Found(read: Reader, lines: seq<string>): (found: seq<Option<string>>)
    ensures |found| == |lines|
  {
    seq(|lines|, i requires 0 <= i < |lines| => KeyOnLine(read, lines[i]))
  }

  function KeysOnLines(read: Reader, lines: seq<string>): seq<string> {
    Somes(Found(read, lines))
  }

  /** The trimmed line is a key: it is neither empty nor a comment, and can be read. */
  ghost predicate IsKeyLine(read: Reader, line: string) {
    var t := Utf8.TrimSpace(line);
    t != "" && t[0] != '#' && read(t).Some?
  }

  lemma KeyOnLineIs(read: Reader, line: string)
    ensures KeyOnLine(read, line) == if IsKeyLine(read, line) then Some(Utf8.TrimSpace(line)) else None
  {
  }

  /** The keys are the trimmed lines at these positions, in order, and these are all the lines that are keys. */
  ghost predicate ListsKeys(read: Reader, lines: seq<string>, positions: seq<nat>, keys: seq<string>) {
    && |positions| == |keys|
    && (forall i, j :: 0 <= i < j < |positions| ==> positions[i] < positions[j])
    && (forall i :: 0 <= i < |keys| ==> positions[i] < |lines| && keys[i] == Utf8.TrimSpace(lines[positions[i]]))
    && forall n :: 0 <= n < |lines| ==> (n in positions <==> IsKeyLine(read, lines[n]))
  }

  /** The list has exactly the lines that are keys, each once and in order. */
  lemma KeysAreThoseOnLines(read: Reader, lines: seq<string>) returns (positions: seq<nat>)
    ensures ListsKeys(read, lines, positions, KeysOnLines(read, lines))
  {
    var found := Found(read, lines);
    positions := SomesAre(found);
    forall n | 0 <= n < |lines|
      ensures found[n] == if IsKeyLine(read, lines[n]) then Some(Utf8.TrimSpace(lines[n])) else None
    {
      KeyOnLineIs(read, lines[n]);
    }
  }

  lemma ListedIsKeyLine(read: Reader, lines: seq<string>, positions: seq<nat>, keys: seq<string>)
    requires ListsKeys(read, lines, positions, keys)
    ensures forall k :: k in keys <==> exists n :: 0 <= n < |lines| && IsKeyLine(read, lines[n]) && k == Utf8.TrimSpace(lines[n])
  {
    forall k | k in keys
      ensures exists n :: 0 <= n < |lines| && IsKeyLine(read, lines[n]) && k == Utf8.TrimSpace(lines[n])
    {
      var i :| 0 <= i < |keys| && keys[i] == k;
      assert positions[i] in positions;
    }
    forall n | 0 <= n < |lines| && IsKeyLine(read, lines[n]) ensures Utf8.TrimSpace(lines[n]) in keys {
      var i :| 0 <= i < |positions| && positions[i] == n;
      assert keys[i] in keys;
    }
  }

  /** A key on the list can be read again, so no round of an import fails for that. */
  lemma ListedIsReadable(read: Reader, lines: seq<string>)
    ensures forall k :: k in KeysOnLines(read, lines) ==> CalcFingerprint(read, k).Some?
  {
    var positions := KeysAreThoseOnLines(read, lines);
    ListedIsKeyLine(read, lines, positions, KeysOnLines(read, lines));
  }

  method ParseSSHKeys(read: Reader, text: string) returns (r: Result<seq<string>, KeyError>)
    ensures var keys := KeysOnLines(read, Split(text, '\n'));
            r == if keys == [] then Err(NoKeysFound) else Ok(keys)
  {
    var lines, keys := Split(text, '\n'), [];
    for i := 0 to |lines|
      invariant keys == Somes(Found(read, lines)[..i])
    {
      SomesNext(Found(read, lines), i);
      var line := Utf8.TrimSpace(lines[i]);
      if line == "" || "#" <= line {
        continue;
      }
      if read(line).None? {
        continue;
      }
      keys := keys + [line];
    }
    assert Found(read, lines)[..|lines|] == Found(read, lines);
    if keys == [] {
      return Err(NoKeysFound);
    }
    return Ok(keys);
  }

  /** The keys in a response body, of which only the first part is read; no body if the request fails. */
  method FetchSSHKeys(read: Reader, body: Option<string>) returns (r: Result<seq<string>, KeyError>)
    ensures r == Fetched(read, body)
  {
    if body.None? {
      return Err(FetchFailed);
    }
    r := ParseSSHKeys(read, if |body.value| <= MAX_RESPONSE then body.value else body.value[..MAX_RESPONSE]);
  }

  function Fetched(read: Reader, body: Option<string>): Result<seq<string>, KeyError> {
    match body
    case None => Err(FetchFailed)
    case Some(text) =>
      var keys := KeysOnLines(read, Split(if |text| <= MAX_RESPONSE then text else text[..MAX_RESPONSE], '\n'));
      if keys == [] then Err(NoKeysFound) else Ok(keys)
  }

  /** A body of at most 64 KiB is read whole. */
  lemma FetchedWhole(read: Reader, text: string) returns (positions: seq<nat>, keys: seq<string>)
    requires |text| <= 65536
    ensures ListsKeys(read, Split(text, '\n'), positions, keys)
    ensures Fetched(read, Some(text)) == if keys == [] then Err(NoKeysFound) else Ok(keys)
  {
    keys := KeysOnLines(read, Split(text, '\n'));
    positions := KeysAreThoseOnLines(read, Split(text, '\n'));
  }

  /** Of a longer body the first 64 KiB are read. */
  lemma FetchedCut(read: Reader, text: string)
    requires |text| > 65536
    ensures Fetched(read, Some(text)) == Fetched(read, Some(text[..65536]))
  {
  }

  // ---------------------------------------------------------------------------------------------
  // Importing and removing

  function KeyRow(user: Id, line: string, fingerprint: string): Row {
    Row(user, KeyName(line, fingerprint), line, fingerprint)
  }

  function Candidate(read: Reader, user: Id, line: string): Option<Row> {
    match CalcFingerprint(read, line)
    case None => None
    case Some(fp) => Some(KeyRow(user, line, fp))
  }

  /** The rows that the keys of a list would make; the rounds in `failing` have a statement that fails. */
  function Candidates(read: Reader, user: Id, keys: seq<string>, failing: set<nat>): (rows: seq<Option<Row>>)
    ensures |rows| == |keys|
  {
    seq(|keys|, i requires 0 <= i < |keys| => if i in failing then None else Candidate(read, user, keys[i]))
  }

  class KeyDatabase {
    const users: set<Id>
    const read: Reader
    var keys: seq<Row>
    ghost var run: seq<Step>

    constructor (users: set<Id>, read: Reader)
      ensures this.users == users && this.read == read && keys == [] && Valid()
    {
      this.users := users;
      this.read := read;
      keys, run := [], [];
    }

    /** The table is what this run of imports and removals makes of an empty one, and every key has one owner. */
    ghost predicate Valid()
      reads this
    {
      keys == Run(users, read, [], run) && OneOwner(keys)
    }

    method CreateSSHKey(r: Row, reached: bool) returns (ok: bool)
      modifies this`keys
      ensures ok <==> reached && CanInsert(users, old(keys), r)
      ensures keys == if ok then old(keys) + [r] else old(keys)
    {
      ok := reached && CanInsert(users, keys, r);
      if ok {
        keys := keys + [r];
      }
    }

    method GetSSHKeyByFingerprint(fp: string, reached: bool) returns (r: Result<Option<Row>, KeyError>)
      ensures r.Err? <==> !reached
      ensures r.Err? ==> r.error == LookupFailed
      ensures r.Ok? && r.value.Some? ==> r.value.value in keys && r.value.value.fingerprint == fp
      ensures r.Ok? ==> (r.value.Some? <==> Registered(keys, fp))
    {
      if !reached {
        return Err(LookupFailed);
      }
      for i := 0 to |keys|
        invariant !Registered(keys[..i], fp)
      {
        if keys[i].fingerprint == fp {
          return Ok(Some(keys[i]));
        }
      }
      assert keys[..|keys|] == keys;
      return Ok(None);
    }

    /** The import by an administrator. The body is absent when the request fails; the look-ups of the rounds
        in `unread` and the inserts of those in `unwritten` fail. */
    method ImportSSHKeysFromURL(user: Id, body: Option<string>, unread: set<nat>, unwritten: set<nat>)
      returns (r: Result<nat, KeyError>)
      requires Valid()
      modifies this`keys, this`run
      ensures Valid() && old(run) <= run
      ensures ImportOutcome(user, body, unread + unwritten, old(keys), keys, r)
    {
      var list := FetchSSHKeys(read, body);
      if list.Err? {
        return Err(list.error);
      }
      ghost var candidates := Candidates(read, user, list.value, unread + unwritten);
      var imported := 0;
      for i := 0 to |list.value|
        invariant keys == InsertAll(users, old(keys), candidates[..i])
        invariant |keys| == |old(keys)| + imported
        invariant run == old(run)
      {
        InsertNext(users, old(keys), candidates, i);
        var line := list.value[i];
        var fp := CalcFingerprint(read, line);
        if fp.None? {
          continue;
        }
        var existing := GetSSHKeyByFingerprint(fp.value, i !in unread);
        if existing.Err? {
          continue;
        }
        if existing.value.Some? {
          continue;
        }
        var ok := CreateSSHKey(KeyRow(user, line, fp.value), i !in unwritten);
        if !ok {
          continue;
        }
        imported := imported + 1;
      }
      assert candidates[..|list.value|] == candidates;
      ImportExtends(users, read, run, old(keys), user, list.value, unread + unwritten);
      ImportAdds(users, read, old(keys), user, list.value, unread + unwritten);
      run := run + [Import(user, list.value, unread + unwritten)];
      if imported == 0 {
        return Err(NothingImported);
      }
      return Ok(imported);
    }

    /** The import by the user: the second copy of the loop. */
    method SettingsAddKeyURL(user: Id, body: Option<string>, unread: set<nat>, unwritten: set<nat>)
      returns (r: Result<nat, KeyError>)
      requires Valid()
      modifies this`keys, this`run
      ensures Valid() && old(run) <= run
      ensures ImportOutcome(user, body, unread + unwritten, old(keys), keys, r)
    {
      var list := FetchSSHKeys(read, body);
      if list.Err? {
        return Err(list.error);
      }
      ghost var candidates := Candidates(read, user, list.value, unread + unwritten);
      var imported := 0;
      for i := 0 to |list.value|
        invariant keys == InsertAll(users, old(keys), candidates[..i])
        invariant |keys| == |old(keys)| + imported
        invariant run == old(run)
      {
        InsertNext(users, old(keys), candidates, i);
        var line := list.value[i];
        var fp := CalcFingerprint(read, line);
        if fp.None? {
          continue;
        }
        var existing := GetSSHKeyByFingerprint(fp.value, i !in unread);
        if existing.Err? {
          continue;
        }
        if existing.value.Some? {
          continue;
        }
        var ok := CreateSSHKey(KeyRow(user, line, fp.value), i !in unwritten);
        if !ok {
          continue;
        }
        imported := imported + 1;
      }
      assert candidates[..|list.value|] == candidates;
      ImportExtends(users, read, run, old(keys), user, list.value, unread + unwritten);
      ImportAdds(users, read, old(keys), user, list.value, unread + unwritten);
      run := run + [Import(user, list.value, unread + unwritten)];
      if imported == 0 {
        return Err(NothingImported);
      }
      return Ok(imported);
    }

    /** The reported number is the growth of the table, and an error means that it did not grow. */
    ghost predicate ImportOutcome(user: Id, body: Option<string>, failing: set<nat>, before: seq<Row>,
                                  after: seq<Row>, r: Result<nat, KeyError>) {
      && after == AfterImport(users, read, before, user, body, failing)
      && match Fetched(read, body)
         case Err(e) => r == Err(e)
         case Ok(_) =>
           match r
           case Ok(n) => n > 0 && |after| == |before| + n
           case Err(e) => e == NothingImported && |after| == |before|
    }

    /** A user removes a key: it must be the user's own. */
    method SettingsRemoveKey(user: Id, fp: string, found: bool, reached: bool) returns (r: Result<(), KeyError>)
      requires Valid()
      modifies this`keys, this`run
      ensures Valid() && old(run) <= run
      ensures r == if !found then Err(LookupFailed) else if !Owns(old(keys), user, fp) then Err(KeyNotFound)
                   else if reached then Ok(()) else Err(KeyStoreFailed)
      ensures keys == if r.Ok? then Without(old(keys), user, fp) else old(keys)
    {
      var answer := GetSSHKeyByFingerprint(fp, found);
      if answer.Err? {
        return Err(answer.error);
      }
      var key := answer.value;
      if key.Some? {
        OwnerIsUnique(keys, key.value);
      }
      if key.None? || key.value.user != user {
        return Err(KeyNotFound);
      }
      if !reached {
        return Err(KeyStoreFailed);
      }
      RunOneMore(users, read, [], run, Remove(user, fp));
      WithoutKeepsOneOwner(keys, user, fp);
      run := run + [Remove(user, fp)];
      keys := Without(keys, user, fp);
      return Ok(());
    }
  }

  // ---------------------------------------------------------------------------------------------
  // What an import does to the table

  function Imported(users: set<Id>, read: Reader, rows: seq<Row>, user: Id, keys: seq<string>, failing: set<nat>): seq<Row> {
    InsertAll(users, rows, Candidates(read, user, keys, failing))
  }

  /** The table after an import from this body. */
  function AfterImport(users: set<Id>, read: Reader, rows: seq<Row>, user: Id, body: Option<string>, failing: set<nat>)
    : seq<Row>
  {
    match Fetched(read, body)
    case Err(_) => rows
    case Ok(keys) => Imported(users, read, rows, user, keys, failing)
  }

  /** A key of the list whose statements do not fail has this fingerprint and fits the table. */
  ghost predicate Importable(users: set<Id>, read: Reader, user: Id, keys: seq<string>, failing: set<nat>, fp: string) {
    exists i :: 0 <= i < |keys| && i !in failing && CalcFingerprint(read, keys[i]) == Some(fp)
                && Fits(users, KeyRow(user, keys[i], fp))
  }

  lemma ImportableIsOffered(users: set<Id>, read: Reader, user: Id, keys: seq<string>, failing: set<nat>, fp: string)
    ensures Importable(users, read, user, keys, failing, fp)
            <==> Offered(users, Candidates(read, user, keys, failing), fp)
  {
    var candidates := Candidates(read, user, keys, failing);
    if Importable(users, read, user, keys, failing, fp) {
      var i :| 0 <= i < |keys| && i !in failing && CalcFingerprint(read, keys[i]) == Some(fp)
               && Fits(users, KeyRow(user, keys[i], fp));
      assert Offers(users, candidates[i], fp);
    }
    if Offered(users, candidates, fp) {
      var i :| 0 <= i < |candidates| && Offers(users, candidates[i], fp);
      assert candidates[i] == Candidate(read, user, keys[i]);
    }
  }

  /** After an import the registered fingerprints are those from before and exactly the importable ones. */
  lemma ImportRegisters(users: set<Id>, read: Reader, rows: seq<Row>, user: Id, keys: seq<string>, failing: set<nat>,
                        fp: string)
    ensures Registered(Imported(users, read, rows, user, keys, failing), fp)
            <==> Registered(rows, fp) || Importable(users, read, user, keys, failing, fp)
  {
    ImportableIsOffered(users, read, user, keys, failing, fp);
    InsertAllRegisters(users, rows, Candidates(read, user, keys, failing), fp);
  }

  /** The text is this key, and its name fits the column. */
  ghost predicate IsOffer(read: Reader, key: string, digest: seq<Byte>) {
    read(key) == Some(digest) && (Fields(key) == [] || Width(Fields(key)[0]) <= 246)
  }

  /** A line of the body is such a key. */
  ghost predicate OnOffer(read: Reader, text: string, digest: seq<Byte>) {
    var lines := Split(text, '\n');
    exists n :: 0 <= n < |lines| && IsKeyLine(read, lines[n]) && IsOffer(read, Utf8.TrimSpace(lines[n]), digest)
  }

  /** When no statement fails, an import for an existing user from a body of at most 64 KiB registers exactly
      the keys on its lines whose names fit: lines that are empty, comments or not readable are skipped, and
      no other. */
  lemma BodyRegisters(users: set<Id>, read: Reader, rows: seq<Row>, user: Id, text: string, digest: seq<Byte>)
    requires user in users && |text| <= 65536 && |digest| == 32
    ensures Registered(AfterImport(users, read, rows, user, Some(text), {}), Fingerprint(digest))
            <==> Registered(rows, Fingerprint(digest)) || OnOffer(read, text, digest)
  {
    var lines := Split(text, '\n');
    var keys := KeysOnLines(read, lines);
    var positions := KeysAreThoseOnLines(read, lines);
    ImportRegisters(users, read, rows, user, keys, {}, Fingerprint(digest));
    ImportableIsOffer(users, read, user, keys, digest);
    OfferOnLines(read, lines, positions, keys, digest);
    assert keys == [] ==> !AnyOffer(read, keys, digest);
  }

  lemma KeyFits(users: set<Id>, read: Reader, user: Id, key: string, digest: seq<Byte>)
    requires user in users && |digest| == 32
    ensures CalcFingerprint(read, key) == Some(Fingerprint(digest)) && Fits(users, KeyRow(user, key, Fingerprint(digest)))
            <==> IsOffer(read, key, digest)
  {
    FitsExactly(users, user, key, digest);
    if read(key).Some? {
      FingerprintIsInjective(read(key).value, digest);
    }
  }

  ghost predicate AnyOffer(read: Reader, keys: seq<string>, digest: seq<Byte>) {
    exists i :: 0 <= i < |keys| && IsOffer(read, keys[i], digest)
  }

  lemma ImportableIsOffer(users: set<Id>, read: Reader, user: Id, keys: seq<string>, digest: seq<Byte>)
    requires user in users && |digest| == 32
    ensures Importable(users, read, user, keys, {}, Fingerprint(digest)) <==> AnyOffer(read, keys, digest)
  {
    forall i | 0 <= i < |keys|
      ensures CalcFingerprint(read, keys[i]) == Some(Fingerprint(digest))
              && Fits(users, KeyRow(user, keys[i], Fingerprint(digest)))
              <==> IsOffer(read, keys[i], digest)
    {
      KeyFits(users, read, user, keys[i], digest);
    }
  }

  lemma OfferOnLines(read: Reader, lines: seq<string>, positions: seq<nat>, keys: seq<string>, digest: seq<Byte>)
    requires ListsKeys(read, lines, positions, keys)
    ensures AnyOffer(read, keys, digest)
            <==> exists n :: 0 <= n < |lines| && IsKeyLine(read, lines[n])
                             && IsOffer(read, Utf8.TrimSpace(lines[n]), digest)
  {
    if AnyOffer(read, keys, digest) {
      var i :| 0 <= i < |keys| && IsOffer(read, keys[i], digest);
      assert positions[i] in positions;
    }
    forall n | 0 <= n < |lines| && IsKeyLine(read, lines[n]) && IsOffer(read, Utf8.TrimSpace(lines[n]), digest)
      ensures AnyOffer(read, keys, digest)
    {
      var i :| 0 <= i < |positions| && positions[i] == n;
      assert IsOffer(read, keys[i], digest);
    }
  }

  /** The row holds one of these keys under its fingerprint and its name, for this user. */
  ghost predicate HoldsKey(read: Reader, user: Id, keys: seq<string>, r: Row) {
    && r.user == user && r.publicKey in keys && CalcFingerprint(read, r.publicKey) == Some(r.fingerprint)
    && r.name == KeyName(r.publicKey, r.fingerprint)
  }

  /** An import leaves the rows from before untouched, gives every fingerprint one owner, and all the new
      rows hold keys from the list for the user. */
  lemma ImportAdds(users: set<Id>, read: Reader, rows: seq<Row>, user: Id, keys: seq<string>, failing: set<nat>)
    ensures var after := Imported(users, read, rows, user, keys, failing);
            && rows <= after
            && (OneOwner(rows) ==> OneOwner(after))
            && forall i :: |rows| <= i < |after| ==> HoldsKey(read, user, keys, after[i])
  {
    var candidates := Candidates(read, user, keys, failing);
    var after := Imported(users, read, rows, user, keys, failing);
    InsertAllAdds(users, rows, candidates);
    forall i | |rows| <= i < |after| ensures HoldsKey(read, user, keys, after[i]) {
      var k :| 0 <= k < |candidates| && candidates[k] == Some(after[i]);
      assert Candidate(read, user, keys[k]) == Some(after[i]);
    }
  }

  /** Importing the same list again changes nothing if nothing failed the first time, whatever fails now. */
  lemma SecondImportAddsNothing(users: set<Id>, read: Reader, rows: seq<Row>, user: Id, keys: seq<string>,
                                failing: set<nat>)
    ensures var once := Imported(users, read, rows, user, keys, {});
            Imported(users, read, once, user, keys, failing) == once
  {
    var once := Imported(users, read, rows, user, keys, {});
    forall fp | Offered(users, Candidates(read, user, keys, failing), fp) ensures Registered(once, fp) {
      ImportableIsOffered(users, read, user, keys, failing, fp);
      ImportRegisters(users, read, rows, user, keys, {}, fp);
      assert Importable(users, read, user, keys, {}, fp);
    }
    NothingOnOffer(users, once, Candidates(read, user, keys, failing));
  }

  /** The display name is the first word of the line and the last eight characters of the digest. */
  lemma KeyNameIs(line: string, digest: seq<Byte>)
    requires |digest| == 32 && Fields(line) != []
    ensures |Encode(digest, false)| == 43
    ensures KeyName(line, Fingerprint(digest)) == Fields(line)[0] + " " + Encode(digest, false)[35..]
  {
    FingerprintIsUnpadded(digest);
    EncodedIs(digest);
    var fp := Fingerprint(digest);
    assert |fp| == 50 && fp[42..] == Encode(digest, false)[35..];
  }

  /** A key of an existing user is stored exactly when the first word on its line, which is options if
      there are any, leaves room in the name for the end of the fingerprint. */
  lemma FitsExactly(users: set<Id>, user: Id, line: string, digest: seq<Byte>)
    requires |digest| == 32
    ensures Fits(users, KeyRow(user, line, Fingerprint(digest)))
            <==> user in users && (Fields(line) == [] || Width(Fields(line)[0]) <= 246)
  {
    var fp := Fingerprint(digest);
    FingerprintIsUnpadded(digest);
    EncodedIs(digest);
    assert |fp| == 50;
    assert forall i :: 7 <= i < 50 ==> fp[i] == Encode(digest, false)[i - 7] && fp[i] in Encode(digest, false);
    assert Ascii(fp);
    WidthOfAscii(fp);
    if Fields(line) != [] {
      var end := " " + fp[|fp| - 8..];
      assert Ascii(end);
      WidthOfAscii(end);
      WidthAdds(Fields(line)[0], end);
    }
  }

  // ---------------------------------------------------------------------------------------------
  // Runs

  datatype Step = Import(user: Id, keys: seq<string>, failing: set<nat>) | Remove(user: Id, fingerprint: string)

  function After(users: set<Id>, read: Reader, rows: seq<Row>, s: Step): seq<Row> {
    match s
    case Import(user, keys, failing) => Imported(users, read, rows, user, keys, failing)
    case Remove(user, fp) => Without(rows, user, fp)
  }

  function Run(users: set<Id>, read: Reader, rows: seq<Row>, steps: seq<Step>): seq<Row>
    decreases |steps|
  {
    if steps == [] then rows else Run(users, read, After(users, read, rows, steps[0]), steps[1..])
  }

  lemma {:induction false} RunOneMore(users: set<Id>, read: Reader, rows: seq<Row>, steps: seq<Step>, s: Step)
    ensures Run(users, read, rows, steps + [s]) == After(users, read, Run(users, read, rows, steps), s)
    decreases |steps|
  {
    if steps == [] {
      assert steps + [s] == [s] && [s][1..] == [];
    } else {
      RunOneMore(users, read, After(users, read, rows, steps[0]), steps[1..], s);
      assert (steps + [s])[1..] == steps[1..] + [s];
    }
  }

  lemma ImportExtends(users: set<Id>, read: Reader, run: seq<Step>, rows: seq<Row>, user: Id, keys: seq<string>,
                      failing: set<nat>)
    requires rows == Run(users, read, [], run)
    ensures InsertAll(users, rows, Candidates(read, user, keys, failing))
         == Run(users, read, [], run + [Import(user, keys, failing)])
  {
    RunOneMore(users, read, [], run, Import(user, keys, failing));
  }

  lemma StepKeepsOneOwner(users: set<Id>, read: Reader, rows: seq<Row>, s: Step)
    requires OneOwner(rows)
    ensures OneOwner(After(users, read, rows, s))
  {
    match s {
      case Import(user, keys, failing) => ImportAdds(users, read, rows, user, keys, failing);
      case Remove(user, fp) => WithoutKeepsOneOwner(rows, user, fp);
    }
  }

  /** Whatever anybody imports or removes, a registered key stays with its owner, unchanged, until the
      owner removes it, and no fingerprint ever has two owners. */
  lemma {:induction false} OwnerKeepsKey(users: set<Id>, read: Reader, rows: seq<Row>, steps: seq<Step>, r: Row)
    requires OneOwner(rows) && r in rows && Remove(r.user, r.fingerprint) !in steps
    ensures var after := Run(users, read, rows, steps);
            && OneOwner(after) && r in after
            && forall u :: Owns(after, u, r.fingerprint) <==> u == r.user
    decreases |steps|
  {
    if steps == [] {
      OwnerIsUnique(rows, r);
    } else {
      StepKeepsOneOwner(users, read, rows, steps[0]);
      assert steps[0] in steps;
      if steps[0].Import? {
        ImportAdds(users, read, rows, steps[0].user, steps[0].keys, steps[0].failing);
      }
      OwnerKeepsKey(users, read, After(users, read, rows, steps[0]), steps[1..], r);
    }
  }
}
