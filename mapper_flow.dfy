/**
 * The request handlers of the FastAPI application (main.py) behind the
 * rating workflow: the term import run at startup, login and logout, and the
 * four steps of a rating session (start, view, submit, complete).  Each
 * handler works on the store `db` and on the cookie `cookie` of the browser
 * that sent the request; the clock reading `now` is a parameter.
 */
module MapperFlow {
  import opened Tables
  import opened Ranking
  import opened Percent
  import opened Web
  import opened Mapper
  import Text

  /** `import_terms_from_csv()`.  `source` is the parsed file, or `None` when
      opening or reading it raised: the inserts are committed only once the
      whole file was read, so a failure stores nothing. */
  method ImportTerms(db: Database, source: Option<seq<ImportRow>>)
    requires db.Valid()
    modifies db
    ensures db.Valid()
    ensures db.users == old(db.users) && db.mappings == old(db.mappings)
    ensures db.sessions == old(db.sessions) && db.messages == old(db.messages)
    ensures old(db.terms) != map[] || source.None? ==> db.terms == old(db.terms)
    ensures old(db.terms) == map[] && source.Some? ==>
              db.terms.Values == ImportedTerms(source.value) && |db.terms| == |ImportedTerms(source.value)|
    ensures forall id :: id in db.terms ==> id in old(db.terms) || old(db.nextTermId) <= id
    ensures db.Counters() == old(db.Counters()).(terms := db.nextTermId) && old(db.nextTermId) <= db.nextTermId
  {
    if db.terms != map[] || source.None? {
      return;
    }
    var rows := source.value;
    var i := 0;
    while i < |rows|
      invariant 0 <= i <= |rows|
      invariant db.Valid()
      invariant db.users == old(db.users) && db.mappings == old(db.mappings)
      invariant db.sessions == old(db.sessions) && db.messages == old(db.messages)
      invariant db.terms.Values == ImportedTerms(rows[..i])
      invariant db.Counters() == old(db.Counters()).(terms := db.nextTermId) && old(db.nextTermId) <= db.nextTermId
      invariant forall id :: id in db.terms ==> id in old(db.terms) || old(db.nextTermId) <= id
    {
      ImportRow(db, rows, i);
      i := i + 1;
    }
    assert rows[..i] == rows;
    InjectiveCard(db.terms);
  }

  /** One pass of the import loop: row `i` is stored when both its cells
      are non-blank after stripping. */
  method ImportRow(db: Database, rows: seq<ImportRow>, i: nat)
    requires i < |rows|
    requires db.Valid() && db.terms.Values == ImportedTerms(rows[..i])
    modifies db
    ensures db.Valid() && db.terms.Values == ImportedTerms(rows[..i + 1])
    ensures db.users == old(db.users) && db.mappings == old(db.mappings)
    ensures db.sessions == old(db.sessions) && db.messages == old(db.messages)
    ensures db.Counters() == old(db.Counters()).(terms := db.nextTermId) && old(db.nextTermId) <= db.nextTermId
    ensures forall id :: id in db.terms ==> id in old(db.terms) || old(db.nextTermId) <= id
  {
    ImportedTermsStep(rows, i);
    if Importable(rows[i]) {
      AddTerm(db, Stripped(rows[i]));
    }
  }

  /** `INSERT INTO terms (category, term)`, where a pair already present
      violates UNIQUE(category, term) and the error is swallowed. */
  method AddTerm(db: Database, t: Term)
    requires db.Valid()
    modifies db
    ensures db.Valid()
    ensures db.terms.Values == old(db.terms.Values) + {t}
    ensures db.users == old(db.users) && db.mappings == old(db.mappings)
    ensures db.sessions == old(db.sessions) && db.messages == old(db.messages)
    ensures db.Counters() == old(db.Counters()).(terms := db.nextTermId) && old(db.nextTermId) <= db.nextTermId
    ensures forall id :: id in db.terms ==> id in old(db.terms) || old(db.nextTermId) <= id
  {
    if t !in db.terms.Values {
      var id := db.nextTermId;
      InsertNext(db.terms, id, t);
      InjectiveInsert(db.terms, id, t);
      db.terms := db.terms[id := t];
      db.nextTermId := id + 1;
    }
  }

  /** `POST /login`: both form fields are required, so an empty one is
      refused before the handler runs; the handler then rejects a blank
      username, then a wrong password; an existing username keeps its id, a
      new one gets a fresh row.  The name is looked up and stored exactly as
      typed.  A configured password of "" therefore admits nobody. */
  method Login(db: Database, cookie: Cookie, username: string, password: string, globalPassword: string)
    returns (r: Response)
    requires db.Valid()
    modifies db, cookie
    ensures db.Valid()
    ensures FormMissing(username) || FormMissing(password) ==> r == Unprocessable
    ensures !FormMissing(username) && !FormMissing(password) && Text.IsBlank(username) ==> r == LoginPage(UsernameRequired)
    ensures !Text.IsBlank(username) && !FormMissing(password) && password != globalPassword ==>
              r == LoginPage(InvalidPassword)
    ensures r != RedirectDashboard ==>
              db.users == old(db.users) && db.Counters() == old(db.Counters()) && cookie.user == old(cookie.user)
    ensures db.Counters() == old(db.Counters()).(users := db.nextUserId) && old(db.nextUserId) <= db.nextUserId
    ensures !Text.IsBlank(username) && !FormMissing(password) && password == globalPassword ==>
              && r == RedirectDashboard
              && LoggedIn(cookie)
              && cookie.user.value.username == username
              && cookie.user.value.id in db.users && db.users[cookie.user.value.id] == username
              && (username in old(db.users.Values) ==> db.users == old(db.users))
              && (username !in old(db.users.Values) ==>
                    && cookie.user.value.id !in old(db.users)
                    && db.users == old(db.users)[cookie.user.value.id := username])
    ensures db.terms == old(db.terms) && db.mappings == old(db.mappings)
    ensures db.sessions == old(db.sessions) && db.messages == old(db.messages)
    ensures cookie.currentSession == old(cookie.currentSession) && cookie.sessionTerms == old(cookie.sessionTerms)
    ensures cookie.currentIndex == old(cookie.currentIndex) && cookie.adminLoggedIn == old(cookie.adminLoggedIn)
  {
    if FormMissing(username) || FormMissing(password) {
      return Unprocessable;
    }
    if Text.IsBlank(username) {
      return LoginPage(UsernameRequired);
    }
    if password != globalPassword {
      return LoginPage(InvalidPassword);
    }
    var id := FindOrAddUser(db, username);
    cookie.user := Some(Account(id, username));
    r := RedirectDashboard;
  }

  /** `SELECT id FROM users WHERE username = ?`, and an insert when no row
      matches. */
  method FindOrAddUser(db: Database, username: string) returns (id: UserId)
    requires db.Valid()
    modifies db
    ensures db.Valid()
    ensures id in db.users && db.users[id] == username && id != 0
    ensures username in old(db.users.Values) ==> db.users == old(db.users)
    ensures username !in old(db.users.Values) ==> id !in old(db.users) && db.users == old(db.users)[id := username]
    ensures db.Counters() == old(db.Counters()).(users := db.nextUserId) && old(db.nextUserId) <= db.nextUserId
    ensures db.terms == old(db.terms) && db.mappings == old(db.mappings)
    ensures db.sessions == old(db.sessions) && db.messages == old(db.messages)
  {
    if username in db.users.Values {
      id :| id in db.users && db.users[id] == username;
    } else {
      id := db.nextUserId;
      InsertNext(db.users, id, username);
      InjectiveInsert(db.users, id, username);
      db.users := db.users[id := username];
      db.nextUserId := id + 1;
    }
  }

  /** `GET /logout`: clears the whole cookie, the admin flag included. */
  method Logout(cookie: Cookie) returns (r: Response)
    modifies cookie
    ensures r == RedirectLogin
    ensures cookie.user == None && cookie.currentSession == None && cookie.sessionTerms == None
    ensures cookie.currentIndex == None && !cookie.adminLoggedIn
  {
    cookie.user, cookie.currentSession, cookie.sessionTerms, cookie.currentIndex := None, None, None, None;
    cookie.adminLoggedIn := false;
    r := RedirectLogin;
  }

  /** `POST /session/start`: records a session row and puts a snapshot of
      `get_terms_for_session(count, user_id)` in the cookie with the cursor at
      0.  The ties among equally rated terms fall in whatever order
      `RANDOM()` produced.  A `count` outside SQLite's 64-bit range makes
      the insert raise, and the request fails before anything is stored. */
  method StartSession(db: Database, cookie: Cookie, count: int, now: Time) returns (r: Response)
    requires db.Valid()
    modifies db, cookie
    ensures db.Valid()
    ensures !LoggedIn(cookie) ==> r == RedirectLogin
    ensures LoggedIn(cookie) && !IsSqliteInteger(count) ==> r == ServerError
    ensures r != RedirectSession ==>
              && db.sessions == old(db.sessions)
              && db.Counters() == old(db.Counters())
              && cookie.currentSession == old(cookie.currentSession)
              && cookie.sessionTerms == old(cookie.sessionTerms)
              && cookie.currentIndex == old(cookie.currentIndex)
    ensures LoggedIn(cookie) && IsSqliteInteger(count) ==>
              var uid := cookie.user.value.id;
              var sid := old(db.nextSessionId);
              && r == RedirectSession
              && sid !in old(db.sessions)
              && db.sessions == old(db.sessions)[sid := SessionRow(uid, now, None, count)]
              && db.Counters() == old(db.Counters()).(sessions := sid + 1)
              && cookie.currentSession == Some(sid)
              && cookie.currentIndex == Some(0)
              && cookie.sessionTerms.Some?
              && Selection(db.terms, db.mappings, count, uid, cookie.sessionTerms.value)
    ensures db.users == old(db.users) && db.terms == old(db.terms)
    ensures db.mappings == old(db.mappings) && db.messages == old(db.messages)
    ensures cookie.user == old(cookie.user) && cookie.adminLoggedIn == old(cookie.adminLoggedIn)
  {
    if !LoggedIn(cookie) {
      return RedirectLogin;
    }
    if !IsSqliteInteger(count) {
      return ServerError;
    }
    var uid := cookie.user.value.id;
    var sid := OpenSession(db, uid, count, now);
    PutSession(cookie, db.terms, db.mappings, count, uid, sid);
    assert LoggedIn(cookie);
    r := RedirectSession;
  }

  /** The three session keys `start_session` writes: the session id, the
      term snapshot chosen against `terms` and `mappings`, and cursor 0. */
  method PutSession(cookie: Cookie, terms: map<TermId, Term>, mappings: map<MappingId, Mapping>, count: int,
                    uid: UserId, sid: SessionId)
    modifies cookie
    ensures cookie.currentSession == Some(sid) && cookie.currentIndex == Some(0) && cookie.sessionTerms.Some?
    ensures Selection(terms, mappings, count, uid, cookie.sessionTerms.value)
    ensures cookie.user == old(cookie.user) && cookie.adminLoggedIn == old(cookie.adminLoggedIn)
  {
    var chosen := ChooseTerms(terms, mappings, count, uid);
    cookie.currentSession, cookie.sessionTerms, cookie.currentIndex := Some(sid), Some(chosen), Some(0);
  }

  /** `INSERT INTO sessions (user_id, terms_count)`, stamped with the start
      time. */
  method OpenSession(db: Database, uid: UserId, count: int, now: Time) returns (sid: SessionId)
    requires db.Valid()
    modifies db
    ensures db.Valid()
    ensures sid == old(db.nextSessionId) && sid !in old(db.sessions)
    ensures db.sessions == old(db.sessions)[sid := SessionRow(uid, now, None, count)]
    ensures db.Counters() == old(db.Counters()).(sessions := sid + 1)
    ensures db.users == old(db.users) && db.terms == old(db.terms)
    ensures db.mappings == old(db.mappings) && db.messages == old(db.messages)
  {
    sid := db.nextSessionId;
    InsertNext(db.sessions, sid, SessionRow(uid, now, None, count));
    db.sessions := db.sessions[sid := SessionRow(uid, now, None, count)];
    db.nextSessionId := sid + 1;
  }

  /** `chosen` is what `get_terms_for_session(count, uid)` returns for some
      order of the ties. */
  ghost predicate Selection(terms: map<TermId, Term>, mappings: map<MappingId, Mapping>, count: int, uid: UserId,
                            chosen: seq<TermId>)
  {
    exists order :: SelectionBy(terms, mappings, count, uid, order, chosen)
  }

  /** `chosen` is what `get_terms_for_session(count, uid)` returns when
      `RANDOM()` orders the ties as `order` does. */
  ghost predicate SelectionBy(terms: map<TermId, Term>, mappings: map<MappingId, Mapping>, count: int, uid: UserId,
                              order: seq<TermId>, chosen: seq<TermId>)
  {
    && IsEnumeration(order, Eligible(terms, mappings, Some(uid)))
    && chosen == SelectTerms(terms, mappings, count, Some(uid), order)
  }

  /** `get_terms_for_session(count, user_id)` run against the current tables,
      with whatever order `RANDOM()` gives to the ties. */
  method ChooseTerms(terms: map<TermId, Term>, mappings: map<MappingId, Mapping>, count: int, uid: UserId)
    returns (chosen: seq<TermId>)
    ensures Selection(terms, mappings, count, uid, chosen)
  {
    EnumerationExists(Eligible(terms, mappings, Some(uid)));
    var order :| IsEnumeration(order, Eligible(terms, mappings, Some(uid)));
    chosen := SelectTerms(terms, mappings, count, Some(uid), order);
    assert SelectionBy(terms, mappings, count, uid, order, chosen);
  }

  /** `GET /session`: the rating page for the term at the cursor.  A missing
      or empty term list goes back to the dashboard; a cursor at or past the
      end goes to the completion page. */
  function ViewSession(cookie: Cookie): (r: Response)
    reads cookie
    ensures !LoggedIn(cookie) ==> r == RedirectLogin
    ensures LoggedIn(cookie) && (cookie.sessionTerms == None || cookie.sessionTerms == Some([]) || cookie.currentIndex == None)
            ==> r == RedirectDashboard
    ensures r == RedirectComplete <==>
              && LoggedIn(cookie) && cookie.sessionTerms.Some? && cookie.sessionTerms.value != []
              && cookie.currentIndex.Some? && cookie.currentIndex.value >= |cookie.sessionTerms.value|
    ensures r.TermPage? <==> LoggedIn(cookie) && AtTerm(cookie)
    ensures r.TermPage? ==>
              && r.term == cookie.sessionTerms.value[cookie.currentIndex.value]
              && r.total == |cookie.sessionTerms.value|
              && 1 <= r.position <= r.total
              && r.position == cookie.currentIndex.value + 1
              && r.progress == PercentOf(cookie.currentIndex.value, r.total)
              && r.progress <= 100
              && (r.position == 1 ==> r.progress == 0)
  {
    if !LoggedIn(cookie) then RedirectLogin
    else if cookie.sessionTerms.None? || cookie.sessionTerms.value == [] || cookie.currentIndex.None? then RedirectDashboard
    else
      var terms, i := cookie.sessionTerms.value, cookie.currentIndex.value;
      if i >= |terms| then RedirectComplete
      else TermPage(terms[i], i + 1, |terms|, PercentOf(i, |terms|))
  }

  /** `POST /session/submit`: with the cursor on a term, records the user's
      rating of it unless one exists (UNIQUE(term_id, user_id) makes the
      insert fail and the failure is ignored), then moves the cursor one
      step.  Anywhere else it changes nothing.  `codes_json` is an optional
      form field: left empty, it is stored as its default `"[]"`. */
  method SubmitMapping(db: Database, cookie: Cookie, codes: string, noCodeFound: bool, now: Time)
    returns (r: Response)
    requires db.Valid()
    modifies db, cookie
    ensures db.Valid()
    ensures !LoggedIn(cookie) ==> r == RedirectLogin
    ensures LoggedIn(cookie) && !old(AtTerm(cookie)) ==> r == RedirectDashboard
    ensures !(LoggedIn(cookie) && old(AtTerm(cookie))) ==>
              db.mappings == old(db.mappings) && cookie.currentIndex == old(cookie.currentIndex)
    ensures LoggedIn(cookie) && old(AtTerm(cookie)) ==>
              var t := old(cookie.sessionTerms.value[cookie.currentIndex.value]);
              var u := cookie.user.value.id;
              && r == RedirectSession
              && cookie.currentIndex == Some(old(cookie.currentIndex.value) + 1)
              && HasRated(db.mappings, t, u)
              && (HasRated(old(db.mappings), t, u) ==> db.mappings == old(db.mappings))
              && (!HasRated(old(db.mappings), t, u) ==>
                    && db.mappings == old(db.mappings)[old(db.nextMappingId) := Mapping(t, u, FormOr(codes, "[]"), noCodeFound, now)]
                    && db.mappings[old(db.nextMappingId)].codes != [])
    ensures db.Counters() == old(db.Counters()).(mappings := db.nextMappingId) && old(db.nextMappingId) <= db.nextMappingId
    ensures db.users == old(db.users) && db.terms == old(db.terms)
    ensures db.sessions == old(db.sessions) && db.messages == old(db.messages)
    ensures cookie.user == old(cookie.user) && cookie.sessionTerms == old(cookie.sessionTerms)
    ensures cookie.currentSession == old(cookie.currentSession) && cookie.adminLoggedIn == old(cookie.adminLoggedIn)
  {
    if !LoggedIn(cookie) {
      return RedirectLogin;
    }
    if !AtTerm(cookie) {
      return RedirectDashboard;
    }
    var i := cookie.currentIndex.value;
    var t := cookie.sessionTerms.value[i];
    var u := cookie.user.value.id;
    if !HasRated(db.mappings, t, u) {
      var id := db.nextMappingId;
      var row := Mapping(t, u, FormOr(codes, "[]"), noCodeFound, now);
      InsertNext(db.mappings, id, row);
      db.mappings := db.mappings[id := row];
      db.nextMappingId := id + 1;
      assert db.mappings[id].term == t && db.mappings[id].user == u;
    }
    cookie.currentIndex := Some(i + 1);
    r := RedirectSession;
  }

  /** `GET /session/complete`: stamps the session row, counts the user's
      mappings made since the session started and removes the session keys
      from the cookie. */
  method CompleteSession(db: Database, cookie: Cookie, now: Time) returns (r: Response)
    requires db.Valid()
    modifies db, cookie
    ensures db.Valid()
    ensures !LoggedIn(cookie) ==> r == RedirectLogin
    ensures LoggedIn(cookie) && (old(cookie.currentSession) == None || old(cookie.currentSession) == Some(0))
            ==> r == RedirectDashboard
    ensures r.RedirectLogin? || r.RedirectDashboard? ==>
              && db.sessions == old(db.sessions)
              && cookie.currentSession == old(cookie.currentSession)
              && cookie.sessionTerms == old(cookie.sessionTerms)
              && cookie.currentIndex == old(cookie.currentIndex)
    ensures LoggedIn(cookie) && old(cookie.currentSession).Some? && old(cookie.currentSession).value != 0 ==>
              var sid := old(cookie.currentSession).value;
              && r == CompletePage(MappedSince(db.mappings, old(db.sessions), cookie.user.value.id, sid))
              && (sid in old(db.sessions) ==>
                    db.sessions == old(db.sessions)[sid := old(db.sessions)[sid].(completedAt := Some(now))])
              && (sid !in old(db.sessions) ==> db.sessions == old(db.sessions))
              && cookie.currentSession == None && cookie.sessionTerms == None && cookie.currentIndex == None
    ensures db.users == old(db.users) && db.terms == old(db.terms)
    ensures db.mappings == old(db.mappings) && db.messages == old(db.messages)
    ensures db.Counters() == old(db.Counters())
    ensures cookie.user == old(cookie.user) && cookie.adminLoggedIn == old(cookie.adminLoggedIn)
  {
    if !LoggedIn(cookie) {
      return RedirectLogin;
    }
    if cookie.currentSession.None? || cookie.currentSession.value == 0 {
      return RedirectDashboard;
    }
    var sid := cookie.currentSession.value;
    var u := cookie.user.value.id;
    var count := MappedSince(db.mappings, db.sessions, u, sid);
    if sid in db.sessions {
      db.sessions := db.sessions[sid := db.sessions[sid].(completedAt := Some(now))];
    }
    cookie.currentSession, cookie.sessionTerms, cookie.currentIndex := None, None, None;
    r := CompletePage(count);
  }
}
