/**
 * The earlier Flask application (app.py): the same rating workflow over a
 * simpler store.  A term is one line of text; the mappings table has no
 * UNIQUE(term_id, user_id), so a user who meets a term again rates it again;
 * a rating is one code string, kept as a `Mapping` whose `noCodeFound` flag
 * is always false.  Session rows, the cookie keys, the user statistics and
 * the leaderboard query are the ones of the FastAPI application and are
 * shared with it.  The shared `Cookie` class carries an `adminLoggedIn` key
 * that app.py never sets: it has no admin routes, so the key stays as it
 * was.  Where the two applications part ways, the contracts below say how.
 */
module Flask {
  import opened Tables
  import opened Ranking
  import opened Percent
  import opened Web
  import opened Mapper
  import Text

  /** The AUTOINCREMENT counters of the four tables. */
  datatype FlaskCounters = FlaskCounters(users: nat, terms: nat, mappings: nat, sessions: nat)

  class FlaskDatabase {
    var users: map<UserId, string>
    var terms: map<TermId, string>
    var mappings: map<MappingId, Mapping>
    var sessions: map<SessionId, SessionRow>
    var nextUserId: nat
    var nextTermId: nat
    var nextMappingId: nat
    var nextSessionId: nat

    /** UNIQUE on usernames and on term texts, and the AUTOINCREMENT
        counters.  Nothing constrains the mappings table. */
    ghost predicate Valid()
      reads this
    {
      && Injective(users)
      && Injective(terms)
      && IdsBelow(users, nextUserId)
      && IdsBelow(terms, nextTermId)
      && IdsBelow(mappings, nextMappingId)
      && IdsBelow(sessions, nextSessionId)
    }

    /** The counters: deleting rows never lowers them, so an id is never
        handed out twice. */
    function Counters(): FlaskCounters
      reads this
    {
      FlaskCounters(nextUserId, nextTermId, nextMappingId, nextSessionId)
    }

    /** `init_db` on a fresh database file. */
    constructor ()
      ensures Valid()
      ensures users == map[] && terms == map[] && mappings == map[] && sessions == map[]
    {
      users, terms, mappings, sessions := map[], map[], map[], map[];
      nextUserId, nextTermId, nextMappingId, nextSessionId := 1, 1, 1, 1;
    }
  }

  /** `login_required`: the `user_id` key is present. */
  predicate SignedIn(c: Cookie)
    reads c
  {
    c.user.Some?
  }

  /** What holds between the store and a cookie the application issued:
      ratings and the cookie's term snapshot name stored terms. */
  ghost predicate Consistent(db: FlaskDatabase, c: Cookie)
    reads db, c
  {
    && MappedTermsExist(db.terms, db.mappings)
    && (c.sessionTerms.Some? ==> forall t :: t in c.sessionTerms.value ==> t in db.terms)
  }

  // ---------------------------------------------------------------------
  // Term import

  datatype ImportOutcome = AlreadyImported | Imported | ImportFailed

  /** The terms a fresh import stores: every non-blank line, stripped, once
      per text. */
  function ImportedLines(lines: seq<string>): set<string> {
    set l | l in lines && !Text.IsBlank(l) :: Text.Strip(l)
  }

  /** Importing one more line adds its stripped text when it is not blank. */
  lemma ImportedLinesStep(lines: seq<string>, i: nat)
    requires 1 <= i < |lines|
    ensures ImportedLines(lines[1..i + 1])
            == ImportedLines(lines[1..i]) + (if !Text.IsBlank(lines[i]) then {Text.Strip(lines[i])} else {})
  {
    assert lines[1..i + 1] == lines[1..i] + [lines[i]];
  }

  /** `import_terms_from_csv()`.  `file` holds the lines of the file as the
      first encoding that decodes it reads them, or `None` when the file
      cannot be opened.  The first line is the header.  Opening a missing
      file or skipping the header of an empty one raises, and nothing is
      committed. */
  method ImportTerms(db: FlaskDatabase, file: Option<seq<string>>) returns (outcome: ImportOutcome)
    requires db.Valid()
    modifies db
    ensures db.Valid()
    ensures db.users == old(db.users) && db.mappings == old(db.mappings) && db.sessions == old(db.sessions)
    ensures db.Counters() == old(db.Counters()).(terms := db.nextTermId) && old(db.nextTermId) <= db.nextTermId
    ensures old(db.terms) != map[] ==> outcome == AlreadyImported && db.terms == old(db.terms)
    ensures old(db.terms) == map[] && (file.None? || file.value == []) ==>
              outcome == ImportFailed && db.terms == old(db.terms)
    ensures old(db.terms) == map[] && file.Some? && file.value != [] ==>
              && outcome == Imported
              && db.terms.Values == ImportedLines(file.value[1..])
              && |db.terms| == |ImportedLines(file.value[1..])|
  {
    if db.terms != map[] {
      return AlreadyImported;
    }
    if file.None? || file.value == [] {
      return ImportFailed;
    }
    var lines := file.value;
    var i := 1;
    while i < |lines|
      invariant 1 <= i <= |lines|
      invariant db.Valid()
      invariant db.users == old(db.users) && db.mappings == old(db.mappings) && db.sessions == old(db.sessions)
      invariant db.terms.Values == ImportedLines(lines[1..i])
      invariant db.Counters() == old(db.Counters()).(terms := db.nextTermId) && old(db.nextTermId) <= db.nextTermId
    {
      ImportLine(db, lines, i);
      i := i + 1;
    }
    assert lines[1..i] == lines[1..];
    InjectiveCard(db.terms);
    outcome := Imported;
  }

  /** One pass of the import loop: line `i` is stored stripped unless it is
      blank. */
  method ImportLine(db: FlaskDatabase, lines: seq<string>, i: nat)
    requires 1 <= i < |lines|
    requires db.Valid() && db.terms.Values == ImportedLines(lines[1..i])
    modifies db
    ensures db.Valid() && db.terms.Values == ImportedLines(lines[1..i + 1])
    ensures db.users == old(db.users) && db.mappings == old(db.mappings) && db.sessions == old(db.sessions)
    ensures db.Counters() == old(db.Counters()).(terms := db.nextTermId) && old(db.nextTermId) <= db.nextTermId
  {
    ImportedLinesStep(lines, i);
    if !Text.IsBlank(lines[i]) {
      AddTerm(db, Text.Strip(lines[i]));
    }
  }

  /** `INSERT INTO terms (term)`, where a text already present violates
      UNIQUE(term) and the error is swallowed. */
  method AddTerm(db: FlaskDatabase, text: string)
    requires db.Valid()
    modifies db
    ensures db.Valid()
    ensures db.terms.Values == old(db.terms.Values) + {text}
    ensures db.users == old(db.users) && db.mappings == old(db.mappings) && db.sessions == old(db.sessions)
    ensures db.Counters() == old(db.Counters()).(terms := db.nextTermId) && old(db.nextTermId) <= db.nextTermId
  {
    if text !in db.terms.Values {
      var id := db.nextTermId;
      InsertNext(db.terms, id, text);
      InjectiveInsert(db.terms, id, text);
      db.terms := db.terms[id := text];
      db.nextTermId := id + 1;
    }
  }

  // ---------------------------------------------------------------------
  // Login

  /** `POST /login`: no password; the username is stripped, a blank one is
      rejected, and the stripped name is looked up, created if new, and put
      in the cookie. */
  method Login(db: FlaskDatabase, cookie: Cookie, username: string) returns (r: Response)
    requires db.Valid()
    modifies db, cookie
    ensures db.Valid()
    ensures Text.IsBlank(username) ==>
              && r == LoginPage(UsernameRequired)
              && db.users == old(db.users) && cookie.user == old(cookie.user)
              && db.Counters() == old(db.Counters())
    ensures !Text.IsBlank(username) ==>
              var name := Text.Strip(username);
              && r == RedirectDashboard
              && name != []
              && cookie.user.Some? && cookie.user.value.username == name
              && cookie.user.value.id in db.users && db.users[cookie.user.value.id] == name
              && (name in old(db.users.Values) ==> db.users == old(db.users))
              && (name !in old(db.users.Values) ==>
                    && cookie.user.value.id !in old(db.users)
                    && db.users == old(db.users)[cookie.user.value.id := name])
    ensures db.terms == old(db.terms) && db.mappings == old(db.mappings) && db.sessions == old(db.sessions)
    ensures db.Counters() == old(db.Counters()).(users := db.nextUserId) && old(db.nextUserId) <= db.nextUserId
    ensures cookie.currentSession == old(cookie.currentSession) && cookie.sessionTerms == old(cookie.sessionTerms)
    ensures cookie.currentIndex == old(cookie.currentIndex) && cookie.adminLoggedIn == old(cookie.adminLoggedIn)
  {
    var name := Text.Strip(username);
    Text.BlankIffStripEmpty(username);
    if name == [] {
      return LoginPage(UsernameRequired);
    }
    SignIn(db, cookie, name);
    r := RedirectDashboard;
  }

  /** The two login keys of the cookie set to the account named `name`,
      which is created when no user row has that name. */
  method SignIn(db: FlaskDatabase, cookie: Cookie, name: string)
    requires db.Valid()
    modifies db, cookie
    ensures db.Valid()
    ensures cookie.user.Some? && cookie.user.value.username == name
    ensures cookie.user.value.id in db.users && db.users[cookie.user.value.id] == name
    ensures name in old(db.users.Values) ==> db.users == old(db.users)
    ensures name !in old(db.users.Values) ==>
              && cookie.user.value.id !in old(db.users)
              && db.users == old(db.users)[cookie.user.value.id := name]
    ensures db.terms == old(db.terms) && db.mappings == old(db.mappings) && db.sessions == old(db.sessions)
    ensures db.Counters() == old(db.Counters()).(users := db.nextUserId) && old(db.nextUserId) <= db.nextUserId
    ensures cookie.currentSession == old(cookie.currentSession) && cookie.sessionTerms == old(cookie.sessionTerms)
    ensures cookie.currentIndex == old(cookie.currentIndex) && cookie.adminLoggedIn == old(cookie.adminLoggedIn)
  {
    var id := FindOrAddUser(db, name);
    cookie.user := Some(Account(id, name));
  }

  /** `SELECT id FROM users WHERE username = ?`, and an insert when no row
      matches. */
  method FindOrAddUser(db: FlaskDatabase, name: string) returns (id: UserId)
    requires db.Valid()
    modifies db
    ensures db.Valid()
    ensures id in db.users && db.users[id] == name
    ensures name in old(db.users.Values) ==> db.users == old(db.users)
    ensures name !in old(db.users.Values) ==> id !in old(db.users) && db.users == old(db.users)[id := name]
    ensures db.terms == old(db.terms) && db.mappings == old(db.mappings) && db.sessions == old(db.sessions)
    ensures db.Counters() == old(db.Counters()).(users := db.nextUserId) && old(db.nextUserId) <= db.nextUserId
  {
    if name in db.users.Values {
      id :| id in db.users && db.users[id] == name;
    } else {
      id := db.nextUserId;
      InsertNext(db.users, id, name);
      InjectiveInsert(db.users, id, name);
      db.users := db.users[id := name];
      db.nextUserId := id + 1;
    }
  }

  // ---------------------------------------------------------------------
  // Term selection

  /** `COUNT(m.id)` for term `t`: every row counts, repeated ratings by one
      user included. */
  function RowCount(mappings: map<MappingId, Mapping>, t: TermId): nat {
    |RowsOfTerm(mappings, t)|
  }

  /** `get_terms_for_session(count)`: all terms, those already rated by the
      user included, ordered by their number of mapping rows, ties in the
      order `order` that `RANDOM()` produced, cut at `count`. */
  function SelectTerms(terms: map<TermId, string>, mappings: map<MappingId, Mapping>, count: int,
                       order: seq<TermId>): (r: seq<TermId>)
    requires IsEnumeration(order, terms.Keys)
    ensures Distinct(r)
    ensures forall t :: t in r ==> t in terms
    ensures |r| == if 0 <= count < |terms| then count else |terms|
    ensures forall i, j :: 0 <= i < j < |r| ==> RowCount(mappings, r[i]) <= RowCount(mappings, r[j])
    ensures forall t, c :: t in terms && t !in r && c in r ==> RowCount(mappings, c) <= RowCount(mappings, t)
    ensures (count < 0 || count >= |terms|) ==> forall t :: t in terms ==> t in r
  {
    var key := (t: TermId) => RowCount(mappings, t) as int;
    var r := Lowest(order, key, count);
    LowestOfEnumeration(order, terms.Keys, key, count);
    forall t, c | t in terms && t !in r && c in r
      ensures RowCount(mappings, c) <= RowCount(mappings, t)
    {
      assert key(c) <= key(t);
    }
    forall i, j | 0 <= i < j < |r| ensures RowCount(mappings, r[i]) <= RowCount(mappings, r[j]) {
      assert key(r[i]) <= key(r[j]);
    }
    r
  }

  /** `chosen` is what `get_terms_for_session(count)` returns for some order
      of the ties. */
  ghost predicate Selection(terms: map<TermId, string>, mappings: map<MappingId, Mapping>, count: int,
                            chosen: seq<TermId>)
  {
    exists order :: SelectionBy(terms, mappings, count, order, chosen)
  }

  /** `chosen` is what `get_terms_for_session(count)` returns when
      `RANDOM()` orders the ties as `order` does. */
  ghost predicate SelectionBy(terms: map<TermId, string>, mappings: map<MappingId, Mapping>, count: int,
                              order: seq<TermId>, chosen: seq<TermId>)
  {
    IsEnumeration(order, terms.Keys) && chosen == SelectTerms(terms, mappings, count, order)
  }

  /** `get_terms_for_session(count)` run against the current tables, with
      whatever order `RANDOM()` gives to the ties. */
  method ChooseTerms(terms: map<TermId, string>, mappings: map<MappingId, Mapping>, count: int)
    returns (chosen: seq<TermId>)
    ensures Selection(terms, mappings, count, chosen)
    ensures forall t :: t in chosen ==> t in terms
  {
    EnumerationExists(terms.Keys);
    var order :| IsEnumeration(order, terms.Keys);
    chosen := SelectTerms(terms, mappings, count, order);
    assert SelectionBy(terms, mappings, count, order, chosen);
  }

  // ---------------------------------------------------------------------
  // The rating session

  /** `POST /session/start`: records a session row and puts a snapshot of
      `get_terms_for_session(count)` in the cookie with the cursor at 0.  A
      `count` outside SQLite's 64-bit range makes the insert raise, and the
      request fails before anything is stored. */
  method StartSession(db: FlaskDatabase, cookie: Cookie, count: int, now: Time) returns (r: Response)
    requires db.Valid()
    modifies db, cookie
    ensures db.Valid()
    ensures old(Consistent(db, cookie)) ==> Consistent(db, cookie)
    ensures !SignedIn(cookie) ==> r == RedirectLogin
    ensures SignedIn(cookie) && !IsSqliteInteger(count) ==> r == ServerError
    ensures r != RedirectSession ==>
              && db.sessions == old(db.sessions)
              && db.Counters() == old(db.Counters())
              && cookie.currentSession == old(cookie.currentSession)
              && cookie.sessionTerms == old(cookie.sessionTerms)
              && cookie.currentIndex == old(cookie.currentIndex)
    ensures SignedIn(cookie) && IsSqliteInteger(count) ==>
              var sid := old(db.nextSessionId);
              && r == RedirectSession
              && sid !in old(db.sessions)
              && db.sessions == old(db.sessions)[sid := SessionRow(cookie.user.value.id, now, None, count)]
              && db.Counters() == old(db.Counters()).(sessions := sid + 1)
              && cookie.currentSession == Some(sid)
              && cookie.currentIndex == Some(0)
              && cookie.sessionTerms.Some?
              && Selection(db.terms, db.mappings, count, cookie.sessionTerms.value)
    ensures db.users == old(db.users) && db.terms == old(db.terms) && db.mappings == old(db.mappings)
    ensures cookie.user == old(cookie.user) && cookie.adminLoggedIn == old(cookie.adminLoggedIn)
  {
    if !SignedIn(cookie) {
      return RedirectLogin;
    }
    if !IsSqliteInteger(count) {
      return ServerError;
    }
    var uid := cookie.user.value.id;
    var sid := OpenSession(db, uid, count, now);
    PutSession(cookie, db.terms, db.mappings, count, sid);
    assert SignedIn(cookie);
    r := RedirectSession;
  }

  /** The three session keys `start_session` writes: the session id, the
      term snapshot chosen against `terms` and `mappings`, and cursor 0. */
  method PutSession(cookie: Cookie, terms: map<TermId, string>, mappings: map<MappingId, Mapping>, count: int,
                    sid: SessionId)
    modifies cookie
    ensures cookie.currentSession == Some(sid) && cookie.currentIndex == Some(0) && cookie.sessionTerms.Some?
    ensures Selection(terms, mappings, count, cookie.sessionTerms.value)
    ensures forall t :: t in cookie.sessionTerms.value ==> t in terms
    ensures cookie.user == old(cookie.user) && cookie.adminLoggedIn == old(cookie.adminLoggedIn)
  {
    var chosen := ChooseTerms(terms, mappings, count);
    cookie.currentSession, cookie.sessionTerms, cookie.currentIndex := Some(sid), Some(chosen), Some(0);
  }

  /** `INSERT INTO sessions (user_id, terms_count)`, stamped with the start
      time. */
  method OpenSession(db: FlaskDatabase, uid: UserId, count: int, now: Time) returns (sid: SessionId)
    requires db.Valid()
    modifies db
    ensures db.Valid()
    ensures sid == old(db.nextSessionId) && sid !in old(db.sessions)
    ensures db.sessions == old(db.sessions)[sid := SessionRow(uid, now, None, count)]
    ensures db.Counters() == old(db.Counters()).(sessions := sid + 1)
    ensures db.users == old(db.users) && db.terms == old(db.terms) && db.mappings == old(db.mappings)
  {
    sid := db.nextSessionId;
    InsertNext(db.sessions, sid, SessionRow(uid, now, None, count));
    db.sessions := db.sessions[sid := SessionRow(uid, now, None, count)];
    db.nextSessionId := sid + 1;
  }

  /** `GET /session`: the rating page for the term at the cursor.  Only
      missing keys send the user back to the dashboard; a cursor at or past
      the end, an empty term list included, goes to the completion page. */
  function ViewSession(cookie: Cookie): (r: Response)
    reads cookie
    ensures !SignedIn(cookie) ==> r == RedirectLogin
    ensures r == RedirectDashboard <==> SignedIn(cookie) && (cookie.sessionTerms == None || cookie.currentIndex == None)
    ensures r == RedirectComplete <==>
              && SignedIn(cookie) && cookie.sessionTerms.Some? && cookie.currentIndex.Some?
              && cookie.currentIndex.value >= |cookie.sessionTerms.value|
    ensures r.TermPage? <==> SignedIn(cookie) && AtTerm(cookie)
    ensures r.TermPage? ==>
              && r.term == cookie.sessionTerms.value[cookie.currentIndex.value]
              && r.total == |cookie.sessionTerms.value|
              && 1 <= r.position <= r.total
              && r.position == cookie.currentIndex.value + 1
              && r.progress == PercentOf(cookie.currentIndex.value, r.total)
              && r.progress <= 100
              && (r.position == 1 ==> r.progress == 0)
  {
    if !SignedIn(cookie) then RedirectLogin
    else if cookie.sessionTerms.None? || cookie.currentIndex.None? then RedirectDashboard
    else
      var terms, i := cookie.sessionTerms.value, cookie.currentIndex.value;
      if i >= |terms| then RedirectComplete
      else TermPage(terms[i], i + 1, |terms|, PercentOf(i, |terms|))
  }

  /** `POST /session/submit`: with the cursor on a term, stores the stripped
      code as a new mapping row unless it is blank, then moves the cursor one
      step.  A cursor past the end goes to the completion page. */
  method SubmitMapping(db: FlaskDatabase, cookie: Cookie, code: string, now: Time) returns (r: Response)
    requires db.Valid()
    modifies db, cookie
    ensures db.Valid()
    ensures old(Consistent(db, cookie)) ==> Consistent(db, cookie)
    ensures !SignedIn(cookie) ==> r == RedirectLogin
    ensures SignedIn(cookie) && (old(cookie.sessionTerms) == None || old(cookie.currentIndex) == None) ==>
              r == RedirectDashboard
    ensures SignedIn(cookie) && old(cookie.sessionTerms).Some? && old(cookie.currentIndex).Some?
            && old(cookie.currentIndex).value >= |old(cookie.sessionTerms).value| ==>
              r == RedirectComplete
    ensures !(SignedIn(cookie) && old(AtTerm(cookie))) ==>
              db.mappings == old(db.mappings) && cookie.currentIndex == old(cookie.currentIndex)
    ensures SignedIn(cookie) && old(AtTerm(cookie)) ==>
              var t := old(cookie.sessionTerms.value[cookie.currentIndex.value]);
              var row := Mapping(t, cookie.user.value.id, Text.Strip(code), false, now);
              && r == RedirectSession
              && cookie.currentIndex == Some(old(cookie.currentIndex.value) + 1)
              && (Text.IsBlank(code) ==> db.mappings == old(db.mappings))
              && (!Text.IsBlank(code) ==>
                    && old(db.nextMappingId) !in old(db.mappings)
                    && db.mappings == old(db.mappings)[old(db.nextMappingId) := row])
    ensures db.users == old(db.users) && db.terms == old(db.terms) && db.sessions == old(db.sessions)
    ensures db.Counters() == old(db.Counters()).(mappings := db.nextMappingId) && old(db.nextMappingId) <= db.nextMappingId
    ensures cookie.user == old(cookie.user) && cookie.sessionTerms == old(cookie.sessionTerms)
    ensures cookie.currentSession == old(cookie.currentSession) && cookie.adminLoggedIn == old(cookie.adminLoggedIn)
  {
    if !SignedIn(cookie) {
      return RedirectLogin;
    }
    if cookie.sessionTerms.None? || cookie.currentIndex.None? {
      return RedirectDashboard;
    }
    var i := cookie.currentIndex.value;
    var terms := cookie.sessionTerms.value;
    if i >= |terms| {
      return RedirectComplete;
    }
    if !Text.IsBlank(code) {
      AddMapping(db, Mapping(terms[i], cookie.user.value.id, Text.Strip(code), false, now));
    }
    cookie.currentIndex := Some(i + 1);
    r := RedirectSession;
  }

  /** `INSERT INTO mappings (term_id, user_id, mapped_code)`, which nothing
      can reject. */
  method AddMapping(db: FlaskDatabase, row: Mapping)
    requires db.Valid()
    modifies db
    ensures db.Valid()
    ensures old(db.nextMappingId) !in old(db.mappings)
    ensures db.mappings == old(db.mappings)[old(db.nextMappingId) := row]
    ensures db.Counters() == old(db.Counters()).(mappings := old(db.nextMappingId) + 1)
    ensures db.users == old(db.users) && db.terms == old(db.terms) && db.sessions == old(db.sessions)
  {
    var id := db.nextMappingId;
    InsertNext(db.mappings, id, row);
    db.mappings := db.mappings[id := row];
    db.nextMappingId := id + 1;
  }

  /** Each stored rating adds a row for its (term, user) pair, however many
      there were: nothing stops a user rating a term twice. */
  lemma InsertAddsRow(mappings: map<MappingId, Mapping>, id: MappingId, m: Mapping)
    requires id !in mappings
    ensures RowsFor(mappings[id := m], m.term, m.user) == RowsFor(mappings, m.term, m.user) + {id}
    ensures |RowsFor(mappings[id := m], m.term, m.user)| == |RowsFor(mappings, m.term, m.user)| + 1
  {
    assert RowsFor(mappings[id := m], m.term, m.user) == RowsFor(mappings, m.term, m.user) + {id};
  }

  /** `GET /session/complete`: stamps the session row, counts the user's
      mappings made since the session started and removes the session keys
      from the cookie.  Only a missing `current_session` key sends the user
      to the dashboard. */
  method CompleteSession(db: FlaskDatabase, cookie: Cookie, now: Time) returns (r: Response)
    requires db.Valid()
    modifies db, cookie
    ensures db.Valid()
    ensures old(Consistent(db, cookie)) ==> Consistent(db, cookie)
    ensures !SignedIn(cookie) ==> r == RedirectLogin
    ensures SignedIn(cookie) && old(cookie.currentSession) == None ==> r == RedirectDashboard
    ensures r.RedirectLogin? || r.RedirectDashboard? ==>
              && db.sessions == old(db.sessions)
              && cookie.currentSession == old(cookie.currentSession)
              && cookie.sessionTerms == old(cookie.sessionTerms)
              && cookie.currentIndex == old(cookie.currentIndex)
    ensures SignedIn(cookie) && old(cookie.currentSession).Some? ==>
              var sid := old(cookie.currentSession).value;
              && r == CompletePage(MappedSince(db.mappings, old(db.sessions), cookie.user.value.id, sid))
              && (sid in old(db.sessions) ==>
                    db.sessions == old(db.sessions)[sid := old(db.sessions)[sid].(completedAt := Some(now))])
              && (sid !in old(db.sessions) ==> db.sessions == old(db.sessions))
              && cookie.currentSession == None && cookie.sessionTerms == None && cookie.currentIndex == None
    ensures db.users == old(db.users) && db.terms == old(db.terms) && db.mappings == old(db.mappings)
    ensures db.Counters() == old(db.Counters())
    ensures cookie.user == old(cookie.user) && cookie.adminLoggedIn == old(cookie.adminLoggedIn)
  {
    if !SignedIn(cookie) {
      return RedirectLogin;
    }
    if cookie.currentSession.None? {
      return RedirectDashboard;
    }
    var sid := cookie.currentSession.value;
    var count := MappedSince(db.mappings, db.sessions, cookie.user.value.id, sid);
    if sid in db.sessions {
      db.sessions := db.sessions[sid := db.sessions[sid].(completedAt := Some(now))];
    }
    cookie.currentSession, cookie.sessionTerms, cookie.currentIndex := None, None, None;
    r := CompletePage(count);
  }

  // ---------------------------------------------------------------------
  // Overall progress

  /** Term ids with at least two mapping rows, whoever made them. */
  function MultiplyRated(mappings: map<MappingId, Mapping>): set<TermId> {
    set id | id in mappings && RowCount(mappings, mappings[id].term) >= 2 :: mappings[id].term
  }

  /** `get_overall_progress()`: the share of terms with at least two mapping
      rows, in tenths of a percent. */
  function OverallProgress(terms: map<TermId, string>, mappings: map<MappingId, Mapping>): (p: Progress)
    ensures p.totalTerms == |terms| && p.completedTerms == |MultiplyRated(mappings)|
    ensures p.tenths == TenthsOf(p.completedTerms, p.totalTerms)
    ensures p.totalTerms == 0 ==> p.tenths == 0
    ensures MappedTermsExist(terms, mappings) ==> p.completedTerms <= p.totalTerms && p.tenths <= 1000
  {
    var completed := MultiplyRated(mappings);
    assert MappedTermsExist(terms, mappings) ==> |completed| <= |terms| by {
      if MappedTermsExist(terms, mappings) {
        SubsetCard(completed, terms.Keys);
      }
    }
    Progress(|terms|, |completed|, TenthsOf(|completed|, |terms|))
  }

  /** A term that two distinct users rated has at least two rows, so every
      term complete under the FastAPI rule is complete here. */
  lemma {:induction false} WellRatedIsMultiplyRated(mappings: map<MappingId, Mapping>)
    ensures WellRated(mappings) <= MultiplyRated(mappings)
  {
    forall t | t in WellRated(mappings) ensures t in MultiplyRated(mappings) {
      var id :| id in mappings && RaterCount(mappings, mappings[id].term) >= 2 && mappings[id].term == t;
      var userOf: MappingId -> UserId := k => if k in mappings then mappings[k].user else 0;
      forall v | v in Raters(mappings, t) ensures exists k :: k in RowsOfTerm(mappings, t) && userOf(k) == v {
        var k :| k in mappings && mappings[k].term == t && mappings[k].user == v;
        assert k in RowsOfTerm(mappings, t) && userOf(k) == v;
      }
      ImageCardAtMost(RowsOfTerm(mappings, t), Raters(mappings, t), userOf);
    }
  }

  /** The converse fails: one user who rates the only term twice completes
      it here, while the FastAPI rule still counts no term as complete. */
  lemma RepeatRatingCompletesTerm()
    ensures var terms := map[1 := "Fieber"];
            var mappings := map[1 := Mapping(1, 7, "R50.9", false, 0), 2 := Mapping(1, 7, "R50.9", false, 0)];
            && MappedTermsExist(terms, mappings)
            && OverallProgress(terms, mappings).completedTerms == 1
            && OverallProgress(terms, mappings).tenths == 1000
            && WellRated(mappings) == {}
  {
    var mappings := map[1 := Mapping(1, 7, "R50.9", false, 0), 2 := Mapping(1, 7, "R50.9", false, 0)];
    assert forall id :: id in mappings <==> id in {1, 2};
    assert RowsOfTerm(mappings, 1) == {1, 2};
    assert MultiplyRated(mappings) == {1} by {
      assert mappings[1].term == 1;
    }
    assert Raters(mappings, 1) == {7};
    assert forall id :: id in mappings ==> RaterCount(mappings, mappings[id].term) == 1;
  }
}
