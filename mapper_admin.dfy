/**
 * The admin console and the contact form of the FastAPI application
 * (main.py).  Every admin handler first checks the `admin_logged_in` flag of
 * the cookie and, without it, redirects to the admin login and changes
 * nothing.  A required form field left empty is refused by FastAPI before
 * the handler runs, whatever the cookie holds.  No handler lowers an
 * AUTOINCREMENT counter.
 */
module MapperAdmin {
  import opened Tables
  import opened Web
  import opened Mapper
  import opened MapperFlow
  import Text

  /** `POST /admin/login`: only the admin password sets the flag.  The
      password field is required, so a configured admin password of "" admits
      nobody. */
  method AdminLogin(cookie: Cookie, password: string, adminPassword: string) returns (r: Response)
    modifies cookie
    ensures FormMissing(password) ==> r == Unprocessable
    ensures !FormMissing(password) && password != adminPassword ==> r == AdminLoginError
    ensures r != RedirectAdminConsole(NoNotice) ==> cookie.adminLoggedIn == old(cookie.adminLoggedIn)
    ensures !FormMissing(password) && password == adminPassword ==> r == RedirectAdminConsole(NoNotice) && cookie.adminLoggedIn
    ensures cookie.user == old(cookie.user) && cookie.currentSession == old(cookie.currentSession)
    ensures cookie.sessionTerms == old(cookie.sessionTerms) && cookie.currentIndex == old(cookie.currentIndex)
  {
    if FormMissing(password) {
      return Unprocessable;
    }
    if password != adminPassword {
      return AdminLoginError;
    }
    cookie.adminLoggedIn := true;
    r := RedirectAdminConsole(NoNotice);
  }

  /** `GET /admin/logout`: drops the admin flag and nothing else. */
  method AdminLogout(cookie: Cookie) returns (r: Response)
    modifies cookie
    ensures r == RedirectAdmin && !cookie.adminLoggedIn
    ensures cookie.user == old(cookie.user) && cookie.currentSession == old(cookie.currentSession)
    ensures cookie.sessionTerms == old(cookie.sessionTerms) && cookie.currentIndex == old(cookie.currentIndex)
  {
    cookie.adminLoggedIn := false;
    r := RedirectAdmin;
  }

  /** `POST /admin/reset/mappings`: deletes every mapping. */
  method ResetMappings(db: Database, cookie: Cookie) returns (r: Response)
    requires db.Valid()
    modifies db
    ensures db.Valid()
    ensures !cookie.adminLoggedIn ==> r == RedirectAdmin && db.mappings == old(db.mappings)
    ensures cookie.adminLoggedIn ==> r == RedirectAdminConsole(AllMappingsDeleted) && db.mappings == map[]
    ensures db.users == old(db.users) && db.terms == old(db.terms)
    ensures db.sessions == old(db.sessions) && db.messages == old(db.messages)
    ensures db.Counters() == old(db.Counters())
  {
    if !cookie.adminLoggedIn {
      return RedirectAdmin;
    }
    db.mappings := map[];
    r := RedirectAdminConsole(AllMappingsDeleted);
  }

  /** `POST /admin/reset/all`: deletes every mapping and every term, then
      runs the import again on `source`. */
  method ResetAll(db: Database, cookie: Cookie, source: Option<seq<ImportRow>>) returns (r: Response)
    requires db.Valid()
    modifies db
    ensures db.Valid()
    ensures !cookie.adminLoggedIn ==> r == RedirectAdmin && db.mappings == old(db.mappings) && db.terms == old(db.terms)
    ensures cookie.adminLoggedIn ==>
              && r == RedirectAdminConsole(DatabaseReset)
              && db.mappings == map[]
              && (source.None? ==> db.terms == map[])
              && (source.Some? ==> db.terms.Values == ImportedTerms(source.value)
                                   && |db.terms| == |ImportedTerms(source.value)|)
              && (forall id :: id in db.terms ==> old(db.nextTermId) <= id && id !in old(db.terms))
    ensures db.users == old(db.users) && db.sessions == old(db.sessions) && db.messages == old(db.messages)
    ensures db.Counters() == old(db.Counters()).(terms := db.nextTermId) && old(db.nextTermId) <= db.nextTermId
  {
    if !cookie.adminLoggedIn {
      return RedirectAdmin;
    }
    db.mappings := map[];
    db.terms := map[];
    ImportTerms(db, source);
    r := RedirectAdminConsole(DatabaseReset);
  }

  /** The mappings that remain once user `u`'s are deleted. */
  function WithoutUser(mappings: map<MappingId, Mapping>, u: UserId): (m: map<MappingId, Mapping>)
    ensures forall id :: id in m <==> id in mappings && mappings[id].user != u
    ensures forall id :: id in m ==> m[id] == mappings[id]
    ensures RowsOf(m, u) == {}
  {
    map id | id in mappings && mappings[id].user != u :: mappings[id]
  }

  /** Deleting one user's mappings leaves every other user's ratings as they
      were. */
  lemma WithoutUserKeepsOthers(mappings: map<MappingId, Mapping>, u: UserId, v: UserId)
    requires u != v
    ensures RowsOf(WithoutUser(mappings, u), v) == RowsOf(mappings, v)
    ensures RatedBy(WithoutUser(mappings, u), v) == RatedBy(mappings, v)
  {
    var m := WithoutUser(mappings, u);
    forall t | t in RatedBy(mappings, v) ensures t in RatedBy(m, v) {
      var id :| id in mappings && mappings[id].user == v && mappings[id].term == t;
      assert id in m;
    }
  }

  /** `POST /admin/reset/user`: deletes the mappings of the user whose name
      is exactly `username`; an unknown name changes nothing, and an empty
      one is refused before the handler runs. */
  method ResetUser(db: Database, cookie: Cookie, username: string) returns (r: Response)
    requires db.Valid()
    modifies db
    ensures db.Valid()
    ensures FormMissing(username) ==> r == Unprocessable
    ensures !FormMissing(username) && !cookie.adminLoggedIn ==> r == RedirectAdmin
    ensures r == Unprocessable || r == RedirectAdmin ==> db.mappings == old(db.mappings)
    ensures !FormMissing(username) && cookie.adminLoggedIn && username !in old(db.users.Values) ==>
              r == RedirectAdminConsole(UserNotFound(username)) && db.mappings == old(db.mappings)
    ensures !FormMissing(username) && cookie.adminLoggedIn && username in old(db.users.Values) ==>
              && r == RedirectAdminConsole(UserMappingsDeleted(username))
              && exists u :: u in db.users && db.users[u] == username && db.mappings == WithoutUser(old(db.mappings), u)
    ensures db.users == old(db.users) && db.terms == old(db.terms)
    ensures db.sessions == old(db.sessions) && db.messages == old(db.messages)
    ensures db.Counters() == old(db.Counters())
  {
    if FormMissing(username) {
      return Unprocessable;
    }
    if !cookie.adminLoggedIn {
      return RedirectAdmin;
    }
    if username !in db.users.Values {
      return RedirectAdminConsole(UserNotFound(username));
    }
    var u :| u in db.users && db.users[u] == username;
    db.mappings := WithoutUser(db.mappings, u);
    r := RedirectAdminConsole(UserMappingsDeleted(username));
  }

  /** `POST /admin/messages/{id}/mark-read`: only message `id` changes.  The
      path parameter is any integer; one outside SQLite's 64-bit range makes
      the update raise. */
  method MarkRead(db: Database, cookie: Cookie, id: int) returns (r: Response)
    requires db.Valid()
    modifies db
    ensures db.Valid()
    ensures !cookie.adminLoggedIn ==> r == RedirectAdmin
    ensures cookie.adminLoggedIn && !IsSqliteInteger(id) ==> r == ServerError
    ensures r != RedirectMessages ==> db.messages == old(db.messages)
    ensures cookie.adminLoggedIn && IsSqliteInteger(id) ==>
              && r == RedirectMessages
              && (id in old(db.messages) ==> db.messages == old(db.messages)[id := old(db.messages)[id].(read := true)])
              && (id !in old(db.messages) ==> db.messages == old(db.messages))
    ensures db.users == old(db.users) && db.terms == old(db.terms)
    ensures db.mappings == old(db.mappings) && db.sessions == old(db.sessions)
    ensures db.Counters() == old(db.Counters())
  {
    if !cookie.adminLoggedIn {
      return RedirectAdmin;
    }
    if !IsSqliteInteger(id) {
      return ServerError;
    }
    if id in db.messages {
      db.messages := db.messages[id := db.messages[id].(read := true)];
    }
    r := RedirectMessages;
  }

  /** `POST /admin/messages/{id}/delete`: only message `id` goes.  The path
      parameter is any integer; one outside SQLite's 64-bit range makes the
      delete raise. */
  method DeleteMessage(db: Database, cookie: Cookie, id: int) returns (r: Response)
    requires db.Valid()
    modifies db
    ensures db.Valid()
    ensures !cookie.adminLoggedIn ==> r == RedirectAdmin
    ensures cookie.adminLoggedIn && !IsSqliteInteger(id) ==> r == ServerError
    ensures r != RedirectMessages ==> db.messages == old(db.messages)
    ensures cookie.adminLoggedIn && IsSqliteInteger(id) ==>
              && r == RedirectMessages
              && db.messages == map k | k in old(db.messages) && k != id :: old(db.messages)[k]
    ensures db.users == old(db.users) && db.terms == old(db.terms)
    ensures db.mappings == old(db.mappings) && db.sessions == old(db.sessions)
    ensures db.Counters() == old(db.Counters())
  {
    if !cookie.adminLoggedIn {
      return RedirectAdmin;
    }
    if !IsSqliteInteger(id) {
      return ServerError;
    }
    db.messages := map k | k in db.messages && k != id :: db.messages[k];
    r := RedirectMessages;
  }

  /** `POST /contact/submit`.  `enabled` and `storeInDb` are the contact
      form's configuration switches.  All four fields are required, so an
      empty one is refused before the handler runs, even when the form is
      disabled.  Name, e-mail and message must also be non-blank after
      stripping, while a subject of whitespace passes; the values are stored
      as typed. */
  method SubmitContact(db: Database, enabled: bool, storeInDb: bool,
                       name: string, email: string, subject: string, message: string, now: Time)
    returns (r: Response)
    requires db.Valid()
    modifies db
    ensures db.Valid()
    ensures FormMissing(name) || FormMissing(email) || FormMissing(subject) || FormMissing(message) ==>
              r == Unprocessable
    ensures !FormMissing(name) && !FormMissing(email) && !FormMissing(subject) && !FormMissing(message) ==>
              && (!enabled ==> r == NotFound)
              && (enabled && (Text.IsBlank(name) || Text.IsBlank(email) || Text.IsBlank(message)) ==> r == ContactFormError)
    ensures r != RedirectContactSuccess ==> db.messages == old(db.messages) && db.Counters() == old(db.Counters())
    ensures enabled && !Text.IsBlank(name) && !Text.IsBlank(email) && !FormMissing(subject) && !Text.IsBlank(message) ==>
              && r == RedirectContactSuccess
              && (!storeInDb ==> db.messages == old(db.messages))
              && (storeInDb ==>
                    && old(db.nextMessageId) !in old(db.messages)
                    && db.messages == old(db.messages)[old(db.nextMessageId) := ContactMessage(name, email, subject, message, now, false)])
    ensures db.users == old(db.users) && db.terms == old(db.terms)
    ensures db.mappings == old(db.mappings) && db.sessions == old(db.sessions)
    ensures db.Counters() == old(db.Counters()).(messages := db.nextMessageId) && old(db.nextMessageId) <= db.nextMessageId
  {
    if FormMissing(name) || FormMissing(email) || FormMissing(subject) || FormMissing(message) {
      return Unprocessable;
    }
    if !enabled {
      return NotFound;
    }
    if Text.IsBlank(name) || Text.IsBlank(email) || Text.IsBlank(message) {
      return ContactFormError;
    }
    if storeInDb {
      var id := db.nextMessageId;
      var row := ContactMessage(name, email, subject, message, now, false);
      InsertNext(db.messages, id, row);
      db.messages := db.messages[id := row];
      db.nextMessageId := id + 1;
    }
    r := RedirectContactSuccess;
  }
}
