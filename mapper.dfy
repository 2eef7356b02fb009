/**
 * The store of the FastAPI application (main.py) and the read-only queries
 * over it: users keyed by a unique username, terms unique per
 * (category, term), at most one mapping per (term, user), rating sessions and
 * contact messages.  Each table is a map from its AUTOINCREMENT id to the row.
 * Beside the store sits the signed session cookie of one browser, which
 * carries the logged-in user, the admin flag and the rating session: a
 * snapshot of term ids and a cursor into it.
 */
module Mapper {
  import opened Tables
  import opened Ranking
  import opened Percent
  import Text

  type UserId = nat
  type TermId = nat
  type MappingId = nat
  type SessionId = nat
  type MessageId = nat

  /** A timestamp, in seconds. */
  type Time = int

  /** `datetime('now', '-7 days')`: the streak counts sessions completed in
      the last seven days. */
  const StreakWindow: int := 7 * 24 * 60 * 60

  datatype Term = Term(category: string, text: string)

  datatype Mapping = Mapping(term: TermId, user: UserId, codes: string, noCodeFound: bool, createdAt: Time)

  datatype SessionRow = SessionRow(user: UserId, startedAt: Time, completedAt: Option<Time>, termsCount: int)

  datatype ContactMessage = ContactMessage(name: string, email: string, subject: string, message: string,
                                           createdAt: Time, read: bool)

  /** One parsed row of the import file: its `Kategorie` and `Item` cells. */
  datatype ImportRow = ImportRow(category: string, item: string)

  datatype UserStats = UserStats(totalMappings: nat, completedSessions: nat, streak: nat)

  /** `percentage` is kept in tenths of a percent. */
  datatype Progress = Progress(totalTerms: nat, completedTerms: nat, tenths: nat)

  datatype LeaderRow = LeaderRow(username: string, mappingsCount: nat)

  /** The logged-in identity the cookie carries. */
  datatype Account = Account(id: UserId, username: string)

  /** UNIQUE(term_id, user_id) on the mappings table. */
  ghost predicate OneRatingPerPair(mappings: map<MappingId, Mapping>) {
    forall a, b ::
      a in mappings && b in mappings && mappings[a].term == mappings[b].term && mappings[a].user == mappings[b].user
      ==> a == b
  }

  /** Every mapping refers to a term that is still in the terms table,
      whatever the terms table stores per term. */
  ghost predicate MappedTermsExist<V>(terms: map<TermId, V>, mappings: map<MappingId, Mapping>) {
    forall id :: id in mappings ==> mappings[id].term in terms
  }

  /** The AUTOINCREMENT counters of the five tables (SQLite's
      `sqlite_sequence`): the id each table's next insert gets. */
  datatype IdCounters = IdCounters(users: nat, terms: nat, mappings: nat, sessions: nat, messages: nat)

  class Database {
    var users: map<UserId, string>
    var terms: map<TermId, Term>
    var mappings: map<MappingId, Mapping>
    var sessions: map<SessionId, SessionRow>
    var messages: map<MessageId, ContactMessage>
    var nextUserId: nat
    var nextTermId: nat
    var nextMappingId: nat
    var nextSessionId: nat
    var nextMessageId: nat

    /** The schema's UNIQUE constraints and the AUTOINCREMENT counters. */
    ghost predicate Valid()
      reads this
    {
      && Injective(users)
      && Injective(terms)
      && OneRatingPerPair(mappings)
      && IdsBelow(users, nextUserId)
      && IdsBelow(terms, nextTermId)
      && IdsBelow(mappings, nextMappingId)
      && IdsBelow(sessions, nextSessionId)
      && IdsBelow(messages, nextMessageId)
    }

    /** The counters: deleting rows never lowers them, so an id is never
        handed out twice. */
    function Counters(): IdCounters
      reads this
    {
      IdCounters(nextUserId, nextTermId, nextMappingId, nextSessionId, nextMessageId)
    }

    /** `init_db` on a fresh database file. */
    constructor ()
      ensures Valid()
      ensures users == map[] && terms == map[] && mappings == map[] && sessions == map[] && messages == map[]
    {
      users, terms, mappings, sessions, messages := map[], map[], map[], map[], map[];
      nextUserId, nextTermId, nextMappingId, nextSessionId, nextMessageId := 1, 1, 1, 1, 1;
    }
  }

  /** The keys of `request.session`; a missing key is `None`. */
  class Cookie {
    var user: Option<Account>
    var currentSession: Option<SessionId>
    var sessionTerms: Option<seq<TermId>>
    var currentIndex: Option<nat>
    var adminLoggedIn: bool

    constructor ()
      ensures user == None && currentSession == None && sessionTerms == None && currentIndex == None
      ensures !adminLoggedIn
    {
      user, currentSession, sessionTerms, currentIndex := None, None, None, None;
      adminLoggedIn := false;
    }
  }

  /** `get_current_user`: both keys present and truthy. */
  predicate LoggedIn(c: Cookie)
    reads c
  {
    c.user.Some? && c.user.value.id != 0 && c.user.value.username != []
  }

  /** The cursor points into a session's term list. */
  predicate AtTerm(c: Cookie)
    reads c
  {
    c.sessionTerms.Some? && c.currentIndex.Some? && c.currentIndex.value < |c.sessionTerms.value|
  }

  // ---------------------------------------------------------------------
  // Term import

  /** A row the import keeps: its stripped category and item are both
      non-empty. */
  predicate Importable(r: ImportRow) {
    !Text.IsBlank(r.category) && !Text.IsBlank(r.item)
  }

  /** The term a kept row stores: both cells stripped. */
  function Stripped(r: ImportRow): Term {
    Term(Text.Strip(r.category), Text.Strip(r.item))
  }

  /** The terms a fresh import stores: the stripped `(Kategorie, Item)` pair
      of every row in which both are non-blank, once per pair. */
  function ImportedTerms(rows: seq<ImportRow>): set<Term> {
    set r | r in rows && Importable(r) :: Stripped(r)
  }

  /** Importing one more row adds its stripped pair when the row is kept. */
  lemma ImportedTermsStep(rows: seq<ImportRow>, i: nat)
    requires i < |rows|
    ensures ImportedTerms(rows[..i + 1])
            == ImportedTerms(rows[..i]) + (if Importable(rows[i]) then {Stripped(rows[i])} else {})
  {
    assert rows[..i + 1] == rows[..i] + [rows[i]];
  }

  // ---------------------------------------------------------------------
  // Ratings

  /** `SELECT term_id FROM mappings WHERE user_id = ?` */
  function RatedBy(mappings: map<MappingId, Mapping>, u: UserId): set<TermId> {
    set id | id in mappings && mappings[id].user == u :: mappings[id].term
  }

  /** The distinct users who rated term `t`. */
  function Raters(mappings: map<MappingId, Mapping>, t: TermId): set<UserId> {
    set id | id in mappings && mappings[id].term == t :: mappings[id].user
  }

  /** `COUNT(DISTINCT m.user_id)` for term `t`. */
  function RaterCount(mappings: map<MappingId, Mapping>, t: TermId): nat {
    |Raters(mappings, t)|
  }

  /** The rows of the mappings table that belong to user `u`. */
  function RowsOf(mappings: map<MappingId, Mapping>, u: UserId): set<MappingId> {
    set id | id in mappings && mappings[id].user == u
  }

  /** The rows of the mappings table that rate term `t`. */
  function RowsOfTerm(mappings: map<MappingId, Mapping>, t: TermId): set<MappingId> {
    set id | id in mappings && mappings[id].term == t
  }

  /** The rows recording user `u`'s rating of term `t`. */
  function RowsFor(mappings: map<MappingId, Mapping>, t: TermId, u: UserId): set<MappingId> {
    set id | id in mappings && mappings[id].term == t && mappings[id].user == u
  }

  predicate HasRated(mappings: map<MappingId, Mapping>, t: TermId, u: UserId) {
    exists id :: id in mappings && mappings[id].term == t && mappings[id].user == u
  }

  lemma RatedByHasRated(mappings: map<MappingId, Mapping>, t: TermId, u: UserId)
    ensures t in RatedBy(mappings, u) <==> HasRated(mappings, t, u)
  {
    if HasRated(mappings, t, u) {
      var id :| id in mappings && mappings[id].term == t && mappings[id].user == u;
      assert mappings[id].term in RatedBy(mappings, u);
    }
  }

  /** Under UNIQUE(term_id, user_id) a (term, user) pair has at most one row. */
  lemma AtMostOneRow(mappings: map<MappingId, Mapping>, t: TermId, u: UserId)
    requires OneRatingPerPair(mappings)
    ensures |RowsFor(mappings, t, u)| <= 1
    ensures |RowsFor(mappings, t, u)| == 1 <==> HasRated(mappings, t, u)
  {
    var rows := RowsFor(mappings, t, u);
    if HasRated(mappings, t, u) {
      var a :| a in mappings && mappings[a].term == t && mappings[a].user == u;
      assert rows == {a};
    } else {
      assert rows == {};
    }
  }

  /** Under UNIQUE(term_id, user_id), counting the distinct raters of a term
      and counting its rows agree. */
  lemma DistinctRatersAreRows(mappings: map<MappingId, Mapping>, t: TermId)
    requires OneRatingPerPair(mappings)
    ensures RaterCount(mappings, t) == |RowsOfTerm(mappings, t)|
  {
    var ofTerm := RowsOfTerm(mappings, t);
    var userOf: MappingId -> UserId := id => if id in mappings then mappings[id].user else 0;
    forall v | v in Raters(mappings, t) ensures exists id :: id in ofTerm && userOf(id) == v {
      var id :| id in mappings && mappings[id].term == t && mappings[id].user == v;
      assert id in ofTerm && userOf(id) == v;
    }
    ImageCard<MappingId, UserId>(ofTerm, Raters(mappings, t), userOf);
  }

  /** Under UNIQUE(term_id, user_id), a user's row count is the number of
      terms the user rated. */
  lemma RowsAreRatedTerms(mappings: map<MappingId, Mapping>, u: UserId)
    requires OneRatingPerPair(mappings)
    ensures |RowsOf(mappings, u)| == |RatedBy(mappings, u)|
  {
    var termOf: MappingId -> TermId := id => if id in mappings then mappings[id].term else 0;
    forall v | v in RatedBy(mappings, u) ensures exists id :: id in RowsOf(mappings, u) && termOf(id) == v {
      var id :| id in mappings && mappings[id].user == u && mappings[id].term == v;
      assert id in RowsOf(mappings, u) && termOf(id) == v;
    }
    ImageCard<MappingId, TermId>(RowsOf(mappings, u), RatedBy(mappings, u), termOf);
  }

  /** Each term a user rated has at least one of the user's rows. */
  lemma RowsCoverRatedTerms(mappings: map<MappingId, Mapping>, u: UserId)
    ensures |RowsOf(mappings, u)| >= |RatedBy(mappings, u)|
  {
    var termOf: MappingId -> TermId := id => if id in mappings then mappings[id].term else 0;
    forall v | v in RatedBy(mappings, u) ensures exists id :: id in RowsOf(mappings, u) && termOf(id) == v {
      var id :| id in mappings && mappings[id].user == u && mappings[id].term == v;
      assert id in RowsOf(mappings, u) && termOf(id) == v;
    }
    ImageCardAtMost<MappingId, TermId>(RowsOf(mappings, u), RatedBy(mappings, u), termOf);
  }

  // ---------------------------------------------------------------------
  // Term selection

  /** The terms a session may offer: all of them, minus those `user` has
      already rated when a user is given. */
  function Eligible(terms: map<TermId, Term>, mappings: map<MappingId, Mapping>, user: Option<UserId>): set<TermId> {
    if user.Some? then terms.Keys - RatedBy(mappings, user.value) else terms.Keys
  }

  /** Every eligible term is stored and, when a user is given, not yet rated
      by that user. */
  lemma EligibleTerms(terms: map<TermId, Term>, mappings: map<MappingId, Mapping>, user: Option<UserId>,
                      r: seq<TermId>)
    requires forall t :: t in r ==> t in Eligible(terms, mappings, user)
    ensures forall t :: t in r ==> t in terms && (user.Some? ==> !HasRated(mappings, t, user.value))
  {
    forall t | t in r ensures t in terms && (user.Some? ==> !HasRated(mappings, t, user.value)) {
      if user.Some? {
        RatedByHasRated(mappings, t, user.value);
      }
    }
  }

  /** The ranking key of `get_terms_for_session`: a term's number of
      distinct raters. */
  function RaterKey(mappings: map<MappingId, Mapping>): TermId -> int {
    (t: TermId) => RaterCount(mappings, t) as int
  }

  /** `ORDER BY` the rater count `LIMIT count` over an enumeration of
      `eligible`, stated in rater counts. */
  lemma LowestByRaters(mappings: map<MappingId, Mapping>, eligible: set<TermId>, order: seq<TermId>, count: int)
    requires IsEnumeration(order, eligible)
    ensures var r := Lowest(order, RaterKey(mappings), count);
            && Distinct(r) && (forall t :: t in r ==> t in eligible)
            && |r| == (if 0 <= count < |eligible| then count else |eligible|)
            && (forall i, j :: 0 <= i < j < |r| ==> RaterCount(mappings, r[i]) <= RaterCount(mappings, r[j]))
            && (forall t, c :: t in eligible && t !in r && c in r ==> RaterCount(mappings, c) <= RaterCount(mappings, t))
  {
    var key := RaterKey(mappings);
    var r := Lowest(order, key, count);
    LowestOfEnumeration(order, eligible, key, count);
    forall t, c | t in eligible && t !in r && c in r
      ensures RaterCount(mappings, c) <= RaterCount(mappings, t)
    {
      assert key(c) <= key(t);
    }
    forall i, j | 0 <= i < j < |r| ensures RaterCount(mappings, r[i]) <= RaterCount(mappings, r[j]) {
      assert key(r[i]) <= key(r[j]);
    }
  }

  /** `get_terms_for_session(count, user_id)`: the eligible terms ordered by
      their number of distinct raters, ties in the order `order` that
      `RANDOM()` produced, cut at `count`. */
  function SelectTerms(terms: map<TermId, Term>, mappings: map<MappingId, Mapping>, count: int,
                       user: Option<UserId>, order: seq<TermId>): (r: seq<TermId>)
    requires IsEnumeration(order, Eligible(terms, mappings, user))
    ensures Distinct(r)
    ensures forall t :: t in r ==> t in terms && (user.Some? ==> !HasRated(mappings, t, user.value))
    ensures |r| == var n := |Eligible(terms, mappings, user)|; if 0 <= count < n then count else n
    ensures forall i, j :: 0 <= i < j < |r| ==> RaterCount(mappings, r[i]) <= RaterCount(mappings, r[j])
    ensures forall t, c :: t in Eligible(terms, mappings, user) && t !in r && c in r
                           ==> RaterCount(mappings, c) <= RaterCount(mappings, t)
  {
    var r := Lowest(order, RaterKey(mappings), count);
    LowestByRaters(mappings, Eligible(terms, mappings, user), order, count);
    EligibleTerms(terms, mappings, user, r);
    r
  }

  // ---------------------------------------------------------------------
  // Aggregates

  /** The sessions of `u` that have a completion stamp. */
  function CompletedSessions(sessions: map<SessionId, SessionRow>, u: UserId): set<SessionId> {
    set id | id in sessions && sessions[id].user == u && sessions[id].completedAt.Some?
  }

  /** `get_user_stats(user_id)` at time `now`. */
  function Stats(mappings: map<MappingId, Mapping>, sessions: map<SessionId, SessionRow>,
                 u: UserId, now: Time): (s: UserStats)
    ensures s.completedSessions == |CompletedSessions(sessions, u)|
    ensures s.streak <= s.completedSessions
    ensures s.totalMappings == MappingCount(mappings, u)
    ensures OneRatingPerPair(mappings) ==> s.totalMappings == |RatedBy(mappings, u)|
  {
    var completed := CompletedSessions(sessions, u);
    var recent := set id | id in completed && sessions[id].completedAt.value > now - StreakWindow;
    SubsetCard(recent, completed);
    assert OneRatingPerPair(mappings) ==> |RowsOf(mappings, u)| == |RatedBy(mappings, u)| by {
      if OneRatingPerPair(mappings) { RowsAreRatedTerms(mappings, u); }
    }
    UserStats(|RowsOf(mappings, u)|, |completed|, |recent|)
  }

  /** The completion page's count: `u`'s mappings created strictly after the
      start of session `sid`; 0 when the session row is missing, since the
      comparison with a missing `started_at` is NULL. */
  function MappedSince(mappings: map<MappingId, Mapping>, sessions: map<SessionId, SessionRow>,
                       u: UserId, sid: SessionId): (n: nat)
    ensures n <= |RowsOf(mappings, u)|
    ensures sid !in sessions ==> n == 0
    ensures OneRatingPerPair(mappings) ==> n <= |RatedBy(mappings, u)|
  {
    if sid !in sessions then 0
    else
      var since := set id | id in mappings && mappings[id].user == u && mappings[id].createdAt > sessions[sid].startedAt;
      SubsetCard(since, RowsOf(mappings, u));
      assert OneRatingPerPair(mappings) ==> |RowsOf(mappings, u)| == |RatedBy(mappings, u)| by {
        if OneRatingPerPair(mappings) { RowsAreRatedTerms(mappings, u); }
      }
      |since|
  }

  /** Term ids that at least two distinct users rated, whether or not the
      term is still in the terms table. */
  function WellRated(mappings: map<MappingId, Mapping>): set<TermId> {
    set id | id in mappings && RaterCount(mappings, mappings[id].term) >= 2 :: mappings[id].term
  }

  /** `get_overall_progress()` as written: the count of well-rated term ids
      comes from the mappings table alone. */
  function OverallProgress(terms: map<TermId, Term>, mappings: map<MappingId, Mapping>): (p: Progress)
    ensures p.totalTerms == |terms| && p.completedTerms == |WellRated(mappings)|
    ensures p.tenths == TenthsOf(p.completedTerms, p.totalTerms)
    ensures p.totalTerms == 0 ==> p.tenths == 0
    ensures p.completedTerms <= p.totalTerms ==> p.tenths <= 1000
    ensures MappedTermsExist(terms, mappings) ==> p.completedTerms <= p.totalTerms
  {
    var completed := WellRated(mappings);
    assert MappedTermsExist(terms, mappings) ==> |completed| <= |terms| by {
      if MappedTermsExist(terms, mappings) {
        SubsetCard(completed, terms.Keys);
      }
    }
    Progress(|terms|, |completed|, TenthsOf(|completed|, |terms|))
  }

  /** Two rows by different users on term `t` make it rated by at least two. */
  lemma TwoRaters(mappings: map<MappingId, Mapping>, t: TermId, i: MappingId, j: MappingId)
    requires i in mappings && j in mappings && mappings[i].term == t && mappings[j].term == t
    requires mappings[i].user != mappings[j].user
    ensures RaterCount(mappings, t) >= 2
  {
    SubsetCard({mappings[i].user, mappings[j].user}, Raters(mappings, t));
  }

  /** A store in which two users rated two term ids that a later reset
      removed, and one term remains: the percentage reaches 200 %. */
  lemma StaleRatingsOverflowProgress()
    ensures var terms := map[3 := Term("Diagnose", "Fieber")];
            var mappings := map[1 := Mapping(1, 1, "[]", true, 0), 2 := Mapping(1, 2, "[]", true, 0),
                                3 := Mapping(2, 1, "[]", true, 0), 4 := Mapping(2, 2, "[]", true, 0)];
            OneRatingPerPair(mappings) && OverallProgress(terms, mappings).tenths == 2000
  {
    var terms := map[3 := Term("Diagnose", "Fieber")];
    var mappings := map[1 := Mapping(1, 1, "[]", true, 0), 2 := Mapping(1, 2, "[]", true, 0),
                        3 := Mapping(2, 1, "[]", true, 0), 4 := Mapping(2, 2, "[]", true, 0)];
    StaleRowsOnePerPair(mappings);
    StaleRowsWellRated(mappings);
    assert |WellRated(mappings)| == 2;
    assert |terms| == 1;
    RoundExact(1, 2000);
  }

  /** The four rows of `StaleRatingsOverflowProgress` hold one rating per
      user and term. */
  lemma StaleRowsOnePerPair(mappings: map<MappingId, Mapping>)
    requires mappings == map[1 := Mapping(1, 1, "[]", true, 0), 2 := Mapping(1, 2, "[]", true, 0),
                             3 := Mapping(2, 1, "[]", true, 0), 4 := Mapping(2, 2, "[]", true, 0)]
    ensures OneRatingPerPair(mappings)
  {
    forall id | id in mappings ensures id == 2 * mappings[id].term + mappings[id].user - 2 {
      assert id == 1 || id == 2 || id == 3 || id == 4;
    }
  }

  /** In the rows of `StaleRatingsOverflowProgress` both term ids are
      well rated. */
  lemma StaleRowsWellRated(mappings: map<MappingId, Mapping>)
    requires mappings == map[1 := Mapping(1, 1, "[]", true, 0), 2 := Mapping(1, 2, "[]", true, 0),
                             3 := Mapping(2, 1, "[]", true, 0), 4 := Mapping(2, 2, "[]", true, 0)]
    ensures WellRated(mappings) == {1, 2}
  {
    TwoRaters(mappings, 1, 1, 2);
    TwoRaters(mappings, 2, 3, 4);
    assert mappings[1].term == 1 && mappings[3].term == 2;
    forall t | t in WellRated(mappings) ensures t == 1 || t == 2 {
      var id :| id in mappings && RaterCount(mappings, mappings[id].term) >= 2 && mappings[id].term == t;
      assert id == 1 || id == 2 || id == 3 || id == 4;
    }
  }

  /** `get_overall_progress()` with the well-rated terms joined against the
      terms table, which is what a percentage of the terms means. */
  function JoinedProgress(terms: map<TermId, Term>, mappings: map<MappingId, Mapping>): (p: Progress)
    ensures p.totalTerms == |terms|
    ensures p.completedTerms <= p.totalTerms
    ensures p.tenths <= 1000
    ensures p.totalTerms == 0 ==> p.tenths == 0
    ensures MappedTermsExist(terms, mappings) ==> p == OverallProgress(terms, mappings)
  {
    var completed := set t | t in terms && RaterCount(mappings, t) >= 2;
    SubsetCard(completed, terms.Keys);
    assert MappedTermsExist(terms, mappings) ==> completed == WellRated(mappings) by {
      if MappedTermsExist(terms, mappings) {
        forall t | t in completed ensures t in WellRated(mappings) {
          var u :| u in Raters(mappings, t);
          var id :| id in mappings && mappings[id].term == t && mappings[id].user == u;
        }
      }
    }
    Progress(|terms|, |completed|, TenthsOf(|completed|, |terms|))
  }

  /** `COUNT(m.id)` per user in the leaderboard's left join: the count the
      leaderboard of this variant ranks by. */
  function MappingCount(mappings: map<MappingId, Mapping>, u: UserId): (n: nat)
    ensures n >= |RatedBy(mappings, u)|
    ensures OneRatingPerPair(mappings) ==> n == |RatedBy(mappings, u)|
  {
    RowsCoverRatedTerms(mappings, u);
    assert OneRatingPerPair(mappings) ==> |RowsOf(mappings, u)| == |RatedBy(mappings, u)| by {
      if OneRatingPerPair(mappings) { RowsAreRatedTerms(mappings, u); }
    }
    |RowsOf(mappings, u)|
  }

  /** The users of `get_leaderboard(limit)`, in order: by their number of
      mapping rows, descending, ties in the scan order `order`, cut at
      `limit`. */
  function LeaderIds(users: map<UserId, string>, mappings: map<MappingId, Mapping>, limit: int,
                     order: seq<UserId>): (r: seq<UserId>)
    requires IsEnumeration(order, users.Keys)
    ensures Distinct(r)
    ensures forall u :: u in r ==> u in users
    ensures |r| == if 0 <= limit < |users| then limit else |users|
    ensures forall i, j :: 0 <= i < j < |r| ==> MappingCount(mappings, r[i]) >= MappingCount(mappings, r[j])
    ensures forall u, v :: u in users && u !in r && v in r ==> MappingCount(mappings, u) <= MappingCount(mappings, v)
    ensures (limit < 0 || limit >= |users|) ==> forall u :: u in users ==> u in r
  {
    var key := (u: UserId) => -(MappingCount(mappings, u) as int);
    var r := Lowest(order, key, limit);
    LowestOfEnumeration(order, users.Keys, key, limit);
    forall u, v | u in users && u !in r && v in r
      ensures MappingCount(mappings, u) <= MappingCount(mappings, v)
    {
      assert key(v) <= key(u);
    }
    forall i, j | 0 <= i < j < |r| ensures MappingCount(mappings, r[i]) >= MappingCount(mappings, r[j]) {
      assert key(r[i]) <= key(r[j]);
    }
    r
  }

  /** The row user `u` gets on the leaderboard: the username and the number
      of mapping rows of `u`, 0 for a user without mappings (the `COUNT(m.id)`
      of the left join). */
  function UserRow(users: map<UserId, string>, mappings: map<MappingId, Mapping>, u: UserId): LeaderRow
    requires u in users
  {
    LeaderRow(users[u], |RowsOf(mappings, u)|)
  }

  /** One leaderboard row per listed user id, in the same order. */
  function LeaderRows(users: map<UserId, string>, mappings: map<MappingId, Mapping>, ids: seq<UserId>)
    : (rows: seq<LeaderRow>)
    requires forall u :: u in ids ==> u in users
    ensures |rows| == |ids|
    ensures forall i :: 0 <= i < |ids| ==> rows[i] == UserRow(users, mappings, ids[i])
  {
    if ids == [] then []
    else [UserRow(users, mappings, ids[0])] + LeaderRows(users, mappings, ids[1..])
  }

  /** The rows every user would get on the leaderboard. */
  function UserRows(users: map<UserId, string>, mappings: map<MappingId, Mapping>): set<LeaderRow> {
    set u | u in users :: UserRow(users, mappings, u)
  }

  /** `get_leaderboard(limit)`: the username and the number of mapping rows
      of the listed users, most rows first, users without mappings taking
      part with 0. */
  function Leaderboard(users: map<UserId, string>, mappings: map<MappingId, Mapping>, limit: int,
                       order: seq<UserId>): (rows: seq<LeaderRow>)
    requires IsEnumeration(order, users.Keys)
    ensures |rows| == if 0 <= limit < |users| then limit else |users|
    ensures forall i :: 0 <= i < |rows| ==> rows[i] in UserRows(users, mappings)
    ensures forall i, j :: 0 <= i < j < |rows| ==> rows[i].mappingsCount >= rows[j].mappingsCount
    ensures forall u, i :: u in users && UserRow(users, mappings, u) !in rows && 0 <= i < |rows|
                           ==> |RowsOf(mappings, u)| <= rows[i].mappingsCount
    ensures Injective(users) ==> forall i, j :: 0 <= i < j < |rows| ==> rows[i].username != rows[j].username
    ensures (limit < 0 || limit >= |users|) ==>
              forall r :: r in UserRows(users, mappings) ==> r in rows
  {
    var ids := LeaderIds(users, mappings, limit, order);
    var rows := LeaderRows(users, mappings, ids);
    LeaderRowsFacts(users, mappings, ids, rows);
    LeaderRowsLowest(users, mappings, ids, rows);
    LeaderRowsCover(users, mappings, ids, rows);
    rows
  }

  /** The rows inherit the order, the origin and the distinctness of the ids
      they are built from. */
  lemma LeaderRowsFacts(users: map<UserId, string>, mappings: map<MappingId, Mapping>, ids: seq<UserId>,
                        rows: seq<LeaderRow>)
    requires forall u :: u in ids ==> u in users
    requires forall i, j :: 0 <= i < j < |ids| ==> MappingCount(mappings, ids[i]) >= MappingCount(mappings, ids[j])
    requires rows == LeaderRows(users, mappings, ids)
    ensures forall i, j :: 0 <= i < j < |rows| ==> rows[i].mappingsCount >= rows[j].mappingsCount
    ensures forall i :: 0 <= i < |rows| ==> rows[i] in UserRows(users, mappings)
    ensures Distinct(ids) && Injective(users) ==>
              forall i, j :: 0 <= i < j < |rows| ==> rows[i].username != rows[j].username
  {
    forall i | 0 <= i < |rows| ensures rows[i] in UserRows(users, mappings) {
      assert ids[i] in users;
    }
    if Distinct(ids) && Injective(users) {
      forall i, j | 0 <= i < j < |rows| ensures rows[i].username != rows[j].username {
        assert ids[i] != ids[j] && ids[i] in users && ids[j] in users;
      }
    }
  }

  /** A user whose row is not listed has no more mapping rows than any
      listed user. */
  lemma LeaderRowsLowest(users: map<UserId, string>, mappings: map<MappingId, Mapping>, ids: seq<UserId>,
                         rows: seq<LeaderRow>)
    requires forall u :: u in ids ==> u in users
    requires forall u, v :: u in users && u !in ids && v in ids ==> MappingCount(mappings, u) <= MappingCount(mappings, v)
    requires rows == LeaderRows(users, mappings, ids)
    ensures forall u, i :: u in users && UserRow(users, mappings, u) !in rows && 0 <= i < |rows|
                           ==> |RowsOf(mappings, u)| <= rows[i].mappingsCount
  {
    forall u, i | u in users && UserRow(users, mappings, u) !in rows && 0 <= i < |rows|
      ensures |RowsOf(mappings, u)| <= rows[i].mappingsCount
    {
      forall k | 0 <= k < |ids| ensures ids[k] != u {
        assert rows[k] == UserRow(users, mappings, ids[k]);
      }
      assert ids[i] in ids;
      assert MappingCount(mappings, u) <= MappingCount(mappings, ids[i]);
    }
  }

  /** Ids that list every user give rows that list every user. */
  lemma LeaderRowsCover(users: map<UserId, string>, mappings: map<MappingId, Mapping>, ids: seq<UserId>,
                        rows: seq<LeaderRow>)
    requires forall u :: u in ids ==> u in users
    requires rows == LeaderRows(users, mappings, ids)
    ensures (forall u :: u in users ==> u in ids) ==> forall r :: r in UserRows(users, mappings) ==> r in rows
  {
    forall r | r in UserRows(users, mappings) && (forall u :: u in users ==> u in ids) ensures r in rows {
      var u :| u in users && r == UserRow(users, mappings, u);
      var i :| 0 <= i < |ids| && ids[i] == u;
      assert rows[i] == r;
    }
  }
}
