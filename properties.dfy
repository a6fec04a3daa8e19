/** What the workflow promises: at-most-once submission, the effect of each
    reply status, one refresh per 401, and the counts of a run. */
module Properties {
  import opened Store
  import opened Exchange
  import opened Credentials
  import opened Workflow

  // ---------------------------------------------------------------------
  // Application submitter

  /** An id already in the store is answered false at once: nothing is sent,
      no reply is consumed, nothing changes. */
  lemma ApplyKnownId(a: Agent, id: VacancyId)
    requires IsAlreadyApplied(a.store, id)
    ensures Apply(a, id) == Step(a, Returned(false))
  {
  }

  /** The state after the submission request for `id` went out and its reply
      was taken from the script. */
  function Submitted(a: Agent, id: VacancyId): (b: Agent)
    requires a.replies.negotiation != []
  {
    a.(sent := a.sent + [NegotiationRequest(a.creds.access, id)],
       replies := a.replies.(negotiation := a.replies.negotiation[1..]))
  }

  /** A 201 for a new id: true, exactly one record (id, "", "applied") more,
      one request sent; a second apply to the same id is then refused
      without a request. */
  lemma ApplyCreated(a: Agent, id: VacancyId)
    requires !IsAlreadyApplied(a.store, id)
    requires a.replies.negotiation != [] && a.replies.negotiation[0] == CREATED
    ensures Apply(a, id) == Step(Submitted(a, id).(store := a.store + [Application(id, "", "applied")]), Returned(true))
    ensures Apply(Apply(a, id).agent, id) == Step(Apply(a, id).agent, Returned(false))
  {
    InsertKeepsUnique(a.store, id);
  }

  /** Any status but 401 and 201: false, the store is unchanged, the failed
      attempt is not written. */
  lemma ApplyRejected(a: Agent, id: VacancyId)
    requires !IsAlreadyApplied(a.store, id)
    requires a.replies.negotiation != []
    requires a.replies.negotiation[0] != UNAUTHORIZED && a.replies.negotiation[0] != CREATED
    ensures Apply(a, id) == Step(Submitted(a, id), Returned(false))
    ensures Apply(a, id).agent.store == a.store
  {
  }

  /** A 401: the credentials are refreshed, and the call ends as the retried
      apply to the same id ends; the retried request carries the access token
      the refresh left behind. */
  lemma ApplyUnauthorized(a: Agent, id: VacancyId)
    requires !IsAlreadyApplied(a.store, id)
    requires a.replies.negotiation != [] && a.replies.negotiation[0] == UNAUTHORIZED
    ensures var s := Refresh(Submitted(a, id));
            && (s.outcome.Halted? ==> Apply(a, id) == Step(s.agent, Halted(s.outcome.halt)))
            && (s.outcome.Returned? ==> Apply(a, id) == Apply(s.agent, id))
            && (s.outcome.Returned? && s.agent.replies.negotiation != [] ==>
                  |Apply(a, id).agent.sent| > |s.agent.sent| &&
                  Apply(a, id).agent.sent[|s.agent.sent|] == NegotiationRequest(s.agent.creds.access, id))
  {
  }

  /** For an id not yet stored, an apply that returns has skipped every
      leading 401 with one refresh each and is decided by the first other
      status: true exactly when it is 201. */
  lemma {:induction false} ApplyDecided(a: Agent, id: VacancyId)
    requires !IsAlreadyApplied(a.store, id)
    requires Apply(a, id).outcome.Returned?
    decreases |a.replies.negotiation|
    ensures var n := Leading401(a.replies.negotiation); var r := Apply(a, id);
            && n < |a.replies.negotiation|
            && r.outcome.value == (a.replies.negotiation[n] == CREATED)
            && r.agent.replies.negotiation == a.replies.negotiation[n + 1..]
            && |r.agent.replies.token| + n == |a.replies.token|
            && |r.agent.sent| == |a.sent| + 2 * n + 1
  {
    var neg := a.replies.negotiation;
    if neg[0] == UNAUTHORIZED {
      var s := Refresh(Submitted(a, id));
      ApplyDecided(s.agent, id);
      assert neg[1..][Leading401(neg[1..]) + 1..] == neg[Leading401(neg) + 1..];
    }
  }

  // ---------------------------------------------------------------------
  // Vacancy fetch

  /** The state after the listing request went out and its reply was taken
      from the script. */
  function Listed(a: Agent): (b: Agent)
    requires a.replies.listing != []
  {
    a.(sent := a.sent + [ListingRequest(a.creds.access, SEARCH_TEXT, SEARCH_AREA, PER_PAGE)],
       replies := a.replies.(listing := a.replies.listing[1..]))
  }

  /** A reply other than 401 decides the fetch: the empty list for any status
      but 200, and for 200 the `items` field, or the empty list without one. */
  lemma FetchDecidedReply(a: Agent)
    requires a.replies.listing != [] && a.replies.listing[0].status != UNAUTHORIZED
    ensures var reply := a.replies.listing[0]; var r := Fetch(a);
            && r.agent == Listed(a)
            && r.outcome.Returned?
            && (reply.status != OK ==> r.outcome.value == [])
            && (reply.status == OK && reply.items.None? ==> r.outcome.value == [])
            && (reply.status == OK && reply.items.Some? ==> r.outcome.value == reply.items.value)
  {
  }

  /** A 401: the credentials are refreshed, and the fetch ends as the retried
      fetch ends. */
  lemma FetchUnauthorized(a: Agent)
    requires a.replies.listing != [] && a.replies.listing[0].status == UNAUTHORIZED
    ensures var s := Refresh(Listed(a));
            && (s.outcome.Halted? ==> Fetch(a) == Step(s.agent, Halted(s.outcome.halt)))
            && (s.outcome.Returned? ==> Fetch(a) == Fetch(s.agent))
  {
  }

  /** A fetch that returns has skipped every leading 401 with one refresh
      each and returns what the first other reply yields. */
  lemma {:induction false} FetchDecided(a: Agent)
    requires Fetch(a).outcome.Returned?
    decreases |a.replies.listing|
    ensures var L := a.replies.listing; var n := Leading401(StatusesOf(L)); var r := Fetch(a);
            && n < |L|
            && r.outcome.value == ListingResult(L[n])
            && r.agent.replies.listing == L[n + 1..]
            && |r.agent.replies.token| + n == |a.replies.token|
            && |r.agent.sent| == |a.sent| + 2 * n + 1
  {
    var L := a.replies.listing;
    if L[0].status == UNAUTHORIZED {
      var s := Refresh(Listed(a));
      FetchDecided(s.agent);
      assert StatusesOf(L[1..]) == StatusesOf(L)[1..];
      assert L[1..][Leading401(StatusesOf(L[1..])) + 1..] == L[Leading401(StatusesOf(L)) + 1..];
    }
  }

  /** The retry keeps no count: under a listing endpoint that answers every
      request with 401, the fetch never returns a listing, whatever the token
      endpoint answers; the model only stops when the script runs out. */
  lemma {:induction false} FetchNeverReturnsUnder401(a: Agent)
    requires forall k :: 0 <= k < |a.replies.listing| ==> a.replies.listing[k].status == UNAUTHORIZED
    decreases |a.replies.listing|
    ensures Fetch(a).outcome.Halted?
  {
    if a.replies.listing != [] {
      var s := Refresh(Listed(a));
      if s.outcome.Returned? {
        assert forall k :: 0 <= k < |s.agent.replies.listing| ==> s.agent.replies.listing[k] == a.replies.listing[k + 1];
        FetchNeverReturnsUnder401(s.agent);
      }
    }
  }

  /** A refresh the token endpoint refuses leaves the expired token in place,
      and the retried listing request carries it again. */
  lemma RetryAfterRefusedRefresh(a: Agent)
    requires |a.replies.listing| >= 2 && a.replies.listing[0].status == UNAUTHORIZED
    requires a.replies.token != [] && a.replies.token[0].status != OK
    ensures |Fetch(a).agent.sent| >= |a.sent| + 3
    ensures Fetch(a).agent.sent[|a.sent|] == Fetch(a).agent.sent[|a.sent| + 2]
    ensures Fetch(a).agent.sent[|a.sent|] == ListingRequest(a.creds.access, SEARCH_TEXT, SEARCH_AREA, PER_PAGE)
  {
  }

  // ---------------------------------------------------------------------
  // Credential refresh

  /** A 401, a granted refresh, then a decided reply: the retried submission
      carries the newly issued access token, the token request carried the
      old refresh token, and config.json ends up holding the new pair. */
  lemma RetryUsesNewToken(a: Agent, id: VacancyId)
    requires !IsAlreadyApplied(a.store, id)
    requires |a.replies.negotiation| >= 2
    requires a.replies.negotiation[0] == UNAUTHORIZED && a.replies.negotiation[1] != UNAUTHORIZED
    requires a.replies.token != [] && Granted(a.replies.token[0])
    ensures var body := a.replies.token[0].body; var r := Apply(a, id);
            && r.outcome == Returned(a.replies.negotiation[1] == CREATED)
            && |r.agent.sent| == |a.sent| + 3
            && r.agent.sent[|a.sent| + 1] == TokenRequest(REFRESH_GRANT, a.creds.refresh, a.creds.clientId, a.creds.clientSecret)
            && r.agent.sent[|a.sent| + 2] == NegotiationRequest(body[ACCESS_FIELD], id)
            && r.agent.creds.access == body[ACCESS_FIELD] && r.agent.creds.refresh == body[REFRESH_FIELD]
            && ACCESS_KEY in r.agent.creds.saved && r.agent.creds.saved[ACCESS_KEY] == body[ACCESS_FIELD]
            && REFRESH_KEY in r.agent.creds.saved && r.agent.creds.saved[REFRESH_KEY] == body[REFRESH_FIELD]
  {
  }

  // ---------------------------------------------------------------------
  // Run tally

  /** The records a run adds: one per vacancy whose apply returned true, in
      listing order. */
  function NewRecords(vacancies: seq<Vacancy>, results: seq<bool>): (records: seq<Application>)
    requires |vacancies| == |results|
  {
    if vacancies == [] then []
    else (if results[0] then [Record(vacancies[0].id)] else []) + NewRecords(vacancies[1..], results[1..])
  }

  lemma {:induction false} NewRecordsCount(vacancies: seq<Vacancy>, results: seq<bool>)
    requires |vacancies| == |results|
    ensures |NewRecords(vacancies, results)| == multiset(results)[true]
  {
    if vacancies != [] {
      NewRecordsCount(vacancies[1..], results[1..]);
      assert results == [results[0]] + results[1..];
    }
  }

  /** The counters are the number of calls that returned true and the
      number that returned false, so together they count every call. */
  lemma {:induction false} TallyCounts(results: seq<bool>)
    ensures TallyOf(results).applied == multiset(results)[true]
    ensures TallyOf(results).failed == multiset(results)[false]
    ensures TallyOf(results).applied + TallyOf(results).failed == |results|
  {
    if results != [] {
      var init := results[..|results| - 1];
      TallyCounts(init);
      assert results == init + [results[|results| - 1]];
    }
  }

  /** A run over the vacancies that returns gives one result per vacancy,
      after the results it started with. */
  lemma {:induction false} RunResults(a: Agent, vacancies: seq<Vacancy>, done: seq<bool>)
    requires ApplyEach(a, vacancies, done).outcome.Returned?
    decreases |vacancies|
    ensures var rs := ApplyEach(a, vacancies, done).outcome.value;
            |rs| == |done| + |vacancies| && rs[..|done|] == done
  {
    if vacancies != [] {
      var s := Apply(a, vacancies[0].id);
      var ok := s.outcome.value;
      RunUnfold(a, vacancies, done);
      RunResults(s.agent, vacancies[1..], done + [ok]);
      var rs := ApplyEach(s.agent, vacancies[1..], done + [ok]).outcome.value;
      assert rs[..|done|] == rs[..|done| + 1][..|done|];
    }
  }

  /** During a run the store only grows, by exactly the records of the calls
      that returned true, in listing order. */
  lemma {:induction false} RunEffect(a: Agent, vacancies: seq<Vacancy>, done: seq<bool>)
    requires ApplyEach(a, vacancies, done).outcome.Returned?
    decreases |vacancies|
    ensures var r := ApplyEach(a, vacancies, done); var rs := r.outcome.value;
            && |rs| == |done| + |vacancies|
            && r.agent.store == a.store + NewRecords(vacancies, rs[|done|..])
  {
    RunResults(a, vacancies, done);
    if vacancies != [] {
      var s := Apply(a, vacancies[0].id);
      var ok := s.outcome.value;
      RunUnfold(a, vacancies, done);
      RunResults(s.agent, vacancies[1..], done + [ok]);
      RunEffect(s.agent, vacancies[1..], done + [ok]);
      var rs := ApplyEach(s.agent, vacancies[1..], done + [ok]).outcome.value;
      var tail := rs[|done|..];
      assert tail[0] == ok by {
        assert rs[..|done| + 1][|done|] == (done + [ok])[|done|];
      }
      assert tail[1..] == rs[|done| + 1..];
      var added := if ok then [Record(vacancies[0].id)] else [];
      assert NewRecords(vacancies, tail) == added + NewRecords(vacancies[1..], rs[|done| + 1..]);
      assert s.agent.store == a.store + added;
      assert a.store + added + NewRecords(vacancies[1..], rs[|done| + 1..])
          == a.store + (added + NewRecords(vacancies[1..], rs[|done| + 1..]));
    }
  }

  /** A run never stores an id twice: the UNIQUE constraint is never hit. */
  lemma {:induction false} RunKeepsUnique(a: Agent, vacancies: seq<Vacancy>, done: seq<bool>)
    requires UniqueIds(a.store)
    decreases |vacancies|
    ensures UniqueIds(ApplyEach(a, vacancies, done).agent.store)
  {
    if vacancies != [] {
      var s := Apply(a, vacancies[0].id);
      if s.outcome.Returned? {
        RunKeepsUnique(s.agent, vacancies[1..], done + [s.outcome.value]);
      }
    }
  }

  /** The result of the call for vacancies[k] in a run that returns. */
  function RunResultAt(a: Agent, vacancies: seq<Vacancy>, done: seq<bool>, k: nat): (ok: bool)
    requires ApplyEach(a, vacancies, done).outcome.Returned?
    requires k < |vacancies|
  {
    RunResults(a, vacancies, done);
    ApplyEach(a, vacancies, done).outcome.value[|done| + k]
  }

  /** The first call of a run that returns has returned too, and the rest
      of the run after it returns. */
  lemma RunFirstReturned(a: Agent, vacancies: seq<Vacancy>, done: seq<bool>)
    requires ApplyEach(a, vacancies, done).outcome.Returned?
    requires vacancies != []
    ensures var s := Apply(a, vacancies[0].id);
            && s.outcome.Returned?
            && ApplyEach(a, vacancies, done) == ApplyEach(s.agent, vacancies[1..], done + [s.outcome.value])
  {
  }

  /** The first result is that of the first call; the later ones are the
      results of the rest of the run. */
  lemma RunResultShift(a: Agent, vacancies: seq<Vacancy>, done: seq<bool>, k: nat)
    requires ApplyEach(a, vacancies, done).outcome.Returned?
    requires k < |vacancies|
    ensures var s := Apply(a, vacancies[0].id);
            && s.outcome.Returned?
            && ApplyEach(s.agent, vacancies[1..], done + [s.outcome.value]).outcome.Returned?
            && RunResultAt(a, vacancies, done, 0) == s.outcome.value
            && (k > 0 ==> RunResultAt(a, vacancies, done, k) == RunResultAt(s.agent, vacancies[1..], done + [s.outcome.value], k - 1))
  {
    RunFirstReturned(a, vacancies, done);
    var s := Apply(a, vacancies[0].id);
    var done' := done + [s.outcome.value];
    RunResults(s.agent, vacancies[1..], done');
    var rs := ApplyEach(s.agent, vacancies[1..], done').outcome.value;
    assert rs[|done|] == rs[..|done| + 1][|done|];
  }

  /** A vacancy whose id is already stored when the run starts fails. */
  lemma {:induction false} RunStoredIdFails(a: Agent, vacancies: seq<Vacancy>, done: seq<bool>, k: nat)
    requires ApplyEach(a, vacancies, done).outcome.Returned?
    requires k < |vacancies| && IsAlreadyApplied(a.store, vacancies[k].id)
    decreases |vacancies|
    ensures RunResultAt(a, vacancies, done, k) == false
  {
    RunResultShift(a, vacancies, done, k);
    var s := Apply(a, vacancies[0].id);
    if k > 0 {
      RunStoredIdFails(s.agent, vacancies[1..], done + [s.outcome.value], k - 1);
    }
  }

  /** An id repeated later in the list fails the second time once the first
      submission succeeded: a run applies to an id at most once. */
  lemma {:induction false} RunRepeatFails(a: Agent, vacancies: seq<Vacancy>, done: seq<bool>, j: nat, k: nat)
    requires ApplyEach(a, vacancies, done).outcome.Returned?
    requires j < k < |vacancies| && vacancies[j].id == vacancies[k].id
    requires RunResultAt(a, vacancies, done, j)
    decreases |vacancies|
    ensures !RunResultAt(a, vacancies, done, k)
  {
    RunResultShift(a, vacancies, done, j);
    RunResultShift(a, vacancies, done, k);
    var s := Apply(a, vacancies[0].id);
    var done' := done + [s.outcome.value];
    if j == 0 {
      InsertKeepsUnique(a.store, vacancies[0].id);
      assert vacancies[1..][k - 1] == vacancies[k];
      RunStoredIdFails(s.agent, vacancies[1..], done', k - 1);
    } else {
      RunRepeatFails(s.agent, vacancies[1..], done', j - 1, k - 1);
    }
  }

  /** A worked run: the listing holds "1", "2" and "3"; "1" is stored
      already, "2" is answered 201 and "3" is answered 400. The tally is one
      applied and two failed (the stored id counts as a failure), and only
      "2" is added. */
  lemma ThreeVacancyRun(a: Agent)
    requires a.store == [Record("1")]
    requires a.replies.listing == [ListingReply(OK, Some([Vacancy("1"), Vacancy("2"), Vacancy("3")]))]
    requires a.replies.negotiation == [CREATED, 400]
    ensures Search(a).outcome == Returned(Tally(1, 2))
    ensures Search(a).agent.store == [Record("1"), Record("2")]
  {
    var f := Fetch(a);
    assert f.outcome == Returned([Vacancy("1"), Vacancy("2"), Vacancy("3")]);
    ThreeVacancyApplies(f.agent);
    assert TallyOf([false, true, false]) == Tally(1, 2) by {
      assert [false, true, false][..2] == [false, true];
      assert [false, true][..1] == [false];
      assert [false][..0] == [];
    }
  }

  lemma ThreeVacancyApplies(b: Agent)
    requires b.store == [Record("1")]
    requires b.replies.negotiation == [CREATED, 400]
    ensures var e := ApplyEach(b, [Vacancy("1"), Vacancy("2"), Vacancy("3")], []);
            e.outcome == Returned([false, true, false]) && e.agent.store == [Record("1"), Record("2")]
  {
    var vs := [Vacancy("1"), Vacancy("2"), Vacancy("3")];
    assert IsAlreadyApplied(b.store, "1");
    var s1 := Apply(b, "1");
    assert s1 == Step(b, Returned(false));
    RunUnfold(b, vs, []);
    assert !IsAlreadyApplied(s1.agent.store, "2") by {
      assert s1.agent.store[0].vacancyId == "1";
    }
    var s2 := Apply(s1.agent, "2");
    assert s2.outcome == Returned(true) && s2.agent.store == [Record("1"), Record("2")];
    assert vs[1..][0].id == "2";
    RunUnfold(s1.agent, vs[1..], [false]);
    assert !IsAlreadyApplied(s2.agent.store, "3") by {
      assert s2.agent.store[0].vacancyId == "1" && s2.agent.store[1].vacancyId == "2";
    }
    var s3 := Apply(s2.agent, "3");
    assert s3.outcome == Returned(false) && s3.agent.store == s2.agent.store;
    assert vs[1..][1..] == [Vacancy("3")] && [Vacancy("3")][1..] == [];
    RunUnfold(s2.agent, [Vacancy("3")], [false, true]);
    assert [] + [false] == [false] && [false] + [true] == [false, true] && [false, true] + [false] == [false, true, false];
  }

  /** One round of the run loop. */
  lemma RunUnfold(a: Agent, vacancies: seq<Vacancy>, done: seq<bool>)
    requires vacancies != [] && Apply(a, vacancies[0].id).outcome.Returned?
    ensures var s := Apply(a, vacancies[0].id);
            ApplyEach(a, vacancies, done) == ApplyEach(s.agent, vacancies[1..], done + [s.outcome.value])
  {
  }

  /** A search that returns its tally: the vacancies are those the fetch
      returned, applied + failed is their number, applied is the number of
      calls that returned true and equals the number of records added, and
      the store is the old one followed by exactly those records. */
  lemma SearchSummary(a: Agent)
    requires Search(a).outcome.Returned?
    ensures var f := Fetch(a); var r := Search(a);
            && f.outcome.Returned?
            && var vacancies := f.outcome.value;
               var e := ApplyEach(f.agent, vacancies, []);
            && e.outcome.Returned?
            && var results := e.outcome.value;
            && |results| == |vacancies|
            && r.outcome.value.applied == multiset(results)[true]
            && r.outcome.value.failed == multiset(results)[false]
            && r.outcome.value.applied + r.outcome.value.failed == |vacancies|
            && r.agent.store == a.store + NewRecords(vacancies, results)
            && |r.agent.store| == |a.store| + r.outcome.value.applied
            && (UniqueIds(a.store) ==> UniqueIds(r.agent.store))
  {
    var f := Fetch(a);
    var vacancies := f.outcome.value;
    var e := ApplyEach(f.agent, vacancies, []);
    RunEffect(f.agent, vacancies, []);
    if UniqueIds(a.store) {
      RunKeepsUnique(f.agent, vacancies, []);
    }
    var results := e.outcome.value;
    assert results[0..] == results;
    TallyCounts(results);
    NewRecordsCount(vacancies, results);
  }
}
