/** The apply-once workflow as functions of the agent's whole state: the
    credentials, the dedup store, the requests sent so far and the replies
    still to come. Each function is one routine of hh.py; the class in
    bot.dfy runs the same routines imperatively and is proved equal to them. */
module Workflow {
  import opened Store
  import opened Exchange
  import opened Credentials

  datatype Agent = Agent(creds: Credentials, store: seq<Application>, sent: seq<Request>, replies: Replies)

  /** The state after a call, and how the call ended. */
  datatype Step<T> = Step(agent: Agent, outcome: Outcome<T>)

  /** The counters of one search run. */
  datatype Tally = Tally(applied: nat, failed: nat)

  /** The state in which the bot starts: config.json loaded and the table
      opened (empty when setup_db has just created it). */
  function Startup(config: map<string, string>, table: seq<Application>, replies: Replies): (r: Agent)
    requires StartsWith(config)
    ensures r.creds.access != ""
    ensures && r.creds.access == config[ACCESS_KEY] && r.creds.refresh == config[REFRESH_KEY]
            && r.creds.clientId == config[CLIENT_ID_KEY] && r.creds.clientSecret == config[CLIENT_SECRET_KEY]
    ensures r.creds.config == config && r.creds.saved == r.creds.config
    ensures r.store == table && r.sent == [] && r.replies == replies
  {
    Agent(Loaded(config), table, [], replies)
  }

  /** `refresh_access_token`: one request to the token endpoint with the
      current refresh token, then the update its reply calls for. */
  function Refresh(a: Agent): (r: Step<()>)
    ensures r.agent.store == a.store
    ensures a.sent <= r.agent.sent
    ensures r.agent.replies.listing == a.replies.listing
    ensures r.agent.replies.negotiation == a.replies.negotiation
    ensures r.agent.creds.clientId == a.creds.clientId && r.agent.creds.clientSecret == a.creds.clientSecret
    ensures a.creds.saved == a.creds.config ==> r.agent.creds.saved == r.agent.creds.config
    ensures a.replies.token == [] ==> r == Step(a, Halted(OutOfReplies))
    ensures a.replies.token != [] ==>
              && r.agent.replies.token == a.replies.token[1..]
              && r.agent.sent == a.sent + [TokenRequest(REFRESH_GRANT, a.creds.refresh, a.creds.clientId, a.creds.clientSecret)]
              && r.agent.creds == Update(a.creds, a.replies.token[0]).creds
              && (r.outcome.Returned? <==> !Update(a.creds, a.replies.token[0]).raised)
    ensures r.outcome.Halted? ==> r.outcome.halt == (if a.replies.token == [] then OutOfReplies else KeyErrorRaised)
  {
    if a.replies.token == [] then Step(a, Halted(OutOfReplies))
    else
      var request := TokenRequest(REFRESH_GRANT, a.creds.refresh, a.creds.clientId, a.creds.clientSecret);
      var u := Update(a.creds, a.replies.token[0]);
      var a' := a.(creds := u.creds, sent := a.sent + [request], replies := a.replies.(token := a.replies.token[1..]));
      Step(a', if u.raised then Halted(KeyErrorRaised) else Returned(()))
  }

  /** The vacancies a decided listing reply yields: `items` of a 200 reply,
      or nothing. */
  function ListingResult(reply: ListingReply): (r: seq<Vacancy>)
    requires reply.status != UNAUTHORIZED
    ensures r != [] ==> reply.status == OK && reply.items == Some(r)
    ensures reply.status == OK && reply.items.Some? ==> r == reply.items.value
  {
    if reply.status != OK then []
    else match reply.items
      case Some(items) => items
      case None => []
  }

  /** `fetch_vacancies`: a listing request with the current access token;
      on 401 refresh and fetch again (hh.py keeps no retry count; here each
      round consumes a scripted reply). */
  function Fetch(a: Agent): (r: Step<seq<Vacancy>>)
    decreases |a.replies.listing|
    ensures r.agent.store == a.store
    ensures a.sent <= r.agent.sent
    ensures r.agent.replies.negotiation == a.replies.negotiation
    ensures a.creds.saved == a.creds.config ==> r.agent.creds.saved == r.agent.creds.config
  {
    if a.replies.listing == [] then Step(a, Halted(OutOfReplies))
    else
      var reply := a.replies.listing[0];
      var request := ListingRequest(a.creds.access, SEARCH_TEXT, SEARCH_AREA, PER_PAGE);
      var a1 := a.(sent := a.sent + [request], replies := a.replies.(listing := a.replies.listing[1..]));
      if reply.status == UNAUTHORIZED then
        var s := Refresh(a1);
        if s.outcome.Halted? then Step(s.agent, Halted(s.outcome.halt))
        else Fetch(s.agent)
      else Step(a1, Returned(ListingResult(reply)))
  }

  /** `apply_to_vacancy`: nothing is sent for an id already stored;
      otherwise a negotiation request with the current access token, and on
      401 refresh and apply again (with no retry count in hh.py, one scripted
      reply per round here), on 201 the record is inserted, on anything else the
      attempt fails without being written. */
  function Apply(a: Agent, id: VacancyId): (r: Step<bool>)
    decreases |a.replies.negotiation|
    ensures r.outcome == Returned(true) ==> !IsAlreadyApplied(a.store, id) && r.agent.store == a.store + [Record(id)]
    ensures r.outcome != Returned(true) ==> r.agent.store == a.store
    ensures UniqueIds(a.store) ==> UniqueIds(r.agent.store)
    ensures forall x :: IsAlreadyApplied(a.store, x) ==> IsAlreadyApplied(r.agent.store, x)
    ensures a.sent <= r.agent.sent
    ensures r.agent.replies.listing == a.replies.listing
    ensures a.creds.saved == a.creds.config ==> r.agent.creds.saved == r.agent.creds.config
  {
    if IsAlreadyApplied(a.store, id) then Step(a, Returned(false))
    else if a.replies.negotiation == [] then Step(a, Halted(OutOfReplies))
    else
      var status := a.replies.negotiation[0];
      var request := NegotiationRequest(a.creds.access, id);
      var a1 := a.(sent := a.sent + [request], replies := a.replies.(negotiation := a.replies.negotiation[1..]));
      if status == UNAUTHORIZED then
        var s := Refresh(a1);
        if s.outcome.Halted? then Step(s.agent, Halted(s.outcome.halt))
        else Apply(s.agent, id)
      else if status == CREATED then
        InsertKeepsUnique(a.store, id);
        forall x | IsAlreadyApplied(a.store, x) ensures IsAlreadyApplied(a.store + [Record(id)], x) {
          AppendKeepsIds(a.store, [Record(id)], x);
        }
        Step(a1.(store := a.store + [Record(id)]), Returned(true))
      else Step(a1, Returned(false))
  }

  /** The loop of `search_vacancies`: apply to each vacancy in listing order;
      `done` holds the results of the calls made so far. */
  function ApplyEach(a: Agent, vacancies: seq<Vacancy>, done: seq<bool>): (r: Step<seq<bool>>)
    decreases |vacancies|
    ensures forall x :: IsAlreadyApplied(a.store, x) ==> IsAlreadyApplied(r.agent.store, x)
    ensures a.sent <= r.agent.sent
    ensures r.agent.replies.listing == a.replies.listing
    ensures a.creds.saved == a.creds.config ==> r.agent.creds.saved == r.agent.creds.config
  {
    if vacancies == [] then Step(a, Returned(done))
    else
      var s := Apply(a, vacancies[0].id);
      match s.outcome
      case Halted(h) => Step(s.agent, Halted(h))
      case Returned(ok) => ApplyEach(s.agent, vacancies[1..], done + [ok])
  }

  /** The counters as the loop leaves them after the given results. */
  function TallyOf(results: seq<bool>): (t: Tally)
    ensures t.applied + t.failed == |results|
  {
    if results == [] then Tally(0, 0)
    else
      var t := TallyOf(results[..|results| - 1]);
      if results[|results| - 1] then t.(applied := t.applied + 1) else t.(failed := t.failed + 1)
  }

  /** `search_vacancies` without the reply message: fetch, then apply to
      every vacancy fetched and count. */
  function Search(a: Agent): (r: Step<Tally>)
    ensures forall x :: IsAlreadyApplied(a.store, x) ==> IsAlreadyApplied(r.agent.store, x)
    ensures a.sent <= r.agent.sent
    ensures a.creds.saved == a.creds.config ==> r.agent.creds.saved == r.agent.creds.config
  {
    var f := Fetch(a);
    match f.outcome
    case Halted(h) => Step(f.agent, Halted(h))
    case Returned(vacancies) =>
      var e := ApplyEach(f.agent, vacancies, []);
      match e.outcome
      case Halted(h) => Step(e.agent, Halted(h))
      case Returned(results) => Step(e.agent, Returned(TallyOf(results)))
  }
}
