/** The bot as the program keeps it: module-level globals for the tokens and
    the config, the jobs.db table, and the routines that update them in place.
    Every method is proved to do what the function of the same routine in
    module Workflow says. */
module HhBot {
  import opened Store
  import opened Exchange
  import opened Credentials
  import opened Workflow

  class Bot {
    var accessToken: string
    var refreshToken: string
    const clientId: string
    const clientSecret: string
    var config: map<string, string>
    var savedConfig: map<string, string>
    var applications: seq<Application>
    /** Requests sent so far, and the replies the endpoints will give next. */
    var sent: seq<Request>
    var replies: Replies

    /** The whole state, as the functions of module Workflow see it. */
    function State(): (a: Agent)
      reads this
    {
      Agent(Credentials(accessToken, refreshToken, clientId, clientSecret, config, savedConfig),
            applications, sent, replies)
    }

    /** The table never holds an id twice and config.json mirrors `config`. */
    ghost predicate Valid()
      reads this
    {
      UniqueIds(applications) && savedConfig == config
    }

    /** Load config.json (the startup check included) and run `setup_db`,
        which keeps the rows of an existing table or creates an empty one. */
    constructor (initialConfig: map<string, string>, table: seq<Application>, script: Replies)
      requires StartsWith(initialConfig)
      requires UniqueIds(table)
      ensures Valid()
      ensures State() == Startup(initialConfig, table, script)
    {
      accessToken := initialConfig[ACCESS_KEY];
      refreshToken := initialConfig[REFRESH_KEY];
      clientId := initialConfig[CLIENT_ID_KEY];
      clientSecret := initialConfig[CLIENT_SECRET_KEY];
      config := initialConfig;
      savedConfig := initialConfig;
      applications := table;
      sent := [];
      replies := script;
    }

    method RefreshAccessToken() returns (o: Outcome<()>)
      modifies this
      ensures Step(State(), o) == Refresh(old(State()))
      ensures old(Valid()) ==> Valid()
    {
      if replies.token == [] {
        return Halted(OutOfReplies);
      }
      var reply := replies.token[0];
      sent := sent + [TokenRequest(REFRESH_GRANT, refreshToken, clientId, clientSecret)];
      replies := replies.(token := replies.token[1..]);
      if reply.status == OK {
        if ACCESS_FIELD !in reply.body {
          return Halted(KeyErrorRaised);
        }
        accessToken := reply.body[ACCESS_FIELD];
        if REFRESH_FIELD !in reply.body {
          return Halted(KeyErrorRaised);
        }
        refreshToken := reply.body[REFRESH_FIELD];
        config := config[ACCESS_KEY := accessToken];
        config := config[REFRESH_KEY := refreshToken];
        savedConfig := config;
      }
      o := Returned(());
    }

    /** The 401 branch recurses as the source does, with no retry count;
        here each round consumes one scripted listing reply. */
    method FetchVacancies() returns (o: Outcome<seq<Vacancy>>)
      modifies this
      decreases |replies.listing|
      ensures Step(State(), o) == Fetch(old(State()))
      ensures old(Valid()) ==> Valid()
    {
      if replies.listing == [] {
        return Halted(OutOfReplies);
      }
      var reply := replies.listing[0];
      sent := sent + [ListingRequest(accessToken, SEARCH_TEXT, SEARCH_AREA, PER_PAGE)];
      replies := replies.(listing := replies.listing[1..]);
      if reply.status == UNAUTHORIZED {
        var refreshed := RefreshAccessToken();
        if refreshed.Halted? {
          return Halted(refreshed.halt);
        }
        o := FetchVacancies();
      } else {
        o := Returned(ListingResult(reply));
      }
    }

    /** The 401 branch recurses as the source does, with no retry count;
        here each round consumes one scripted negotiation reply. */
    method ApplyToVacancy(id: VacancyId) returns (o: Outcome<bool>)
      modifies this
      decreases |replies.negotiation|
      ensures Step(State(), o) == Apply(old(State()), id)
      ensures old(Valid()) ==> Valid()
    {
      if IsAlreadyApplied(applications, id) {
        return Returned(false);
      }
      if replies.negotiation == [] {
        return Halted(OutOfReplies);
      }
      var status := replies.negotiation[0];
      sent := sent + [NegotiationRequest(accessToken, id)];
      replies := replies.(negotiation := replies.negotiation[1..]);
      if status == UNAUTHORIZED {
        var refreshed := RefreshAccessToken();
        if refreshed.Halted? {
          return Halted(refreshed.halt);
        }
        o := ApplyToVacancy(id);
      } else if status == CREATED {
        applications := applications + [Record(id)];
        o := Returned(true);
      } else {
        o := Returned(false);
      }
    }

    /** The handler of the search button, up to the reply message: the tally
        it would report, or how it stopped. */
    method SearchVacancies() returns (o: Outcome<Tally>)
      modifies this
      ensures Step(State(), o) == Search(old(State()))
      ensures old(Valid()) ==> Valid()
    {
      var fetched := FetchVacancies();
      if fetched.Halted? {
        return Halted(fetched.halt);
      }
      var vacancies := fetched.value;
      ghost var start := State();
      ghost var results: seq<bool> := [];
      var appliedCount, failedCount := 0, 0;
      for i := 0 to |vacancies|
        invariant ApplyEach(start, vacancies, []) == ApplyEach(State(), vacancies[i..], results)
        invariant Tally(appliedCount, failedCount) == TallyOf(results)
        invariant old(Valid()) ==> Valid()
      {
        assert vacancies[i..][0] == vacancies[i] && vacancies[i..][1..] == vacancies[i + 1..];
        var ok := ApplyToVacancy(vacancies[i].id);
        if ok.Halted? {
          return Halted(ok.halt);
        }
        if ok.value {
          appliedCount := appliedCount + 1;
        } else {
          failedCount := failedCount + 1;
        }
        assert (results + [ok.value])[..|results|] == results;
        results := results + [ok.value];
      }
      o := Returned(Tally(appliedCount, failedCount));
    }
  }
}
