# hh_response_bot: the apply-once workflow

This project models the core of a Telegram bot that applies to HeadHunter
vacancies for its user. When the search button is pressed, the bot fetches one
page of vacancies for a fixed query. It then submits an application to each
vacancy it has not applied to before, and reports how many submissions
succeeded and how many failed. The model covers the parts of `hh.py` that
decide what happens:

- the dedup store, which is the `applications` table with its UNIQUE
  `vacancy_id`;
- the credential manager, which holds the access and refresh tokens, the
  config dictionary and config.json;
- the listing fetch and the application submitter, each with its
  refresh-and-retry on 401;
- the counting loop of the search handler.

The network is replaced by scripted replies. `Exchange.Replies` holds, for
each endpoint, the replies it will give to the coming requests, in order. A
log of the requests sent (`Agent.sent`) records what the bot sent and which
token each request carried. On a 401 the source refreshes and calls itself
again (hh.py:80-83, hh.py:110-113), keeping no retry count. Here each round
consumes one scripted reply, and a call that finds no reply left ends as
`Halted(OutOfReplies)`.

Modules, one per component:

- `Store` (store.dfy): rows, the lookup, the uniqueness invariant.
- `Exchange` (exchange.dfy): requests, replies, outcomes, status constants.
- `Credentials` (credentials.dfy): the token globals, the config, and what one
  token reply does to them.
- `Workflow` (workflow.dfy): the routines as functions of the whole state
  `Agent`.
- `HhBot` (bot.dfy): class `Bot`. It holds the same state in fields, like the
  module globals and the database. Its methods update that state in place,
  and each is proved to end in the state and result its `Workflow` function
  gives.
- `Properties` (properties.dfy): lemmas about the workflow.

Two behaviours of the code worth stating:

- The 401 retry at hh.py:80-83 and hh.py:110-113 keeps no retry count. A
  refused refresh (a non-200 token reply, hh.py:43) leaves the expired token
  in place, so the retried request carries the same token, and a server that
  keeps answering 401 never lets the fetch return a listing
  (`RetryAfterRefusedRefresh`, `FetchNeverReturnsUnder401`).
- An already-applied vacancy makes `apply_to_vacancy` return False
  (hh.py:100-102), so the loop takes the `else` branch at hh.py:147-148 and
  increments `failed_count` (`RunStoredIdFails`, `ThreeVacancyRun`).

## Model

| member | source | states |
|---|---|---|
| Store.IsAlreadyApplied | hh.py:92-97 | true exactly when some row of the table has the given vacancy_id |
| Store.InsertKeepsUnique | hh.py:115-118 | inserting (id, "", "applied") for an id the lookup did not find keeps vacancy_id unique, so the UNIQUE constraint (hh.py:66) never rejects it, and the id is found afterwards |
| Exchange.Leading401 | hh.py:80-83 | the number of 401 replies before the first reply with another status: no more than the script, all 401 before it, and not 401 at it |
| Credentials.Update | hh.py:43-57 | a non-200 reply changes nothing; a 200 reply with both tokens sets both globals, overwrites exactly the two config keys and keeps every other key, and writes the config to the file; a 200 reply with a field missing raises, after setting the access token if that field was there, and leaves the config and the file untouched; the file keeps mirroring the config |
| Workflow.Refresh | hh.py:33-57 | one token request carrying the current refresh token and the client identity; one token reply is consumed and the credentials become what that reply makes of them; the store and the other scripts are unchanged |
| Workflow.Fetch | hh.py:73-89 | fetching never changes the store or the submission script, and the request log only grows |
| Workflow.Apply | hh.py:100-122 | true only for an id not yet stored, and then the store gains exactly the record (id, "", "applied"); on every other ending the store is unchanged; uniqueness of ids and every stored id are kept |
| Workflow.Startup | hh.py:15-30 | the startup state: a non-empty access token; the access, refresh, client id and client secret globals hold the config's values (hh.py:22-26); the config and config.json both equal the loaded config; the table as setup_db leaves it (hh.py:60-70); nothing sent yet |
| Workflow.ListingResult | hh.py:84-89 | a decided listing reply yields vacancies only when its status is 200 and its body has `items`, and then exactly those items; the whole fetch is stated by Properties.FetchDecidedReply |
| Workflow.ApplyEach | hh.py:143-149 | a run of applies keeps every stored id, only adds to the request log, leaves the listing script alone and keeps config.json mirroring the config; its results and effect are stated by Properties.RunResults and Properties.RunEffect |
| Workflow.TallyOf | hh.py:140-148 | the two counters add up to the number of calls; which call goes to which counter is stated by Properties.TallyCounts |
| Workflow.Search | hh.py:138-151 | a search keeps every stored id, only adds to the request log and keeps config.json mirroring the config; its tally and store are stated by Properties.SearchSummary |
| HhBot.Bot.constructor | hh.py:15-30 | loading config.json, with the startup check as precondition, and setup_db, which keeps the existing rows or starts an empty table, give the state Workflow.Startup describes, and the invariant holds |
| HhBot.Bot.RefreshAccessToken | hh.py:33-57 | updates the globals, the config and the file in place, ending in the state and outcome of Workflow.Refresh; keeps the invariant |
| HhBot.Bot.FetchVacancies | hh.py:73-89 | the recursive fetch ends in the state and outcome of Workflow.Fetch |
| HhBot.Bot.ApplyToVacancy | hh.py:100-122 | the recursive submission ends in the state and outcome of Workflow.Apply; keeps the table's ids unique |
| HhBot.Bot.SearchVacancies | hh.py:138-149 | the counting loop ends with the tally, the state and the outcome of Workflow.Search; keeps the invariant |
| Properties.ApplyKnownId | hh.py:100-102 | an id already stored gives false with the state untouched: nothing is sent and no reply is consumed |
| Properties.ApplyCreated | hh.py:114-119 | a 201 for a new id gives true and adds exactly the record (id, "", "applied") after one request; a second apply to the same id then gives false and changes nothing |
| Properties.ApplyRejected | hh.py:120-122 | any status other than 401 and 201 gives false, and the store is unchanged |
| Properties.ApplyUnauthorized | hh.py:110-113 | a 401 refreshes, then ends as the retried apply to the same id ends; the retried request carries the access token the refresh left |
| Properties.ApplyDecided | hh.py:100-122 | an apply to a new id that returns has refreshed once per leading 401. It sent one request per round and is decided by the first other status: true exactly when that status is 201 |
| Properties.FetchDecidedReply | hh.py:84-89 | a non-401 reply decides the fetch: the empty list unless the status is 200; for 200 the items field, or the empty list without one |
| Properties.FetchUnauthorized | hh.py:80-83 | a 401 refreshes, then ends as the retried fetch ends |
| Properties.FetchDecided | hh.py:73-89 | a fetch that returns has refreshed once per leading 401 and returns what the first other reply yields |
| Properties.FetchNeverReturnsUnder401 | hh.py:80-83 | when every listing reply is 401, the fetch never returns, whatever the token endpoint answers |
| Properties.RetryAfterRefusedRefresh | hh.py:76-83 | after a refused refresh, the retried listing request carries the same expired token as the first one |
| Properties.RetryUsesNewToken | hh.py:105-113 | after a 401 and a granted refresh, the token request carried the old refresh token and the retried submission carries the new access token; the globals and config.json hold the new pair |
| Properties.NewRecordsCount | hh.py:143-148 | the records a run adds number exactly the calls that returned true |
| Properties.TallyCounts | hh.py:140-148 | applied_count is the number of calls that returned true, failed_count the number that returned false, and together they are the number of calls |
| Properties.RunResults | hh.py:143-148 | a run that returns has one result per vacancy, after the results it started with |
| Properties.RunResultShift | hh.py:143-148 | the results of a run are in listing order: the first is the result of the call for the first vacancy, and each later one is the result of the rest of the run at the same position |
| Properties.RunEffect | hh.py:143-148 | the store only grows during a run, by exactly the records of the vacancies whose apply returned true, in order |
| Properties.RunKeepsUnique | hh.py:143-148 | no id is ever stored twice by a run |
| Properties.RunStoredIdFails | hh.py:143-148 | a vacancy already stored when the run begins is counted as a failure |
| Properties.RunRepeatFails | hh.py:143-148 | an id that appears again after an earlier successful submission in the same run fails the second time |
| Properties.ThreeVacancyRun | hh.py:139-148 | a run over "1" (stored), "2" (201) and "3" (400) reports 1 applied and 2 failed and stores only "2" |
| Properties.SearchSummary | hh.py:139-148 | a search that returns has applied + failed equal to the number of vacancies fetched, and applied equal to the calls that returned true and to the number of records added; the store is the old one followed by those records and stays free of duplicates |

## Left out

- Telegram wiring: the bot, dispatcher, router, the `/start` keyboard and the
  text of the summary message are user interface. `Bot.SearchVacancies`
  returns the tally the message would show.
- HTTP clients, URLs and headers: replaced by the scripted replies and the
  request log. A transport error (an exception from aiohttp or requests) is
  not modelled.
- SQLite connections, SQL text and the JSON file operations: replaced by the
  row sequence, the config map and the `saved` copy of config.json.
- Malformed bodies: a reply body that is not JSON, a vacancy without an
  `id` field, and token fields that are not strings. The token body is
  modelled as a map of string fields. Its missing-field KeyError is modelled.
  A 200 listing body with `"items": null` is not modelled: `data.get` then
  returns None (hh.py:89) and the loop at hh.py:143 raises TypeError; the
  model's `items` is either a list or absent.
- Non-string config values: the config is a map of strings, so
  `Credentials.StartsWith` rejects only an empty access token, while the
  check at hh.py:29 also refuses null, 0 or false.
- `async`/`await`, `asyncio.sleep(2)` between vacancies and the never-awaited
  `asyncio.sleep(1)`: they do not change the modelled state.
- Logging.
- Overlapping runs racing on the store and the credentials: handlers run one
  at a time in the model.
- The INSERT failing on the UNIQUE constraint: not modelled as an error path,
  because `Store.InsertKeepsUnique` and `Properties.RunKeepsUnique` prove it
  is never reached.
- `TELEGRAM_TOKEN` and `AUTH_CODE` are read at startup, a missing key
  raising, and only the startup check keeps them. `TELEGRAM_TOKEN` is then
  used only to build the Telegram bot (hh.py:125), which is left out with
  the rest of the Telegram wiring; `AUTH_CODE` is never used.
- The 401 retry without a count: bounded here by the length of the scripts.
  A call that runs out of replies ends as `Halted(OutOfReplies)`; the program
  would instead wait on the network for the next reply.
- The interpreter's recursion-depth limit: each 401 round nests one more
  `return await` call, and CPython raises RecursionError out of
  `search_vacancies` after about `sys.getrecursionlimit()` (1000 by default)
  rounds. The model has no such limit and returns after any number of 401
  rounds followed by a decided reply.
- Workflow.Fetch: its own contract states only what a fetch leaves
  unchanged. What it returns is stated by `Properties.FetchDecided` and
  `Properties.FetchDecidedReply`.
