/** What the agent exchanges with the outside world: the requests it sends to
    the HeadHunter endpoints, the replies those endpoints give (scripted in
    advance, since the network is not part of the model), and the ways a call
    can end. */
module Exchange {
  import opened Store

  datatype Option<T> = None | Some(value: T)

  /** HTTP status codes the workflow tells apart. */
  const OK: int := 200
  const CREATED: int := 201
  const UNAUTHORIZED: int := 401

  /** The fixed vacancy query of the listing request. */
  const SEARCH_TEXT: string := "Python разработчик"
  const SEARCH_AREA: int := 1
  const PER_PAGE: int := 10

  /** The grant type of every token request. */
  const REFRESH_GRANT: string := "refresh_token"

  /** A vacancy from the listing; only its id is used downstream. */
  datatype Vacancy = Vacancy(id: VacancyId)

  /** A request as sent, with the credentials it carries. */
  datatype Request =
    | TokenRequest(grantType: string, refreshToken: string, clientId: string, clientSecret: string)
    | ListingRequest(bearer: string, text: string, area: int, perPage: int)
    | NegotiationRequest(bearer: string, vacancyId: VacancyId)

  /** Reply of the token endpoint: the status and the string fields of its JSON body. */
  datatype TokenReply = TokenReply(status: int, body: map<string, string>)

  /** Reply of the listing endpoint: the status and the `items` field of its
      JSON body, if the body has one. */
  datatype ListingReply = ListingReply(status: int, items: Option<seq<Vacancy>>)

  /** The replies each endpoint will give, in order, to the requests still to
      come. A reply of the negotiations endpoint is only its status. */
  datatype Replies = Replies(token: seq<TokenReply>, listing: seq<ListingReply>, negotiation: seq<int>)

  /** Why a call did not return a value.
      KeyErrorRaised: a 200 token reply lacked `access_token` or `refresh_token`,
      and the lookup raised out of the whole handler.
      OutOfReplies: the script has no reply left for a request. The model
      has no limit on the depth of the 401 retry, so a run of 401 replies
      ends this way unless a refresh raises. */
  datatype Halt = KeyErrorRaised | OutOfReplies

  datatype Outcome<T> = Returned(value: T) | Halted(halt: Halt)

  /** The status of each listing reply, in order. */
  function StatusesOf(replies: seq<ListingReply>): (s: seq<int>)
    ensures |s| == |replies|
    ensures forall k :: 0 <= k < |replies| ==> s[k] == replies[k].status
  {
    seq(|replies|, k requires 0 <= k < |replies| => replies[k].status)
  }

  /** The number of 401 replies before the first reply of any other status:
      how many times a call refreshes and retries before it is decided. */
  function Leading401(statuses: seq<int>): (n: nat)
    ensures n <= |statuses|
    ensures forall j :: 0 <= j < n ==> statuses[j] == UNAUTHORIZED
    ensures n < |statuses| ==> statuses[n] != UNAUTHORIZED
  {
    if statuses == [] || statuses[0] != UNAUTHORIZED then 0
    else 1 + Leading401(statuses[1..])
  }
}
