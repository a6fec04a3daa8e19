/** The credential manager: the HH tokens held in globals, the `config`
    dictionary loaded from config.json, and the file itself. */
module Credentials {
  import opened Exchange

  /** Keys of config.json read at startup. */
  const TELEGRAM_TOKEN_KEY: string := "TELEGRAM_TOKEN"
  const ACCESS_KEY: string := "HH_ACCESS_TOKEN"
  const CLIENT_ID_KEY: string := "CLIENT_ID"
  const CLIENT_SECRET_KEY: string := "CLIENT_SECRET"
  const AUTH_CODE_KEY: string := "AUTH_CODE"
  const REFRESH_KEY: string := "REFRESH_TOKEN"

  /** Fields of a 200 reply of the token endpoint. */
  const ACCESS_FIELD: string := "access_token"
  const REFRESH_FIELD: string := "refresh_token"

  /** access / refresh: the HH_ACCESS_TOKEN and REFRESH_TOKEN globals;
      clientId / clientSecret: CLIENT_ID and CLIENT_SECRET, never reassigned;
      config: the dictionary in memory; saved: the content of config.json. */
  datatype Credentials = Credentials(
    access: string, refresh: string,
    clientId: string, clientSecret: string,
    config: map<string, string>, saved: map<string, string>)

  /** The startup code reads these keys (a missing one raises) and refuses
      to start with an empty access token. */
  predicate StartsWith(config: map<string, string>)
  {
    && TELEGRAM_TOKEN_KEY in config && ACCESS_KEY in config && CLIENT_ID_KEY in config
    && CLIENT_SECRET_KEY in config && AUTH_CODE_KEY in config && REFRESH_KEY in config
    && config[ACCESS_KEY] != ""
  }

  /** The globals as they are right after config.json has been loaded. */
  function Loaded(config: map<string, string>): (c: Credentials)
    requires StartsWith(config)
  {
    Credentials(config[ACCESS_KEY], config[REFRESH_KEY],
                config[CLIENT_ID_KEY], config[CLIENT_SECRET_KEY], config, config)
  }

  /** A token reply that lets the refresh finish: status 200 with both tokens. */
  predicate Granted(reply: TokenReply)
  {
    reply.status == OK && ACCESS_FIELD in reply.body && REFRESH_FIELD in reply.body
  }

  /** The credentials after one reply of the token endpoint, and whether reading
      the reply raised a KeyError. */
  datatype Updated = Updated(creds: Credentials, raised: bool)

  /** What the body of the refresh does with one reply. */
  function Update(c: Credentials, reply: TokenReply): (r: Updated)
    ensures r.creds.clientId == c.clientId && r.creds.clientSecret == c.clientSecret
    ensures r.raised <==> reply.status == OK && !Granted(reply)
    // any status but 200: only an error is logged
    ensures reply.status != OK ==> r.creds == c
    // 200 with both fields: both globals take the new pair, both config keys
    // are overwritten, every other key is kept, and the file is rewritten
    ensures Granted(reply) ==>
              && r.creds.access == reply.body[ACCESS_FIELD]
              && r.creds.refresh == reply.body[REFRESH_FIELD]
              && r.creds.config.Keys == c.config.Keys + {ACCESS_KEY, REFRESH_KEY}
              && r.creds.config[ACCESS_KEY] == r.creds.access
              && r.creds.config[REFRESH_KEY] == r.creds.refresh
              && (forall k | k in c.config && k != ACCESS_KEY && k != REFRESH_KEY :: r.creds.config[k] == c.config[k])
              && r.creds.saved == r.creds.config
    // 200 with a field missing: the access global is set if its field is
    // there, then the lookup raises before the config or the file is touched
    ensures reply.status == OK && !Granted(reply) ==>
              && r.creds.access == (if ACCESS_FIELD in reply.body then reply.body[ACCESS_FIELD] else c.access)
              && r.creds.refresh == c.refresh
              && r.creds.config == c.config && r.creds.saved == c.saved
    // config.json always holds what the dictionary holds
    ensures c.saved == c.config ==> r.creds.saved == r.creds.config
  {
    if reply.status != OK then Updated(c, false)
    else if ACCESS_FIELD !in reply.body then Updated(c, true)
    else
      var c1 := c.(access := reply.body[ACCESS_FIELD]);
      if REFRESH_FIELD !in reply.body then Updated(c1, true)
      else
        var config := c.config[ACCESS_KEY := c1.access][REFRESH_KEY := reply.body[REFRESH_FIELD]];
        Updated(c1.(refresh := reply.body[REFRESH_FIELD], config := config, saved := config), false)
  }
}
