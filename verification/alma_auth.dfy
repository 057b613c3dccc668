/**
 The ALMA authentication session: the list of candidate identity hosts, the
 choice of the first host that answers its well-known endpoint, and the
 classification of the token endpoint's JSON reply. HTTP requests are
 abstract: a probe function from host to status code and a reply given as
 the JSON object's string entries.
 */
module AlmaAuth {
  import opened Wrappers
  import opened PyText

  const InvalidPasswordMessage: string := "Invalid user credentials"

  /** The session: configured hosts and the host chosen, once one is. */
  datatype AuthState = AuthState(hosts: seq<string>, host: Option<string>)

  datatype AuthError =
    | LoginError(message: string)
    /** A JSON reply with `error` but no `error_description`. */
    | KeyError(key: string)

  /** The `auth_hosts` setter: `None` is refused; a list replaces the hosts
      and leaves an already chosen host in place. */
  function SetAuthHosts(s: AuthState, hosts: Option<seq<string>>): (r: Result<AuthState, AuthError>)
    ensures r.Failure? <==> hosts.None?
    ensures r.Success? ==> r.value.hosts == hosts.value && r.value.host == s.host
  {
    match hosts
    case None => Failure(LoginError("Valid authentication hosts cannot be None"))
    case Some(h) => Success(s.(hosts := h))
  }

  /** The position of the first host whose probe answers 200. */
  function FirstOk(hosts: seq<string>, probe: string -> int): (i: Option<nat>)
    ensures i.Some? ==> i.value < |hosts| && probe(hosts[i.value]) == 200
                        && forall j :: 0 <= j < i.value ==> probe(hosts[j]) != 200
    ensures i.None? ==> forall j :: 0 <= j < |hosts| ==> probe(hosts[j]) != 200
  {
    if |hosts| == 0 then None
    else if probe(hosts[0]) == 200 then Some(0)
    else match FirstOk(hosts[1..], probe)
      case None => None
      case Some(i) => Some(i + 1)
  }

  /** The failure message naming every configured host. */
  function NoHostsMessage(hosts: seq<string>): string {
    "No useable hosts to login to: " + ListRepr(seq(|hosts|, k requires 0 <= k < |hosts| => Str(hosts[k])))
  }

  /** `get_valid_host`: without a chosen host, probe the hosts in order and
      keep the first that answers 200. Returns the host, the new state and
      the hosts probed. */
  method GetValidHost(s: AuthState, probe: string -> int)
    returns (r: Result<string, AuthError>, s': AuthState, probed: seq<string>)
    ensures s'.hosts == s.hosts
    ensures s.host.Some? ==> r == Success(s.host.value) && s' == s && probed == []
    ensures s.host.None? ==>
              match FirstOk(s.hosts, probe)
              case Some(i) => r == Success(s.hosts[i]) && s'.host == Some(s.hosts[i]) && probed == s.hosts[..i + 1]
              case None => r == Failure(LoginError(NoHostsMessage(s.hosts))) && s' == s && probed == s.hosts
  {
    s' := s;
    probed := [];
    if s.host.None? {
      var i := 0;
      while i < |s.hosts| && s'.host.None?
        invariant 0 <= i <= |s.hosts|
        invariant s'.hosts == s.hosts
        invariant probed == s.hosts[..i]
        invariant forall j :: 0 <= j < i - 1 ==> probe(s.hosts[j]) != 200
        invariant s'.host.None? ==> (forall j :: 0 <= j < i ==> probe(s.hosts[j]) != 200) && s' == s
        invariant s'.host.Some? ==> i > 0 && probe(s.hosts[i - 1]) == 200 && s'.host == Some(s.hosts[i - 1])
      {
        probed := probed + [s.hosts[i]];
        if probe(s.hosts[i]) == 200 {
          s' := s'.(host := Some(s.hosts[i]));
        }
        i := i + 1;
        assert probed == s.hosts[..i];
      }
      FirstOkFound(s.hosts, probe, if s'.host.Some? then Some(i - 1) else None);
    }
    if s'.host.None? {
      r := Failure(LoginError(NoHostsMessage(s.hosts)));
    } else {
      r := Success(s'.host.value);
    }
  }

  /** `FirstOk` is pinned down by its contract. */
  lemma FirstOkFound(hosts: seq<string>, probe: string -> int, i: Option<nat>)
    requires i.Some? ==> i.value < |hosts| && probe(hosts[i.value]) == 200
                         && forall j :: 0 <= j < i.value ==> probe(hosts[j]) != 200
    requires i.None? ==> forall j :: 0 <= j < |hosts| ==> probe(hosts[j]) != 200
    ensures FirstOk(hosts, probe) == i
  {
  }

  /** Once a host is chosen, later calls probe nothing and return it. */
  method GetValidHostTwice(s: AuthState, probe: string -> int, probe2: string -> int)
    returns (r1: Result<string, AuthError>, r2: Result<string, AuthError>, probed2: seq<string>)
    ensures r1.Success? ==> r2 == r1 && probed2 == []
  {
    var s1, p1;
    r1, s1, p1 := GetValidHost(s, probe);
    var s2;
    r2, s2, probed2 := GetValidHost(s1, probe2);
  }

  /** What the token endpoint's JSON reply holds, as its string entries. */
  type Json = map<string, string>

  /** `login`, after the host was found: an `error` entry is a failure (a
      wrong password reported as such, anything else with the host named),
      a reply without `access_token` is a failure, anything else succeeds. */
  function ClassifyLogin(host: string, reply: Json): (r: Result<(), AuthError>)
    ensures r.Success? <==> "error" !in reply && "access_token" in reply
    ensures "error" in reply && "error_description" !in reply ==> r == Failure(KeyError("error_description"))
    ensures "error" in reply && "error_description" in reply && IsInfix(InvalidPasswordMessage, reply["error_description"])
            ==> r == Failure(LoginError(reply["error_description"]))
    ensures r.Failure? && r.error.LoginError? ==> "error" in reply ==> IsInfix(reply["error_description"], r.error.message)
    ensures "error" in reply && "error_description" in reply && !IsInfix(InvalidPasswordMessage, reply["error_description"])
            ==> r.Failure? && r.error.LoginError? && IsInfix(host, r.error.message)
    ensures "error" !in reply && "access_token" !in reply
            ==> r.Failure? && r.error.LoginError? && IsInfix(host, r.error.message)
  {
    if "error" in reply then
      if "error_description" !in reply then Failure(KeyError("error_description"))
      else
        var description := reply["error_description"];
        if !IsInfix(InvalidPasswordMessage, description) then
          var lead := "Could not log in to ALMA authorization portal: ";
          var prefix := lead + host + " Message from server: ";
          InfixAt(description, prefix + description, |prefix|);
          InfixMiddle(lead, host, " Message from server: " + description);
          assert prefix + description == lead + host + (" Message from server: " + description);
          Failure(LoginError(prefix + description))
        else
          InfixAt(description, description, 0);
          Failure(LoginError(description))
    else if "access_token" !in reply then
      var lead := "Could not log in to any of the known ALMA authorization portals: \n"
                  + "No error from server, but missing access token from host: ";
      InfixMiddle(lead, host, "");
      assert lead + host + "" == lead + host;
      Failure(LoginError(lead + host))
    else Success(())
  }

  /** `login`: find a host, post the credentials, classify the reply. The
      token endpoint is abstract: `post` maps the host to its JSON reply. */
  method Login(s: AuthState, probe: string -> int, post: string -> Json)
    returns (r: Result<(), AuthError>, s': AuthState)
    ensures s'.hosts == s.hosts
    ensures r.Success? ==> s'.host.Some? && "error" !in post(s'.host.value) && "access_token" in post(s'.host.value)
    ensures s.host.None? && FirstOk(s.hosts, probe).None? ==> r.Failure? && r.error.LoginError?
    ensures s'.host.Some? ==> r == ClassifyLogin(s'.host.value, post(s'.host.value))
  {
    var found, probed;
    found, s', probed := GetValidHost(s, probe);
    if found.Failure? {
      return Failure(found.error), s';
    }
    r := ClassifyLogin(found.value, post(found.value));
  }
}
