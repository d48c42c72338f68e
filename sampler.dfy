/**
 * The sampling half of status.py: the all-or-nothing proxy configuration
 * (status.py:25-37) and the retry loop that turns up to five request
 * outcomes into one status label (status.py:39-50).
 *
 * The HTTP request itself is not modelled: each attempt is an abstract
 * outcome supplied by the caller.
 */
module Sampler {
  import opened Wrappers

  /** MAX_RETRIES: the number of requests made at most. */
  const MaxRetries: nat := 5

  /**
   * What one request attempt yields. `Failed` stands for every exception the
   * loop swallows (a network error or timeout, a body that is not JSON, a JSON
   * object without "is_online"); `Answered` carries the truthiness of the
   * "is_online" field.
   */
  datatype Attempt = Failed | Answered(isOnline: bool)

  /** The three status labels the sampler can record. */
  datatype Status = Online | Offline | Error {
    /** The text written to the log for this status. */
    function Label(): (s: string)
      ensures |s| > 0
    {
      match this
      case Online => "ONLINE"
      case Offline => "OFFLINE"
      case Error => "ERROR"
    }
  }

  /** Distinct statuses are logged as distinct texts, so a logged label names its status. */
  lemma LabelInjective(a: Status, b: Status)
    ensures a.Label() == b.Label() ==> a == b
  {
  }

  /** The status an answered request maps to (status.py:47). */
  function FromAnswer(isOnline: bool): Status {
    if isOnline then Online else Offline
  }

  /**
   * The status the retry loop settles on when the attempts it may make have
   * the given outcomes, in order: the first answer decides, and ERROR remains
   * when nothing answered.
   */
  function Decide(outcomes: seq<Attempt>): (s: Status)
    ensures s == Error <==> forall i :: 0 <= i < |outcomes| ==> outcomes[i].Failed?
    ensures forall k :: 0 <= k < |outcomes| && outcomes[k].Answered? &&
                        (forall i :: 0 <= i < k ==> outcomes[i].Failed?)
                        ==> s == FromAnswer(outcomes[k].isOnline)
  {
    if outcomes == [] then Error
    else match outcomes[0]
      case Answered(online) => FromAnswer(online)
      case Failed =>
        var rest := Decide(outcomes[1..]);
        assert forall i :: 1 <= i < |outcomes| ==> outcomes[i] == outcomes[1..][i - 1];
        rest
  }

  /**
   * The retry loop of status.py:40-50. `outcomes[i]` is what attempt `i + 1`
   * would yield; the loop makes at most MaxRetries attempts and stops at the
   * first answer. Returns the status and the number of attempts made.
   */
  method TakeSample(outcomes: seq<Attempt>) returns (status: Status, attempts: nat)
    requires |outcomes| >= MaxRetries
    ensures 1 <= attempts <= MaxRetries
    ensures forall i :: 0 <= i < attempts - 1 ==> outcomes[i].Failed?
    ensures status != Error ==> outcomes[attempts - 1].Answered? &&
                                status == FromAnswer(outcomes[attempts - 1].isOnline)
    ensures status == Error <==> forall i :: 0 <= i < MaxRetries ==> outcomes[i].Failed?
    ensures status == Error ==> attempts == MaxRetries
    ensures status == Decide(outcomes[..MaxRetries])
  {
    status := Error;
    attempts := 0;
    var attempt := 1;
    while attempt <= MaxRetries
      invariant 1 <= attempt <= MaxRetries + 1
      invariant attempts == attempt - 1
      invariant forall i :: 0 <= i < attempts ==> outcomes[i].Failed?
      invariant status == Error
    {
      attempts := attempt;
      match outcomes[attempt - 1]
      case Answered(online) =>
        status := FromAnswer(online);
        break;
      case Failed =>
      attempt := attempt + 1;
    }
  }

  /**
   * A reply as status.py:45-46 meets it, before the except clause of
   * status.py:49 sorts it. `Absorbed` is every case that clause catches;
   * `BodyNotObject` is a body that is JSON but not an object (a list, a
   * string, a number, null), where indexing with "is_online" raises
   * TypeError, which that clause does not name.
   */
  datatype Reply = Absorbed | BodyNotObject | Flag(isOnline: bool)

  /**
   * The retry loop as written, on raw replies: `None` when a TypeError
   * escapes the loop and ends the script before anything is logged.
   */
  function DecideAsWritten(replies: seq<Reply>): (s: Option<Status>)
    ensures s == Some(Error) <==> forall i :: 0 <= i < |replies| ==> replies[i].Absorbed?
    ensures forall k :: 0 <= k < |replies| && replies[k].Flag? &&
                        (forall i :: 0 <= i < k ==> replies[i].Absorbed?)
                        ==> s == Some(FromAnswer(replies[k].isOnline))
  {
    if replies == [] then Some(Error)
    else match replies[0]
      case Flag(online) => Some(FromAnswer(online))
      case BodyNotObject => None
      case Absorbed =>
        var rest := DecideAsWritten(replies[1..]);
        assert forall i :: 1 <= i < |replies| ==> replies[i] == replies[1..][i - 1];
        rest
  }

  /**
   * A failed first attempt followed by a reply whose body is the JSON list
   * `[]` ends the script, although a third attempt would have answered.
   */
  lemma NonObjectBodyEndsScript()
    ensures DecideAsWritten([Absorbed, BodyNotObject, Flag(true)]) == None
    ensures Decide(Classified([Absorbed, BodyNotObject, Flag(true)])) == Online
  {
    var raw := [Absorbed, BodyNotObject, Flag(true)];
    assert raw[1..] == [BodyNotObject, Flag(true)];
    var attempts := Classified(raw);
    assert attempts[0] == Failed && attempts[1] == Failed && attempts[2] == Answered(true);
  }

  /** The intended sorting of replies: any body without a usable flag is a failed attempt. */
  function Classify(r: Reply): Attempt {
    match r
    case Flag(online) => Answered(online)
    case _ => Failed
  }

  function Classified(replies: seq<Reply>): (attempts: seq<Attempt>)
    ensures |attempts| == |replies|
    ensures forall i :: 0 <= i < |replies| ==> attempts[i] == Classify(replies[i])
  {
    seq(|replies|, i requires 0 <= i < |replies| => Classify(replies[i]))
  }

  /**
   * With every malformed body counted as a failure, the loop always settles
   * on a status: ERROR exactly when no reply carried the flag, and it agrees
   * with the loop as written whenever that one does not crash.
   */
  lemma ClassifiedDecide(replies: seq<Reply>)
    ensures Decide(Classified(replies)) == Error <==> forall i :: 0 <= i < |replies| ==> !replies[i].Flag?
    ensures DecideAsWritten(replies).Some? ==> DecideAsWritten(replies).value == Decide(Classified(replies))
    ensures DecideAsWritten(replies).None? <==>
      exists k :: 0 <= k < |replies| && replies[k].BodyNotObject? && forall i :: 0 <= i < k ==> replies[i].Absorbed?
  {
    AsWrittenAgrees(replies);
    AsWrittenCrashes(replies);
  }

  /** Where the loop as written settles, the intended loop settles on the same status. */
  lemma {:induction false} AsWrittenAgrees(replies: seq<Reply>)
    ensures DecideAsWritten(replies).Some? ==> DecideAsWritten(replies).value == Decide(Classified(replies))
    decreases |replies|
  {
    if replies != [] {
      var rest := replies[1..];
      AsWrittenAgrees(rest);
      assert Classified(replies)[1..] == Classified(rest);
    }
  }

  /** The loop as written crashes exactly when a non-object body comes before any usable reply. */
  lemma {:induction false} AsWrittenCrashes(replies: seq<Reply>)
    ensures DecideAsWritten(replies).None? <==>
      exists k :: 0 <= k < |replies| && replies[k].BodyNotObject? && forall i :: 0 <= i < k ==> replies[i].Absorbed?
    decreases |replies|
  {
    if replies != [] {
      var rest := replies[1..];
      AsWrittenCrashes(rest);
      assert forall i :: 1 <= i < |replies| ==> replies[i] == rest[i - 1];
      if replies[0].Absorbed? && DecideAsWritten(rest).None? {
        var k :| 0 <= k < |rest| && rest[k].BodyNotObject? && forall i :: 0 <= i < k ==> rest[i].Absorbed?;
        assert replies[k + 1].BodyNotObject?;
      }
    }
  }

  /** The proxy mapping handed to the HTTP client: one URL for each scheme. */
  datatype Proxies = Proxies(http: string, https: string)

  /** Python truthiness of an environment lookup: set and non-empty. */
  predicate Truthy(v: Option<string>) {
    v.Some? && v.value != ""
  }

  /** The basic-auth proxy URL of status.py:33. */
  function ProxyUrl(user: string, password: string, host: string, port: string): (url: string)
    ensures |url| == 10 + |user| + |password| + |host| + |port|
  {
    "http://" + user + ":" + password + "@" + host + ":" + port
  }

  /**
   * The proxy configuration of status.py:31-37: all four values present and
   * non-empty give one URL for both schemes; anything less disables proxying.
   */
  function SelectProxies(user: Option<string>, password: Option<string>,
                         host: Option<string>, port: Option<string>): (p: Option<Proxies>)
    ensures p.Some? <==> Truthy(user) && Truthy(password) && Truthy(host) && Truthy(port)
    ensures p.Some? ==> p.value.http == p.value.https
  {
    if Truthy(user) && Truthy(password) && Truthy(host) && Truthy(port) then
      var url := ProxyUrl(user.value, password.value, host.value, port.value);
      Some(Proxies(url, url))
    else None
  }

  /**
   * Every credential can be read back from the proxy URL at a fixed offset:
   * the scheme, the user, the password, the host and the port, in that order
   * and separated by ':', '@' and ':'.
   */
  lemma ProxyUrlFields(user: string, password: string, host: string, port: string)
    ensures var url := ProxyUrl(user, password, host, port);
      var a := 7 + |user|;
      var b := a + 1 + |password|;
      var c := b + 1 + |host|;
      && url[..7] == "http://"
      && url[7..a] == user && url[a] == ':'
      && url[a + 1..b] == password && url[b] == '@'
      && url[b + 1..c] == host && url[c] == ':'
      && url[c + 1..] == port
  {
    var url := ProxyUrl(user, password, host, port);
    var a := 7 + |user|;
    var b := a + 1 + |password|;
    var c := b + 1 + |host|;
    assert url == "http://" + user + ":" + password + "@" + host + ":" + port;
    assert url[..7] == "http://";
    assert url[7..a] == user;
    assert url[a + 1..b] == password;
    assert url[b + 1..c] == host;
    assert url[c + 1..] == port;
  }

  /**
   * When proxying is enabled, both schemes go through the URL built from the
   * four values.
   */
  lemma ProxiesUseCredentials(user: Option<string>, password: Option<string>,
                              host: Option<string>, port: Option<string>)
    requires SelectProxies(user, password, host, port).Some?
    ensures var p := SelectProxies(user, password, host, port).value;
      p.http == ProxyUrl(user.value, password.value, host.value, port.value) && p.https == p.http
  {
  }
}
