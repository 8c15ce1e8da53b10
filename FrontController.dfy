/**
 * The hub's session registry: a table from session id to node URL that
 * registration fills and the health sweep prunes, and the request
 * interceptor that reads it to build the outbound request.
 */
module FrontController {
  import opened Wrappers
  import opened Health
  import opened BodyReader
  import opened Routing

  /**
   * The registry after probing every entry: exactly the entries whose probe
   * answered healthy, each with its URL unchanged.
   */
  function Survivors(nodes: map<string, string>, probe: string -> ProbeOutcome): (r: map<string, string>)
    ensures r.Keys <= nodes.Keys
    ensures forall id :: id in r ==> r[id] == nodes[id] && Healthy(probe(ProbeUrl(r[id])))
    ensures forall id :: id in nodes ==> (id in r <==> Healthy(probe(ProbeUrl(nodes[id]))))
  {
    SweptOver(nodes, nodes.Keys, probe)
  }

  /**
   * The registry part-way through a sweep: the entries in `visited` have been
   * probed and the unhealthy ones removed; the others are untouched.
   */
  function SweptOver(nodes: map<string, string>, visited: set<string>, probe: string -> ProbeOutcome): map<string, string>
  {
    map id | id in nodes && (id in visited ==> Healthy(probe(ProbeUrl(nodes[id])))) :: nodes[id]
  }

  /** The confirmation text a registration returns. */
  function RegisterMessage(nodeUrl: string): string
  {
    "Node from [" + nodeUrl + "] has been registered"
  }

  /** The node URL can be read back out of the confirmation message, between fixed texts. */
  lemma RegisterMessageNamesNode(nodeUrl: string)
    ensures var m := RegisterMessage(nodeUrl);
      |m| == |nodeUrl| + 32 && m[11..11 + |nodeUrl|] == nodeUrl &&
      m[..11] == "Node from [" && m[11 + |nodeUrl|..] == "] has been registered"
  {
    var m := RegisterMessage(nodeUrl);
    assert m == "Node from [" + (nodeUrl + "] has been registered");
  }

  /** Distinct node URLs give distinct confirmation messages. */
  lemma RegisterMessageInjective(a: string, b: string)
    requires RegisterMessage(a) == RegisterMessage(b)
    ensures a == b
  {
    RegisterMessageNamesNode(a);
    RegisterMessageNamesNode(b);
  }

  /** The reply to a registration: the new id, the message and the post-sweep table. */
  datatype Registration = Registration(sessionId: string, message: string, allAvailableNodes: map<string, string>)

  /** The request the interceptor hands to the HTTP client. */
  datatype Forwarded = Forwarded(httpMethod: string, headers: map<string, string>, uri: string, body: string)

  class Hub {
    /** Session id to node URL. */
    var nodes: map<string, string>

    constructor ()
      ensures nodes == map[]
    {
      nodes := map[];
    }

    /**
     * Probe every registered node, one key at a time over a snapshot of the
     * key set, and remove each entry whose probe does not answer healthy.
     * A failing probe only removes its own entry; the loop always goes on.
     */
    method Sweep(probe: string -> ProbeOutcome) returns (snapshot: map<string, string>)
      modifies this
      ensures nodes == Survivors(old(nodes), probe)
      ensures snapshot == nodes
    {
      var pending := nodes.Keys;
      while pending != {}
        invariant pending <= old(nodes).Keys
        invariant nodes == SweptOver(old(nodes), old(nodes).Keys - pending, probe)
        decreases pending
      {
        var id :| id in pending;
        var nodeUrl := nodes[id];
        var outcome := probe(ProbeUrl(nodeUrl));
        if !Healthy(outcome) {
          nodes := nodes - {id};
        }
        pending := pending - {id};
      }
      snapshot := nodes;
    }

    /**
     * Bind `freshId` (a newly generated session id) to `nodeUrl`, then sweep.
     * An existing entry under the same id would be overwritten.
     */
    method Register(nodeUrl: string, freshId: string, probe: string -> ProbeOutcome) returns (reply: Registration)
      modifies this
      ensures nodes == Survivors(old(nodes)[freshId := nodeUrl], probe)
      ensures reply.sessionId == freshId
      ensures reply.message == RegisterMessage(nodeUrl)
      ensures reply.allAvailableNodes == nodes
    {
      nodes := nodes[freshId := nodeUrl];
      var message := RegisterMessage(nodeUrl);
      var all := Sweep(probe);
      reply := Registration(freshId, message, all);
    }

    /** List the nodes: sweep, then report the table. */
    method AllNodes(probe: string -> ProbeOutcome) returns (snapshot: map<string, string>)
      modifies this
      ensures nodes == Survivors(old(nodes), probe)
      ensures snapshot == nodes
    {
      snapshot := Sweep(probe);
    }

    /**
     * Build the request forwarded for an inbound call: same method and
     * headers, the body with its line breaks dropped, and the target URI
     * from the session header. A call without the session header fails.
     */
    method Intercept(httpMethod: string, headers: map<string, string>, path: string, text: string)
      returns (r: Result<Forwarded, Fault>)
      ensures r.Failure? <==> SessionHeader !in headers
      ensures r.Success? ==> r.value.uri == TargetUri(nodes, headers, path).value
      ensures r.Success? ==> r.value.httpMethod == httpMethod && r.value.headers == headers
      ensures r.Success? ==> r.value.body == StripLineBreaks(text) && NoLineBreaks(r.value.body)
    {
      var body := ReadBody(text);
      var target := TargetUri(nodes, headers, path);
      match target
      case Failure(f) =>
        r := Failure(f);
      case Success(uri) =>
        r := Success(Forwarded(httpMethod, headers, uri, body));
    }
  }

  /** A second sweep with the same probe answers removes nothing more. */
  lemma SweepIdempotent(nodes: map<string, string>, probe: string -> ProbeOutcome)
    ensures Survivors(Survivors(nodes, probe), probe) == Survivors(nodes, probe)
  {
  }

  /**
   * An entry's fate depends on its own probe alone: whatever the probe
   * answers for other nodes, the entry stays iff its own answer is healthy.
   */
  lemma SweepIsolatesEntries(nodes: map<string, string>, p: string -> ProbeOutcome, q: string -> ProbeOutcome, id: string)
    requires id in nodes && p(ProbeUrl(nodes[id])) == q(ProbeUrl(nodes[id]))
    ensures id in Survivors(nodes, p) <==> id in Survivors(nodes, q)
  {
  }

  /** A node that answers healthy is reachable through its new session right after registering. */
  lemma RegisteredNodeIsTarget(nodes: map<string, string>, nodeUrl: string, freshId: string,
                               probe: string -> ProbeOutcome, headers: map<string, string>, path: string)
    requires Healthy(probe(ProbeUrl(nodeUrl)))
    requires SessionHeader in headers && headers[SessionHeader] == freshId
    ensures TargetUri(Survivors(nodes[freshId := nodeUrl], probe), headers, path) == Success(nodeUrl + path)
  {
  }

  /** Once a sweep evicts a session's node, requests for that session target "null" + path. */
  lemma EvictedSessionTargetsNull(nodes: map<string, string>, probe: string -> ProbeOutcome,
                                  headers: map<string, string>, path: string)
    requires SessionHeader in headers && headers[SessionHeader] in nodes
    requires !Healthy(probe(ProbeUrl(nodes[headers[SessionHeader]])))
    ensures TargetUri(Survivors(nodes, probe), headers, path) == Success(NullText + path)
  {
  }

  /**
   * A node that answers "status: OK" is listed under its new session; when it
   * later stops answering, the next listing is empty and its session's
   * requests target "null" + path.
   */
  lemma RegisterThenLoseNode(freshId: string, headers: map<string, string>, path: string)
    requires SessionHeader in headers && headers[SessionHeader] == freshId
    ensures var url := "http://node1:5555";
      var up := (u: string) => Responded(Some("status: OK"));
      var down := (u: string) => Failed;
      var registered := Survivors(map[][freshId := url], up);
      registered == map[freshId := url] &&
      Survivors(registered, down) == map[] &&
      TargetUri(Survivors(registered, down), headers, path) == Success(NullText + path)
  {
    HealthyVerdicts();
    var url := "http://node1:5555";
    var up := (u: string) => Responded(Some("status: OK"));
    var down := (u: string) => Failed;
    var registered := Survivors(map[][freshId := url], up);
    assert freshId in registered;
    assert registered == map[freshId := url];
    assert Survivors(registered, down).Keys == {};
  }
}
