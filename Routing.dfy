/**
 * How the hub builds the absolute URI a forwarded request is sent to: the
 * node URL bound to the request's session, followed by the request path.
 */
module Routing {
  import opened Wrappers

  /** Header that names the session a forwarded request belongs to. */
  const SessionHeader: string := "windriver_sessionId"

  /** What Java string concatenation writes for a null reference. */
  const NullText: string := "null"

  /**
   * A request without the session header makes the registry lookup throw:
   * a concurrent hash map refuses a null key.
   */
  datatype Fault = MissingSessionHeader

  /** The session id a request carries, if it carries the header. */
  function SessionIdOf(headers: map<string, string>): (r: Option<string>)
    ensures r.Some? <==> SessionHeader in headers
    ensures r.Some? ==> r.value == headers[SessionHeader]
  {
    if SessionHeader in headers then Some(headers[SessionHeader]) else None
  }

  /**
   * The forward target: the node URL stored for the session, concatenated
   * with the request path (which carries no query string). An id that is not
   * registered yields the text "null" in place of the node URL.
   */
  function TargetUri(nodes: map<string, string>, headers: map<string, string>, path: string): (r: Result<string, Fault>)
    ensures r.Failure? <==> SessionHeader !in headers
    ensures r.Success? && headers[SessionHeader] in nodes ==> r.value == nodes[headers[SessionHeader]] + path
    ensures r.Success? && headers[SessionHeader] !in nodes ==> r.value == NullText + path
  {
    match SessionIdOf(headers)
    case None => Failure(MissingSessionHeader)
    case Some(id) => Success((if id in nodes then nodes[id] else NullText) + path)
  }

  /** The request path is always the tail of the target, so it is forwarded unchanged. */
  lemma TargetEndsWithPath(nodes: map<string, string>, headers: map<string, string>, path: string)
    requires SessionHeader in headers
    ensures |TargetUri(nodes, headers, path).value| >= |path|
    ensures var u := TargetUri(nodes, headers, path).value; u[|u| - |path|..] == path
  {
    var u := TargetUri(nodes, headers, path).value;
    var prefix := if headers[SessionHeader] in nodes then nodes[headers[SessionHeader]] else NullText;
    assert u == prefix + path;
    assert u[|prefix|..] == path;
  }

  /**
   * An unknown session cannot be told apart from a session whose node was
   * registered with the URL "null": both produce the same target.
   */
  lemma UnknownSessionLikeNullNode(nodes: map<string, string>, headers: map<string, string>, path: string)
    requires SessionHeader in headers && headers[SessionHeader] !in nodes
    ensures TargetUri(nodes, headers, path) == TargetUri(nodes[headers[SessionHeader] := NullText], headers, path)
  {
  }

  /**
   * Routing looks at no header but the session header: two requests that
   * carry the same session id, or both lack it, get the same target.
   */
  lemma TargetDependsOnlyOnSessionHeader(nodes: map<string, string>, h1: map<string, string>,
                                         h2: map<string, string>, path: string)
    requires SessionIdOf(h1) == SessionIdOf(h2)
    ensures TargetUri(nodes, h1, path) == TargetUri(nodes, h2, path)
  {
  }
}
