/**
 * The node health verdict used by the hub's sweep: the probe URL a node is
 * asked on, and when a probe's answer keeps the node registered.
 */
module Health {
  import opened Wrappers

  /** Path appended to a node's base URL to probe its health. */
  const HealthCheckPath: string := "/WinAuto/HealthCheck"

  /** Marker whose presence anywhere in the probe's body means "healthy". */
  const OkMarker: string := "OK"

  /**
   * What the outbound GET of a probe produced. `Failed` is any exception the
   * HTTP client raises (connection error, error status, malformed URL);
   * `Responded` carries the response body, which may be null (`None`).
   */
  datatype ProbeOutcome = Failed | Responded(body: Option<string>)

  /** `sub` occurs in `s` starting at index `i`. */
  ghost predicate OccursAt(s: string, sub: string, i: int)
  {
    0 <= i && i + |sub| <= |s| && s[i..i + |sub|] == sub
  }

  /** Substring containment, as `String.contains` decides it. */
  function Contains(s: string, sub: string): (r: bool)
    ensures r <==> exists i :: OccursAt(s, sub, i)
    decreases |s|
  {
    if |s| < |sub| then
      false
    else if s[..|sub|] == sub then
      assert OccursAt(s, sub, 0);
      true
    else
      ShiftOccurrence(s, sub);
      Contains(s[1..], sub)
  }

  /** Occurrences in `s[1..]` are the occurrences in `s` after index 0. */
  lemma ShiftOccurrence(s: string, sub: string)
    requires |s| >= |sub| && s[..|sub|] != sub
    ensures (exists i :: OccursAt(s, sub, i)) <==> (exists j :: OccursAt(s[1..], sub, j))
  {
    if exists i :: OccursAt(s, sub, i) {
      var i :| OccursAt(s, sub, i);
      assert i != 0;
      assert s[1..][i - 1..i - 1 + |sub|] == s[i..i + |sub|];
      assert OccursAt(s[1..], sub, i - 1);
    }
    if exists j :: OccursAt(s[1..], sub, j) {
      var j :| OccursAt(s[1..], sub, j);
      assert s[1..][j..j + |sub|] == s[j + 1..j + 1 + |sub|];
      assert OccursAt(s, sub, j + 1);
    }
  }

  /** The URL the sweep probes for a node registered under `nodeUrl`. */
  function ProbeUrl(nodeUrl: string): string
  {
    nodeUrl + HealthCheckPath
  }

  /** Distinct nodes are probed on distinct URLs: the node URL is recoverable. */
  lemma ProbeUrlInjective(a: string, b: string)
    requires ProbeUrl(a) == ProbeUrl(b)
    ensures a == b
  {
    assert |a| == |b|;
    assert a == ProbeUrl(a)[..|a|];
    assert b == ProbeUrl(b)[..|b|];
  }

  /**
   * A node is healthy iff its probe answered with a non-null body that
   * contains the OK marker anywhere; a failed call, a null body (whose
   * dereference throws) or a body without the marker all mean unhealthy.
   */
  predicate Healthy(outcome: ProbeOutcome)
    ensures Healthy(outcome) <==>
      outcome.Responded? && outcome.body.Some? && exists i :: OccursAt(outcome.body.value, OkMarker, i)
  {
    outcome.Responded? && outcome.body.Some? && Contains(outcome.body.value, OkMarker)
  }

  /** Verdicts on concrete answers: the marker may sit anywhere, and is case sensitive. */
  lemma HealthyVerdicts()
    ensures Healthy(Responded(Some("status: OK")))
    ensures Healthy(Responded(Some("OK")))
    ensures !Healthy(Responded(Some("ok")))
    ensures !Healthy(Responded(Some("")))
    ensures !Healthy(Responded(None))
    ensures !Healthy(Failed)
  {
    assert OccursAt("status: OK", OkMarker, 8);
    assert OccursAt("OK", OkMarker, 0);
    var lower := "ok";
    assert lower[..|OkMarker|] != OkMarker by { assert lower[..|OkMarker|][0] == 'o'; }
    assert !Contains(lower[1..], OkMarker);
  }
}
