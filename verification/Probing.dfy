/** Existence probes. A `fetch(path, { method: 'HEAD' })` is not performed
    here: its outcome for each path is supplied by an oracle, so that every
    loader becomes a pure function of "today" and of what the server answers. */
module Probing {

  import opened Wrappers
  import opened Strings

  /** What awaiting a HEAD request produced: a response with its `ok` flag, or a thrown error. */
  datatype Probe = Response(ok: bool) | Thrown

  /** The oracle: the probe outcome for every path. */
  type Oracle = string -> Probe

  predicate Succeeds(p: Probe) {
    p.Response? && p.ok
  }

  /** The outcome of trying candidate paths in order: the path selected, if any,
      and the paths that were actually requested. */
  datatype ChainResult = ChainResult(found: Option<string>, probed: seq<string>)

  /** Requests each path in turn, each inside its own try/catch, and stops at
      the first one whose response is ok. */
  function FirstAvailable(paths: seq<string>, oracle: Oracle): (r: ChainResult)
    ensures |r.probed| <= |paths| && r.probed == paths[..|r.probed|]
    ensures r.found.None? ==> r.probed == paths
    ensures r.found.Some? ==>
      |r.probed| >= 1 && r.found.value == r.probed[|r.probed| - 1] && Succeeds(oracle(r.found.value))
    ensures forall j :: 0 <= j < |r.probed| && (r.found.None? || j < |r.probed| - 1) ==>
      !Succeeds(oracle(r.probed[j]))
  {
    if |paths| == 0 then ChainResult(None, [])
    else if Succeeds(oracle(paths[0])) then ChainResult(Some(paths[0]), [paths[0]])
    else
      var rest := FirstAvailable(paths[1..], oracle);
      ChainResult(rest.found, [paths[0]] + rest.probed)
  }

  /** The chain selects a path exactly when some candidate answers ok, and then
      it selects the first such candidate. */
  lemma FirstAvailableIsFirst(paths: seq<string>, oracle: Oracle, k: nat)
    requires k < |paths| && Succeeds(oracle(paths[k]))
    requires forall j :: 0 <= j < k ==> !Succeeds(oracle(paths[j]))
    ensures FirstAvailable(paths, oracle) == ChainResult(Some(paths[k]), paths[..k + 1])
  {
  }

  /** The chain selects nothing exactly when no candidate answers ok, and then
      it has requested every candidate. */
  lemma FirstAvailableNone(paths: seq<string>, oracle: Oracle)
    requires forall j :: 0 <= j < |paths| ==> !Succeeds(oracle(paths[j]))
    ensures FirstAvailable(paths, oracle) == ChainResult(None, paths)
  {
  }

  /** The warning both loaders show when today's issue cannot be found: it
      names the missing file and ends with the loader's own advice. */
  function MissingIssueWarning(filename: string, advice: string): (message: string)
    ensures Contains(message, filename) && Contains(message, advice)
  {
    var head := "Today's e-paper (" + filename + ") is not yet available. ";
    ContainsMiddle("Today's e-paper (", filename, ") is not yet available. " + advice);
    ContainsMiddle(head, advice, "");
    assert head + advice + "" == head + advice;
    assert "Today's e-paper (" + filename + (") is not yet available. " + advice) == head + advice;
    head + advice
  }
}
