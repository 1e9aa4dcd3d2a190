/** The bento-based scan driver (semgrep_agent/bento.py): which events it
    accepts, and the results it builds from the scanner run. Running the
    scanner, git and the clock are outside the model; their outputs are
    parameters. */
module Bento {
  import opened Base

  const ALLOWED_EVENT_TYPES: set<string> := {"push", "pull_request"}
  const UNSUPPORTED_EVENT_EXIT_CODE: int := 2

  /** What `scan` goes on to do for a triggering event. */
  datatype ScanStep = ExitWith(code: int) | ScanPullRequest | ScanPush

  function ScanDispatch(eventType: string): (step: ScanStep)
    ensures step == ExitWith(UNSUPPORTED_EVENT_EXIT_CODE) <==> eventType !in ALLOWED_EVENT_TYPES
    ensures step == ScanPullRequest <==> eventType == "pull_request"
    ensures step == ScanPush <==> eventType == "push"
  {
    if eventType !in ALLOWED_EVENT_TYPES then ExitWith(UNSUPPORTED_EVENT_EXIT_CODE)
    else if eventType == "pull_request" then ScanPullRequest
    else ScanPush
  }

  /** One decoded finding of the scanner's JSON output: a mutable dict. */
  class FindingRecord {
    var fields: map<string, Json>

    constructor (fields: map<string, Json>)
      ensures this.fields == fields
    {
      this.fields := fields;
    }
  }

  /** What the finished scanner process reports. */
  datatype ShCommand = ShCommand(stdout: seq<bv8>, exitCode: int)

  datatype Stats = Stats(findings: Option<nat>, totalTime: real)

  datatype Results = Results(exitCode: int, findings: Option<seq<FindingRecord>>, totalTime: real)
  {
    /** `Results.stats`: the number of findings, None when there are none. */
    function GetStats(): (st: Stats)
      ensures st.findings.None? <==> (findings.None? || findings.value == [])
      ensures st.findings.Some? ==> st.findings.value == |findings.value|
      ensures st.totalTime == totalTime
    {
      Stats(if findings.Some? && findings.value != [] then Some(|findings.value|) else None, totalTime)
    }
  }

  const COMMIT_DATE: string := "commit_date"

  /** A finding dict after `f["commit_date"] = commit_date`. */
  function WithCommitDate(fields: map<string, Json>, isoDate: string): (r: map<string, Json>)
    ensures r.Keys == fields.Keys + {COMMIT_DATE}
    ensures r[COMMIT_DATE] == JString(isoDate)
    ensures forall k :: k in fields && k != COMMIT_DATE ==> r[k] == fields[k]
  {
    fields[COMMIT_DATE := JString(isoDate)]
  }

  lemma WithCommitDateIdempotent(fields: map<string, Json>, isoDate: string)
    ensures WithCommitDate(WithCommitDate(fields, isoDate), isoDate) == WithCommitDate(fields, isoDate)
  {
  }

  /** The results a scanner run yields: its exit code, the decoded findings
      when it printed anything, and the elapsed time. */
  function ResultsOf(command: ShCommand, loaded: seq<FindingRecord>, elapsed: real): (r: Results)
    ensures r.exitCode == command.exitCode && r.totalTime == elapsed
    ensures r.findings.None? <==> command.stdout == []
    ensures r.findings.Some? ==> r.findings.value == loaded
  {
    Results(command.exitCode, if command.stdout == [] then None else Some(loaded), elapsed)
  }

  /** The reported count of a scan: absent when the scanner printed nothing
      or reported no findings, the number of findings otherwise. */
  lemma StatsOfScan(command: ShCommand, loaded: seq<FindingRecord>, elapsed: real)
    ensures var st := ResultsOf(command, loaded, elapsed).GetStats();
            && (st.findings.None? <==> (command.stdout == [] || loaded == []))
            && (st.findings.Some? ==> st.findings.value == |loaded|)
            && st.totalTime == elapsed
  {
  }

  /** `Results.from_sh_command`. `loaded` is what `json.loads` makes of the
      output when there is any; `isoDate` is the commit's ISO-8601 date. */
  method FromShCommand(command: ShCommand, isoDate: string, loaded: seq<FindingRecord>, elapsed: real)
    returns (r: Results)
    modifies set i | 0 <= i < |loaded| :: loaded[i]
    ensures r == ResultsOf(command, loaded, elapsed)
    ensures command.stdout != [] ==>
              forall i :: 0 <= i < |loaded| ==> loaded[i].fields == WithCommitDate(old(loaded[i].fields), isoDate)
    ensures command.stdout == [] ==> forall i :: 0 <= i < |loaded| ==> loaded[i].fields == old(loaded[i].fields)
  {
    var findings: Option<seq<FindingRecord>> := None;
    if command.stdout != [] {
      findings := Some(loaded);
      for i := 0 to |loaded|
        invariant forall k :: 0 <= k < i ==> loaded[k].fields == WithCommitDate(old(loaded[k].fields), isoDate)
        invariant forall k :: 0 <= k < |loaded| ==>
                    loaded[k].fields == old(loaded[k].fields)
                    || loaded[k].fields == WithCommitDate(old(loaded[k].fields), isoDate)
      {
        WithCommitDateIdempotent(old(loaded[i].fields), isoDate);
        loaded[i].fields := loaded[i].fields[COMMIT_DATE := JString(isoDate)];
      }
    }
    r := Results(command.exitCode, findings, elapsed);
  }
}
