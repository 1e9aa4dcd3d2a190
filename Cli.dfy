/** String helpers of the command-line entry point (src/semgrep_agent/main.py).
    The process environment is a parameter. */
module Cli {
  import opened Base

  /** `s.rstrip("/")`: the input without its trailing slashes. */
  function Url(s: string): (r: string)
    ensures IsPrefix(r, s)
    ensures forall i :: |r| <= i < |s| ==> s[i] == '/'
    ensures r == [] || r[|r| - 1] != '/'
  {
    if s != [] && s[|s| - 1] == '/' then Url(s[..|s| - 1]) else s
  }

  lemma UrlIdempotent(s: string)
    ensures Url(Url(s)) == Url(s)
  {
  }

  datatype KeyError = KeyError(key: string)

  /** The triggering event: GitHub's event name inside GitHub Actions (a
      missing name raises), "push" elsewhere. */
  function GetEventType(env: map<string, string>): (r: Result<string, KeyError>)
    ensures "GITHUB_ACTIONS" !in env ==> r == Ok("push")
    ensures "GITHUB_ACTIONS" in env && "GITHUB_EVENT_NAME" in env ==> r == Ok(env["GITHUB_EVENT_NAME"])
    ensures r.Err? <==> ("GITHUB_ACTIONS" in env && "GITHUB_EVENT_NAME" !in env)
  {
    if "GITHUB_ACTIONS" in env then
      if "GITHUB_EVENT_NAME" in env then Ok(env["GITHUB_EVENT_NAME"]) else Err(KeyError("GITHUB_EVENT_NAME"))
    else Ok("push")
  }

  /** Only the two variables it looks up matter: environments that agree on
      them yield the same event type. */
  lemma EventTypeReadsOnlyTwoVariables(env: map<string, string>, other: map<string, string>)
    requires ("GITHUB_ACTIONS" in env) == ("GITHUB_ACTIONS" in other)
    requires ("GITHUB_EVENT_NAME" in env) == ("GITHUB_EVENT_NAME" in other)
    requires "GITHUB_EVENT_NAME" in env ==> env["GITHUB_EVENT_NAME"] == other["GITHUB_EVENT_NAME"]
    ensures GetEventType(env) == GetEventType(other)
  {
  }

  /** `s.ljust(width)`: padded with spaces on the right to `width`, never cut. */
  function LJust(s: string, width: nat): (r: string)
    ensures |r| == if |s| >= width then |s| else width
    ensures r[..|s|] == s
    ensures forall i :: |s| <= i < |r| ==> r[i] == ' '
  {
    if |s| >= width then s else s + seq(width - |s|, _ => ' ')
  }

  const TITLE_WIDTH: nat := 17

  /** `f"| {title.ljust(17)} - {subtext}"`. */
  function GetAlignedCommand(title: string, subtext: string): (line: string)
    ensures var w := if |title| >= TITLE_WIDTH then |title| else TITLE_WIDTH;
            && |line| == 2 + w + 3 + |subtext|
            && line[..2] == "| "
            && line[2..2 + |title|] == title
            && (forall i :: 2 + |title| <= i < 2 + w ==> line[i] == ' ')
            && line[2 + w..2 + w + 3] == " - "
            && line[2 + w + 3..] == subtext
  {
    "| " + LJust(title, TITLE_WIDTH) + " - " + subtext
  }

  /** Titles that fit the width put the separator, and so the start of the
      subtext, in the same column of every line. */
  lemma AlignedCommandsLineUp(title: string, subtext: string, otherTitle: string, otherSubtext: string)
    requires |title| <= TITLE_WIDTH && |otherTitle| <= TITLE_WIDTH
    ensures var line := GetAlignedCommand(title, subtext);
            var other := GetAlignedCommand(otherTitle, otherSubtext);
            && line[19..22] == other[19..22] == " - "
            && line[22..] == subtext && other[22..] == otherSubtext
  {
  }
}
