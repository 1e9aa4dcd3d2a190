/** Assembly of the path-ignore rules handed to the scanner
    (src/semgrep_agent/semgrep.py). The two files it may read are inputs:
    the repository's own `.semgrepignore` (absent or its text) and the
    bundled template's text. */
module Semgrep {
  import opened Base

  /** An in-memory text stream (`io.StringIO`): its text and the position
      the next write or read starts from. */
  class StringBuffer {
    var contents: string
    var pos: nat

    ghost predicate Valid()
      reads this
    {
      pos <= |contents|
    }

    constructor ()
      ensures Valid() && contents == "" && pos == 0
    {
      contents := "";
      pos := 0;
    }

    /** Overwrites from the position on, extending the text where needed,
        and leaves the position after what was written. */
    method Write(s: string)
      requires Valid()
      modifies this
      ensures Valid()
      ensures pos == old(pos) + |s|
      ensures contents[..old(pos)] == old(contents)[..old(pos)]
      ensures contents[old(pos)..pos] == s
      ensures pos < |old(contents)| ==> contents[pos..] == old(contents)[pos..]
      ensures pos >= |old(contents)| ==> |contents| == pos
      ensures old(pos) == |old(contents)| ==> contents == old(contents) + s
    {
      var tail := if pos + |s| < |contents| then contents[pos + |s|..] else "";
      contents := contents[..pos] + s + tail;
      pos := pos + |s|;
    }
  }

  const APP_HEADER: string := "\n# Ignores from semgrep app\n"

  /** Where `parts[i]` starts inside `Join(parts)`. */
  function Offset(parts: seq<string>, i: nat): nat
    requires i <= |parts|
  {
    if i == 0 then 0 else |parts[0]| + 1 + Offset(parts[1..], i - 1)
  }

  /** `"\n".join(parts)`: the text ends where the last part ends, so no
      separator trails it. */
  function Join(parts: seq<string>): (r: string)
    ensures parts == [] ==> r == ""
    ensures parts != [] ==> |r| == Offset(parts, |parts| - 1) + |parts[|parts| - 1]|
  {
    if parts == [] then ""
    else if |parts| == 1 then parts[0]
    else
      assert parts[1..][|parts| - 2] == parts[|parts| - 1];
      parts[0] + "\n" + Join(parts[1..])
  }

  /** Each part sits at its offset in the joined text, and the parts follow
      one another: each is followed by a newline, right after which the next
      one starts. */
  lemma {:induction false} JoinPlacesParts(parts: seq<string>, i: nat)
    requires i < |parts|
    ensures OccursAt(Join(parts), parts[i], Offset(parts, i))
    ensures i + 1 < |parts| ==>
              && Offset(parts, i + 1) == Offset(parts, i) + |parts[i]| + 1
              && Offset(parts, i) + |parts[i]| < |Join(parts)|
              && Join(parts)[Offset(parts, i) + |parts[i]|] == '\n'
  {
    var j := Join(parts);
    if i == 0 {
      if |parts| > 1 {
        assert j == parts[0] + ("\n" + Join(parts[1..]));
      }
      assert j[..|parts[0]|] == parts[0];
    } else {
      JoinPlacesParts(parts[1..], i - 1);
      var rest := Join(parts[1..]);
      var k := Offset(parts[1..], i - 1);
      assert j == (parts[0] + "\n") + rest;
      assert j[|parts[0]| + 1 + k .. |parts[0]| + 1 + k + |parts[i]|] == rest[k .. k + |parts[i]|];
    }
    if i + 1 < |parts| {
      JoinNewlineAfter(parts, i);
    }
  }

  /** The separator after each part but the last is a newline. */
  lemma {:induction false} JoinNewlineAfter(parts: seq<string>, i: nat)
    requires i + 1 < |parts|
    ensures Offset(parts, i) + |parts[i]| < |Join(parts)|
    ensures Join(parts)[Offset(parts, i) + |parts[i]|] == '\n'
  {
    var j := Join(parts);
    var rest := Join(parts[1..]);
    assert j == (parts[0] + "\n") + rest;
    if i > 0 {
      JoinNewlineAfter(parts[1..], i - 1);
      assert parts[1..][i - 1] == parts[i];
      var k := Offset(parts[1..], i - 1) + |parts[i]|;
      assert j[|parts[0]| + 1 + k] == rest[k];
    }
  }

  /** An occurrence inside the joined patterns is an occurrence in the
      appended section, shifted by what precedes it. */
  lemma OccursInAppRules(base: string, joined: string, needle: string, k: int)
    requires OccursAt(joined, needle, k)
    ensures OccursAt(base + (APP_HEADER + joined + "\n"), needle, |base| + |APP_HEADER| + k)
  {
    var t := base + (APP_HEADER + joined + "\n");
    assert t == (base + APP_HEADER) + joined + "\n";
    assert t[|base| + |APP_HEADER| + k .. |base| + |APP_HEADER| + k + |needle|] == joined[k .. k + |needle|];
  }

  /** A newline inside the joined patterns, or the one closing them, is a
      newline of the appended section, shifted by what precedes it. */
  lemma NewlineInAppRules(base: string, joined: string, k: int)
    requires 0 <= k <= |joined| && (k < |joined| ==> joined[k] == '\n')
    ensures var t := base + (APP_HEADER + joined + "\n");
            |base| + |APP_HEADER| + k < |t| && t[|base| + |APP_HEADER| + k] == '\n'
  {
    var t := base + (APP_HEADER + joined + "\n");
    assert t == (base + APP_HEADER) + (joined + "\n");
    assert t[|base| + |APP_HEADER| + k] == (joined + "\n")[k];
  }

  /** The text the buffer ends up holding: the chosen base rules, then, when
      patterns were supplied, a header line and one pattern per line. */
  function BaseRules(localIgnore: Option<string>, template: string): string {
    if localIgnore.Some? then localIgnore.value else template
  }

  function AppRules(ignorePatterns: seq<string>): string {
    if ignorePatterns == [] then "" else APP_HEADER + Join(ignorePatterns) + "\n"
  }

  function SemgrepignoreText(ignorePatterns: seq<string>, localIgnore: Option<string>, template: string)
    : (text: string)
    ensures IsPrefix(BaseRules(localIgnore, template), text)
    ensures ignorePatterns == [] ==> text == BaseRules(localIgnore, template)
  {
    BaseRules(localIgnore, template) + AppRules(ignorePatterns)
  }

  /** `get_semgrepignore(ignore_patterns)`. */
  method GetSemgrepignore(ignorePatterns: seq<string>, localIgnore: Option<string>, template: string)
    returns (buf: StringBuffer)
    ensures fresh(buf) && buf.Valid()
    ensures buf.contents == SemgrepignoreText(ignorePatterns, localIgnore, template)
    // returned without rewinding: the stream stands at the end of its text
    ensures buf.pos == |buf.contents|
  {
    buf := new StringBuffer();
    if localIgnore.Some? {
      buf.Write(localIgnore.value);
    } else {
      buf.Write(template);
    }
    ghost var base := buf.contents;
    assert base == BaseRules(localIgnore, template);
    if ignorePatterns != [] {
      buf.Write(APP_HEADER);
      buf.Write(Join(ignorePatterns));
      buf.Write("\n");
      assert buf.contents == base + (APP_HEADER + Join(ignorePatterns) + "\n");
    } else {
      assert buf.contents == base + [];
    }
  }

  /** Exactly one source is used: a local file replaces the template
      entirely, and what follows it depends on the patterns alone. */
  lemma OneSourceOnly(ignorePatterns: seq<string>, localText: string, template: string, otherTemplate: string)
    ensures SemgrepignoreText(ignorePatterns, Some(localText), template)
              == SemgrepignoreText(ignorePatterns, Some(localText), otherTemplate)
    ensures SemgrepignoreText(ignorePatterns, None, template)[..|template|] == template
    ensures SemgrepignoreText(ignorePatterns, Some(localText), template)[|localText|..]
              == SemgrepignoreText(ignorePatterns, None, template)[|template|..]
  {
  }

  /** With patterns, the text is the base rules, the header, the patterns one
      per line and a final newline; each pattern appears there, in the order
      given, and a newline ends its line. */
  lemma PatternsAppendedInOrder(ignorePatterns: seq<string>, localIgnore: Option<string>, template: string, i: nat)
    requires i < |ignorePatterns|
    ensures var text := SemgrepignoreText(ignorePatterns, localIgnore, template);
            var start := |BaseRules(localIgnore, template)| + |APP_HEADER|;
            var end := start + Offset(ignorePatterns, i) + |ignorePatterns[i]|;
            && text == BaseRules(localIgnore, template) + (APP_HEADER + Join(ignorePatterns) + "\n")
            && OccursAt(text, ignorePatterns[i], start + Offset(ignorePatterns, i))
            && end < |text| && text[end] == '\n'
            && (i + 1 < |ignorePatterns| ==> end + 1 == start + Offset(ignorePatterns, i + 1))
  {
    var b := BaseRules(localIgnore, template);
    var j := Join(ignorePatterns);
    var text := SemgrepignoreText(ignorePatterns, localIgnore, template);
    JoinPlacesParts(ignorePatterns, i);
    assert text == b + (APP_HEADER + j + "\n");
    OccursInAppRules(b, j, ignorePatterns[i], Offset(ignorePatterns, i));
    var k := Offset(ignorePatterns, i) + |ignorePatterns[i]|;
    if i + 1 == |ignorePatterns| {
      assert k == |j|;
    } else {
      assert k < |j| && j[k] == '\n';
    }
    NewlineInAppRules(b, j, k);
  }
}
