/** The dependency-lockfile scan (src/semgrep_agent/semgrepdep.py): putting
    the checkout on the real pull-request head for the duration of a scan and
    restoring it afterwards, picking lockfiles out of the target paths, and
    splitting them into changed and introduced files whose comparison
    comments are gathered into one text.

    Git is modelled by what these steps observe of it: the named refs, the
    known commits and the current checkout position. */
module SemgrepDep {
  import opened Base

  // ---------------------------------------------------------------------------
  // Git state

  /** Where the working copy is checked out: on a branch, or detached at a commit. */
  datatype Head = OnBranch(name: string) | Detached(commit: string)

  /** A failing git command: a revision that does not resolve or cannot be
      checked out, or a log range whose commit the clone does not hold. */
  datatype GitError = UnknownRevision(rev: string) | MissingCommit(commit: string)

  const HEAD: string := "HEAD"

  predicate IsHexDigit(c: char) {
    '0' <= c <= '9' || 'a' <= c <= 'f' || 'A' <= c <= 'F'
  }

  /** A full-length object name: 40 hexadecimal digits, in either case. */
  predicate IsFullHash(rev: string) {
    |rev| == 40 && forall i :: 0 <= i < |rev| ==> IsHexDigit(rev[i])
  }

  /** Git prints an object name in lower case; doing so twice changes nothing. */
  lemma LowerHash(rev: string)
    requires IsFullHash(rev)
    ensures IsFullHash(Lower(rev)) && Lower(Lower(rev)) == Lower(rev)
  {
    assert forall i :: 0 <= i < |rev| ==> Lower(Lower(rev))[i] == Lower(rev)[i];
  }

  /** The parts of a repository the head fix-up reads and changes. `branches`
      maps branch names to their tip commits, `refs` maps other names (tags,
      remote-tracking refs) to commits, `commits` holds the full hashes (in
      lower case) of the commits the clone has. No name looks like a full
      hash, which git would read as a hash. */
  datatype GitState = GitState(
    branches: map<string, string>,
    refs: map<string, string>,
    commits: set<string>,
    head: Head)
  {
    predicate Valid() {
      && branches.Values <= commits
      && refs.Values <= commits
      && (forall c :: c in commits ==> IsFullHash(c) && Lower(c) == c)
      && (forall n :: n in branches ==> !IsFullHash(n))
      && (forall n :: n in refs ==> !IsFullHash(n))
      && branches.Keys !! refs.Keys
      && HEAD !in branches && HEAD !in refs && HEAD !in commits
      && "" !in branches
      && (head.OnBranch? ==> head.name in branches)
      && (head.Detached? ==> head.commit in commits)
    }

    function HeadCommit(): (c: string)
      requires Valid()
      ensures c in commits
    {
      match head
      case OnBranch(name) => branches[name]
      case Detached(commit) => commit
    }

    /** `git rev-parse <rev>`: the commit a name stands for, if any. A full
        hash is printed back in lower case without checking that the clone
        holds that commit. */
    function RevParse(rev: string): (r: Option<string>)
      requires Valid()
      ensures r.Some? ==> IsFullHash(r.value) && Lower(r.value) == r.value
      ensures r.Some? && r.value !in commits ==> IsFullHash(rev)
      ensures rev == HEAD ==> r == Some(HeadCommit())
      ensures IsFullHash(rev) ==> r == Some(Lower(rev))
      ensures rev in branches ==> r == Some(branches[rev])
      ensures rev in refs ==> r == Some(refs[rev])
      ensures rev in commits ==> r == Some(rev)
      ensures r.None? <==> (rev != HEAD && !IsFullHash(rev) && rev !in branches && rev !in refs)
    {
      if rev == HEAD then Some(HeadCommit())
      else if IsFullHash(rev) then LowerHash(rev); Some(Lower(rev))
      else if rev in branches then Some(branches[rev])
      else if rev in refs then Some(refs[rev])
      else None
    }

    /** `git branch --show-current`: the branch name, empty when detached. */
    function ShowCurrent(): (name: string)
      ensures head.OnBranch? ==> name == head.name
      ensures head.Detached? ==> name == ""
    {
      if head.OnBranch? then head.name else ""
    }

    /** Where `git checkout <rev>` leaves the working copy. It fails when
        `rev` does not resolve, or resolves to a commit the clone lacks. */
    function CheckoutTarget(rev: string): (h: Option<Head>)
      requires Valid()
      ensures h.None? <==> (RevParse(rev).None? || RevParse(rev).value !in commits)
      ensures rev == HEAD ==> h == Some(head)
      ensures rev in branches ==> h == Some(OnBranch(rev))
      ensures rev != HEAD && rev !in branches && RevParse(rev).Some? && RevParse(rev).value in commits ==>
                h == Some(Detached(RevParse(rev).value))
      ensures h.Some? ==> GitState(branches, refs, commits, h.value).Valid()
    {
      if rev == HEAD then Some(head)
      else if rev in branches then Some(OnBranch(rev))
      else
        match RevParse(rev)
        case Some(c) => if c in commits then Some(Detached(c)) else None
        case None => None
    }

    /** The revision stashed before moving to the head ref: the branch name,
        or the HEAD hash when detached. */
    function StashName(): (s: string)
      requires Valid()
      ensures head.OnBranch? ==> s == head.name
      ensures head.Detached? ==> s == HeadCommit()
    {
      var current := ShowCurrent();
      if current != "" then current else RevParse(HEAD).value
    }
  }

  /** Checking the stashed revision out again returns to exactly the stashed
      position, whether it was a branch or a detached commit. */
  lemma StashRestoresHead(s: GitState)
    requires s.Valid()
    ensures s.CheckoutTarget(s.StashName()) == Some(s.head)
  {
    match s.head
    case OnBranch(name) =>
    case Detached(commit) =>
      assert commit !in s.branches;
  }

  /** The stashed revision still names the stashed position in `now`: the
      branch still exists, or the detached commit is still known. */
  predicate StillNamed(entry: GitState, now: GitState) {
    match entry.head
    case OnBranch(name) => name in now.branches
    case Detached(commit) => commit in now.commits
  }

  /** Whatever else changed in between, checking the stashed revision out in
      a later state returns to the stashed position as long as that position
      is still named there. */
  lemma StashRestoresHeadLater(entry: GitState, now: GitState)
    requires entry.Valid() && now.Valid() && StillNamed(entry, now)
    ensures now.CheckoutTarget(entry.StashName()) == Some(entry.head)
  {
    match entry.head
    case OnBranch(name) =>
    case Detached(commit) =>
      assert commit !in now.branches && commit !in now.refs;
  }

  /** The shared repository: its state and the checkouts performed on it. */
  class Repo {
    var state: GitState
    ghost var checkouts: seq<string>

    ghost predicate Valid()
      reads this
    {
      state.Valid()
    }

    constructor (state: GitState)
      requires state.Valid()
      ensures Valid() && this.state == state && checkouts == []
    {
      this.state := state;
      checkouts := [];
    }

    /** `git checkout <rev>`: moves the head; unknown revisions raise. */
    method Checkout(rev: string) returns (r: Result<(), GitError>)
      requires Valid()
      modifies this
      ensures Valid()
      ensures r.Err? <==> old(state).CheckoutTarget(rev).None?
      ensures r.Err? ==> r.error == UnknownRevision(rev) && state == old(state) && checkouts == old(checkouts)
      ensures r.Ok? ==>
                state == old(state).(head := old(state).CheckoutTarget(rev).value) && checkouts == old(checkouts) + [rev]
    {
      match state.CheckoutTarget(rev)
      case None =>
        r := Err(UnknownRevision(rev));
      case Some(h) =>
        state := state.(head := h);
        checkouts := checkouts + [rev];
        r := Ok(());
    }
  }

  /** `fix_head_for_github(base_commit_ref, head_ref)` as a context manager:
      `Enter` runs the generator up to its `yield`, `Exit` runs what follows it
      (the `finally` block). A null `repo` means there is no git repository. */
  class FixHeadForGithub {
    const repo: Repo?
    const baseCommitRef: Option<string>
    const headRef: Option<string>
    var baseRef: Option<string>
    var stashedRev: Option<string>
    /** The repository as it was when the context was entered. */
    ghost var entryState: GitState

    ghost predicate Valid()
      reads this
    {
      stashedRev.Some? ==>
        repo != null && entryState.Valid() && stashedRev.value == entryState.StashName()
    }

    constructor (repo: Repo?, baseCommitRef: Option<string>, headRef: Option<string>)
      ensures this.repo == repo && this.baseCommitRef == baseCommitRef && this.headRef == headRef
      ensures baseRef == baseCommitRef && stashedRev == None
      ensures Valid()
    {
      this.repo := repo;
      this.baseCommitRef := baseCommitRef;
      this.headRef := headRef;
      baseRef := baseCommitRef;
      stashedRev := None;
    }

    /** The baseline revision the body is given, as the source computes it
        from the repository before anything is checked out. */
    static function Resolved(s: GitState, baseCommitRef: Option<string>): (r: Option<string>)
      requires s.Valid()
      requires Truthy(baseCommitRef) ==> s.RevParse(baseCommitRef.value).Some?
      ensures Truthy(baseCommitRef) ==> r.Some? && IsFullHash(r.value)
      ensures Truthy(baseCommitRef) && !IsFullHash(baseCommitRef.value) ==> r.value in s.commits
      ensures Truthy(baseCommitRef) && IsFullHash(baseCommitRef.value) ==> r == Some(Lower(baseCommitRef.value))
      ensures Truthy(baseCommitRef) && baseCommitRef.value in s.commits ==> r == baseCommitRef
      ensures !Truthy(baseCommitRef) ==> r == baseCommitRef
    {
      if Truthy(baseCommitRef) then Some(s.RevParse(baseCommitRef.value).value) else baseCommitRef
    }

    /** Everything before the `yield`. When the `try` block fails, its
        `finally` runs here, before the error leaves the generator: the body
        of the `with` never starts and nothing is left to restore. */
    method Enter() returns (r: Result<Option<string>, GitError>)
      requires repo != null ==> repo.Valid()
      requires baseRef == baseCommitRef && stashedRev == None
      modifies this, repo
      ensures Valid()
      ensures repo == null ==> r == Ok(baseCommitRef) && stashedRev == None
      ensures repo != null ==> repo.Valid() && entryState == old(repo.state)
      // an unknown baseline revision fails before anything is checked out
      ensures repo != null && Truthy(baseCommitRef) && entryState.RevParse(baseCommitRef.value).None? ==>
                r == Err(UnknownRevision(baseCommitRef.value))
                && repo.state == entryState && repo.checkouts == old(repo.checkouts)
      // otherwise the baseline is resolved against the ORIGINAL head; `git log`
      // then needs the commit it resolved to, which the clone may lack
      ensures repo != null && (Truthy(baseCommitRef) ==> entryState.RevParse(baseCommitRef.value).Some?) ==>
                var resolved := Resolved(entryState, baseCommitRef);
                var logFails := Truthy(resolved) && resolved.value !in entryState.commits;
                && (!Truthy(headRef) ==>
                      && stashedRev == None && repo.state == entryState && repo.checkouts == old(repo.checkouts)
                      && (logFails ==> r == Err(MissingCommit(resolved.value)))
                      && (!logFails ==> r == Ok(resolved)))
                && (Truthy(headRef) && entryState.CheckoutTarget(headRef.value).None? ==>
                      r == Err(UnknownRevision(headRef.value))
                      && repo.state == entryState && repo.checkouts == old(repo.checkouts))
                && (Truthy(headRef) && entryState.CheckoutTarget(headRef.value).Some? && !logFails ==>
                      r == Ok(resolved) && stashedRev == Some(entryState.StashName())
                      && repo.state == entryState.(head := entryState.CheckoutTarget(headRef.value).value)
                      && repo.checkouts == old(repo.checkouts) + [headRef.value])
                // the head ref was checked out, and the `finally` checks the stash out again
                && (Truthy(headRef) && entryState.CheckoutTarget(headRef.value).Some? && logFails ==>
                      r == Err(MissingCommit(resolved.value)) && stashedRev == None
                      && repo.state == entryState
                      && repo.checkouts == old(repo.checkouts) + [headRef.value, entryState.StashName()])
    {
      if repo == null {
        return Ok(baseRef);
      }
      entryState := repo.state;
      if Truthy(baseRef) {
        match repo.state.RevParse(baseRef.value)
        case None =>
          return Err(UnknownRevision(baseRef.value));
        case Some(hash) =>
          baseRef := Some(hash);
      }
      if Truthy(headRef) {
        var current := repo.state.ShowCurrent();
        stashedRev := Some(current);
        if current == "" {
          stashedRev := Some(repo.state.RevParse(HEAD).value);
        }
        var moved := repo.Checkout(headRef.value);
        if moved.Err? {
          return Err(moved.error);
        }
      }
      // the `try` block: `git log <base>..HEAD` fails on a commit the clone lacks
      if Truthy(baseRef) && baseRef.value !in repo.state.commits {
        ghost var moved := repo.state;
        var restored := Exit();
        assert stashedRev.Some? ==> StillNamed(entryState, moved);
        stashedRev := None;
        return Err(MissingCommit(baseRef.value));
      }
      r := Ok(baseRef);
    }

    /** The `finally` block: checking out the stashed revision, whatever the
        body did to the repository. The checkout fails if the body removed
        what the revision names. */
    method Exit() returns (r: Result<(), GitError>)
      requires Valid()
      requires repo != null ==> repo.Valid()
      modifies repo
      ensures repo != null ==> repo.Valid()
      ensures stashedRev.None? ==>
                r == Ok(()) && (repo != null ==> repo.state == old(repo.state) && repo.checkouts == old(repo.checkouts))
      ensures repo != null && stashedRev.Some? ==>
                && (r.Err? <==> old(repo.state).CheckoutTarget(stashedRev.value).None?)
                && (r.Err? ==> r.error == UnknownRevision(stashedRev.value) && repo.state == old(repo.state))
                && (r.Ok? ==> repo.state == old(repo.state).(head := old(repo.state).CheckoutTarget(stashedRev.value).value)
                              && repo.checkouts == old(repo.checkouts) + [stashedRev.value])
      // the position on entry comes back, and nothing but the head moves
      ensures repo != null && stashedRev.Some? && StillNamed(entryState, old(repo.state)) ==>
                r.Ok? && repo.state == old(repo.state).(head := entryState.head)
    {
      r := Ok(());
      if stashedRev.Some? {
        ghost var before := repo.state;
        if StillNamed(entryState, repo.state) {
          StashRestoresHeadLater(entryState, repo.state);
          assert before.CheckoutTarget(stashedRev.value) == Some(entryState.head);
        }
        r := repo.Checkout(stashedRev.value);
        assert StillNamed(entryState, before) ==> r.Ok?;
      }
    }
  }

  // ---------------------------------------------------------------------------
  // Lockfile selection

  /** A filesystem path as its components; its name is the last one. */
  datatype Path = Path(parts: seq<string>)

  function Name(p: Path): string {
    if p.parts == [] then "" else p.parts[|p.parts| - 1]
  }

  const TARGET_FILENAMES: seq<string> := ["pipfile.lock", "yarn.lock", "package-lock.json"]

  predicate NameMatches(p: Path, target: string) {
    Lower(Name(p)) == Lower(target)
  }

  predicate IsLockfile(p: Path) {
    exists t :: t in TARGET_FILENAMES && NameMatches(p, t)
  }

  /** The paths whose name matches `target`, in input order. */
  function MatchesFor(paths: seq<Path>, target: string): seq<Path> {
    if paths == [] then []
    else
      MatchesFor(paths[..|paths| - 1], target)
      + (if NameMatches(paths[|paths| - 1], target) then [paths[|paths| - 1]] else [])
  }

  /** A path occurs in the matches for `target` as often as in the input if
      its name matches, and not at all otherwise. */
  lemma {:induction false} MatchesForCount(paths: seq<Path>, target: string, p: Path)
    ensures multiset(MatchesFor(paths, target))[p] == if NameMatches(p, target) then multiset(paths)[p] else 0
  {
    if paths != [] {
      var init, last := paths[..|paths| - 1], paths[|paths| - 1];
      assert paths == init + [last];
      MatchesForCount(init, target, p);
    }
  }

  /** The matches for each target in turn, one group after the other. */
  function Grouped(paths: seq<Path>, targets: seq<string>): seq<Path> {
    if targets == [] then []
    else Grouped(paths, targets[..|targets| - 1]) + MatchesFor(paths, targets[|targets| - 1])
  }

  function MatchingLockfiles(paths: seq<Path>): seq<Path> {
    Grouped(paths, TARGET_FILENAMES)
  }

  /** `n` for each of `targets` that a path's name matches. */
  function MatchCount(p: Path, targets: seq<string>, n: nat): nat {
    if targets == [] then 0
    else MatchCount(p, targets[..|targets| - 1], n) + (if NameMatches(p, targets[|targets| - 1]) then n else 0)
  }

  lemma {:induction false} GroupedCount(paths: seq<Path>, targets: seq<string>, p: Path)
    ensures multiset(Grouped(paths, targets))[p] == MatchCount(p, targets, multiset(paths)[p])
  {
    if targets != [] {
      var init, last := targets[..|targets| - 1], targets[|targets| - 1];
      GroupedCount(paths, init, p);
      MatchesForCount(paths, last, p);
    }
  }

  lemma TargetsAreLowerCase()
    ensures forall t :: t in TARGET_FILENAMES ==> Lower(t) == t
  {
    assert Lower("pipfile.lock") == "pipfile.lock";
    assert Lower("yarn.lock") == "yarn.lock";
    assert Lower("package-lock.json") == "package-lock.json";
  }

  lemma TargetMatchCount(p: Path, n: nat)
    ensures MatchCount(p, TARGET_FILENAMES, n) == if IsLockfile(p) then n else 0
  {
    var ts := TARGET_FILENAMES;
    TargetsAreLowerCase();
    assert ts[..0] == [] && ts[..1] == [ts[0]] && ts[..2] == [ts[0], ts[1]] && ts[..3] == ts;
    var m0, m1, m2 := NameMatches(p, ts[0]), NameMatches(p, ts[1]), NameMatches(p, ts[2]);
    assert MatchCount(p, ts[..1], n) == if m0 then n else 0;
    assert MatchCount(p, ts[..2], n) == (if m0 then n else 0) + (if m1 then n else 0) by {
      assert ts[..2][..1] == ts[..1];
    }
    assert MatchCount(p, ts, n) == (if m0 then n else 0) + (if m1 then n else 0) + (if m2 then n else 0) by {
      assert ts[..2] == ts[..3][..2];
    }
    assert !(m0 && m1) by { assert ts[0][0] != ts[1][0]; }
    assert !(m1 && m2) by { assert ts[1][0] != ts[2][0]; }
    assert !(m0 && m2) by { assert |ts[0]| != |ts[2]|; }
    assert IsLockfile(p) <==> m0 || m1 || m2;
  }

  /** Every lockfile occurrence of the input appears exactly once in the
      output, and nothing else does. */
  lemma MatchingLockfilesOccurrences(paths: seq<Path>, p: Path)
    ensures multiset(MatchingLockfiles(paths))[p] == if IsLockfile(p) then multiset(paths)[p] else 0
  {
    GroupedCount(paths, TARGET_FILENAMES, p);
    TargetMatchCount(p, multiset(paths)[p]);
  }

  /** Every path produced has, ignoring case, one of the three lockfile names. */
  lemma MatchingLockfilesNames(paths: seq<Path>, p: Path)
    requires p in MatchingLockfiles(paths)
    ensures p in paths
    ensures Lower(Name(p)) in TARGET_FILENAMES
  {
    MatchingLockfilesOccurrences(paths, p);
    assert multiset(MatchingLockfiles(paths))[p] > 0;
    assert IsLockfile(p);
    var t :| t in TARGET_FILENAMES && NameMatches(p, t);
    TargetsAreLowerCase();
  }

  /** `get_files_matching_name_insensitive_case`, consumed into a list. */
  method GetFilesMatchingNameInsensitiveCase(paths: seq<Path>) returns (found: seq<Path>)
    ensures found == MatchingLockfiles(paths)
  {
    found := [];
    for ti := 0 to |TARGET_FILENAMES|
      invariant found == Grouped(paths, TARGET_FILENAMES[..ti])
    {
      var target := TARGET_FILENAMES[ti];
      ghost var before := found;
      for pi := 0 to |paths|
        invariant found == before + MatchesFor(paths[..pi], target)
      {
        assert paths[..pi + 1][..pi] == paths[..pi];
        if Lower(Name(paths[pi])) == Lower(target) {
          found := found + [paths[pi]];
        }
      }
      assert paths[..|paths|] == paths;
      assert TARGET_FILENAMES[..ti + 1][..ti] == TARGET_FILENAMES[..ti];
    }
    assert TARGET_FILENAMES[..|TARGET_FILENAMES|] == TARGET_FILENAMES;
  }

  // ---------------------------------------------------------------------------
  // Changed and introduced lockfiles

  /** The paths of a dict's items, as a set. */
  function KeysOf<V>(items: seq<(Path, V)>): set<Path> {
    set i | 0 <= i < |items| :: items[i].0
  }

  /** The positions, in increasing order, of the items whose path is in
      `oldTexts` (when `present`) or absent from it (when not): the items a
      filtering dict comprehension keeps, in iteration order. */
  function Positions<V>(items: seq<(Path, V)>, oldTexts: map<Path, string>, present: bool, lo: nat): seq<nat>
    decreases |items| - lo
  {
    if lo >= |items| then []
    else
      (if (items[lo].0 in oldTexts) == present then [lo] else [])
      + Positions(items, oldTexts, present, lo + 1)
  }

  /** The positions are exactly the selected ones from `lo` on, each once,
      ascending. */
  lemma {:induction false} PositionsSelect<V>(items: seq<(Path, V)>, oldTexts: map<Path, string>, present: bool, lo: nat)
    ensures var ps := Positions(items, oldTexts, present, lo);
            && (forall k :: 0 <= k < |ps| ==> lo <= ps[k] < |items| && (items[ps[k]].0 in oldTexts) == present)
            && (forall k, l :: 0 <= k < l < |ps| ==> ps[k] < ps[l])
            && (forall i :: lo <= i < |items| && (items[i].0 in oldTexts) == present ==> i in ps)
    decreases |items| - lo
  {
    if lo < |items| {
      PositionsSelect(items, oldTexts, present, lo + 1);
    }
  }

  /** Items are never merged: when the paths of `items` are distinct, so are
      the paths a selection of them carries. */
  predicate DistinctPaths<V>(items: seq<(Path, V)>) {
    forall k, l :: 0 <= k < l < |items| ==> items[k].0 != items[l].0
  }

  /** `{t: (old[t], text) for t, text in new.items() if t in old}`. */
  function ChangedTargets(newTexts: seq<(Path, string)>, oldTexts: map<Path, string>)
    : (r: seq<(Path, (string, string))>)
    ensures KeysOf(r) == set i | 0 <= i < |newTexts| && newTexts[i].0 in oldTexts :: newTexts[i].0
    ensures forall i :: 0 <= i < |r| ==> r[i].0 in oldTexts && r[i].1.0 == oldTexts[r[i].0]
  {
    if newTexts == [] then []
    else
      var rest := ChangedTargets(newTexts[1..], oldTexts);
      var (t, text) := newTexts[0];
      var r := if t in oldTexts then [(t, (oldTexts[t], text))] + rest else rest;
      assert forall i :: 0 <= i < |newTexts[1..]| ==> newTexts[1..][i] == newTexts[i + 1];
      assert KeysOf(r) == set i | 0 <= i < |newTexts| && newTexts[i].0 in oldTexts :: newTexts[i].0 by {
        var want := set i | 0 <= i < |newTexts| && newTexts[i].0 in oldTexts :: newTexts[i].0;
        forall p | p in want ensures p in KeysOf(r) {
          var i :| 0 <= i < |newTexts| && newTexts[i].0 in oldTexts && p == newTexts[i].0;
          if i > 0 {
            assert p in KeysOf(rest);
            var k :| 0 <= k < |rest| && rest[k].0 == p;
            if t in oldTexts { assert r[k + 1] == rest[k]; }
          } else {
            assert r[0].0 == p;
          }
        }
        forall p | p in KeysOf(r) ensures p in want {
          var k :| 0 <= k < |r| && r[k].0 == p;
          if t in oldTexts && k == 0 {
            assert newTexts[0].0 == p;
          } else {
            var k' := if t in oldTexts then k - 1 else k;
            assert rest[k'] == r[k];
            assert p in KeysOf(rest);
            var i :| 0 <= i < |newTexts[1..]| && newTexts[1..][i].0 in oldTexts && p == newTexts[1..][i].0;
            assert newTexts[i + 1].0 == p;
          }
        }
      }
      r
  }

  /** `{t: text for t, text in new.items() if t not in old}`. */
  function IntroducedTargets(newTexts: seq<(Path, string)>, oldTexts: map<Path, string>)
    : (r: seq<(Path, string)>)
    ensures KeysOf(r) == set i | 0 <= i < |newTexts| && newTexts[i].0 !in oldTexts :: newTexts[i].0
    ensures forall i :: 0 <= i < |r| ==> r[i].0 !in oldTexts
  {
    if newTexts == [] then []
    else
      var rest := IntroducedTargets(newTexts[1..], oldTexts);
      var (t, text) := newTexts[0];
      var r := if t !in oldTexts then [(t, text)] + rest else rest;
      assert KeysOf(r) == set i | 0 <= i < |newTexts| && newTexts[i].0 !in oldTexts :: newTexts[i].0 by {
        var want := set i | 0 <= i < |newTexts| && newTexts[i].0 !in oldTexts :: newTexts[i].0;
        forall p | p in want ensures p in KeysOf(r) {
          var i :| 0 <= i < |newTexts| && newTexts[i].0 !in oldTexts && p == newTexts[i].0;
          if i > 0 {
            assert newTexts[1..][i - 1] == newTexts[i];
            assert p in KeysOf(rest);
            var k :| 0 <= k < |rest| && rest[k].0 == p;
            if t !in oldTexts { assert r[k + 1] == rest[k]; }
          } else {
            assert r[0].0 == p;
          }
        }
        forall p | p in KeysOf(r) ensures p in want {
          var k :| 0 <= k < |r| && r[k].0 == p;
          if t !in oldTexts && k == 0 {
            assert newTexts[0].0 == p;
          } else {
            var k' := if t !in oldTexts then k - 1 else k;
            assert rest[k'] == r[k];
            assert p in KeysOf(rest);
            var i :| 0 <= i < |newTexts[1..]| && newTexts[1..][i].0 !in oldTexts && p == newTexts[1..][i].0;
            assert newTexts[i + 1].0 == p;
          }
        }
      }
      r
  }

  lemma ChangedTargetsStep(newTexts: seq<(Path, string)>, oldTexts: map<Path, string>)
    requires newTexts != []
    ensures ChangedTargets(newTexts, oldTexts)
              == (if newTexts[0].0 in oldTexts then [(newTexts[0].0, (oldTexts[newTexts[0].0], newTexts[0].1))] else [])
                 + ChangedTargets(newTexts[1..], oldTexts)
  {
  }

  /** Entry `k` of `r` carries the path and the current text of item `ps[k]`. */
  predicate ChangedFrom(newTexts: seq<(Path, string)>, r: seq<(Path, (string, string))>, ps: seq<nat>) {
    && |r| == |ps|
    && forall k :: 0 <= k < |r| ==> ps[k] < |newTexts| && r[k].0 == newTexts[ps[k]].0 && r[k].1.1 == newTexts[ps[k]].1
  }

  /** Entry `k` of `r` is item `ps[k]`. */
  predicate IntroducedFrom(newTexts: seq<(Path, string)>, r: seq<(Path, string)>, ps: seq<nat>) {
    && |r| == |ps|
    && forall k :: 0 <= k < |r| ==> ps[k] < |newTexts| && r[k] == newTexts[ps[k]]
  }

  lemma ChangedFromPrepend(newTexts: seq<(Path, string)>, x: (Path, (string, string)), r: seq<(Path, (string, string))>,
                           p: nat, ps: seq<nat>)
    requires ChangedFrom(newTexts, r, ps)
    requires p < |newTexts| && x.0 == newTexts[p].0 && x.1.1 == newTexts[p].1
    ensures ChangedFrom(newTexts, [x] + r, [p] + ps)
  {
    forall k | 0 <= k < |[x] + r|
      ensures ([p] + ps)[k] < |newTexts| && ([x] + r)[k].0 == newTexts[([p] + ps)[k]].0
              && ([x] + r)[k].1.1 == newTexts[([p] + ps)[k]].1
    {
      if k > 0 { assert ([x] + r)[k] == r[k - 1] && ([p] + ps)[k] == ps[k - 1]; }
    }
  }

  lemma IntroducedFromPrepend(newTexts: seq<(Path, string)>, r: seq<(Path, string)>, p: nat, ps: seq<nat>)
    requires IntroducedFrom(newTexts, r, ps)
    requires p < |newTexts|
    ensures IntroducedFrom(newTexts, [newTexts[p]] + r, [p] + ps)
  {
    forall k | 0 <= k < |[newTexts[p]] + r|
      ensures ([p] + ps)[k] < |newTexts| && ([newTexts[p]] + r)[k] == newTexts[([p] + ps)[k]]
    {
      if k > 0 { assert ([newTexts[p]] + r)[k] == r[k - 1] && ([p] + ps)[k] == ps[k - 1]; }
    }
  }

  /** `changed_targets` follows the current lockfiles' order and keeps one
      entry per selected item, so distinct paths stay distinct. */
  lemma {:induction false} ChangedTargetsInOrder(newTexts: seq<(Path, string)>, oldTexts: map<Path, string>, lo: nat)
    requires lo <= |newTexts|
    ensures ChangedFrom(newTexts, ChangedTargets(newTexts[lo..], oldTexts), Positions(newTexts, oldTexts, true, lo))
    decreases |newTexts| - lo
  {
    if lo < |newTexts| {
      ChangedTargetsInOrder(newTexts, oldTexts, lo + 1);
      ChangedTargetsStep(newTexts[lo..], oldTexts);
      assert newTexts[lo..][1..] == newTexts[lo + 1..];
      var t := newTexts[lo].0;
      if t in oldTexts {
        ChangedFromPrepend(newTexts, (t, (oldTexts[t], newTexts[lo].1)), ChangedTargets(newTexts[lo + 1..], oldTexts),
                           lo, Positions(newTexts, oldTexts, true, lo + 1));
      }
    }
  }

  lemma IntroducedTargetsStep(newTexts: seq<(Path, string)>, oldTexts: map<Path, string>)
    requires newTexts != []
    ensures IntroducedTargets(newTexts, oldTexts)
              == (if newTexts[0].0 !in oldTexts then [newTexts[0]] else []) + IntroducedTargets(newTexts[1..], oldTexts)
  {
  }

  /** `introduced_targets` likewise follows the current lockfiles' order. */
  lemma {:induction false} IntroducedTargetsInOrder(newTexts: seq<(Path, string)>, oldTexts: map<Path, string>, lo: nat)
    requires lo <= |newTexts|
    ensures IntroducedFrom(newTexts, IntroducedTargets(newTexts[lo..], oldTexts), Positions(newTexts, oldTexts, false, lo))
    decreases |newTexts| - lo
  {
    if lo < |newTexts| {
      IntroducedTargetsInOrder(newTexts, oldTexts, lo + 1);
      IntroducedTargetsStep(newTexts[lo..], oldTexts);
      assert newTexts[lo..][1..] == newTexts[lo + 1..];
      if newTexts[lo].0 !in oldTexts {
        IntroducedFromPrepend(newTexts, IntroducedTargets(newTexts[lo + 1..], oldTexts),
                              lo, Positions(newTexts, oldTexts, false, lo + 1));
      }
    }
  }

  /** A selection in ascending positions never repeats a path of a dict. */
  lemma SelectionsKeepPathsDistinct(newTexts: seq<(Path, string)>, oldTexts: map<Path, string>)
    requires DistinctPaths(newTexts)
    ensures DistinctPaths(ChangedTargets(newTexts, oldTexts))
    ensures DistinctPaths(IntroducedTargets(newTexts, oldTexts))
  {
    assert newTexts[0..] == newTexts;
    ChangedTargetsInOrder(newTexts, oldTexts, 0);
    IntroducedTargetsInOrder(newTexts, oldTexts, 0);
    PositionsSelect(newTexts, oldTexts, true, 0);
    PositionsSelect(newTexts, oldTexts, false, 0);
  }

  /** The two comprehensions split the current lockfiles: no path is both
      changed and introduced, together they are all current paths, and a
      lockfile found only in the baseline is in neither. */
  lemma TargetsPartition(newTexts: seq<(Path, string)>, oldTexts: map<Path, string>)
    ensures KeysOf(ChangedTargets(newTexts, oldTexts)) !! KeysOf(IntroducedTargets(newTexts, oldTexts))
    ensures KeysOf(ChangedTargets(newTexts, oldTexts)) + KeysOf(IntroducedTargets(newTexts, oldTexts))
              == KeysOf(newTexts)
    ensures forall p :: p in oldTexts && p !in KeysOf(newTexts) ==>
              p !in KeysOf(ChangedTargets(newTexts, oldTexts)) && p !in KeysOf(IntroducedTargets(newTexts, oldTexts))
  {
    var c := KeysOf(ChangedTargets(newTexts, oldTexts));
    var n := KeysOf(IntroducedTargets(newTexts, oldTexts));
    forall p | p in KeysOf(newTexts) ensures p in c + n {
      var i :| 0 <= i < |newTexts| && newTexts[i].0 == p;
      if p in oldTexts { assert p in c; } else { assert p in n; }
    }
  }

  // ---------------------------------------------------------------------------
  // Comparison comments

  /** `compare_lockfiles(path, old_text, new_text, ...)`: a remote call whose
      answer is an optional comment. */
  type Comparer = (Path, Option<string>, string) -> Option<string>

  /** The comment of each comparison that produced one, each followed by a newline. */
  function Appended(comments: seq<Option<string>>): (r: string)
  {
    if comments == [] then ""
    else Appended(comments[..|comments| - 1]) + CommentLine(comments[|comments| - 1])
  }

  /** Every gathered comment is closed by a newline, so the text ends with one
      unless it is empty. */
  lemma {:induction false} AppendedEndsWithNewline(comments: seq<Option<string>>)
    ensures var r := Appended(comments); r == "" || r[|r| - 1] == '\n'
  {
    if comments != [] {
      AppendedEndsWithNewline(comments[..|comments| - 1]);
    }
  }

  /** What one comparison contributes: its comment and a newline, if any. */
  function CommentLine(comment: Option<string>): string {
    match comment
    case Some(c) => c + "\n"
    case None => ""
  }

  /** Gathering two runs of comparisons one after the other. */
  lemma {:induction false} AppendedConcat(first: seq<Option<string>>, second: seq<Option<string>>)
    ensures Appended(first + second) == Appended(first) + Appended(second)
  {
    if second == [] {
      assert first + second == first;
    } else {
      var init := second[..|second| - 1];
      var last := CommentLine(second[|second| - 1]);
      AppendedConcat(first, init);
      assert (first + second)[..|first + second| - 1] == first + init;
      assert Appended(first + second) == (Appended(first) + Appended(init)) + last;
      ConcatAssociates(Appended(first), Appended(init), last);
    }
  }

  lemma ConcatAssociates(a: string, b: string, c: string)
    ensures (a + b) + c == a + (b + c)
  {
  }

  lemma AppendedExtend(comments: seq<Option<string>>, n: nat)
    requires n < |comments|
    ensures Appended(comments[..n + 1]) == Appended(comments[..n]) + CommentLine(comments[n])
  {
    assert comments[..n + 1][..n] == comments[..n];
  }

  function ChangedComments(changed: seq<(Path, (string, string))>, compare: Comparer): seq<Option<string>> {
    seq(|changed|, i requires 0 <= i < |changed| => compare(changed[i].0, Some(changed[i].1.0), changed[i].1.1))
  }

  function IntroducedComments(introduced: seq<(Path, string)>, compare: Comparer): seq<Option<string>> {
    seq(|introduced|, i requires 0 <= i < |introduced| => compare(introduced[i].0, None, introduced[i].1))
  }

  /** The gathered text is empty exactly when no comparison produced a comment. */
  lemma {:induction false} AppendedEmpty(comments: seq<Option<string>>)
    ensures Appended(comments) == "" <==> forall i :: 0 <= i < |comments| ==> comments[i].None?
  {
    if comments != [] {
      var init := comments[..|comments| - 1];
      AppendedEmpty(init);
      assert forall i :: 0 <= i < |init| ==> init[i] == comments[i];
    }
  }

  /** The `res` accumulation of `invoke_semgrep`: changed lockfiles first, then
      introduced ones, each in dict order. */
  method GatherComments(changed: seq<(Path, (string, string))>, introduced: seq<(Path, string)>, compare: Comparer)
    returns (res: string)
    ensures res == Appended(ChangedComments(changed, compare) + IntroducedComments(introduced, compare))
  {
    ghost var changedComments := ChangedComments(changed, compare);
    ghost var introducedComments := IntroducedComments(introduced, compare);
    res := "";
    for i := 0 to |changed|
      invariant res == Appended(changedComments[..i])
    {
      var compared := compare(changed[i].0, Some(changed[i].1.0), changed[i].1.1);
      AppendedExtend(changedComments, i);
      if compared.Some? {
        res := res + (compared.value + "\n");
      }
    }
    assert changedComments[..|changed|] == changedComments;
    ghost var before := res;
    for i := 0 to |introduced|
      invariant res == before + Appended(introducedComments[..i])
    {
      var compared := compare(introduced[i].0, None, introduced[i].1);
      assert introducedComments[i] == compared;
      AppendedExtend(introducedComments, i);
      if compared.Some? {
        ConcatAssociates(before, Appended(introducedComments[..i]), compared.value + "\n");
        res := res + (compared.value + "\n");
      }
    }
    assert introducedComments[..|introduced|] == introducedComments;
    AppendedConcat(changedComments, introducedComments);
  }

  /** The file named by GITHUB_ENV and the text it is left holding: nothing
      happens unless some comment was gathered and the variable is set. The
      file is opened for writing, not appending, so this text replaces
      everything the file held before, including variables earlier steps set. */
  function GithubEnvOutput(res: string, env: map<string, string>): (out: Option<(string, string)>)
    ensures out.Some? <==> (res != "" && "GITHUB_ENV" in env)
    ensures out.Some? ==>
              out.value.0 == env["GITHUB_ENV"] && out.value.1 == "MARKDOWN_COMMENT<<EOF\n" + res + "\nEOF\n"
  {
    if |res| > 0 && "GITHUB_ENV" in env then
      Some((env["GITHUB_ENV"], "MARKDOWN_COMMENT<<EOF\n" + res + "\nEOF\n"))
    else None
  }
}
