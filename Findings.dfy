/** Findings: the normalised form of one scanner match, its 128-bit syntactic
    identifier, and the reconciliation of a baseline scan against a current
    scan (src/semgrep_agent/findings.py).

    Two collaborators are parameters rather than definitions: the 128-bit
    murmur3 hash (`Hasher`, any function into [0, 2^128)) and
    `textwrap.dedent` (`Dedenter`, any string function). */
module Findings {
  import opened Base

  type byte = x: int | 0 <= x < 256

  newtype U128 = x: int | 0 <= x < 0x1_0000_0000_0000_0000_0000_0000_0000_0000

  /** A point in time, kept only through its ISO-8601 rendering. */
  datatype DateTime = DateTime(isoformat: string)

  /** Grouping key: rule, path and the RAW matched text (no occurrence index). */
  datatype FindingKey = FindingKey(checkId: string, path: string, syntacticContext: string)

  datatype Finding = Finding(
    checkId: string,
    path: string,
    line: int,
    column: int,
    message: string,
    severity: int,
    index: int,
    syntacticContext: string,
    endLine: Option<int>,
    endColumn: Option<int>,
    commitDate: Option<DateTime>,
    metadata: map<string, Json>)

  /** The tuple whose string form is hashed into the syntactic identifier. */
  datatype IdTuple = IdTuple(checkId: string, path: string, index: int, syntacticContext: string)

  type Hasher = IdTuple -> U128
  type Dedenter = string -> string

  function IdOf(f: Finding): IdTuple {
    IdTuple(f.checkId, f.path, f.index, f.syntacticContext)
  }

  /** The equality the attrs-generated `__eq__` implements: only the fields not
      declared `eq=False`. The occurrence index is NOT among them, so two
      findings are equal exactly when their identities agree but for the index. */
  predicate AttrEq(f: Finding, g: Finding)
    ensures AttrEq(f, g) <==> IdOf(f) == IdOf(g).(index := f.index)
  {
    f.checkId == g.checkId && f.path == g.path && f.syntacticContext == g.syntacticContext
  }

  // ---------------------------------------------------------------------------
  // Construction

  /** The attrs-generated initialiser: every field is stored as given, except
      the matched text, which goes through the `dedent` converter. */
  function NewFinding(checkId: string, path: string, line: int, column: int, message: string,
                      severity: int, index: int, syntacticContext: string,
                      endLine: Option<int>, endColumn: Option<int>, commitDate: Option<DateTime>,
                      metadata: map<string, Json>, dedent: Dedenter): (f: Finding)
    ensures f.syntacticContext == dedent(syntacticContext)
    ensures f.checkId == checkId && f.path == path && f.index == index
    ensures f.line == line && f.column == column && f.message == message && f.severity == severity
    ensures f.endLine == endLine && f.endColumn == endColumn
    ensures f.commitDate == commitDate && f.metadata == metadata
  {
    Finding(checkId, path, line, column, message, severity, index, dedent(syntacticContext),
            endLine, endColumn, commitDate, metadata)
  }

  /** `attr.evolve(f, index=i)`: a fresh instance built through the initialiser,
      so the converter runs again on the already dedented text. */
  function Evolve(f: Finding, i: int, dedent: Dedenter): (g: Finding)
    ensures IdOf(g) == IdTuple(f.checkId, f.path, i, dedent(f.syntacticContext))
    ensures g.(index := f.index, syntacticContext := f.syntacticContext) == f
  {
    NewFinding(f.checkId, f.path, f.line, f.column, f.message, f.severity, i, f.syntacticContext,
               f.endLine, f.endColumn, f.commitDate, f.metadata, dedent)
  }

  lemma EvolveKeepsIdempotentContext(f: Finding, i: int, dedent: Dedenter)
    requires dedent(f.syntacticContext) == f.syntacticContext
    ensures Evolve(f, i, dedent) == f.(index := i)
  {
  }

  // ---------------------------------------------------------------------------
  // Severity and blocking

  function SemgrepSeverityToInt(severity: string): (r: int)
    ensures r == 2 <==> severity == "ERROR"
    ensures r == 1 <==> severity == "WARNING"
    ensures r == 0 <==> severity != "ERROR" && severity != "WARNING"
  {
    if severity == "ERROR" then 2
    else if severity == "WARNING" then 1
    else 0
  }

  const ACTIONS_KEY: string := "dev.semgrep.actions"
  const BLOCK: string := "block"

  /** Python's `in` on a metadata value raises for values that are not containers. */
  datatype TypeError = NotIterable(value: Json)

  /** `"block" in v` for a JSON value v: substring test on a string, element
      test on a list, key test on an object, TypeError otherwise. */
  function MentionsBlock(v: Json): Result<bool, TypeError> {
    match v
    case JString(s) => Ok(ContainsSubstring(s, BLOCK))
    case JArray(items) => Ok(JString(BLOCK) in items)
    case JObject(fields) => Ok(BLOCK in fields)
    case _ => Err(NotIterable(v))
  }

  function IsBlocking(f: Finding): (r: Result<bool, TypeError>)
    ensures ACTIONS_KEY !in f.metadata ==> r == Ok(true)
    ensures ACTIONS_KEY in f.metadata && f.metadata[ACTIONS_KEY].JArray? ==>
              r == Ok(JString(BLOCK) in f.metadata[ACTIONS_KEY].items)
    ensures ACTIONS_KEY in f.metadata && f.metadata[ACTIONS_KEY].JString? ==>
              r == Ok(ContainsSubstring(f.metadata[ACTIONS_KEY].s, BLOCK))
    ensures ACTIONS_KEY in f.metadata && f.metadata[ACTIONS_KEY].JObject? ==>
              r == Ok(BLOCK in f.metadata[ACTIONS_KEY].fields)
    ensures r.Err? <==> (ACTIONS_KEY in f.metadata &&
                         (f.metadata[ACTIONS_KEY].JNull? || f.metadata[ACTIONS_KEY].JBool? ||
                          f.metadata[ACTIONS_KEY].JNumber?))
  {
    var actions := if ACTIONS_KEY in f.metadata then f.metadata[ACTIONS_KEY] else JArray([JString(BLOCK)]);
    MentionsBlock(actions)
  }

  // ---------------------------------------------------------------------------
  // Normalisation of a raw scanner match

  datatype Position = Position(line: int, col: int)
  datatype Extra = Extra(lines: string, message: string, severity: string, metadata: map<string, Json>)
  /** One record of the scanner's JSON output, with the fields the agent reads. */
  datatype RawResult = RawResult(checkId: string, path: string, start: Position, stop: Position, extra: Extra)

  function FromSemgrepResult(result: RawResult, committed: Option<DateTime>, dedent: Dedenter)
    : (kf: (FindingKey, Finding))
    ensures kf.1.index == 0
    ensures kf.0.checkId == kf.1.checkId == result.checkId
    ensures kf.0.path == kf.1.path == result.path
    ensures kf.0.syntacticContext == result.extra.lines
    ensures kf.1.syntacticContext == dedent(kf.0.syntacticContext)
    ensures kf.1.line == result.start.line && kf.1.column == result.start.col
    // end_line is taken from the end COLUMN, as in the source
    ensures kf.1.endLine == Some(result.stop.col) && kf.1.endColumn == Some(result.stop.col)
    ensures kf.1.message == result.extra.message && kf.1.metadata == result.extra.metadata
    ensures kf.1.severity == SemgrepSeverityToInt(result.extra.severity)
    ensures kf.1.commitDate == committed
  {
    var key := FindingKey(result.checkId, result.path, result.extra.lines);
    var finding := NewFinding(result.checkId, result.path, result.start.line, result.start.col,
                              result.extra.message, SemgrepSeverityToInt(result.extra.severity), 0,
                              result.extra.lines, Some(result.stop.col), Some(result.stop.col),
                              committed, result.extra.metadata, dedent);
    (key, finding)
  }

  /** The identity of a normalised match is its key with index 0 and the text dedented. */
  lemma FromSemgrepResultIdentity(result: RawResult, committed: Option<DateTime>, dedent: Dedenter)
    ensures var (key, f) := FromSemgrepResult(result, committed, dedent);
            IdOf(f) == IdTuple(key.checkId, key.path, 0, dedent(key.syntacticContext))
  {
  }

  /** The stored end line never reflects the end line of the match: two matches
      that differ only in where they end on a line get different `end_line`s,
      and two that end in the same column of different lines get the same. */
  lemma EndLineIsEndColumn(result: RawResult, committed: Option<DateTime>, dedent: Dedenter, otherLine: int)
    ensures var moved := result.(stop := Position(otherLine, result.stop.col));
            FromSemgrepResult(moved, committed, dedent).1.endLine
              == FromSemgrepResult(result, committed, dedent).1.endLine
  {
  }

  // ---------------------------------------------------------------------------
  // The 128-bit identifier and its hex rendering

  function Pow256(n: nat): (p: nat)
    ensures p >= 1
  {
    if n == 0 then 1 else 256 * Pow256(n - 1)
  }

  /** Big-endian value of a byte string. */
  function FromBytesBE(bs: seq<byte>): nat {
    if bs == [] then 0 else FromBytesBE(bs[..|bs| - 1]) * 256 + bs[|bs| - 1]
  }

  /** `int.to_bytes(n, length=len, byteorder="big", signed=False)`. */
  function ToBytesBE(n: nat, len: nat): (bs: seq<byte>)
    requires n < Pow256(len)
    ensures |bs| == len
    ensures FromBytesBE(bs) == n
  {
    if len == 0 then [] else ToBytesBE(n / 256, len - 1) + [n % 256]
  }

  const HEX_DIGITS: string := "0123456789abcdef"

  predicate IsLowerHexDigit(c: char) {
    '0' <= c <= '9' || 'a' <= c <= 'f'
  }

  function HexValue(c: char): nat {
    if '0' <= c <= '9' then c as int - '0' as int
    else if 'a' <= c <= 'f' then c as int - 'a' as int + 10
    else 0
  }

  function HexDigit(d: nat): (c: char)
    requires d < 16
    ensures IsLowerHexDigit(c) && HexValue(c) == d
  {
    HEX_DIGITS[d]
  }

  /** `binascii.hexlify`: two lower-case hex digits per byte, high nibble first. */
  function Hexlify(bs: seq<byte>): (s: string)
    ensures |s| == 2 * |bs|
    ensures forall i :: 0 <= i < |s| ==> IsLowerHexDigit(s[i])
  {
    if bs == [] then []
    else
      var b := bs[|bs| - 1];
      Hexlify(bs[..|bs| - 1]) + [HexDigit(b / 16), HexDigit(b % 16)]
  }

  /** Big-endian value of a string of hex digits. */
  function ParseHex(s: string): nat {
    if s == [] then 0 else ParseHex(s[..|s| - 1]) * 16 + HexValue(s[|s| - 1])
  }

  lemma {:induction false} ParseHexlify(bs: seq<byte>)
    ensures ParseHex(Hexlify(bs)) == FromBytesBE(bs)
  {
    if bs != [] {
      var init, b := bs[..|bs| - 1], bs[|bs| - 1];
      var h := Hexlify(init);
      ParseHexlify(init);
      var s := h + [HexDigit(b / 16), HexDigit(b % 16)];
      assert s[..|s| - 1] == h + [HexDigit(b / 16)];
      assert (h + [HexDigit(b / 16)])[..|h|] == h;
      calc {
        ParseHex(s);
        ParseHex(h + [HexDigit(b / 16)]) * 16 + b % 16;
        (ParseHex(h) * 16 + b / 16) * 16 + b % 16;
        FromBytesBE(init) * 256 + b;
      }
    }
  }

  /** `syntactic_identifier_int`, which is also `__hash__`: the hash of the
      identity tuple, small enough to fit the 16 bytes it is rendered in. */
  function SyntacticIdentifierInt(hash: Hasher, f: Finding): (h: U128)
    ensures h as int < Pow256(16)
  {
    Pow256Of16();
    hash(IdOf(f))
  }

  lemma Pow256Of16()
    ensures Pow256(16) == 0x1_0000_0000_0000_0000_0000_0000_0000_0000
  {
    assert Pow256(1) == 0x100;
    assert Pow256(2) == 0x1_0000;
    assert Pow256(3) == 0x100_0000;
    assert Pow256(4) == 0x1_0000_0000;
    assert Pow256(5) == 0x100_0000_0000;
    assert Pow256(6) == 0x1_0000_0000_0000;
    assert Pow256(7) == 0x100_0000_0000_0000;
    assert Pow256(8) == 0x1_0000_0000_0000_0000;
    assert Pow256(9) == 0x100_0000_0000_0000_0000;
    assert Pow256(10) == 0x1_0000_0000_0000_0000_0000;
    assert Pow256(11) == 0x100_0000_0000_0000_0000_0000;
    assert Pow256(12) == 0x1_0000_0000_0000_0000_0000_0000;
    assert Pow256(13) == 0x100_0000_0000_0000_0000_0000_0000;
    assert Pow256(14) == 0x1_0000_0000_0000_0000_0000_0000_0000;
    assert Pow256(15) == 0x100_0000_0000_0000_0000_0000_0000_0000;
  }

  function SyntacticIdentifierStr(hash: Hasher, f: Finding): (s: string)
    ensures |s| == 32
    ensures forall i :: 0 <= i < |s| ==> IsLowerHexDigit(s[i])
    ensures ParseHex(s) == SyntacticIdentifierInt(hash, f) as int
  {
    Pow256Of16();
    var bs := ToBytesBE(SyntacticIdentifierInt(hash, f) as nat, 16);
    ParseHexlify(bs);
    Hexlify(bs)
  }

  /** The identifier, and so `__hash__`, sees only the four identity fields:
      line, columns, message, severity, metadata and commit date do not matter. */
  lemma IdentifierIgnoresInformationalFields(hash: Hasher, f: Finding, g: Finding)
    requires f.checkId == g.checkId && f.path == g.path
    requires f.index == g.index && f.syntacticContext == g.syntacticContext
    ensures SyntacticIdentifierInt(hash, f) == SyntacticIdentifierInt(hash, g)
    ensures SyntacticIdentifierStr(hash, f) == SyntacticIdentifierStr(hash, g)
  {
  }

  /** `__eq__` ignores the occurrence index while `__hash__` hashes it: two
      findings that differ only in their index are equal, yet their hashes come
      from different tuples. Python's rule that equal objects hash equal holds
      only for a hash that happens to collide on them. */
  lemma EqualityIgnoresIndexHashDoesNot(hash: Hasher, f: Finding, i: int)
    requires i != f.index
    ensures AttrEq(f, f.(index := i))
    ensures IdOf(f) != IdOf(f.(index := i))
  {
  }

  // ---------------------------------------------------------------------------
  // Reconciliation

  /** One item of a `Dict[FindingKey, List[Finding]]`; the dict is the sequence
      of its items in insertion order. */
  datatype Entry = Entry(key: FindingKey, findings: seq<Finding>)
  type FindingMap = seq<Entry>

  /** A Python set of findings: each identity maps to the member kept for it. */
  type FindingSet = map<IdTuple, Finding>

  datatype FindingSets = FindingSets(baselineMap: FindingMap, currentMap: FindingMap)

  /** The identity of list element `f` once it is given index `j`. */
  function IdAt(f: Finding, j: int, dedent: Dedenter): IdTuple {
    IdTuple(f.checkId, f.path, j, dedent(f.syntacticContext))
  }

  /** `attr.evolve(finding, index=index) for index, finding in enumerate(fs)`. */
  function Enumerated(fs: seq<Finding>, dedent: Dedenter): (r: seq<Finding>)
    ensures |r| == |fs|
    ensures forall j :: 0 <= j < |fs| ==> r[j] == Evolve(fs[j], j, dedent)
  {
    seq(|fs|, j requires 0 <= j < |fs| => Evolve(fs[j], j, dedent))
  }

  /** How many findings the lists of the mapping hold together. */
  function Size(m: FindingMap): nat {
    if m == [] then 0 else |m[0].findings| + Size(m[1..])
  }

  /** The findings of every list of the mapping, each with its position, in
      iteration order: one per list element. */
  function Flatten(m: FindingMap, dedent: Dedenter): (r: seq<Finding>)
    ensures |r| == Size(m)
  {
    if m == [] then [] else Enumerated(m[0].findings, dedent) + Flatten(m[1..], dedent)
  }

  /** Some list of `m` holds, at position `j`, a finding whose evolved identity is `id`. */
  ghost predicate ProducedBy(m: FindingMap, dedent: Dedenter, id: IdTuple) {
    exists e, j :: 0 <= e < |m| && 0 <= j < |m[e].findings| && id == IdAt(m[e].findings[j], j, dedent)
  }

  lemma {:induction false} FlattenMembers(m: FindingMap, dedent: Dedenter, id: IdTuple)
    ensures HasId(Flatten(m, dedent), id) <==> ProducedBy(m, dedent, id)
  {
    if k :| 0 <= k < |Flatten(m, dedent)| && IdOf(Flatten(m, dedent)[k]) == id {
      FlattenedAreProduced(m, dedent, k);
    }
    if ProducedBy(m, dedent, id) {
      var e, j :| 0 <= e < |m| && 0 <= j < |m[e].findings| && id == IdAt(m[e].findings[j], j, dedent);
      ProducedAreFlattened(m, dedent, e, j);
    }
  }

  /** The generator runs through the dict in order, and through each list in
      order: element j of the e-th list comes out at position Size(m[..e]) + j,
      after every element of the lists before it. */
  lemma {:induction false} FlattenAt(m: FindingMap, dedent: Dedenter, e: int, j: int)
    requires 0 <= e < |m| && 0 <= j < |m[e].findings|
    ensures Size(m[..e]) + j < |Flatten(m, dedent)|
    ensures Flatten(m, dedent)[Size(m[..e]) + j] == Evolve(m[e].findings[j], j, dedent)
  {
    var head := Enumerated(m[0].findings, dedent);
    var rest := Flatten(m[1..], dedent);
    assert Flatten(m, dedent) == head + rest;
    if e == 0 {
      assert m[..0] == [];
    } else {
      FlattenAt(m[1..], dedent, e - 1, j);
      assert m[1..][e - 1] == m[e];
      assert m[..e][1..] == m[1..][..e - 1];
      assert Size(m[..e]) == |head| + Size(m[1..][..e - 1]);
    }
  }

  lemma {:induction false} FlattenedAreProduced(m: FindingMap, dedent: Dedenter, k: int)
    requires 0 <= k < |Flatten(m, dedent)|
    ensures ProducedBy(m, dedent, IdOf(Flatten(m, dedent)[k]))
  {
    var head := Enumerated(m[0].findings, dedent);
    var rest := Flatten(m[1..], dedent);
    var all := Flatten(m, dedent);
    assert all == head + rest;
    var id := IdOf(all[k]);
    if k < |head| {
      assert id == IdAt(m[0].findings[k], k, dedent);
    } else {
      assert all[k] == rest[k - |head|];
      FlattenedAreProduced(m[1..], dedent, k - |head|);
      var e, j :| 0 <= e < |m[1..]| && 0 <= j < |m[1..][e].findings|
               && id == IdAt(m[1..][e].findings[j], j, dedent);
      assert m[e + 1] == m[1..][e];
    }
  }

  lemma {:induction false} ProducedAreFlattened(m: FindingMap, dedent: Dedenter, e: int, j: int)
    requires 0 <= e < |m| && 0 <= j < |m[e].findings|
    ensures exists k :: 0 <= k < |Flatten(m, dedent)| && IdOf(Flatten(m, dedent)[k]) == IdAt(m[e].findings[j], j, dedent)
  {
    var head := Enumerated(m[0].findings, dedent);
    var rest := Flatten(m[1..], dedent);
    var all := Flatten(m, dedent);
    assert all == head + rest;
    var id := IdAt(m[e].findings[j], j, dedent);
    if e == 0 {
      assert all[j] == head[j];
      assert IdOf(all[j]) == id;
    } else {
      assert m[1..][e - 1] == m[e];
      ProducedAreFlattened(m[1..], dedent, e - 1, j);
      var k :| 0 <= k < |rest| && IdOf(rest[k]) == id;
      assert all[|head| + k] == rest[k];
    }
  }

  /** Some member of `fs` has identity `id`. */
  ghost predicate HasId(fs: seq<Finding>, id: IdTuple) {
    exists k :: 0 <= k < |fs| && IdOf(fs[k]) == id
  }

  /** Position of the first member of `fs` with identity `id`. */
  function FirstWith(fs: seq<Finding>, id: IdTuple): (j: nat)
    requires HasId(fs, id)
    ensures j < |fs| && IdOf(fs[j]) == id
    ensures forall k :: 0 <= k < j ==> IdOf(fs[k]) != id
  {
    if IdOf(fs[0]) == id then 0
    else
      assert HasId(fs[1..], id) by {
        var k :| 0 <= k < |fs| && IdOf(fs[k]) == id;
        assert fs[1..][k - 1] == fs[k];
      }
      1 + FirstWith(fs[1..], id)
  }

  /** `set(fs)` under identity equality: the first member of each class is kept. */
  function ToSet(fs: seq<Finding>): (s: FindingSet)
    ensures forall id :: id in s <==> HasId(fs, id)
    ensures forall id :: id in s ==> IdOf(s[id]) == id && s[id] == fs[FirstWith(fs, id)]
  {
    if fs == [] then map[]
    else
      var rest := ToSet(fs[1..]);
      forall id | id in rest
        ensures HasId(fs, id)
      {
        var k :| 0 <= k < |fs[1..]| && IdOf(fs[1..][k]) == id;
        assert fs[k + 1] == fs[1..][k];
      }
      forall id | HasId(fs, id)
        ensures id == IdOf(fs[0]) || id in rest
      {
        var k :| 0 <= k < |fs| && IdOf(fs[k]) == id;
        if k > 0 { assert fs[1..][k - 1] == fs[k]; }
      }
      rest[IdOf(fs[0]) := fs[0]]
  }

  /** `FindingSets._map_to_set`. */
  function MapToSet(m: FindingMap, dedent: Dedenter): (s: FindingSet)
    ensures forall id :: id in s <==> HasId(Flatten(m, dedent), id)
    ensures forall id :: id in s ==> IdOf(s[id]) == id
  {
    ToSet(Flatten(m, dedent))
  }

  /** A member of `_map_to_set(m)` is exactly an identity some list produces at
      some position; the index it carries is that position, so it is below the
      length of that list. */
  lemma MapToSetMembers(m: FindingMap, dedent: Dedenter, id: IdTuple)
    ensures id in MapToSet(m, dedent) <==> ProducedBy(m, dedent, id)
    ensures id in MapToSet(m, dedent) ==>
              exists e :: 0 <= e < |m| && 0 <= id.index < |m[e].findings|
                && id == IdAt(m[e].findings[id.index], id.index, dedent)
  {
    FlattenMembers(m, dedent, id);
    if ProducedBy(m, dedent, id) {
      ProducedAtOwnIndex(m, dedent, id);
    }
  }

  /** The position an identity was produced at is the index it carries. */
  lemma ProducedAtOwnIndex(m: FindingMap, dedent: Dedenter, id: IdTuple)
    requires ProducedBy(m, dedent, id)
    ensures exists e :: 0 <= e < |m| && 0 <= id.index < |m[e].findings|
              && id == IdAt(m[e].findings[id.index], id.index, dedent)
  {
    var e, j :| 0 <= e < |m| && 0 <= j < |m[e].findings| && id == IdAt(m[e].findings[j], j, dedent);
    assert id.index == j;
  }

  /** Every member of the set is a list element with only its index and its
      (re-)dedented text changed. */
  lemma MapToSetValues(m: FindingMap, dedent: Dedenter, id: IdTuple)
    requires id in MapToSet(m, dedent)
    ensures IdOf(MapToSet(m, dedent)[id]) == id
    ensures exists e, j :: 0 <= e < |m| && 0 <= j < |m[e].findings|
              && MapToSet(m, dedent)[id] == Evolve(m[e].findings[j], j, dedent)
  {
    var fs := Flatten(m, dedent);
    var k := FirstWith(fs, id);
    FlattenElements(m, dedent, k);
  }

  lemma {:induction false} FlattenElements(m: FindingMap, dedent: Dedenter, k: int)
    requires 0 <= k < |Flatten(m, dedent)|
    ensures exists e, j :: 0 <= e < |m| && 0 <= j < |m[e].findings|
              && Flatten(m, dedent)[k] == Evolve(m[e].findings[j], j, dedent)
  {
    var head := Enumerated(m[0].findings, dedent);
    var rest := Flatten(m[1..], dedent);
    assert Flatten(m, dedent) == head + rest;
    if k < |head| {
      assert Flatten(m, dedent)[k] == Evolve(m[0].findings[k], k, dedent);
    } else {
      FlattenElements(m[1..], dedent, k - |head|);
      var e, j :| 0 <= e < |m[1..]| && 0 <= j < |m[1..][e].findings|
               && rest[k - |head|] == Evolve(m[1..][e].findings[j], j, dedent);
      assert m[e + 1] == m[1..][e];
    }
  }

  /** `current_set`: the identities the current map produces. */
  function CurrentSet(sets: FindingSets, dedent: Dedenter): (s: FindingSet)
    ensures forall id :: id in s <==> ProducedBy(sets.currentMap, dedent, id)
  {
    forall id ensures id in MapToSet(sets.currentMap, dedent) <==> ProducedBy(sets.currentMap, dedent, id) {
      MapToSetMembers(sets.currentMap, dedent, id);
    }
    MapToSet(sets.currentMap, dedent)
  }

  /** `baseline_set`: the identities the baseline map produces. */
  function BaselineSet(sets: FindingSets, dedent: Dedenter): (s: FindingSet)
    ensures forall id :: id in s <==> ProducedBy(sets.baselineMap, dedent, id)
  {
    forall id ensures id in MapToSet(sets.baselineMap, dedent) <==> ProducedBy(sets.baselineMap, dedent, id) {
      MapToSetMembers(sets.baselineMap, dedent, id);
    }
    MapToSet(sets.baselineMap, dedent)
  }

  /** Python's `a - b` on sets: members of `a` with no equal member in `b`. */
  function Difference(a: FindingSet, b: FindingSet): (r: FindingSet)
    ensures r.Keys == a.Keys - b.Keys
    ensures forall id :: id in r ==> r[id] == a[id]
  {
    map id | id in a && id !in b :: a[id]
  }

  /** `FindingSets.expensive_new`. */
  function ExpensiveNew(sets: FindingSets, dedent: Dedenter): (r: FindingSet)
    ensures forall id :: id in r <==>
              ProducedBy(sets.currentMap, dedent, id) && !ProducedBy(sets.baselineMap, dedent, id)
    ensures forall id :: id in r ==>
              id in CurrentSet(sets, dedent) && r[id] == CurrentSet(sets, dedent)[id] && IdOf(r[id]) == id
  {
    var r := Difference(CurrentSet(sets, dedent), BaselineSet(sets, dedent));
    forall id ensures id in r <==>
              ProducedBy(sets.currentMap, dedent, id) && !ProducedBy(sets.baselineMap, dedent, id)
    {
      MapToSetMembers(sets.currentMap, dedent, id);
      MapToSetMembers(sets.baselineMap, dedent, id);
    }
    r
  }

  /** Diffing a scan against itself reports nothing new. */
  lemma SelfDifferenceIsEmpty(m: FindingMap, dedent: Dedenter)
    ensures ExpensiveNew(FindingSets(m, m), dedent) == map[]
  {
    var r := ExpensiveNew(FindingSets(m, m), dedent);
    assert r.Keys == {};
  }

  /** With no baseline, every current finding is new. */
  lemma EmptyBaselineKeepsCurrent(current: FindingMap, dedent: Dedenter)
    ensures ExpensiveNew(FindingSets([], current), dedent) == MapToSet(current, dedent)
  {
    var r := ExpensiveNew(FindingSets([], current), dedent);
    var c := MapToSet(current, dedent);
    forall id ensures id in r <==> id in c {
      MapToSetMembers(current, dedent, id);
    }
    assert r.Keys == c.Keys;
  }

  /** A finding that disappeared is never new. */
  lemma EmptyCurrentIsEmpty(baseline: FindingMap, dedent: Dedenter)
    ensures ExpensiveNew(FindingSets(baseline, []), dedent) == map[]
  {
    var r := ExpensiveNew(FindingSets(baseline, []), dedent);
    assert r.Keys == {};
  }

  function Copies(f: Finding, n: nat): (r: seq<Finding>)
    ensures |r| == n && forall j :: 0 <= j < n ==> r[j] == f
  {
    seq(n, _ => f)
  }

  lemma SingleKeyMembers(key: FindingKey, f: Finding, n: nat, dedent: Dedenter, id: IdTuple)
    ensures ProducedBy([Entry(key, Copies(f, n))], dedent, id) <==>
            (exists j :: 0 <= j < n && id == IdAt(f, j, dedent))
  {
    var m := [Entry(key, Copies(f, n))];
    if j :| 0 <= j < n && id == IdAt(f, j, dedent) {
      assert id == IdAt(m[0].findings[j], j, dedent);
    }
  }

  /** Positional matching under one key: `nb` copies of a finding in the
      baseline and `nc` in the current scan leave exactly the copies at
      positions nb .. nc-1 as new. */
  lemma PositionalMatching(key: FindingKey, f: Finding, nb: nat, nc: nat, dedent: Dedenter)
    ensures ExpensiveNew(FindingSets([Entry(key, Copies(f, nb))], [Entry(key, Copies(f, nc))]), dedent).Keys
              == set j | nb <= j < nc :: IdAt(f, j, dedent)
  {
    var r := ExpensiveNew(FindingSets([Entry(key, Copies(f, nb))], [Entry(key, Copies(f, nc))]), dedent);
    var expected := set j | nb <= j < nc :: IdAt(f, j, dedent);
    forall id ensures id in r <==> id in expected {
      SingleKeyMembers(key, f, nb, dedent, id);
      SingleKeyMembers(key, f, nc, dedent, id);
    }
    assert r.Keys == expected;
  }

  /** Baseline [A, A, A] against current [A, A, A, A, A]: the new set is A at
      indices 3 and 4. */
  lemma ThreeBaselineFiveCurrent(key: FindingKey, a: Finding, dedent: Dedenter)
    ensures ExpensiveNew(FindingSets([Entry(key, [a, a, a])], [Entry(key, [a, a, a, a, a])]), dedent).Keys
              == {IdAt(a, 3, dedent), IdAt(a, 4, dedent)}
  {
    var b, c := Copies(a, 3), Copies(a, 5);
    assert b == [a, a, a];
    assert c == [a, a, a, a, a];
    PositionalMatching(key, a, 3, 5, dedent);
    IndicesThreeAndFour(a, dedent);
  }

  lemma IndicesThreeAndFour(a: Finding, dedent: Dedenter)
    ensures (set j | 3 <= j < 5 :: IdAt(a, j, dedent)) == {IdAt(a, 3, dedent), IdAt(a, 4, dedent)}
  {
    var s := set j | 3 <= j < 5 :: IdAt(a, j, dedent);
    forall id | id in s ensures id == IdAt(a, 3, dedent) || id == IdAt(a, 4, dedent) {
      var j :| 3 <= j < 5 && id == IdAt(a, j, dedent);
      assert j == 3 || j == 4;
    }
    assert IdAt(a, 3, dedent) in s && IdAt(a, 4, dedent) in s;
  }
}
