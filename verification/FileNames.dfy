/** The names in the ingest directory (apps/server/src/ingest/storage.rs): which event each
    file belongs to, and which files recovery and the temp-file sweeper look at. */
module FileNames {
  import opened Wrappers

  // ----- text --------------------------------------------------------------------------

  predicate StartsWith(s: string, prefix: string) {
    |prefix| <= |s| && s[..|prefix|] == prefix
  }

  predicate EndsWith(s: string, suffix: string) {
    |suffix| <= |s| && s[|s| - |suffix|..] == suffix
  }

  predicate OccursAt(s: string, part: string, i: nat) {
    i + |part| <= |s| && s[i..i + |part|] == part
  }

  predicate Contains(s: string, part: string) {
    exists i: nat | i <= |s| :: OccursAt(s, part, i)
  }

  function StripPrefix(s: string, prefix: string): Option<string> {
    if StartsWith(s, prefix) then Some(s[|prefix|..]) else None
  }

  function StripSuffix(s: string, suffix: string): Option<string> {
    if EndsWith(s, suffix) then Some(s[..|s| - |suffix|]) else None
  }

  /** What is on either side of the last `c`. */
  function RSplitOnce(s: string, c: char): Option<(string, string)>
    decreases |s|
  {
    if s == "" then None
    else if s[|s| - 1] == c then Some((s[..|s| - 1], ""))
    else match RSplitOnce(s[..|s| - 1], c)
      case None => None
      case Some((before, after)) => Some((before, after + [s[|s| - 1]]))
  }

  lemma {:induction false} RSplitOnceAt(before: string, c: char, after: string)
    requires c !in after
    ensures RSplitOnce(before + [c] + after, c) == Some((before, after))
    decreases |after|
  {
    var s := before + [c] + after;
    if after == "" {
      assert s[..|s| - 1] == before;
    } else {
      var shorter := after[..|after| - 1];
      RSplitOnceAt(before, c, shorter);
      assert s[..|s| - 1] == before + [c] + shorter;
      assert after == shorter + [s[|s| - 1]];
    }
  }

  lemma SuffixStripped(s: string, suffix: string)
    ensures StripSuffix(s + suffix, suffix) == Some(s)
  {
  }

  lemma PrefixStripped(prefix: string, s: string)
    ensures StripPrefix(prefix + s, prefix) == Some(s)
  {
  }

  /** A file name with what follows its last dot replaced; a leading dot starts no extension. */
  function WithExtension(name: string, extension: string): string {
    match RSplitOnce(name, '.')
    case Some((stem, _)) => (if stem == "" then name else stem) + "." + extension
    case None => name + "." + extension
  }

  lemma ExtensionReplaced(stem: string, was: string, extension: string)
    requires stem != "" && '.' !in was
    ensures WithExtension(stem + "." + was, extension) == stem + "." + extension
  {
    RSplitOnceAt(stem, '.', was);
  }

  // ----- event ids ---------------------------------------------------------------------

  type Nibble = x: int | 0 <= x < 16

  type Uuid = u: seq<Nibble> | |u| == 32 witness seq(32, _ => 0)

  function HexDigit(n: Nibble): (c: char)
    ensures '0' <= c <= '9' || 'a' <= c <= 'f'
  {
    "0123456789abcdef"[n]
  }

  function HexValue(c: char): Option<Nibble> {
    if '0' <= c <= '9' then Some(c as int - '0' as int)
    else if 'a' <= c <= 'f' then Some(c as int - 'a' as int + 10)
    else if 'A' <= c <= 'F' then Some(c as int - 'A' as int + 10)
    else None
  }

  function Hex(nibbles: seq<Nibble>): (r: string)
    ensures |r| == |nibbles|
    ensures forall i | 0 <= i < |r| :: r[i] == HexDigit(nibbles[i])
  {
    seq(|nibbles|, i requires 0 <= i < |nibbles| => HexDigit(nibbles[i]))
  }

  function ParseHex(s: string): (r: Option<seq<Nibble>>)
    ensures r.Some? ==> |r.value| == |s|
    decreases |s|
  {
    if s == "" then Some([])
    else match (HexValue(s[0]), ParseHex(s[1..]))
      case (Some(n), Some(rest)) => Some([n] + rest)
      case _ => None
  }

  /** Thirty-two digits, without hyphens. */
  function Simple(u: Uuid): (r: string)
    ensures |r| == 32 && forall i | 0 <= i < 32 :: r[i] == HexDigit(u[i])
  {
    Hex(u)
  }

  function Hyphenated(u: Uuid): string {
    Hex(u[..8]) + "-" + Hex(u[8..12]) + "-" + Hex(u[12..16]) + "-" + Hex(u[16..20]) + "-" + Hex(u[20..])
  }

  function ParseHyphenated(s: string): (r: Option<Uuid>)
    requires |s| == 36
  {
    if s[8] == s[13] == s[18] == s[23] == '-'
    then ParseHex(s[..8] + s[9..13] + s[14..18] + s[19..23] + s[24..])
    else None
  }

  /** Bare, hyphenated, braced or as a URN, in either case. */
  function ParseUuid(s: string): Option<Uuid> {
    if |s| == 32 then ParseHex(s)
    else if |s| == 36 then ParseHyphenated(s)
    else if |s| == 38 && s[0] == '{' && s[37] == '}' then ParseHyphenated(s[1..37])
    else if |s| == 45 && StartsWith(s, "urn:uuid:") then ParseHyphenated(s[9..])
    else None
  }

  lemma HexDigitBack(n: Nibble)
    ensures HexValue(HexDigit(n)) == Some(n)
  {
  }

  lemma {:induction false} ParseHexUndoesHex(nibbles: seq<Nibble>)
    ensures ParseHex(Hex(nibbles)) == Some(nibbles)
    decreases |nibbles|
  {
    hide HexValue, HexDigit;
    if nibbles != [] {
      ParseHexUndoesHex(nibbles[1..]);
      assert Hex(nibbles)[1..] == Hex(nibbles[1..]);
      HexDigitBack(nibbles[0]);
      assert [nibbles[0]] + nibbles[1..] == nibbles;
    }
  }

  lemma HexSplits(a: seq<Nibble>, b: seq<Nibble>)
    ensures Hex(a + b) == Hex(a) + Hex(b)
  {
  }

  lemma HyphensRemoved(a: string, b: string, c: string, d: string, e: string)
    requires |a| == 8 && |b| == |c| == |d| == 4 && |e| == 12
    ensures var s := a + "-" + b + "-" + c + "-" + d + "-" + e;
      && |s| == 36 && s[8] == s[13] == s[18] == s[23] == '-'
      && s[..8] == a && s[9..13] == b && s[14..18] == c && s[19..23] == d && s[24..] == e
  {
  }

  lemma HexInParts(u: Uuid)
    ensures Hex(u[..8]) + Hex(u[8..12]) + Hex(u[12..16]) + Hex(u[16..20]) + Hex(u[20..]) == Hex(u)
  {
    hide Hex;
    HexSplits(u[..8], u[8..12]);
    HexSplits(u[..12], u[12..16]);
    HexSplits(u[..16], u[16..20]);
    HexSplits(u[..20], u[20..]);
    assert u[..8] + u[8..12] == u[..12] && u[..12] + u[12..16] == u[..16];
    assert u[..16] + u[16..20] == u[..20] && u[..20] + u[20..] == u;
  }

  /** Both printed forms of an event id read back as that id. */
  lemma ParseUuidUndoesPrinting(u: Uuid)
    ensures ParseUuid(Simple(u)) == Some(u)
    ensures ParseUuid(Hyphenated(u)) == Some(u)
  {
    hide ParseHex, Hex;
    ParseHexUndoesHex(u);
    HyphensRemoved(Hex(u[..8]), Hex(u[8..12]), Hex(u[12..16]), Hex(u[16..20]), Hex(u[20..]));
    HexInParts(u);
  }

  // ----- project ids -------------------------------------------------------------------

  type Int32 = x: int | -0x8000_0000 <= x < 0x8000_0000

  function DigitChar(d: int): (c: char)
    requires 0 <= d < 10
    ensures '0' <= c <= '9'
  {
    "0123456789"[d]
  }

  function DigitValue(c: char): Option<nat> {
    if '0' <= c <= '9' then Some(c as int - '0' as int) else None
  }

  function FormatNat(n: nat): (r: string)
    ensures r != "" && forall i | 0 <= i < |r| :: '0' <= r[i] <= '9'
    decreases n
  {
    if n < 10 then [DigitChar(n)] else FormatNat(n / 10) + [DigitChar(n % 10)]
  }

  function FormatInt(n: int): string {
    if n < 0 then "-" + FormatNat(-n) else FormatNat(n)
  }

  function ParseNat(s: string): Option<nat>
    decreases |s|
  {
    if s == "" then Some(0)
    else match (ParseNat(s[..|s| - 1]), DigitValue(s[|s| - 1]))
      case (Some(n), Some(d)) => Some(10 * n + d)
      case _ => None
  }

  /** A decimal number with an optional sign, in range. */
  function ParseInt32(s: string): Option<Int32> {
    var signed := s != "" && (s[0] == '-' || s[0] == '+');
    var digits := if signed then s[1..] else s;
    if digits == "" then None
    else match ParseNat(digits)
      case None => None
      case Some(n) =>
        var value := if signed && s[0] == '-' then 0 - n else n;
        if -0x8000_0000 <= value < 0x8000_0000 then Some(value) else None
  }

  lemma ParseNatSnoc(s: string, d: nat)
    requires d < 10
    ensures ParseNat(s + [DigitChar(d)])
         == match ParseNat(s) case None => None case Some(n) => Some(10 * n + d)
  {
    var more := s + [DigitChar(d)];
    assert more[..|more| - 1] == s;
    assert DigitValue(DigitChar(d)) == Some(d);
  }

  lemma {:induction false} ParseNatUndoesFormat(n: nat)
    ensures ParseNat(FormatNat(n)) == Some(n)
    decreases n
  {
    hide ParseNat, DigitChar;
    if n < 10 {
      ParseNatOfNothing("");
      ParseNatSnoc("", n);
      assert "" + [DigitChar(n)] == [DigitChar(n)];
    } else {
      ParseNatUndoesFormat(n / 10);
      ParseNatSnoc(FormatNat(n / 10), n % 10);
    }
  }

  lemma ParseNatOfNothing(s: string)
    requires s == ""
    ensures ParseNat(s) == Some(0)
  {
  }

  lemma ParseInt32UndoesFormat(n: Int32)
    ensures ParseInt32(FormatInt(n)) == Some(n)
  {
    hide FormatNat, ParseNat;
    if n < 0 {
      var size: int := n;
      ParseNatUndoesFormat(-size);
      assert FormatInt(n)[1..] == FormatNat(-size);
    } else {
      ParseNatUndoesFormat(n);
    }
  }

  // ----- the four places of an event ---------------------------------------------------

  function EventName(u: Uuid): string { Simple(u) + ".json" }

  function MetadataName(u: Uuid): string { WithExtension(EventName(u), "meta.json") }

  function PendingName(u: Uuid): string { WithExtension(EventName(u), "pending.json") }

  function ProjectEventName(project: Int32, u: Uuid): string {
    "project-" + FormatInt(project) + "-" + Simple(u) + ".json"
  }

  function ProjectPendingName(project: Int32, u: Uuid): string {
    WithExtension(ProjectEventName(project, u), "pending.json")
  }

  function TemporaryName(fileName: string, u: Uuid): string { "." + fileName + ".tmp-" + Hyphenated(u) }

  function QuarantineName(fileName: string, u: Uuid): string { "." + fileName + ".corrupt-" + Hyphenated(u) }

  predicate IsOrphanedTemporaryFile(name: string) {
    StartsWith(name, ".") && Contains(name, ".tmp-")
  }

  predicate IsPendingRecord(name: string) { EndsWith(name, ".pending.json") }

  predicate IsLegacyMetadata(name: string) { EndsWith(name, ".meta.json") }

  function ParseProjectPendingName(name: string): Option<(Int32, Uuid)> {
    match StripSuffix(name, ".pending.json")
    case None => None
    case Some(s) =>
      match StripPrefix(s, "project-")
      case None => None
      case Some(stem) =>
        match RSplitOnce(stem, '-')
        case None => None
        case Some((project, event)) =>
          match (ParseInt32(project), ParseUuid(event))
          case (Some(p), Some(u)) => Some((p, u))
          case _ => None
  }

  /** Whether a pending record may stand under `name`: the name's own identity, in the project
      form or else in the legacy one, is the record's. */
  predicate PendingNameMatches(name: string, project: Int32, u: Uuid) {
    match ParseProjectPendingName(name)
    case Some((p, v)) => p == project && v == u
    case None =>
      match StripSuffix(name, ".pending.json")
      case None => false
      case Some(id) => ParseUuid(id) == Some(u)
  }

  // ----- naming ------------------------------------------------------------------------

  lemma PendingNames(project: Int32, u: Uuid)
    ensures ProjectPendingName(project, u) == "project-" + FormatInt(project) + "-" + Simple(u) + ".pending.json"
    ensures PendingName(u) == Simple(u) + ".pending.json"
    ensures MetadataName(u) == Simple(u) + ".meta.json"
  {
    hide WithExtension, Simple, FormatInt;
    ExtensionReplaced("project-" + FormatInt(project) + "-" + Simple(u), "json", "pending.json");
    ExtensionReplaced(Simple(u), "json", "pending.json");
    ExtensionReplaced(Simple(u), "json", "meta.json");
    var stem := "project-" + FormatInt(project) + "-" + Simple(u);
    assert stem + "." + "json" == ProjectEventName(project, u);
    assert stem + "." + "pending.json" == stem + ".pending.json";
    assert Simple(u) + "." + "json" == EventName(u);
    assert Simple(u) + "." + "pending.json" == Simple(u) + ".pending.json";
    assert Simple(u) + "." + "meta.json" == Simple(u) + ".meta.json";
  }

  /** Recovery reads a published record's project and event id back from its file name. */
  lemma ParsingUndoesNaming(project: Int32, u: Uuid)
    ensures ParseProjectPendingName(ProjectPendingName(project, u)) == Some((project, u))
    ensures IsPendingRecord(ProjectPendingName(project, u))
    ensures PendingNameMatches(ProjectPendingName(project, u), project, u)
  {
    hide StripSuffix, StripPrefix, RSplitOnce, ParseInt32, ParseUuid, FormatInt, Simple, EndsWith;
    PendingNames(project, u);
    var tail := FormatInt(project) + "-" + Simple(u);
    assert "project-" + FormatInt(project) + "-" + Simple(u) == "project-" + tail;
    SuffixStripped("project-" + tail, ".pending.json");
    PrefixStripped("project-", tail);
    RSplitOnceAt(FormatInt(project), '-', Simple(u));
    ParseInt32UndoesFormat(project);
    ParseUuidUndoesPrinting(u);
    SuffixEnds("project-" + tail, ".pending.json");
  }

  lemma SuffixEnds(s: string, suffix: string)
    ensures EndsWith(s + suffix, suffix)
  {
  }

  /** No two events share a project file. */
  lemma ProjectNamesInjective(p: Int32, u: Uuid, q: Int32, v: Uuid)
    ensures ProjectPendingName(p, u) == ProjectPendingName(q, v) <==> p == q && u == v
  {
    hide ProjectPendingName;
    ParsingUndoesNaming(p, u);
    ParsingUndoesNaming(q, v);
  }

  /** The legacy record of an event is recognised too, and never taken for a project's. */
  lemma LegacyNameMatches(u: Uuid, project: Int32, v: Uuid)
    ensures ParseProjectPendingName(PendingName(u)) == None
    ensures PendingNameMatches(PendingName(u), project, v) <==> u == v
  {
    hide StripSuffix, ParseUuid, Simple;
    PendingNames(project, u);
    SuffixStripped(Simple(u), ".pending.json");
    ParseUuidUndoesPrinting(u);
    assert Simple(u)[0] == HexDigit(u[0]);
    assert StripPrefix(Simple(u), "project-") == None by {
      if StartsWith(Simple(u), "project-") { assert Simple(u)[0] == Simple(u)[..8][0] == 'p'; }
    }
  }

  // ----- hidden names ------------------------------------------------------------------

  lemma LastOf(s: string, suffix: string)
    requires suffix != "" && EndsWith(s, suffix)
    ensures s[|s| - 1] == suffix[|suffix| - 1]
  {
    assert s[|s| - 1] == s[|s| - |suffix|..][|suffix| - 1];
  }

  lemma HiddenEnd(s: string, u: Uuid, suffix: string)
    requires suffix != "" && suffix[|suffix| - 1] == 'n'
    ensures !EndsWith(s + Hyphenated(u), suffix)
  {
    var name := s + Hyphenated(u);
    assert name[|name| - 1] == Hyphenated(u)[|Hyphenated(u)| - 1] == HexDigit(u[31]);
    if EndsWith(name, suffix) { LastOf(name, suffix); }
  }

  /** Recovery never looks at a temporary or quarantined file, whatever it is for. */
  lemma HiddenNeverListed(fileName: string, u: Uuid)
    ensures !IsPendingRecord(TemporaryName(fileName, u)) && !IsLegacyMetadata(TemporaryName(fileName, u))
    ensures !IsPendingRecord(QuarantineName(fileName, u)) && !IsLegacyMetadata(QuarantineName(fileName, u))
  {
    hide Hyphenated, EndsWith;
    HiddenEnd("." + fileName + ".tmp-", u, ".pending.json");
    HiddenEnd("." + fileName + ".tmp-", u, ".meta.json");
    HiddenEnd("." + fileName + ".corrupt-", u, ".pending.json");
    HiddenEnd("." + fileName + ".corrupt-", u, ".meta.json");
  }

  lemma ContainsChar(s: string, part: string, c: char)
    requires Contains(s, part) && c in part
    ensures c in s
  {
    var i: nat :| i <= |s| && OccursAt(s, part, i);
    var k :| 0 <= k < |part| && part[k] == c;
    assert s[i + k] == s[i..i + |part|][k];
  }

  lemma NoM(project: Int32, u: Uuid, v: Uuid)
    ensures 'm' !in QuarantineName(ProjectPendingName(project, u), v)
  {
    hide Simple, FormatInt, ProjectPendingName;
    PendingNames(project, u);
    assert 'm' !in FormatInt(project) by { NoMInNumber(project); }
    assert 'm' !in Simple(u);
    assert 'm' !in Hyphenated(v) by { NoMInHyphenated(v); }
    assert 'm' !in "project-" && 'm' !in ".pending.json" && 'm' !in ".corrupt-" && 'm' !in "." && 'm' !in "-";
  }

  lemma NoMInNumber(n: int)
    ensures 'm' !in FormatInt(n)
  {
  }

  lemma NoMInHyphenated(u: Uuid)
    ensures 'm' !in Hyphenated(u)
  {
    assert 'm' !in "-";
  }

  /** The sweeper takes temporary files for orphans, and neither records nor quarantined ones. */
  lemma SweepsOnlyTemporaries(project: Int32, u: Uuid, v: Uuid)
    ensures var name := ProjectPendingName(project, u);
      && IsOrphanedTemporaryFile(TemporaryName(name, v))
      && !IsOrphanedTemporaryFile(QuarantineName(name, v))
      && !IsOrphanedTemporaryFile(name)
  {
    hide Hyphenated, FormatInt, Simple;
    var name := ProjectPendingName(project, u);
    PendingNames(project, u);
    var temporary := TemporaryName(name, v);
    assert temporary[..1] == ".";
    assert OccursAt(temporary, ".tmp-", 1 + |name|);
    assert name[0] == 'p';
    assert !Contains(QuarantineName(name, v), ".tmp-") by {
      if Contains(QuarantineName(name, v), ".tmp-") {
        assert ".tmp-"[2] == 'm';
        ContainsChar(QuarantineName(name, v), ".tmp-", 'm');
        NoM(project, u, v);
      }
    }
  }

  lemma SuffixEqual(s: string, a: string, b: string)
    ensures s + a == s + b <==> a == b
  {
    if s + a == s + b { assert (s + a)[|s|..] == a && (s + b)[|s|..] == b; }
  }

  /** The names a record's publishers use beside its own are all different from it and from
      one another. */
  lemma HiddenNamesDistinct(project: Int32, u: Uuid, v: Uuid, w: Uuid)
    ensures var name := ProjectPendingName(project, u);
      && TemporaryName(name, v) != name && QuarantineName(name, v) != name
      && TemporaryName(name, v) != QuarantineName(name, w)
      && (TemporaryName(name, v) == TemporaryName(name, w) <==> v == w)
      && (QuarantineName(name, v) == QuarantineName(name, w) <==> v == w)
  {
    hide Hyphenated, IsOrphanedTemporaryFile, ParseUuid;
    var name := ProjectPendingName(project, u);
    ProjectNameStarts(project, u);
    SweepsOnlyTemporaries(project, u, v);
    SweepsOnlyTemporaries(project, u, w);
    assert QuarantineName(name, v)[0] == '.';
    ParseUuidUndoesPrinting(v);
    ParseUuidUndoesPrinting(w);
    SuffixEqual("." + name + ".tmp-", Hyphenated(v), Hyphenated(w));
    SuffixEqual("." + name + ".corrupt-", Hyphenated(v), Hyphenated(w));
  }

  lemma ProjectNameStarts(project: Int32, u: Uuid)
    ensures ProjectPendingName(project, u) != "" && ProjectPendingName(project, u)[0] == 'p'
  {
    PendingNames(project, u);
  }

  // ----- the four places are different -------------------------------------------------

  /** A project record's name is no other place of any event. */
  lemma PlacesDistinct(p: Int32, u: Uuid, q: Int32, v: Uuid)
    ensures ProjectPendingName(p, u) != ProjectEventName(q, v)
    ensures ProjectPendingName(p, u) != PendingName(v)
    ensures ProjectPendingName(p, u) != EventName(v)
    ensures ProjectPendingName(p, u) != MetadataName(v)
  {
    hide FormatInt;
    ProjectNameStarts(p, u);
    PendingNames(p, u);
    PendingNames(q, v);
    assert PendingName(v)[0] == EventName(v)[0] == MetadataName(v)[0] == HexDigit(v[0]);
    var name := ProjectEventName(q, v);
    assert name[|name| - 6] == HexDigit(v[31]);
    assert ProjectPendingName(p, u) != name by {
      var other := ProjectPendingName(p, u);
      assert other[|other| - 13..] == ".pending.json";
      assert other[|other| - 6] == other[|other| - 13..][7] == 'g';
    }
  }
}
