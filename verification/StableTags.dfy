/** Choosing the latest stable release tag (precedence as in section 11 of Semantic Versioning 2.0.0). */
module StableTags {
  import opened GoStrings
  import opened Decimal

  datatype Version = Version(major: nat, minor: nat, patch: nat) {
    predicate GreaterThan(other: Version) {
      if major != other.major then major > other.major
      else if minor != other.minor then minor > other.minor
      else patch > other.patch
    }
  }

  function Parts(v: Version): seq<nat> { [v.major, v.minor, v.patch] }

  /** `a` takes precedence over `b`: at the first part in which they differ, its own is greater. */
  predicate Newer(a: Version, b: Version) {
    exists i :: 0 <= i < 3 && Parts(a)[i] > Parts(b)[i] && Parts(a)[..i] == Parts(b)[..i]
  }

  /** The comparison decides by the first part that differs. */
  lemma PrecedenceIsLexicographic(a: Version, b: Version)
    ensures a.GreaterThan(b) <==> Newer(a, b)
  {
    var x, y := Parts(a), Parts(b);
    assert x[..0] == y[..0];
    assert a.major == b.major ==> x[..1] == y[..1];
    assert a.major == b.major && a.minor == b.minor ==> x[..2] == y[..2];
    forall i | 0 <= i < 3 && x[i] > y[i] && x[..i] == y[..i] ensures a.GreaterThan(b) {
      assert i > 0 ==> x[..i][0] == y[..i][0];
      assert i > 1 ==> x[..i][1] == y[..i][1];
    }
  }

  /** Go's largest int on a 64-bit platform. */
  const MAX_INT := 0x7FFF_FFFF_FFFF_FFFF

  // ----- Recognising a tag

  function Core(raw: string): string { if raw != "" && raw[0] == 'v' then raw[1..] else raw }

  /** v?MAJOR.MINOR.PATCH, each part without a leading zero. */
  predicate IsStable(raw: string) {
    var parts := Split(Core(raw), '.');
    |parts| == 3 && IsNumeral(parts[0]) && IsNumeral(parts[1]) && IsNumeral(parts[2])
  }

  function NormalizeStableVersion(raw: string): Option<string> {
    var t := TrimSpace(raw);
    if t == "" || !IsStable(t) then None
    else if t[0] == 'v' || t[0] == 'V' then Some(['v'] + t[1..])
    else Some(['v'] + t)
  }

  function Atoi(s: string): Option<nat>
    requires AllDigits(s)
  {
    if Value(s) <= MAX_INT then Some(Value(s)) else None
  }

  function ParseStableVersion(tag: string): Option<Version> {
    match NormalizeStableVersion(tag)
    case None => None
    case Some(normalized) =>
      var parts := Split(Core(normalized), '.');
      if |parts| != 3 || !AllDigits(parts[0]) || !AllDigits(parts[1]) || !AllDigits(parts[2]) then None
      else
        var major, minor, patch := Atoi(parts[0]), Atoi(parts[1]), Atoi(parts[2]);
        if major.None? || minor.None? || patch.None? then None
        else Some(Version(major.value, minor.value, patch.value))
  }

  // ----- Canonical tags

  datatype Candidate = Candidate(tag: string, version: Version)

  /** What a listed tag stands for, if it takes part in the selection at all. */
  function CandidateOf(tag: string): Option<Candidate> {
    match NormalizeStableVersion(tag)
    case None => None
    case Some(normalized) =>
      match ParseStableVersion(normalized)
      case None => None
      case Some(v) => Some(Candidate(normalized, v))
  }

  /** The one canonical spelling of a version. */
  function TagOf(v: Version): string {
    ['v'] + Join([Render(v.major), Render(v.minor), Render(v.patch)], '.')
  }

  lemma StableShape(raw: string)
    requires IsStable(raw)
    ensures Core(raw) != "" && IsDigit(Core(raw)[0]) && raw != "" && raw[0] != 'V'
  {
    var parts := Split(Core(raw), '.');
    JoinOfSplit(Core(raw), '.');
    assert parts == [parts[0], parts[1], parts[2]];
    assert Core(raw)[0] == parts[0][0];
  }

  lemma NormalizedCore(tag: string)
    requires NormalizeStableVersion(tag).Some?
    ensures var n := NormalizeStableVersion(tag).value;
            && n == ['v'] + Core(TrimSpace(tag)) && Core(n) == Core(TrimSpace(tag)) && IsStable(n)
  {
    StableShape(TrimSpace(tag));
  }

  lemma PartsOfVersion(core: string, v: Version)
    requires var parts := Split(core, '.');
             && |parts| == 3 && IsNumeral(parts[0]) && IsNumeral(parts[1]) && IsNumeral(parts[2])
             && v == Version(Value(parts[0]), Value(parts[1]), Value(parts[2]))
    ensures ['v'] + core == TagOf(v)
  {
    var parts := Split(core, '.');
    RenderOfValue(parts[0]);
    RenderOfValue(parts[1]);
    RenderOfValue(parts[2]);
    JoinOfSplit(core, '.');
    assert parts == [parts[0], parts[1], parts[2]];
  }

  lemma NormalizedIsTrimmed(n: string)
    requires IsStable(n) && n[0] == 'v'
    ensures TrimSpace(n) == n
  {
    var parts := Split(Core(n), '.');
    StableShape(n);
    JoinOfSplit(Core(n), '.');
    assert parts == [parts[0], parts[1], parts[2]];
    LastOfJoin(parts[0], parts[1], parts[2]);
    assert n == ['v'] + Core(n);
    TrimOfTrimmed(n, Whitespace);
  }

  lemma JoinThree(a: string, b: string, c: string)
    ensures Join([a, b, c], '.') == a + (['.'] + (b + (['.'] + c)))
  {
    assert [a, b, c][1..] == [b, c] && [b, c][1..] == [c];
    assert Join([c], '.') == c;
    assert Join([b, c], '.') == b + (['.'] + c);
  }

  lemma LastOfJoin(a: string, b: string, c: string)
    requires IsNumeral(a) && IsNumeral(b) && IsNumeral(c)
    ensures var j := Join([a, b, c], '.'); j != "" && IsDigit(j[|j| - 1])
  {
    JoinThree(a, b, c);
  }

  /** A candidate is named by the canonical spelling of its version, so equal versions mean equal tags. */
  lemma CandidateIsCanonical(tag: string)
    requires CandidateOf(tag).Some?
    ensures CandidateOf(tag).value.tag == TagOf(CandidateOf(tag).value.version)
  {
    var n := NormalizeStableVersion(tag).value;
    NormalizedCore(tag);
    NormalizedIsTrimmed(n);
    NormalizedCore(n);
    PartsOfVersion(Core(n), CandidateOf(tag).value.version);
    assert n == ['v'] + Core(n);
  }

  lemma StableCharacters(raw: string, c: char)
    requires IsStable(raw) && c in raw
    ensures c == 'v' || c == '.' || IsDigit(c)
  {
    var parts := Split(Core(raw), '.');
    JoinOfSplit(Core(raw), '.');
    assert parts == [parts[0], parts[1], parts[2]];
    JoinThree(parts[0], parts[1], parts[2]);
    assert c in Core(raw) || c == raw[0];
  }

  /** Pre-release and build suffixes are never candidates. */
  lemma SuffixedTagsExcluded(tag: string, c: char)
    requires c in TrimSpace(tag) && (c == '-' || c == '+')
    ensures CandidateOf(tag).None?
  {
    if IsStable(TrimSpace(tag)) { StableCharacters(TrimSpace(tag), c); }
  }

  // ----- Selection

  /** The best candidate so far; ties keep the earlier one. */
  function Best(tags: seq<string>): Option<Candidate> {
    if tags == [] then None
    else
      var best, c := Best(tags[..|tags| - 1]), CandidateOf(tags[|tags| - 1]);
      if c.Some? && (best.None? || c.value.version.GreaterThan(best.value.version)) then c else best
  }

  function SelectLatest(tags: seq<string>): Result<string> {
    match Best(tags)
    case None => Err("no stable release tags found")
    case Some(c) => Ok(c.tag)
  }

  method SelectLatestStableTag(tags: seq<string>) returns (r: Result<string>)
    ensures r == SelectLatest(tags)
  {
    var bestTag := "";
    var best := Version(0, 0, 0);
    var found := false;
    for k := 0 to |tags|
      invariant Best(tags[..k]) == if found then Some(Candidate(bestTag, best)) else None
    {
      assert tags[..k + 1][..k] == tags[..k];
      ghost var candidate := CandidateOf(tags[k]);
      var normalized := NormalizeStableVersion(tags[k]);
      if normalized.None? {
        continue;
      }
      var parsed := ParseStableVersion(normalized.value);
      if parsed.None? {
        continue;
      }
      if !found || parsed.value.GreaterThan(best) {
        best := parsed.value;
        bestTag := normalized.value;
        found := true;
      }
    }
    assert tags[..|tags|] == tags;
    if !found {
      return Err("no stable release tags found");
    }
    return Ok(bestTag);
  }

  predicate Listed(tags: seq<string>, c: Candidate) {
    tags != [] && (CandidateOf(tags[|tags| - 1]) == Some(c) || Listed(tags[..|tags| - 1], c))
  }

  /** The selected candidate is listed and no listed candidate is greater; nothing is selected only
      when nothing qualifies. */
  lemma {:induction false} BestIsGreatest(tags: seq<string>, c: Candidate)
    ensures Best(tags).Some? ==> Listed(tags, Best(tags).value)
    ensures Listed(tags, c) ==> Best(tags).Some? && !Newer(c.version, Best(tags).value.version)
  {
    if tags != [] {
      var init := tags[..|tags| - 1];
      BestIsGreatest(init, c);
      if Best(init).Some? && CandidateOf(tags[|tags| - 1]).Some? {
        var before, last := Best(init).value.version, CandidateOf(tags[|tags| - 1]).value.version;
        PrecedenceIsLexicographic(last, before);
        PrecedenceIsLexicographic(c.version, before);
        PrecedenceIsLexicographic(c.version, last);
      }
      if Best(tags).Some? { PrecedenceIsLexicographic(c.version, Best(tags).value.version); }
    }
  }

  lemma {:induction false} ListedIsCanonical(tags: seq<string>, c: Candidate)
    requires Listed(tags, c)
    ensures c.tag == TagOf(c.version)
  {
    if CandidateOf(tags[|tags| - 1]) == Some(c) {
      CandidateIsCanonical(tags[|tags| - 1]);
    } else {
      ListedIsCanonical(tags[..|tags| - 1], c);
    }
  }

  /** The selection depends only on which candidates are listed: not on their order, their
      repetitions, their spelling, or on tags that are not candidates. */
  lemma SelectionIgnoresOrder(a: seq<string>, b: seq<string>)
    requires forall c: Candidate :: Listed(a, c) <==> Listed(b, c)
    ensures SelectLatest(a) == SelectLatest(b)
  {
    if Best(a).Some? {
      var x := Best(a).value;
      BestIsGreatest(a, x);
      BestIsGreatest(b, x);
      var y := Best(b).value;
      BestIsGreatest(b, y);
      BestIsGreatest(a, y);
      PrecedenceIsLexicographic(x.version, y.version);
      PrecedenceIsLexicographic(y.version, x.version);
      ListedIsCanonical(a, x);
      ListedIsCanonical(a, y);
    } else if Best(b).Some? {
      BestIsGreatest(b, Best(b).value);
      BestIsGreatest(a, Best(b).value);
    }
  }

  lemma CanonicalSplit(v: Version)
    ensures Core(TagOf(v)) == Join([Render(v.major), Render(v.minor), Render(v.patch)], '.')
    ensures Split(Core(TagOf(v)), '.') == [Render(v.major), Render(v.minor), Render(v.patch)]
    ensures IsStable(TagOf(v)) && NormalizeStableVersion(TagOf(v)) == Some(TagOf(v))
  {
    var parts := [Render(v.major), Render(v.minor), Render(v.patch)];
    forall i | 0 <= i < |parts| ensures '.' !in parts[i] { }
    SplitOfJoin(parts, '.');
    var tag := TagOf(v);
    assert tag[1..] == Join(parts, '.');
    NormalizedIsTrimmed(tag);
    assert ['v'] + tag[1..] == tag;
  }

  predicate FitsInt(v: Version) { v.major <= MAX_INT && v.minor <= MAX_INT && v.patch <= MAX_INT }

  lemma CanonicalParses(v: Version)
    requires FitsInt(v)
    ensures ParseStableVersion(TagOf(v)) == Some(v)
  {
    CanonicalSplit(v);
    var parts := [Render(v.major), Render(v.minor), Render(v.patch)];
    assert parts[0] == Render(v.major) && parts[1] == Render(v.minor) && parts[2] == Render(v.patch);
    AtoiOfRender(v.major);
    AtoiOfRender(v.minor);
    AtoiOfRender(v.patch);
  }

  lemma AtoiOfRender(n: nat)
    requires n <= MAX_INT
    ensures Atoi(Render(n)) == Some(n)
  {
    ValueOfRender(n);
  }

  /** Every version that fits an int is a candidate under its canonical tag. */
  lemma CanonicalTagQualifies(v: Version)
    requires FitsInt(v)
    ensures CandidateOf(TagOf(v)) == Some(Candidate(TagOf(v), v))
  {
    CanonicalSplit(v);
    CanonicalParses(v);
  }

  // ----- Which tags qualify

  lemma NormalizedSpelling(s: string, n: string)
    requires NormalizeStableVersion(s) == Some(n)
    ensures n != "" && (TrimSpace(s) == n || TrimSpace(s) == n[1..])
  {
    var t := TrimSpace(s);
    NormalizedCore(s);
    assert n[1..] == Core(t);
    if t[0] == 'v' { assert t == ['v'] + t[1..]; }
  }

  lemma SpellingNormalizes(s: string, core: string)
    requires IsStable(['v'] + core) && (TrimSpace(s) == ['v'] + core || TrimSpace(s) == core)
    ensures NormalizeStableVersion(s) == Some(['v'] + core)
  {
    var t := TrimSpace(s);
    assert Core(['v'] + core) == core;
    StableShape(['v'] + core);
    assert Core(t) == core;
    assert IsStable(t);
    NormalizedCore(s);
  }

  /** A text normalizes to a canonical tag exactly when it is that tag, blanks aside, with or without
      the leading v. */
  lemma VersionSpellings(s: string, v: Version)
    ensures NormalizeStableVersion(s) == Some(TagOf(v))
            <==> TrimSpace(s) == TagOf(v) || TrimSpace(s) == TagOf(v)[1..]
  {
    var tag := TagOf(v);
    if NormalizeStableVersion(s) == Some(tag) { NormalizedSpelling(s, tag); }
    if TrimSpace(s) == tag || TrimSpace(s) == tag[1..] {
      CanonicalSplit(v);
      assert tag == ['v'] + tag[1..];
      SpellingNormalizes(s, tag[1..]);
    }
  }

  lemma ParsedFits(tag: string, v: Version)
    requires ParseStableVersion(tag) == Some(v)
    ensures FitsInt(v)
  {
  }

  lemma CandidateParts(tag: string, c: Candidate)
    requires CandidateOf(tag) == Some(c)
    ensures NormalizeStableVersion(tag) == Some(c.tag) && ParseStableVersion(c.tag) == Some(c.version)
  {
  }

  lemma SpellingQualifies(tag: string, v: Version)
    requires NormalizeStableVersion(tag) == Some(TagOf(v)) && FitsInt(v)
    ensures CandidateOf(tag) == Some(Candidate(TagOf(v), v))
  {
    CanonicalParses(v);
  }

  /** A tag takes part in the selection as version `v` exactly when it spells `v` and every part of
      `v` fits an int. */
  lemma QualifiesIff(tag: string, v: Version)
    ensures CandidateOf(tag) == Some(Candidate(TagOf(v), v))
            <==> FitsInt(v) && (TrimSpace(tag) == TagOf(v) || TrimSpace(tag) == TagOf(v)[1..])
  {
    VersionSpellings(tag, v);
    if CandidateOf(tag) == Some(Candidate(TagOf(v), v)) {
      CandidateParts(tag, Candidate(TagOf(v), v));
      ParsedFits(TagOf(v), v);
    } else if FitsInt(v) && NormalizeStableVersion(tag) == Some(TagOf(v)) {
      SpellingQualifies(tag, v);
    }
  }

  /** The selected tag is the canonical one of a listed version than which no listed version is newer,
      and there is none exactly when no listed tag qualifies. */
  lemma SelectsLatest(tags: seq<string>)
    ensures match SelectLatest(tags)
            case Ok(tag) => exists best :: Listed(tags, best) && tag == TagOf(best.version)
                                           && forall c :: Listed(tags, c) ==> !Newer(c.version, best.version)
            case Err(_) => forall c :: !Listed(tags, c)
  {
    if Best(tags).Some? {
      BestIsGreatest(tags, Best(tags).value);
      ListedIsCanonical(tags, Best(tags).value);
    }
    forall c ensures Listed(tags, c) ==> Best(tags).Some? && !Newer(c.version, Best(tags).value.version) {
      BestIsGreatest(tags, c);
    }
  }
}
