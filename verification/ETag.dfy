/** Revalidation of runtime message bundles (sections 8.8.3 and 13.1.2 of RFC 9110). */
module ETag {
  import opened GoStrings
  import opened Decimal
  import opened Fingerprint
  import opened Locales

  // ----- The validator

  function BuildETag(locale: string, version: nat, fingerprint: string): Option<string> {
    var f := TrimSpace(fingerprint);
    if f == "" then None
    else Some(['"'] + ((locale + (['-'] + Render(version))) + (['-'] + (f + ['"']))))
  }

  /** A fingerprint that is not blank has a validator: locale, version and fingerprint without its blanks,
      hyphens between them and quotes around. */
  lemma TagShape(locale: string, version: nat, fingerprint: string)
    ensures var tag := BuildETag(locale, version, fingerprint);
            && (tag.Some? <==> exists i :: 0 <= i < |fingerprint| && !IsSpace(fingerprint[i]))
            && (tag.Some? ==>
                  var t := tag.value;
                  && |t| >= 2 && t[0] == '"' && t[|t| - 1] == '"'
                  && t[1..|t| - 1] == Join([locale, Render(version), TrimSpace(fingerprint)], '-'))
  {
    TrimToNothing(fingerprint, Whitespace);
    var f := TrimSpace(fingerprint);
    var inner := locale + (['-'] + (Render(version) + (['-'] + f)));
    assert [locale, Render(version), f][1..] == [Render(version), f] && [Render(version), f][1..] == [f];
    assert Join([f], '-') == f;
    assert Join([Render(version), f], '-') == Render(version) + (['-'] + f);
    if f != "" {
      var t := BuildETag(locale, version, fingerprint).value;
      assert t == ['"'] + (inner + ['"']);
      assert t[1..|t| - 1] == inner;
    }
  }

  /** The text before and after the last occurrence of `c`. */
  function LastCut(s: string, c: char): (string, string) {
    if s == "" then ("", "")
    else if s[|s| - 1] == c then (s[..|s| - 1], "")
    else
      var (a, b) := LastCut(s[..|s| - 1], c);
      (a, b + [s[|s| - 1]])
  }

  lemma {:induction false} LastCutOf(a: string, c: char, b: string)
    requires c !in b
    ensures LastCut(a + ([c] + b), c) == (a, b)
  {
    var s := a + ([c] + b);
    if b == "" {
      assert s[|s| - 1] == c && s[..|s| - 1] == a;
    } else {
      var init := b[..|b| - 1];
      LastCutOf(a, c, init);
      assert s[|s| - 1] == b[|b| - 1] && s[..|s| - 1] == a + ([c] + init);
      assert b == init + [b[|b| - 1]];
    }
  }

  /** With fingerprints free of hyphens, as hexadecimal digests are, equal validators mean the same
      locale, version and fingerprint, whatever hyphens the locale has. */
  lemma ETagIdentifiesBundle(l1: string, v1: nat, f1: string, l2: string, v2: nat, f2: string)
    requires '-' !in TrimSpace(f1) && '-' !in TrimSpace(f2)
    requires BuildETag(l1, v1, f1).Some? && BuildETag(l1, v1, f1) == BuildETag(l2, v2, f2)
    ensures l1 == l2 && v1 == v2 && TrimSpace(f1) == TrimSpace(f2)
  {
    var a1, a2 := l1 + (['-'] + Render(v1)), l2 + (['-'] + Render(v2));
    var b1, b2 := TrimSpace(f1) + ['"'], TrimSpace(f2) + ['"'];
    assert BuildETag(l1, v1, f1).value[1..] == a1 + (['-'] + b1);
    assert BuildETag(l2, v2, f2).value[1..] == a2 + (['-'] + b2);
    LastCutOf(a1, '-', b1);
    LastCutOf(a2, '-', b2);
    NoHyphen(Render(v1));
    NoHyphen(Render(v2));
    LastCutOf(l1, '-', Render(v1));
    LastCutOf(l2, '-', Render(v2));
    ValueOfRender(v1);
    ValueOfRender(v2);
    assert b1[..|b1| - 1] == TrimSpace(f1) && b2[..|b2| - 1] == TrimSpace(f2);
  }

  lemma NoHyphen(d: string)
    requires AllDigits(d)
    ensures '-' !in d
  {
  }

  // ----- The header

  predicate Candidate(part: string, etag: string) {
    TrimSpace(part) == "*" || TrimSpace(part) == etag
  }

  predicate AnyCandidate(parts: seq<string>, etag: string) {
    parts != [] && (Candidate(parts[0], etag) || AnyCandidate(parts[1..], etag))
  }

  method MatchesIfNoneMatch(headerValue: string, etag: string) returns (r: bool)
    ensures r == Matches(headerValue, etag)
  {
    if etag == "" {
      return false;
    }
    var trimmedHeader := TrimSpace(headerValue);
    if trimmedHeader == "" {
      return false;
    }
    var parts := Split(trimmedHeader, ',');
    for k := 0 to |parts|
      invariant AnyCandidate(parts, etag) == AnyCandidate(parts[k..], etag)
    {
      assert parts[k..][0] == parts[k] && parts[k..][1..] == parts[k + 1..];
      var candidate := TrimSpace(parts[k]);
      if candidate == "" {
        continue;
      }
      if candidate == "*" || candidate == etag {
        return true;
      }
    }
    return false;
  }

  predicate Matches(headerValue: string, etag: string) {
    etag != "" && TrimSpace(headerValue) != "" && AnyCandidate(Split(TrimSpace(headerValue), ','), etag)
  }

  lemma {:induction false} TrimDropsFront(c: char, s: string)
    requires IsSpace(c)
    ensures TrimSpace([c] + s) == TrimSpace(s)
  {
    assert ([c] + s)[1..] == s;
  }

  lemma {:induction false} TrimRightDrops(s: string, right: string)
    requires forall i :: 0 <= i < |right| ==> IsSpace(right[i])
    ensures TrimRight(s + right, Whitespace) == TrimRight(s, Whitespace)
  {
    if right == "" {
      assert s + right == s;
    } else {
      var w := s + right;
      assert w[|w| - 1] == right[|right| - 1] && w[..|w| - 1] == s + right[..|right| - 1];
      TrimRightDrops(s, right[..|right| - 1]);
    }
  }

  lemma {:induction false} TrimDropsBack(s: string, right: string)
    requires forall i :: 0 <= i < |right| ==> IsSpace(right[i])
    ensures TrimSpace(s + right) == TrimSpace(s)
  {
    if s == "" {
      assert s + right == right;
      TrimToNothing(right, Whitespace);
    } else {
      assert (s + right)[0] == s[0] && (s + right)[1..] == s[1..] + right;
      if IsSpace(s[0]) {
        TrimDropsBack(s[1..], right);
      } else {
        TrimRightDrops(s, right);
      }
    }
  }

  /** Blanks before a list do not change its candidates. */
  lemma {:induction false} PaddedFront(left: string, s: string, etag: string)
    requires forall i :: 0 <= i < |left| ==> IsSpace(left[i])
    ensures AnyCandidate(Split(left + s, ','), etag) == AnyCandidate(Split(s, ','), etag)
  {
    if left == "" {
      assert left + s == s;
    } else {
      PaddedFront(left[1..], s, etag);
      HeadFirst(left, s);
      OneBlankInFront(left[0], left[1..] + s, etag);
    }
  }

  lemma HeadFirst(left: string, s: string)
    requires left != ""
    ensures left + s == [left[0]] + (left[1..] + s)
  {
  }

  lemma OneBlankInFront(c: char, t: string, etag: string)
    requires IsSpace(c)
    ensures AnyCandidate(Split([c] + t, ','), etag) == AnyCandidate(Split(t, ','), etag)
  {
    var parts := Split(t, ',');
    assert ([c] + t)[1..] == t;
    SplitCons([c] + t, parts, ',');
    TrimDropsFront(c, parts[0]);
    assert ([[c] + parts[0]] + parts[1..])[1..] == parts[1..];
  }

  /** Neither do blanks behind it. */
  lemma {:induction false} PaddedBack(s: string, right: string, etag: string)
    requires forall i :: 0 <= i < |right| ==> IsSpace(right[i])
    ensures AnyCandidate(Split(s + right, ','), etag) == AnyCandidate(Split(s, ','), etag)
  {
    if ',' in s {
      var k :| 0 <= k < |s| && s[k] == ',';
      var a, b := s[..k], s[k + 1..];
      CutAt(s, k);
      SplitAround(a, b, ',');
      SplitAround(a, b + right, ',');
      Assoc(a, [','] + b, right);
      Assoc([','], b, right);
      PaddedBack(b, right, etag);
      CandidatesConcat(Split(a, ','), Split(b, ','), etag);
      CandidatesConcat(Split(a, ','), Split(b + right, ','), etag);
    } else {
      SplitFirst(s, "", ',');
      SplitFirst(s + right, "", ',');
      TrimDropsBack(s, right);
    }
  }

  lemma {:induction false} CandidatesConcat(a: seq<string>, b: seq<string>, etag: string)
    ensures AnyCandidate(a + b, etag) == (AnyCandidate(a, etag) || AnyCandidate(b, etag))
  {
    if a == [] {
      assert a + b == b;
    } else {
      assert (a + b)[1..] == a[1..] + b;
      CandidatesConcat(a[1..], b, etag);
    }
  }

  /** The header matches exactly when one comma-separated element, blanks aside, is the wildcard or
      the validator. */
  lemma MatchIsListMembership(headerValue: string, etag: string)
    ensures Matches(headerValue, etag) <==> etag != "" && AnyCandidate(Split(headerValue, ','), etag)
  {
    var t := TrimSpace(headerValue);
    var left, right := TrimCuts(headerValue, Whitespace);
    PaddedFront(left, t + right, etag);
    PaddedBack(t, right, etag);
    if t == "" {
      assert Split("", ',') == [""];
      assert TrimSpace("") == "";
    }
  }

  lemma {:induction false} AnyCandidateIff(parts: seq<string>, etag: string)
    ensures AnyCandidate(parts, etag)
            <==> exists i :: 0 <= i < |parts| && (TrimSpace(parts[i]) == "*" || TrimSpace(parts[i]) == etag)
  {
    if parts != [] {
      AnyCandidateIff(parts[1..], etag);
      if i :| 0 <= i < |parts| && (TrimSpace(parts[i]) == "*" || TrimSpace(parts[i]) == etag) {
        if i > 0 { assert parts[1..][i - 1] == parts[i]; }
      }
    }
  }

  /** Of the list of a header, one element decides. */
  lemma MatchesIffElement(headerValue: string, etag: string)
    ensures var parts := Split(headerValue, ',');
            Matches(headerValue, etag)
            <==> etag != "" && exists i :: 0 <= i < |parts|
                                           && (TrimSpace(parts[i]) == "*" || TrimSpace(parts[i]) == etag)
  {
    MatchIsListMembership(headerValue, etag);
    AnyCandidateIff(Split(headerValue, ','), etag);
  }

  /** Any list of comma-free elements is read back element by element. */
  lemma ListHeaderMatches(elements: seq<string>, etag: string)
    requires elements != [] && forall i :: 0 <= i < |elements| ==> ',' !in elements[i]
    ensures Matches(Join(elements, ','), etag) <==> etag != "" && AnyCandidate(elements, etag)
  {
    MatchIsListMembership(Join(elements, ','), etag);
    SplitOfJoin(elements, ',');
  }

  /** A client that echoes the validator it was sent gets a match exactly when the validator holds no
      comma, or holds a bare `*` between its commas. */
  lemma EchoMatchesIff(locale: string, version: nat, fingerprint: string)
    requires BuildETag(locale, version, fingerprint).Some?
    ensures var etag := BuildETag(locale, version, fingerprint).value;
            Matches(etag, etag) <==> ',' !in etag || AnyCandidate(Split(etag, ','), "*")
  {
    var etag := BuildETag(locale, version, fingerprint).value;
    assert etag[0] == '"' && etag[|etag| - 1] == '"';
    TrimOfTrimmed(etag, Whitespace);
    MatchIsListMembership(etag, etag);
    if ',' !in etag {
      SplitFirst(etag, "", ',');
    } else {
      CommaFreeParts(Split(etag, ','), etag);
    }
  }

  /** A string with a comma is none of its own comma-separated parts. */
  lemma {:induction false} CommaFreeParts(parts: seq<string>, etag: string)
    requires ',' in etag && forall i :: 0 <= i < |parts| ==> ',' !in parts[i]
    ensures AnyCandidate(parts, etag) == AnyCandidate(parts, "*")
  {
    if parts != [] {
      CommaFreeParts(parts[1..], etag);
      if TrimSpace(parts[0]) == etag { TrimKeepsMembers(parts[0], Whitespace, ','); }
    }
  }

  // ----- Revalidation of what the service serves

  /** What a validator is built from: a canonical locale, the bundle version and the fingerprint. */
  datatype Revision = Revision(locale: string, version: nat, fingerprint: string)

  predicate Served(r: Revision) { LocaleText(r.locale) && HexText(r.fingerprint) && r.fingerprint != "" }

  lemma HexIsTrimmed(f: string)
    requires HexText(f)
    ensures TrimSpace(f) == f && '-' !in f
  {
    TrimOfTrimmed(f, Whitespace);
  }

  lemma ServedHasTag(r: Revision)
    requires Served(r)
    ensures BuildETag(r.locale, r.version, r.fingerprint).Some?
  {
    HexIsTrimmed(r.fingerprint);
  }

  function TagOf(r: Revision): string
    requires Served(r)
  {
    ServedHasTag(r);
    BuildETag(r.locale, r.version, r.fingerprint).value
  }

  lemma TagText(r: Revision)
    requires Served(r)
    ensures var etag := TagOf(r);
            ',' !in etag && etag != "" && etag != "*" && Trimmed(etag, Whitespace)
  {
    HexIsTrimmed(r.fingerprint);
    var etag := TagOf(r);
    assert etag[0] == '"' && etag[|etag| - 1] == '"';
  }

  lemma TagIdentifies(a: Revision, b: Revision)
    requires Served(a) && Served(b)
    ensures TagOf(a) == TagOf(b) <==> a == b
  {
    HexIsTrimmed(a.fingerprint);
    HexIsTrimmed(b.fingerprint);
    if TagOf(a) == TagOf(b) {
      ETagIdentifiesBundle(a.locale, a.version, a.fingerprint, b.locale, b.version, b.fingerprint);
    }
  }

  predicate AllServed(rs: seq<Revision>) { rs == [] || (Served(rs[0]) && AllServed(rs[1..])) }

  /** The comma-separated elements are, blanks aside, the validators of the given revisions. */
  predicate Echoes(elements: seq<string>, rs: seq<Revision>)
    requires AllServed(rs)
  {
    if rs == [] then elements == []
    else elements != [] && TrimSpace(elements[0]) == TagOf(rs[0]) && Echoes(elements[1..], rs[1..])
  }

  lemma {:induction false} EchoedIffListed(elements: seq<string>, rs: seq<Revision>, current: Revision)
    requires AllServed(rs) && Served(current) && Echoes(elements, rs)
    ensures AnyCandidate(elements, TagOf(current)) <==> current in rs
  {
    if rs != [] {
      TagText(rs[0]);
      TagIdentifies(rs[0], current);
      EchoedIffListed(elements[1..], rs[1..], current);
      assert rs == [rs[0]] + rs[1..];
    }
  }

  /** A client that sends back the validators it holds, in any number and with any blanks around them,
      is told that nothing changed exactly when the current revision is one of them. */
  lemma RevalidatesIffHeld(header: string, rs: seq<Revision>, current: Revision)
    requires AllServed(rs) && Served(current) && Echoes(Split(header, ','), rs)
    ensures Matches(header, TagOf(current)) <==> current in rs
  {
    MatchIsListMembership(header, TagOf(current));
    TagText(current);
    EchoedIffListed(Split(header, ','), rs, current);
  }

  /** Such headers exist: the validators joined by commas are read back one by one. */
  lemma {:induction false} JoinedTagsEcho(rs: seq<Revision>) returns (elements: seq<string>)
    requires AllServed(rs) && rs != []
    ensures Split(Join(elements, ','), ',') == elements && elements != [] && Echoes(elements, rs)
    ensures forall i :: 0 <= i < |elements| ==> ',' !in elements[i]
  {
    TagText(rs[0]);
    TrimOfTrimmed(TagOf(rs[0]), Whitespace);
    if |rs| == 1 {
      elements := [TagOf(rs[0])];
      assert elements[1..] == [] && rs[1..] == [];
    } else {
      var rest := JoinedTagsEcho(rs[1..]);
      elements := [TagOf(rs[0])] + rest;
      assert elements[1..] == rest;
    }
    SplitOfJoin(elements, ',');
  }

  /** The revision of one catalog under a raw locale, as the service computes it. */
  ghost function RevisionOf(rawLocale: string, version: nat, messages: Messages, hash: string -> Digest): (r: Revision)
    ensures Served(r)
  {
    NormalizedIsCanonical(rawLocale);
    Revision(NormalizeLocale(rawLocale), version, FingerprintOf(hash, messages))
  }

  /** End to end, short of a hash collision: one bundle's validator matches another's exactly when
      both have the same locale, however it was spelled, the same version and the same messages. */
  lemma NotModifiedIff(l1: string, v1: nat, m1: Messages, l2: string, v2: nat, m2: Messages, hash: string -> Digest)
    requires NoCollision(hash, DigestedText(m1), DigestedText(m2))
    ensures Matches(TagOf(RevisionOf(l1, v1, m1, hash)), TagOf(RevisionOf(l2, v2, m2, hash)))
            <==> NormalizeLocale(l1) == NormalizeLocale(l2) && v1 == v2 && m1 == m2
  {
    var held, current := RevisionOf(l1, v1, m1, hash), RevisionOf(l2, v2, m2, hash);
    TagText(held);
    TrimOfTrimmed(TagOf(held), Whitespace);
    SplitFirst(TagOf(held), "", ',');
    assert [held][1..] == [] && [TagOf(held)][1..] == [];
    RevalidatesIffHeld(TagOf(held), [held], current);
    FingerprintIdentifies(hash, m1, m2);
  }

  // ----- Weak comparison

  /** The opaque tag of an entity tag, weak or strong (section 8.8.3 of RFC 9110). */
  function Opaque(tag: string): string { if |tag| >= 2 && tag[0] == 'W' && tag[1] == '/' then tag[2..] else tag }

  /** Weak comparison (section 8.8.3.2): the opaque tags are equal. */
  predicate WeaklyEqual(a: string, b: string) { Opaque(a) == Opaque(b) }

  predicate AnyWeakly(parts: seq<string>, etag: string) {
    parts != [] && (TrimSpace(parts[0]) == "*" || WeaklyEqual(TrimSpace(parts[0]), etag) || AnyWeakly(parts[1..], etag))
  }

  /** Some element is the weak form of the validator. */
  predicate AnyWeakForm(parts: seq<string>, etag: string) {
    parts != [] && (TrimSpace(parts[0]) == ['W', '/'] + etag || AnyWeakForm(parts[1..], etag))
  }

  lemma WeaklyEqualIff(part: string, etag: string)
    requires etag != "" && etag[0] != 'W'
    ensures WeaklyEqual(part, etag) <==> part == etag || part == ['W', '/'] + etag
  {
    if part == ['W', '/'] + etag { assert part[2..] == etag; }
    if Opaque(part) == etag && part != etag { assert part == ['W', '/'] + part[2..]; }
  }

  lemma {:induction false} AnyWeaklyIff(parts: seq<string>, etag: string)
    requires etag != "" && etag[0] != 'W'
    ensures AnyWeakly(parts, etag) <==> AnyCandidate(parts, etag) || AnyWeakForm(parts, etag)
  {
    if parts != [] {
      WeaklyEqualIff(TrimSpace(parts[0]), etag);
      AnyWeaklyIff(parts[1..], etag);
    }
  }

  /** If-None-Match asks for weak comparison (section 13.1.2 of RFC 9110) and the code compares exactly:
      the two disagree exactly on headers that match nothing but weak forms of the validator. */
  lemma ExactIsWeakIff(header: string, current: Revision)
    requires Served(current)
    ensures var etag := TagOf(current);
            (Matches(header, etag) <==> AnyWeakly(Split(header, ','), etag))
            <==> (AnyWeakForm(Split(header, ','), etag) ==> Matches(header, etag))
  {
    TagText(current);
    MatchIsListMembership(header, TagOf(current));
    AnyWeaklyIff(Split(header, ','), TagOf(current));
  }

  /** A proxy that weakens the validator makes the client fetch the bundle again. */
  lemma WeakenedValidatorMisses(current: Revision)
    requires Served(current)
    ensures var etag := TagOf(current);
            !Matches(['W', '/'] + etag, etag) && AnyWeakly(Split(['W', '/'] + etag, ','), etag)
  {
    var etag := TagOf(current);
    var weak := ['W', '/'] + etag;
    TagText(current);
    assert weak[|weak| - 1] == etag[|etag| - 1];
    TrimOfTrimmed(weak, Whitespace);
    SplitFirst(weak, "", ',');
    assert [weak][1..] == [];
    MatchIsListMembership(weak, etag);
    WeaklyEqualIff(weak, etag);
    assert |weak| == |etag| + 2;
  }
}
