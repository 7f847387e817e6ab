/** Canonical locale codes: `zh_cn`, ` ZH-CN ` and `zh-CN` are one locale. */
module Locales {
  import opened GoStrings

  predicate IsAlnum(c: char) { 'a' <= c <= 'z' || 'A' <= c <= 'Z' || '0' <= c <= '9' }

  /** Only ASCII letters and digits. */
  predicate IsWord(s: string) { forall i :: 0 <= i < |s| ==> IsAlnum(s[i]) }

  function LowerChar(c: char): char { if 'A' <= c <= 'Z' then (c as int + 32) as char else c }

  function UpperChar(c: char): char { if 'a' <= c <= 'z' then (c as int - 32) as char else c }

  /** strings.ToLower and strings.ToUpper on ASCII words. */
  function Lower(s: string): (r: string)
    ensures |r| == |s|
    ensures forall i :: 0 <= i < |s| ==> r[i] == LowerChar(s[i])
  {
    if s == "" then "" else [LowerChar(s[0])] + Lower(s[1..])
  }

  function Upper(s: string): (r: string)
    ensures |r| == |s|
    ensures forall i :: 0 <= i < |s| ==> r[i] == UpperChar(s[i])
  {
    if s == "" then "" else [UpperChar(s[0])] + Upper(s[1..])
  }

  /** The case of a segment: language lower, script titled, region upper, anything else lower. */
  function Cased(index: nat, segment: string): string {
    if index == 0 then Lower(segment)
    else if |segment| == 4 then Upper(segment[..1]) + Lower(segment[1..])
    else if |segment| == 2 || |segment| == 3 then Upper(segment)
    else Lower(segment)
  }

  /** The cased segments, or None when one is blank or not a word. */
  function CasedSegments(segments: seq<string>): Option<seq<string>> {
    if segments == [] then Some([])
    else
      var n := |segments| - 1;
      var segment := TrimSpace(segments[n]);
      match CasedSegments(segments[..n])
      case None => None
      case Some(cased) =>
        if segment == "" || !IsWord(segment) then None else Some(cased + [Cased(n, segment)])
  }

  function NormalizeLocale(value: string): string {
    var normalized := TrimSpace(ReplaceAll(value, "_", "-"));
    if normalized == "" then ""
    else
      match CasedSegments(Split(normalized, '-'))
      case None => ""
      case Some(segments) => Join(segments, '-')
  }

  /** The loop as written, rewriting the segments in place. */
  method RunNormalizeLocale(value: string) returns (locale: string)
    ensures locale == NormalizeLocale(value)
  {
    var normalized := TrimSpace(ReplaceAll(value, "_", "-"));
    if normalized == "" {
      return "";
    }
    var segments := Split(normalized, '-');
    var raw := segments;
    for index := 0 to |raw|
      invariant |segments| == |raw| && segments[index..] == raw[index..]
      invariant CasedSegments(raw[..index]) == Some(segments[..index])
    {
      assert segments[index..][0] == raw[index..][0];
      assert raw[..index + 1][..index] == raw[..index];
      var segment := TrimSpace(segments[index]);
      if segment == "" || !IsWord(segment) {
        RejectedFrom(raw, index + 1);
        return "";
      }
      UpdateAt(segments, raw, index, Cased(index, segment));
      segments := segments[index := Cased(index, segment)];
    }
    assert raw[..|raw|] == raw && segments[..|raw|] == segments;
    locale := Join(segments, '-');
  }

  lemma UpdateAt(segments: seq<string>, raw: seq<string>, k: nat, x: string)
    requires k < |segments| == |raw| && segments[k..] == raw[k..]
    ensures segments[k := x][..k + 1] == segments[..k] + [x]
    ensures segments[k := x][k + 1..] == raw[k + 1..]
  {
    assert segments[k..][1..] == raw[k..][1..];
  }

  lemma {:induction false} RejectedFrom(segments: seq<string>, k: nat)
    requires k <= |segments| && CasedSegments(segments[..k]).None?
    ensures CasedSegments(segments).None?
    decreases |segments|
  {
    if k == |segments| {
      assert segments[..k] == segments;
    } else {
      var init := segments[..|segments| - 1];
      assert init[..k] == segments[..k];
      RejectedFrom(init, k);
    }
  }

  // ----- What a canonical code looks like

  predicate HasUpper(s: string) { exists i :: 0 <= i < |s| && 'A' <= s[i] <= 'Z' }

  predicate HasLower(s: string) { exists i :: 0 <= i < |s| && 'a' <= s[i] <= 'z' }

  /** The first segment has no capitals; a later one of four characters is titled, one of two or three is
      all capitals, and any other one has none. */
  predicate InProperCase(index: nat, segment: string) {
    if index > 0 && |segment| == 4 then !HasLower(segment[..1]) && !HasUpper(segment[1..])
    else if index > 0 && 2 <= |segment| <= 3 then !HasLower(segment)
    else !HasUpper(segment)
  }

  lemma LowerFixesIff(s: string)
    ensures Lower(s) == s <==> !HasUpper(s)
  {
    if Lower(s) == s {
      forall i | 0 <= i < |s| ensures !('A' <= s[i] <= 'Z') { assert Lower(s)[i] == LowerChar(s[i]); }
    }
  }

  lemma UpperFixesIff(s: string)
    ensures Upper(s) == s <==> !HasLower(s)
  {
    if Upper(s) == s {
      forall i | 0 <= i < |s| ensures !('a' <= s[i] <= 'z') { assert Upper(s)[i] == UpperChar(s[i]); }
    }
  }

  lemma CasedFixesIff(index: nat, segment: string)
    ensures Cased(index, segment) == segment <==> InProperCase(index, segment)
  {
    LowerFixesIff(segment);
    UpperFixesIff(segment);
    if index > 0 && |segment| == 4 {
      LowerFixesIff(segment[1..]);
      UpperFixesIff(segment[..1]);
      var head, tail := Upper(segment[..1]), Lower(segment[1..]);
      assert (head + tail)[..1] == head && (head + tail)[1..] == tail;
      assert segment == segment[..1] + segment[1..];
    }
  }

  /** The segments are non-empty words in their proper case. */
  predicate ProperSegments(segments: seq<string>) {
    segments == [] ||
    var n := |segments| - 1;
    segments[n] != "" && IsWord(segments[n]) && InProperCase(n, segments[n]) && ProperSegments(segments[..n])
  }

  /** Empty for no locale, else hyphenated proper segments. */
  predicate Canonical(locale: string) { locale == "" || ProperSegments(Split(locale, '-')) }

  predicate LocaleText(s: string) { forall i :: 0 <= i < |s| ==> IsAlnum(s[i]) || s[i] == '-' }

  lemma {:induction false} LowerWord(s: string)
    requires IsWord(s)
    ensures IsWord(Lower(s)) && Lower(Lower(s)) == Lower(s)
  {
    if s != "" {
      LowerWord(s[1..]);
      assert Lower(s)[1..] == Lower(s[1..]);
    }
  }

  lemma {:induction false} UpperWord(s: string)
    requires IsWord(s)
    ensures IsWord(Upper(s)) && Upper(Upper(s)) == Upper(s)
  {
    if s != "" {
      UpperWord(s[1..]);
      assert Upper(s)[1..] == Upper(s[1..]);
    }
  }

  lemma CasedIsProper(index: nat, segment: string)
    requires IsWord(segment)
    ensures |Cased(index, segment)| == |segment| && IsWord(Cased(index, segment))
    ensures Cased(index, Cased(index, segment)) == Cased(index, segment)
  {
    LowerWord(segment);
    UpperWord(segment);
    if index > 0 && |segment| == 4 {
      var head, tail := Upper(segment[..1]), Lower(segment[1..]);
      UpperWord(segment[..1]);
      LowerWord(segment[1..]);
      assert (head + tail)[..1] == head && (head + tail)[1..] == tail;
    }
  }

  lemma WordIsTrimmed(s: string)
    requires IsWord(s)
    ensures TrimSpace(s) == s && '-' !in s
  {
    TrimOfTrimmed(s, Whitespace);
  }

  lemma {:induction false} CasedSegmentsAreProper(segments: seq<string>)
    requires CasedSegments(segments).Some?
    ensures |CasedSegments(segments).value| == |segments| && ProperSegments(CasedSegments(segments).value)
  {
    if segments != [] {
      var n := |segments| - 1;
      var cased := CasedSegments(segments[..n]).value;
      CasedSegmentsAreProper(segments[..n]);
      CasedIsProper(n, TrimSpace(segments[n]));
      CasedFixesIff(n, Cased(n, TrimSpace(segments[n])));
      assert (cased + [Cased(n, TrimSpace(segments[n]))])[..n] == cased;
    }
  }

  lemma {:induction false} ProperIsFixed(segments: seq<string>)
    requires ProperSegments(segments)
    ensures CasedSegments(segments) == Some(segments)
  {
    if segments != [] {
      var n := |segments| - 1;
      ProperIsFixed(segments[..n]);
      WordIsTrimmed(segments[n]);
      CasedFixesIff(n, segments[n]);
      assert segments == segments[..n] + [segments[n]];
    }
  }

  lemma {:induction false} JoinIsLocaleText(segments: seq<string>)
    requires forall i :: 0 <= i < |segments| ==> IsWord(segments[i])
    ensures LocaleText(Join(segments, '-'))
  {
    if |segments| > 1 { JoinIsLocaleText(segments[1..]); }
  }

  lemma {:induction false} ProperAreWords(segments: seq<string>)
    requires ProperSegments(segments)
    ensures forall i :: 0 <= i < |segments| ==> IsWord(segments[i]) && segments[i] != ""
  {
    if segments != [] { ProperAreWords(segments[..|segments| - 1]); }
  }

  lemma ProperHaveNoHyphen(segments: seq<string>)
    requires ProperSegments(segments)
    ensures forall i :: 0 <= i < |segments| ==> '-' !in segments[i]
  {
    ProperAreWords(segments);
    forall i | 0 <= i < |segments| ensures '-' !in segments[i] { WordIsTrimmed(segments[i]); }
  }

  lemma {:induction false} NothingToReplace(s: string, c: char, d: char)
    requires c !in s
    ensures ReplaceAll(s, [c], [d]) == s
  {
    if s != "" {
      assert !([c] <= s) by { assert s[0] != c; }
      NothingToReplace(s[1..], c, d);
      assert s == [s[0]] + s[1..];
    }
  }

  /** Every normalized locale is canonical and made of ASCII letters, digits and hyphens. */
  lemma NormalizedIsCanonical(value: string)
    ensures Canonical(NormalizeLocale(value)) && LocaleText(NormalizeLocale(value))
  {
    var normalized := TrimSpace(ReplaceAll(value, "_", "-"));
    var segments := Split(normalized, '-');
    if normalized != "" && CasedSegments(segments).Some? {
      var cased := CasedSegments(segments).value;
      CasedSegmentsAreProper(segments);
      ProperAreWords(cased);
      ProperHaveNoHyphen(cased);
      JoinIsLocaleText(cased);
      SplitOfJoin(cased, '-');
    }
  }

  /** Normalization changes nothing exactly on the canonical codes; so it is idempotent. */
  lemma NormalizeFixesIff(value: string)
    ensures NormalizeLocale(value) == value <==> Canonical(value)
    ensures NormalizeLocale(NormalizeLocale(value)) == NormalizeLocale(value)
  {
    NormalizedIsCanonical(value);
    if Canonical(value) { CanonicalIsFixed(value); }
    CanonicalIsFixed(NormalizeLocale(value));
  }

  lemma CanonicalIsText(locale: string)
    requires Canonical(locale)
    ensures LocaleText(locale)
  {
    var segments := Split(locale, '-');
    if locale != "" {
      ProperAreWords(segments);
      JoinIsLocaleText(segments);
      JoinOfSplit(locale, '-');
    }
  }

  lemma TextIsClean(locale: string)
    requires LocaleText(locale)
    ensures TrimSpace(ReplaceAll(locale, "_", "-")) == locale
  {
    NothingToReplace(locale, '_', '-');
    TrimOfTrimmed(locale, Whitespace);
  }

  lemma CanonicalIsFixed(locale: string)
    requires Canonical(locale)
    ensures NormalizeLocale(locale) == locale
  {
    CanonicalIsText(locale);
    TextIsClean(locale);
    if locale != "" {
      ProperIsFixed(Split(locale, '-'));
      JoinOfSplit(locale, '-');
    }
  }

  // ----- What normalizing keeps and rejects

  predicate BadSegment(segment: string) { TrimSpace(segment) == "" || !IsWord(TrimSpace(segment)) }

  predicate HasBadSegment(segments: seq<string>) { exists i :: 0 <= i < |segments| && BadSegment(segments[i]) }

  lemma BadSegmentAppend(segments: seq<string>, segment: string)
    ensures HasBadSegment(segments + [segment]) <==> HasBadSegment(segments) || BadSegment(segment)
  {
    var all := segments + [segment];
    assert all[|segments|] == segment;
    if i :| 0 <= i < |segments| && BadSegment(segments[i]) { assert BadSegment(all[i]); }
  }

  lemma {:induction false} CasedSegmentsIff(segments: seq<string>)
    ensures CasedSegments(segments).None? <==> HasBadSegment(segments)
  {
    if segments != [] {
      var n := |segments| - 1;
      CasedSegmentsIff(segments[..n]);
      BadSegmentAppend(segments[..n], segments[n]);
      assert segments == segments[..n] + [segments[n]];
    }
  }

  lemma {:induction false} LowerConcat(a: string, b: string)
    ensures Lower(a + b) == Lower(a) + Lower(b)
  {
    if a == "" {
      assert a + b == b;
    } else {
      assert (a + b)[1..] == a[1..] + b;
      LowerConcat(a[1..], b);
    }
  }

  lemma {:induction false} LowerOfCases(s: string)
    ensures Lower(Lower(s)) == Lower(s) && Lower(Upper(s)) == Lower(s)
  {
    if s != "" {
      LowerOfCases(s[1..]);
      assert Lower(s)[1..] == Lower(s[1..]) && Upper(s)[1..] == Upper(s[1..]);
    }
  }

  lemma LowerOfCased(index: nat, segment: string)
    ensures Lower(Cased(index, segment)) == Lower(segment)
  {
    LowerOfCases(segment);
    if index > 0 && |segment| == 4 {
      LowerOfCases(segment[..1]);
      LowerOfCases(segment[1..]);
      LowerConcat(Upper(segment[..1]), Lower(segment[1..]));
      LowerConcat(segment[..1], segment[1..]);
      assert segment == segment[..1] + segment[1..];
    }
  }

  predicate SameLetters(a: seq<string>, b: seq<string>) {
    |a| == |b| && forall i :: 0 <= i < |a| ==> Lower(a[i]) == Lower(b[i])
  }

  lemma {:induction false} LowerOfJoin(a: seq<string>, b: seq<string>)
    requires SameLetters(a, b)
    ensures Lower(Join(a, '-')) == Lower(Join(b, '-'))
  {
    if |a| > 1 {
      LowerOfJoin(a[1..], b[1..]);
      LowerConcat(a[0], ['-'] + Join(a[1..], '-'));
      LowerConcat(['-'], Join(a[1..], '-'));
      LowerConcat(b[0], ['-'] + Join(b[1..], '-'));
      LowerConcat(['-'], Join(b[1..], '-'));
    }
  }

  /** The segments of the text, blanks around each taken off. */
  function TrimmedSegments(segments: seq<string>): seq<string> {
    if segments == [] then [] else TrimmedSegments(segments[..|segments| - 1]) + [TrimSpace(segments[|segments| - 1])]
  }

  lemma {:induction false} CasedKeepsLetters(segments: seq<string>)
    requires CasedSegments(segments).Some?
    ensures SameLetters(CasedSegments(segments).value, TrimmedSegments(segments))
  {
    if segments != [] {
      var n := |segments| - 1;
      CasedKeepsLetters(segments[..n]);
      LowerOfCased(n, TrimSpace(segments[n]));
    }
  }

  lemma JoinIsSolid(segments: seq<string>)
    requires segments != [] && segments[0] != ""
    ensures Join(segments, '-') != ""
  {
  }

  lemma JoinedKeepsLetters(segments: seq<string>)
    requires segments != [] && CasedSegments(segments).Some?
    ensures var joined := Join(CasedSegments(segments).value, '-');
            joined != "" && Lower(joined) == Lower(Join(TrimmedSegments(segments), '-'))
  {
    var cased := CasedSegments(segments).value;
    CasedKeepsLetters(segments);
    LowerOfJoin(cased, TrimmedSegments(segments));
    CasedSegmentsAreProper(segments);
    ProperAreWords(cased);
    JoinIsSolid(cased);
  }

  /** A text is no locale exactly when it is blank, or a segment between hyphens and underscores is blank or
      has a character that is no ASCII letter or digit. Otherwise nothing but the case of letters,
      underscores and blanks around segments is changed. */
  lemma NormalizingKeepsLetters(value: string)
    ensures var cleaned := TrimSpace(ReplaceAll(value, "_", "-"));
            var segments := Split(cleaned, '-');
            && (NormalizeLocale(value) == "" <==> cleaned == "" || HasBadSegment(segments))
            && (NormalizeLocale(value) != "" ==>
                  Lower(NormalizeLocale(value)) == Lower(Join(TrimmedSegments(segments), '-')))
  {
    var segments := Split(TrimSpace(ReplaceAll(value, "_", "-")), '-');
    CasedSegmentsIff(segments);
    if CasedSegments(segments).Some? { JoinedKeepsLetters(segments); }
  }
}
