/** Router slugs and names for menus that target hosted assets or external links. */
module MenuLinks {
  import opened GoStrings
  import opened Decimal
  import opened MenuModel

  /** The Unicode tables of the Go runtime, as parameters. */
  datatype Runes = Runes(lower: char -> char, letter: char -> bool, digit: char -> bool)

  function AsciiLower(c: char): char {
    if 'A' <= c <= 'Z' then c - 'A' + 'a' else c
  }

  predicate AsciiLetter(c: char) { 'a' <= c <= 'z' || 'A' <= c <= 'Z' }

  ghost predicate AgreesOnAscii(u: Runes) {
    forall c: char :: c < '\U{80}' ==>
      u.lower(c) == AsciiLower(c) && u.letter(c) == AsciiLetter(c) && u.digit(c) == IsDigit(c)
  }

  function Lower(u: Runes, s: string): (r: string)
    ensures |r| == |s|
    ensures forall i :: 0 <= i < |s| ==> r[i] == u.lower(s[i])
  {
    seq(|s|, i requires 0 <= i < |s| => u.lower(s[i]))
  }

  predicate IsHttp(s: string) { "http://" <= s || "https://" <= s }

  /** The target of a link menu, or "" for an ordinary page. */
  function NormalizeMenuLinkTarget(u: Runes, path: string): string {
    var trimmed := TrimSpace(path);
    if trimmed == "" then ""
    else
      var lower := Lower(u, trimmed);
      if IsHttp(lower) then trimmed
      else
        var hosted := "/" + TrimLeft(trimmed, Only('/'));
        if HOSTED_PREFIX <= hosted then hosted else ""
  }

  /** The text starts with a scheme once it is in lower case. */
  predicate StartsLike(u: Runes, t: string, scheme: string) {
    |scheme| <= |t| && forall i :: 0 <= i < |scheme| ==> u.lower(t[i]) == scheme[i]
  }

  /** The targets of link menus: an address with one of two schemes in any case, which stays as it is, or a
      hosted asset however many slashes it starts with, which gets exactly one. All else is no link. */
  lemma LinkTargetCases(u: Runes, path: string) returns (k: nat)
    ensures var t, target := TrimSpace(path), NormalizeMenuLinkTarget(u, path);
            && k <= |t| && (forall i :: 0 <= i < k ==> t[i] == '/') && (k < |t| ==> t[k] != '/')
            && if StartsLike(u, t, "http://") || StartsLike(u, t, "https://") then target == t
               else if HOSTED_PREFIX <= "/" + t[k..] then target == "/" + t[k..]
               else target == ""
  {
    var t := TrimSpace(path);
    TrimLeftSpec(t, Only('/'));
    k := |t| - |TrimLeft(t, Only('/'))|;
    LikeIsPrefix(u, t, "http://");
    LikeIsPrefix(u, t, "https://");
  }

  lemma LikeIsPrefix(u: Runes, t: string, scheme: string)
    ensures StartsLike(u, t, scheme) <==> scheme <= Lower(u, t)
  {
    if scheme <= Lower(u, t) {
      assert forall i :: 0 <= i < |scheme| ==> scheme[i] == Lower(u, t)[i];
    }
  }

  // ----- Hyphens

  predicate NoDoubleHyphen(s: string) {
    forall i :: 0 <= i < |s| - 1 ==> s[i] != '-' || s[i + 1] != '-'
  }

  /** Runs of hyphens become one. */
  function Collapse(s: string): (r: string)
    ensures NoDoubleHyphen(r)
    ensures (r == "") == (s == "")
    ensures s != "" ==> r[0] == s[0] && r[|r| - 1] == s[|s| - 1]
  {
    if |s| <= 1 then s
    else if s[|s| - 1] == '-' && s[|s| - 2] == '-' then Collapse(s[..|s| - 1])
    else Collapse(s[..|s| - 1]) + [s[|s| - 1]]
  }

  method CollapseHyphen(value: string) returns (r: string)
    ensures r == Collapse(value)
  {
    r := "";
    var previousDash := false;
    for k := 0 to |value|
      invariant r == Collapse(value[..k])
      invariant previousDash == (k > 0 && value[k - 1] == '-')
    {
      assert value[..k + 1][..k] == value[..k];
      if value[k] == '-' {
        if previousDash {
          continue;
        }
        previousDash := true;
        r := r + [value[k]];
        continue;
      }
      previousDash := false;
      r := r + [value[k]];
    }
    assert value[..|value|] == value;
  }

  lemma {:induction false} CollapseAfter(a: string, b: string)
    requires NoDoubleHyphen(a) && a != "" && a[|a| - 1] != '-'
    ensures Collapse(a + b) == a + Collapse(b)
  {
    if b == "" {
      assert a + b == a;
      CollapseIdentity(a);
    } else {
      var init := b[..|b| - 1];
      CollapseAfter(a, init);
      assert (a + b)[..|a + b| - 1] == a + init;
      assert (a + b)[|a + b| - 1] == b[|b| - 1];
      if |b| >= 2 {
        assert (a + b)[|a + b| - 2] == b[|b| - 2];
      } else {
        assert (a + b)[|a + b| - 2] == a[|a| - 1];
        assert init == "";
        assert Collapse(b) == b;
      }
    }
  }

  lemma {:induction false} CollapseIdentity(a: string)
    requires NoDoubleHyphen(a)
    ensures Collapse(a) == a
  {
    if |a| > 1 {
      CollapseIdentity(a[..|a| - 1]);
      assert a == a[..|a| - 1] + [a[|a| - 1]];
    }
  }

  lemma {:induction false} TrimRightAfter(a: string, b: string, cut: Cutset)
    requires a != "" && !cut.Has(a[|a| - 1])
    ensures TrimRight(a + b, cut) == a + TrimRight(b, cut)
  {
    if b == "" {
      assert a + b == a;
    } else {
      assert (a + b)[|a + b| - 1] == b[|b| - 1];
      assert (a + b)[..|a + b| - 1] == a + b[..|b| - 1];
      if cut.Has(b[|b| - 1]) { TrimRightAfter(a, b[..|b| - 1], cut); }
    }
  }

  // ----- Slugs

  function SlugChar(u: Runes, c: char): char {
    if u.letter(c) || u.digit(c) then c else '-'
  }

  function SlugBody(u: Runes, s: string): (r: string)
    ensures |r| == |s|
    ensures forall i :: 0 <= i < |s| ==> r[i] == SlugChar(u, s[i])
  {
    seq(|s|, i requires 0 <= i < |s| => SlugChar(u, s[i]))
  }

  function Hyphenated(s: string): string { ['-'] + s }

  /** word-ID-body with the outer hyphens trimmed and inner runs collapsed. */
  function SlugFrom(word: string, id: int, body: string): string {
    Collapse(Trim(word + Hyphenated(Itoa(id) + Hyphenated(body)), Only('-')))
  }

  function SlugOr(word: string, id: int, body: string): string {
    var slug := SlugFrom(word, id, body);
    if slug == "" then word + Hyphenated(Itoa(id)) else slug
  }

  function Body(u: Runes, path: string): string { SlugBody(u, Lower(u, TrimSpace(path))) }

  function Slug(u: Runes, id: int, path: string): string { SlugOr("link", id, Body(u, path)) }

  lemma LinkWord()
    ensures CleanCore("link") && NoSeparators("link") && |"link"| == 4
  {
  }

  method AppendSlugBody(u: Runes, prefix: string, lowered: string) returns (builder: string)
    ensures builder == prefix + SlugBody(u, lowered)
  {
    builder := prefix;
    ghost var body := SlugBody(u, lowered);
    for k := 0 to |lowered|
      invariant builder == prefix + body[..k]
    {
      if u.letter(lowered[k]) || u.digit(lowered[k]) {
        builder := builder + [lowered[k]];
        continue;
      }
      builder := builder + ['-'];
    }
    assert body[..|lowered|] == body;
  }

  method BuildSlug(u: Runes, word: string, id: int, path: string) returns (slug: string)
    ensures slug == SlugOr(word, id, Body(u, path))
  {
    var builder := word + ['-'] + Itoa(id) + ['-'];
    builder := AppendSlugBody(u, builder, Lower(u, TrimSpace(path)));
    RawShape(word, id, Body(u, path));
    slug := CollapseHyphen(Trim(builder, Only('-')));
    if slug == "" {
      slug := word + (['-'] + Itoa(id));
    }
  }

  method BuildMenuLinkRouteSlug(u: Runes, id: int, path: string) returns (slug: string)
    ensures slug == Slug(u, id, path)
  {
    slug := BuildSlug(u, "link", id, path);
  }

  lemma RawShape(word: string, id: int, body: string)
    ensures word + ['-'] + Itoa(id) + ['-'] + body == word + Hyphenated(Itoa(id) + Hyphenated(body))
  {
    Assoc(word, ['-'], Itoa(id));
    Assoc(word, Hyphenated(Itoa(id)), ['-']);
    Assoc(['-'], Itoa(id), ['-']);
    Assoc(word, Hyphenated(Itoa(id) + ['-']), body);
    Assoc(['-'], Itoa(id) + ['-'], body);
    Assoc(Itoa(id), ['-'], body);
  }

  lemma SlugOrIsClean(word: string, id: int, body: string)
    requires word != "" && word[0] != '-'
    ensures var slug := SlugOr(word, id, body);
            && slug == SlugFrom(word, id, body)
            && slug[0] == word[0] && slug[|slug| - 1] != '-' && NoDoubleHyphen(slug)
  {
    var raw := word + Hyphenated(Itoa(id) + Hyphenated(body));
    assert raw[0] == word[0];
    TrimToNothing(raw, Only('-'));
    TrimRightSpec(raw, Only('-'));
    assert TrimLeft(raw, Only('-')) == raw;
  }

  /** Whatever the ID and path, a slug has no leading, trailing or doubled hyphen, and the
      fallback for an empty slug is never taken. */
  lemma SlugIsClean(u: Runes, id: int, path: string)
    ensures var slug := Slug(u, id, path);
            && slug == SlugFrom("link", id, Body(u, path))
            && slug[0] == 'l' && slug[|slug| - 1] != '-' && NoDoubleHyphen(slug)
  {
    LinkWord();
    SlugOrIsClean("link", id, Body(u, path));
  }

  predicate CleanCore(core: string) {
    core != "" && core[0] != '-' && core[|core| - 1] != '-' && NoDoubleHyphen(core)
  }

  lemma CoreSurvives(core: string, tail: string)
    requires core != "" && core[0] != '-' && core[|core| - 1] != '-'
    ensures Trim(core + tail, Only('-')) == core + TrimRight(tail, Only('-'))
  {
    var raw := core + tail;
    assert raw[0] == core[0];
    assert TrimLeft(raw, Only('-')) == raw;
    TrimRightAfter(core, tail, Only('-'));
  }

  lemma HyphenJoinsCores(a: string, d: string)
    requires CleanCore(a) && d != "" && AllDigits(d)
    ensures CleanCore(a + Hyphenated(d))
  {
    var core := a + Hyphenated(d);
    forall i | 0 <= i < |core| - 1 ensures core[i] != '-' || core[i + 1] != '-' {
      if i >= |a| {
        assert core[i + 1] == d[i - |a|];
      } else if i == |a| - 1 {
        assert core[i] == a[i];
      } else {
        assert core[i] == a[i] && core[i + 1] == a[i + 1];
      }
    }
    assert core[|core| - 1] == d[|d| - 1] && core[0] == a[0];
  }

  function TailOf(body: string): (t: string)
    ensures t == "" || t[0] == '-'
  {
    TrimRightSpec(Hyphenated(body), Only('-'));
    Collapse(TrimRight(Hyphenated(body), Only('-')))
  }

  /** A slug is its word, the ID, and a tail that is empty or starts with a hyphen. */
  lemma SlugFromParts(word: string, id: nat, body: string)
    requires CleanCore(word)
    ensures SlugFrom(word, id, body) == (word + Hyphenated(Render(id))) + TailOf(body)
  {
    var core := word + Hyphenated(Render(id));
    HyphenJoinsCores(word, Render(id));
    Assoc(word, Hyphenated(Render(id)), Hyphenated(body));
    Assoc(['-'], Render(id), Hyphenated(body));
    CoreSurvives(core, Hyphenated(body));
    CollapseAfter(core, TrimRight(Hyphenated(body), Only('-')));
  }

  /** A negative sign is one more hyphen, and is collapsed away. */
  lemma SignCollapses(word: string, id: nat, body: string)
    requires CleanCore(word) && id > 0
    ensures SlugOr(word, 0 - id, body) == SlugOr(word, id, body)
  {
    SlugOrIsClean(word, id, body);
    var d := Render(id);
    var tail := TrimRight(Hyphenated(body), Only('-'));
    var plus, minus := word + Hyphenated(d), word + Hyphenated(Hyphenated(d));
    assert plus[|plus| - 1] == d[|d| - 1] && plus[0] == word[0];
    assert minus[|minus| - 1] == d[|d| - 1] && minus[0] == word[0];
    Assoc(word, Hyphenated(d), Hyphenated(body));
    Assoc(['-'], d, Hyphenated(body));
    CoreSurvives(plus, Hyphenated(body));
    Assoc(word, Hyphenated(Hyphenated(d)), Hyphenated(body));
    Assoc(['-'], Hyphenated(d), Hyphenated(body));
    assert Itoa(0 - id) == Hyphenated(d);
    CoreSurvives(minus, Hyphenated(body));
    Assoc(word, Hyphenated(d), tail);
    Assoc(['-'], d, tail);
    Assoc(word, Hyphenated(Hyphenated(d)), tail);
    Assoc(['-'], Hyphenated(d), tail);
    CollapseAfter(word, Hyphenated(d + tail));
    CollapseAfter(word, Hyphenated(Hyphenated(d + tail)));
    LeadingPair(d + tail);
  }

  lemma {:induction false} LeadingPair(s: string)
    requires s != ""
    ensures Collapse(Hyphenated(Hyphenated(s))) == Collapse(Hyphenated(s))
  {
    var a, b := Hyphenated(Hyphenated(s)), Hyphenated(s);
    var init := s[..|s| - 1];
    assert a[..|a| - 1] == Hyphenated(Hyphenated(init)) && b[..|b| - 1] == Hyphenated(init);
    assert a[|a| - 1] == b[|b| - 1] == s[|s| - 1];
    if |s| == 1 {
      assert init == "";
      assert b[|b| - 2] == '-' && a[|a| - 2] == '-';
      assert Hyphenated("")[..0] == "" && Hyphenated(Hyphenated(""))[..1] == Hyphenated("");
    } else {
      assert b[|b| - 2] == s[|s| - 2] && a[|a| - 2] == s[|s| - 2];
      LeadingPair(init);
    }
  }

  /** So IDs that differ only in sign share their slugs; menu keys are positive. */
  lemma NegativeIdCollides(u: Runes, id: nat, path: string)
    requires id > 0
    ensures Slug(u, 0 - id, path) == Slug(u, id, path)
  {
    LinkWord();
    SignCollapses("link", id, Body(u, path));
  }

  // ----- What a slug spells

  lemma {:induction false} CollapseKeepsPieces(s: string)
    ensures Pieces(Collapse(s), '-') == Pieces(s, '-')
  {
    if |s| > 1 {
      var n := |s| - 1;
      var init, c := s[..n], s[n];
      CollapseKeepsPieces(init);
      assert s == init + [c];
      if c == '-' {
        PiecesEnd(init, '-');
        PiecesEnd(Collapse(init), '-');
      } else if init[n - 1] == '-' {
        PiecesStart(init, c, '-');
        PiecesStart(Collapse(init), c, '-');
      } else {
        PiecesGrow(init, c, '-');
        PiecesGrow(Collapse(init), c, '-');
      }
    }
  }

  /** Without outer and doubled hyphens no part is empty. */
  lemma {:induction false} PartsAreSolid(s: string)
    requires s != "" && s[|s| - 1] != '-' && NoDoubleHyphen(s)
    ensures var parts := Split(s, '-'); (parts[0] == "" <==> s[0] == '-') && "" !in parts[1..]
  {
    if |s| > 1 {
      var rest := s[1..];
      assert forall i :: 0 <= i < |rest| ==> rest[i] == s[i + 1];
      PartsAreSolid(rest);
      var parts := Split(rest, '-');
      assert parts == [parts[0]] + parts[1..];
    } else {
      SplitFirst(s, "", '-');
    }
  }

  lemma {:induction false} SolidIsAll(parts: seq<string>)
    requires "" !in parts
    ensures NonEmpty(parts) == parts
  {
    if parts != [] {
      SolidIsAll(parts[1..]);
      assert parts == [parts[0]] + parts[1..];
    }
  }

  lemma CleanIsJoined(s: string)
    requires CleanCore(s)
    ensures s == Join(Pieces(s, '-'), '-')
  {
    PartsAreSolid(s);
    var parts := Split(s, '-');
    assert parts == [parts[0]] + parts[1..];
    SolidIsAll(parts);
    JoinOfSplit(s, '-');
  }

  lemma RawPieces(raw: string)
    ensures Pieces(Collapse(Trim(raw, Only('-'))), '-') == Pieces(raw, '-')
  {
    CollapseKeepsPieces(Trim(raw, Only('-')));
    TrimRightKeepsPieces(TrimLeft(raw, Only('-')), '-');
    TrimLeftKeepsPieces(raw, '-');
  }

  lemma RawWords(word: string, digits: string, body: string)
    requires word != "" && '-' !in word && digits != "" && '-' !in digits
    ensures Pieces(word + Hyphenated(digits + Hyphenated(body)), '-') == [word, digits] + Pieces(body, '-')
  {
    PiecesAround(word, digits + Hyphenated(body), '-');
    PiecesAround(digits, body, '-');
    PiecesOfWord(word, '-');
    PiecesOfWord(digits, '-');
    Prepend(word, digits, Pieces(body, '-'));
  }

  lemma Prepend(a: string, b: string, rest: seq<string>)
    ensures [a] + ([b] + rest) == [a, b] + rest
  {
  }

  lemma DigitsHoldNoHyphen(d: string)
    requires AllDigits(d)
    ensures '-' !in d
  {
  }

  lemma SlugPieces(word: string, id: nat, body: string)
    requires CleanCore(word) && '-' !in word
    ensures Pieces(SlugFrom(word, id, body), '-') == [word, Render(id)] + Pieces(body, '-')
  {
    DigitsHoldNoHyphen(Render(id));
    RawPieces(word + Hyphenated(Render(id) + Hyphenated(body)));
    RawWords(word, Render(id), body);
  }

  /** `body` is the path in lower case with a hyphen for every character that is no letter or digit. */
  predicate SpellsBody(u: Runes, path: string, body: string) {
    var t := TrimSpace(path);
    && |body| == |t|
    && forall i :: 0 <= i < |t| ==>
         var c := u.lower(t[i]); body[i] == if u.letter(c) || u.digit(c) then c else '-'
  }

  /** A slug is `link`, the ID and the words of the path in lower case, joined by single hyphens. */
  lemma SlugSpellsWords(u: Runes, id: nat, path: string, body: string)
    requires SpellsBody(u, path, body)
    ensures Slug(u, id, path) == Join(["link", Render(id)] + Pieces(body, '-'), '-')
  {
    LinkWord();
    assert Body(u, path) == body;
    SlugIsClean(u, id, path);
    NoHyphenInLink();
    SlugPieces("link", id, body);
    CleanIsJoined(Slug(u, id, path));
  }

  lemma NoHyphenInLink()
    ensures '-' !in "link"
  {
  }

  // ----- Decoding the ID

  /** The longest digit prefix. */
  function DigitRun(s: string): (r: string)
    ensures AllDigits(r)
  {
    if s != "" && IsDigit(s[0]) then [s[0]] + DigitRun(s[1..]) else ""
  }

  lemma {:induction false} DigitRunStops(d: string, rest: string)
    requires AllDigits(d) && (rest == "" || !IsDigit(rest[0]))
    ensures DigitRun(d + rest) == d
  {
    if d == "" {
      assert d + rest == rest;
    } else {
      DigitRunStops(d[1..], rest);
      assert (d + rest)[1..] == d[1..] + rest;
    }
  }

  /** Reads the menu ID back from a slug or a route name, past a prefix of the given length. */
  function DecodeId(s: string, skip: nat): nat {
    if skip <= |s| then Value(DigitRun(s[skip..])) else 0
  }

  lemma DecodeAfter(prefix: string, id: nat, rest: string)
    requires rest == "" || !IsDigit(rest[0])
    ensures DecodeId(prefix + (Render(id) + rest), |prefix|) == id
  {
    var s := prefix + (Render(id) + rest);
    assert s[|prefix|..] == Render(id) + rest;
    DigitRunStops(Render(id), rest);
    ValueOfRender(id);
  }

  lemma SlugFromDecodes(word: string, id: nat, body: string)
    requires CleanCore(word)
    ensures DecodeId(SlugOr(word, id, body), |word| + 1) == id
  {
    SlugOrIsClean(word, id, body);
    SlugFromParts(word, id, body);
    var prefix := word + ['-'];
    DecodeAfter(prefix, id, TailOf(body));
    Assoc(word, ['-'], Render(id));
    Assoc(prefix, Render(id), TailOf(body));
  }

  /** Slugs of different menus differ, whatever their paths: the ID can be read back. */
  lemma SlugDecodes(u: Runes, id: nat, path: string)
    ensures DecodeId(Slug(u, id, path), 5) == id
  {
    LinkWord();
    SlugFromDecodes("link", id, Body(u, path));
  }

  // ----- Route names

  predicate IsSeparator(c: char) { c == '-' || c == '_' || c == '/' || c == ' ' }

  function Upper(c: char): char { if 'a' <= c <= 'z' then c - 'a' + 'A' else c }

  function Pascal(s: string, upperNext: bool): string {
    if s == "" then ""
    else if IsSeparator(s[0]) then Pascal(s[1..], true)
    else [if upperNext then Upper(s[0]) else s[0]] + Pascal(s[1..], false)
  }

  method ToPascalCase(s: string) returns (r: string)
    ensures r == Pascal(s, true)
  {
    if s == "" {
      return "";
    }
    r := "";
    var upperNext := true;
    for i := 0 to |s|
      invariant Pascal(s, true) == r + Pascal(s[i..], upperNext)
    {
      var c := s[i];
      if c == '-' || c == '_' || c == '/' || c == ' ' {
        upperNext := true;
        continue;
      }
      if upperNext {
        if 'a' <= c <= 'z' {
          c := c - 'a' + 'A';
        }
        upperNext := false;
      }
      r := r + [c];
    }
  }

  /** The word with an ASCII capital. */
  function Capital(w: string): string {
    if w != "" && 'a' <= w[0] <= 'z' then [w[0] - 'a' + 'A'] + w[1..] else w
  }

  /** Words run together, each with a capital. */
  function Capitals(words: seq<string>): string {
    if words == [] then "" else Capital(words[0]) + Capitals(words[1..])
  }

  /** `body` is `s` with a hyphen for every hyphen, underscore, slash and space. */
  predicate HyphenatedAlike(s: string, body: string) {
    && |body| == |s|
    && forall i :: 0 <= i < |s| ==>
         body[i] == if s[i] == '_' || s[i] == '/' || s[i] == ' ' then '-' else s[i]
  }

  lemma {:induction false} PascalIsCapitals(s: string, body: string, upperNext: bool)
    requires HyphenatedAlike(s, body)
    ensures var words := Split(body, '-');
            Pascal(s, upperNext) == (if upperNext then Capital(words[0]) else words[0]) + Capitals(words[1..])
  {
    if s == "" {
      assert Split(body, '-') == [""] && Capitals([""][1..]) == "";
    } else {
      var words := Split(body[1..], '-');
      PascalIsCapitals(s[1..], body[1..], IsSeparator(s[0]));
      assert words == [words[0]] + words[1..];
      if IsSeparator(s[0]) {
        assert ([""] + words)[1..] == words;
      } else {
        assert ([[s[0]] + words[0]] + words[1..])[1..] == words[1..];
        assert Capital([s[0]] + words[0]) == [Upper(s[0])] + words[0];
        Assoc([if upperNext then Upper(s[0]) else s[0]], words[0], Capitals(words[1..]));
      }
    }
  }

  /** A name in PascalCase is the words of the text, separators left out, each with a capital. */
  lemma PascalSpellsWords(s: string, body: string)
    requires HyphenatedAlike(s, body)
    ensures Pascal(s, true) == Capitals(Split(body, '-'))
  {
    PascalIsCapitals(s, body, true);
  }

  lemma {:induction false} PascalDigits(d: string, rest: string, upperNext: bool)
    requires AllDigits(d) && d != ""
    ensures Pascal(d + rest, upperNext) == d + Pascal(rest, false)
  {
    assert (d + rest)[1..] == d[1..] + rest;
    if |d| == 1 {
      assert d[1..] + rest == rest;
    } else {
      PascalDigits(d[1..], rest, false);
    }
  }

  function RouteName(u: Runes, id: int, path: string): string {
    Pascal(Slug(u, id, path), true)
  }

  /** The first character of `s` that is not a hyphen. */
  lemma {:induction false} TailAfterHyphens(s: string, k: nat)
    requires 0 < k < |s| && s[k] != '-'
    requires forall i :: 0 <= i < k ==> s[i] == '-'
    ensures var t := Collapse(TrimRight(s, Only('-'))); |t| >= 2 && t[0] == '-' && t[1] == s[k]
  {
    var head := s[..k + 1];
    assert s == head + s[k + 1..];
    TrimRightAfter(head, s[k + 1..], Only('-'));
    CollapseRun(head + TrimRight(s[k + 1..], Only('-')), k);
  }

  lemma {:induction false} CollapseRun(s: string, k: nat)
    requires 0 < k < |s| && s[k] != '-'
    requires forall i :: 0 <= i < k ==> s[i] == '-'
    ensures |Collapse(s)| >= 2 && Collapse(s)[0] == '-' && Collapse(s)[1] == s[k]
    decreases |s|
  {
    if |s| > k + 1 {
      CollapseRun(s[..|s| - 1], k);
    } else {
      HyphensCollapse(s[..k]);
    }
  }

  lemma {:induction false} HyphensCollapse(s: string)
    requires s != "" && forall i :: 0 <= i < |s| ==> s[i] == '-'
    ensures Collapse(s) == "-"
  {
    if |s| > 1 { HyphensCollapse(s[..|s| - 1]); } else { assert s == "-"; }
  }

  lemma SlugOfAscii(u: Runes, c: char)
    requires AgreesOnAscii(u) && c < '\U{80}'
    ensures SlugChar(u, u.lower(c)) == if AsciiLetter(c) || IsDigit(c) then AsciiLower(c) else '-'
  {
    assert AsciiLower(c) < '\U{80}';
  }

  lemma SchemeStartsWithH(s: string)
    requires IsHttp(s)
    ensures s != "" && s[0] == 'h'
  {
  }

  lemma HostedStartsWithX(r: string)
    requires HOSTED_PREFIX <= "/" + r
    ensures r != "" && r[0] == 'x'
  {
    assert ("/" + r)[1] == HOSTED_PREFIX[1];
  }

  lemma SlashesThen(t: string, r: string)
    requires r == TrimLeft(t, Only('/')) && r != "" && r[0] == 'x'
    ensures |r| <= |t| && t[|t| - |r|] == 'x' && forall i :: 0 <= i < |t| - |r| ==> t[i] == '/'
  {
  }

  lemma LinkKinds(u: Runes, path: string)
    requires NormalizeMenuLinkTarget(u, path) != ""
    ensures IsHttp(Lower(u, TrimSpace(path))) || HOSTED_PREFIX <= "/" + TrimLeft(TrimSpace(path), Only('/'))
  {
  }

  /** A link target is a run of slashes followed by the `h` of a scheme or the `x` of x-assets. */
  lemma LinkStart(u: Runes, path: string) returns (k: nat)
    requires NormalizeMenuLinkTarget(u, path) != ""
    ensures var t := TrimSpace(path);
            k < |t| && (forall i :: 0 <= i < k ==> t[i] == '/') && (u.lower(t[k]) == 'h' || t[k] == 'x')
  {
    var t := TrimSpace(path);
    LinkKinds(u, path);
    k := StartOf(u, t);
  }

  lemma StartOf(u: Runes, t: string) returns (k: nat)
    requires IsHttp(Lower(u, t)) || HOSTED_PREFIX <= "/" + TrimLeft(t, Only('/'))
    ensures k < |t| && (forall i :: 0 <= i < k ==> t[i] == '/') && (u.lower(t[k]) == 'h' || t[k] == 'x')
  {
    if IsHttp(Lower(u, t)) {
      SchemeStartsWithH(Lower(u, t));
      k := 0;
    } else {
      var r := TrimLeft(t, Only('/'));
      HostedStartsWithX(r);
      SlashesThen(t, r);
      k := |t| - |r|;
    }
  }

  lemma BodyTail(u: Runes, lowered: string, k: nat)
    requires k < |lowered| && SlugChar(u, lowered[k]) != '-'
    requires forall i :: 0 <= i < k ==> SlugChar(u, lowered[i]) == '-'
    ensures var t := TailOf(SlugBody(u, lowered));
            |t| >= 2 && t[0] == '-' && t[1] == SlugChar(u, lowered[k])
  {
    var s := Hyphenated(SlugBody(u, lowered));
    assert forall i :: 0 < i < |s| ==> s[i] == SlugChar(u, lowered[i - 1]);
    TailAfterHyphens(s, k + 1);
  }

  /** The slug tail of a link target starts with a hyphen and an ASCII letter. */
  lemma LinkTail(u: Runes, path: string)
    requires AgreesOnAscii(u) && NormalizeMenuLinkTarget(u, path) != ""
    ensures var t := TailOf(Body(u, path));
            |t| >= 2 && t[0] == '-' && (t[1] == 'h' || t[1] == 'x')
  {
    var k := LinkStart(u, path);
    SlugOfAscii(u, '/');
    SlugOfAscii(u, 'x');
    assert u.letter('h');
    BodyTail(u, Lower(u, TrimSpace(path)), k);
  }

  predicate NoSeparators(word: string) { forall i :: 0 <= i < |word| ==> !IsSeparator(word[i]) }

  lemma {:induction false} PascalWord(word: string, rest: string, upperNext: bool)
    requires word != "" && NoSeparators(word)
    ensures Pascal(word + rest, upperNext) == Pascal(word, upperNext) + Pascal(rest, false)
    ensures |Pascal(word, upperNext)| == |word|
  {
    assert (word + rest)[1..] == word[1..] + rest;
    if |word| == 1 {
      assert word[1..] + rest == rest;
    } else {
      PascalWord(word[1..], rest, false);
    }
  }

  lemma PascalTail(tail: string)
    requires |tail| >= 2 && tail[0] == '-' && (tail[1] == 'h' || tail[1] == 'x')
    ensures Pascal(tail, false) != "" && !IsDigit(Pascal(tail, false)[0])
  {
    assert Pascal(tail[1..], true)[0] == Upper(tail[1]);
  }

  lemma NameFromDecodes(word: string, id: nat, body: string)
    requires CleanCore(word) && NoSeparators(word)
    requires var t := TailOf(body); |t| >= 2 && t[0] == '-' && (t[1] == 'h' || t[1] == 'x')
    ensures DecodeId(Pascal(SlugOr(word, id, body), true), |word|) == id
  {
    SlugOrIsClean(word, id, body);
    var tail := TailOf(body);
    var numbered := Render(id) + tail;
    SlugFromParts(word, id, body);
    Assoc(word, Hyphenated(Render(id)), tail);
    Assoc(['-'], Render(id), tail);
    PascalWord(word, Hyphenated(numbered), true);
    assert Hyphenated(numbered)[1..] == numbered;
    PascalDigits(Render(id), tail, true);
    PascalTail(tail);
    DecodeAfter(Pascal(word, true), id, Pascal(tail, false));
  }

  /** Route names of link menus keep the ID readable too, because the letter that starts the
      target separates it from the digits. */
  lemma RouteNameDecodes(u: Runes, id: nat, path: string)
    requires AgreesOnAscii(u) && NormalizeMenuLinkTarget(u, path) != ""
    ensures DecodeId(RouteName(u, id, path), 4) == id
  {
    LinkTail(u, path);
    LinkWord();
    NameFromDecodes("link", id, Body(u, path));
  }

  /** So two link menus never share a slug or a route name. */
  lemma LinkNamesDistinct(u: Runes, id1: nat, path1: string, id2: nat, path2: string)
    requires AgreesOnAscii(u) && id1 != id2
    requires NormalizeMenuLinkTarget(u, path1) != "" && NormalizeMenuLinkTarget(u, path2) != ""
    ensures Slug(u, id1, path1) != Slug(u, id2, path2)
    ensures RouteName(u, id1, path1) != RouteName(u, id2, path2)
  {
    SlugDecodes(u, id1, path1);
    SlugDecodes(u, id2, path2);
    RouteNameDecodes(u, id1, path1);
    RouteNameDecodes(u, id2, path2);
  }
}
