/** Merging, filtering and loading of locale catalogs. */
module CatalogLoader {
  import opened GoStrings
  import opened Sorting
  import opened CatalogFlatten

  // ----- Merging in map order

  function Put(target: Catalog, key: string, value: string): Catalog {
    if TrimSpace(key) == "" then target else target[TrimSpace(key) := value]
  }

  function MergeInOrder(target: Catalog, source: Catalog, order: seq<string>): Catalog
    requires forall k :: k in order ==> k in source
  {
    if order == [] then target
    else
      var k := order[|order| - 1];
      Put(MergeInOrder(target, source, order[..|order| - 1]), k, source[k])
  }

  ghost predicate Enumerates(order: seq<string>, c: Catalog) {
    NoRepeats(order) && forall k :: k in order <==> k in c
  }

  /** The value of the last key in the order that trims to `t`. */
  function LastValue(source: Catalog, order: seq<string>, t: string): Option<string>
    requires forall k :: k in order ==> k in source
  {
    if order == [] then None
    else if TrimSpace(order[|order| - 1]) == t then Some(source[order[|order| - 1]])
    else LastValue(source, order[..|order| - 1], t)
  }

  /** A merge overwrites with the last value and keeps everything else. */
  lemma {:induction false} MergeLookup(target: Catalog, source: Catalog, order: seq<string>, t: string)
    requires forall k :: k in order ==> k in source
    ensures var m := MergeInOrder(target, source, order);
            if t != "" && LastValue(source, order, t).Some? then t in m && m[t] == LastValue(source, order, t).value
            else (t in m <==> t in target) && (t in m ==> m[t] == target[t])
  {
    if order != [] { MergeLookup(target, source, order[..|order| - 1], t); }
  }

  lemma {:induction false} LastValueFrom(source: Catalog, order: seq<string>, t: string) returns (k: string)
    requires forall x :: x in order ==> x in source
    requires LastValue(source, order, t).Some?
    ensures k in order && TrimSpace(k) == t && LastValue(source, order, t) == Some(source[k])
  {
    k := order[|order| - 1];
    if TrimSpace(k) != t { k := LastValueFrom(source, order[..|order| - 1], t); }
  }

  lemma {:induction false} LastValueExists(source: Catalog, order: seq<string>, k: string)
    requires (forall x :: x in order ==> x in source) && k in order
    ensures LastValue(source, order, TrimSpace(k)).Some?
  {
    var last, init := order[|order| - 1], order[..|order| - 1];
    assert order == init + [last];
    if TrimSpace(last) != TrimSpace(k) { LastValueExists(source, init, k); }
  }

  /** A merge of a normal catalog is a right-biased union, whatever the order. */
  lemma NormalMerge(target: Catalog, source: Catalog, order: seq<string>)
    requires Normal(source) && Enumerates(order, source)
    ensures MergeInOrder(target, source, order) == target + source
  {
    var m := MergeInOrder(target, source, order);
    forall t ensures t in m <==> t in target + source
             ensures t in m ==> m[t] == (target + source)[t]
    {
      MergeLookup(target, source, order, t);
      if t in source {
        TrimOfTrimmed(t, Whitespace);
        LastValueExists(source, order, t);
      }
      if LastValue(source, order, t).Some? {
        var k := LastValueFrom(source, order, t);
        TrimOfTrimmed(k, Whitespace);
      }
    }
  }

  /** The merge loop; Go picks the order. */
  method MergeCatalog(target: Catalog, source: Catalog) returns (r: Catalog, ghost order: seq<string>)
    ensures Enumerates(order, source) && r == MergeInOrder(target, source, order)
    ensures Normal(source) ==> r == target + source
  {
    r, order := target, [];
    var remaining := source.Keys;
    while remaining != {}
      invariant remaining <= source.Keys
      invariant forall k :: k in order <==> k in source && k !in remaining
      invariant NoRepeats(order)
      invariant r == MergeInOrder(target, source, order)
    {
      var key :| key in remaining;
      assert (order + [key])[..|order|] == order;
      order := order + [key];
      remaining := remaining - {key};
      assert MergeInOrder(target, source, order) == Put(r, key, source[key]);
      var trimmedKey := TrimSpace(key);
      if trimmedKey == "" {
        continue;
      }
      r := r[trimmedKey := source[key]];
    }
    if Normal(source) { NormalMerge(target, source, order); }
  }

  /** Two raw keys that trim to the same solid key carry different values. */
  ghost predicate Clash(source: Catalog, a: string, b: string) {
    a in source && b in source && TrimSpace(a) == TrimSpace(b) != "" && source[a] != source[b]
  }

  ghost predicate HasClash(source: Catalog) { exists a, b :: Clash(source, a, b) }

  lemma SameValue(source: Catalog, o1: seq<string>, o2: seq<string>, t: string)
    requires !HasClash(source) && t != ""
    requires Enumerates(o1, source) && Enumerates(o2, source)
    requires LastValue(source, o1, t).Some?
    ensures LastValue(source, o2, t) == LastValue(source, o1, t)
  {
    var a := LastValueFrom(source, o1, t);
    LastValueExists(source, o2, a);
    var b := LastValueFrom(source, o2, t);
    assert !Clash(source, a, b);
  }

  lemma SameMerge(target: Catalog, source: Catalog, o1: seq<string>, o2: seq<string>)
    requires !HasClash(source) && Enumerates(o1, source) && Enumerates(o2, source)
    ensures MergeInOrder(target, source, o1) == MergeInOrder(target, source, o2)
  {
    var m1, m2 := MergeInOrder(target, source, o1), MergeInOrder(target, source, o2);
    forall t ensures t in m1 <==> t in m2
             ensures t in m1 ==> m1[t] == m2[t]
    {
      MergeLookup(target, source, o1, t);
      MergeLookup(target, source, o2, t);
      if t != "" && LastValue(source, o1, t).Some? { SameValue(source, o1, o2, t); }
      if t != "" && LastValue(source, o2, t).Some? { SameValue(source, o2, o1, t); }
    }
  }

  lemma EndsWith(target: Catalog, source: Catalog, init: seq<string>, key: string)
    requires (forall k :: k in init ==> k in source) && key in source && TrimSpace(key) != ""
    ensures var m := MergeInOrder(target, source, init + [key]); TrimSpace(key) in m && m[TrimSpace(key)] == source[key]
  {
    assert (init + [key])[..|init|] == init;
    MergeLookup(target, source, init + [key], TrimSpace(key));
  }

  lemma TwoMore(rest: seq<string>, a: string, b: string, source: Catalog)
    requires NoRepeats(rest) && a != b && a in source && b in source
    requires forall k :: k in rest <==> k in source.Keys - {a, b}
    ensures Enumerates((rest + [a]) + [b], source)
  {
    assert (rest + [a])[..|rest|] == rest;
    assert ((rest + [a]) + [b])[..|rest| + 1] == rest + [a];
  }

  lemma ClashingOrders(target: Catalog, source: Catalog, a: string, b: string)
    returns (o1: seq<string>, o2: seq<string>)
    requires Clash(source, a, b)
    ensures Enumerates(o1, source) && Enumerates(o2, source)
    ensures MergeInOrder(target, source, o1) != MergeInOrder(target, source, o2)
  {
    var rest := Enumerate(source.Keys - {a, b});
    TwoMore(rest, a, b, source);
    TwoMore(rest, b, a, source);
    EndsWith(target, source, rest + [a], b);
    EndsWith(target, source, rest + [b], a);
    o1, o2 := (rest + [a]) + [b], (rest + [b]) + [a];
  }

  ghost predicate OrderFree(target: Catalog, source: Catalog) {
    forall o1: seq<string>, o2: seq<string> :: Enumerates(o1, source) && Enumerates(o2, source) ==>
      MergeInOrder(target, source, o1) == MergeInOrder(target, source, o2)
  }

  /** A merge is independent of the enumeration order exactly when the source has no clashing keys. */
  lemma MergeOrderIff(target: Catalog, source: Catalog)
    ensures OrderFree(target, source) <==> !HasClash(source)
  {
    if HasClash(source) {
      var a, b :| Clash(source, a, b);
      var o1, o2 := ClashingOrders(target, source, a, b);
    } else {
      forall o1: seq<string>, o2: seq<string> | Enumerates(o1, source) && Enumerates(o2, source)
        ensures MergeInOrder(target, source, o1) == MergeInOrder(target, source, o2)
      {
        SameMerge(target, source, o1, o2);
      }
    }
  }

  // ----- Namespaces

  predicate IsKeyChar(c: char) { 'A' <= c <= 'Z' || 'a' <= c <= 'z' || '0' <= c <= '9' || c == '_' }

  function Underscored(s: string): string {
    if s == "" then "" else [if s[0] == '-' then '_' else s[0]] + Underscored(s[1..])
  }

  /** Every run of other characters becomes one underscore. */
  function Squash(s: string, inRun: bool): string {
    if s == "" then ""
    else if IsKeyChar(s[0]) then [s[0]] + Squash(s[1..], false)
    else if inRun then Squash(s[1..], true)
    else ['_'] + Squash(s[1..], true)
  }

  function SanitizeKeyPart(part: string): string {
    var braceless := Trim(TrimSpace(part), Either('{', '}'));
    var word := Trim(Squash(Underscored(braceless), false), Only('_'));
    if word == "" then "empty" else word
  }

  predicate AllKeyChars(s: string) { s == "" || (IsKeyChar(s[0]) && AllKeyChars(s[1..])) }

  /** A non-empty run of key characters without outer underscores; in particular without a dot. */
  predicate IsWord(s: string) { s != "" && AllKeyChars(s) && Trimmed(s, Only('_')) }

  lemma {:induction false} SquashedChars(s: string, inRun: bool)
    ensures AllKeyChars(Squash(s, inRun))
  {
    if s != "" {
      SquashedChars(s[1..], false);
      SquashedChars(s[1..], true);
    }
  }

  lemma {:induction false} KeyCharsSlice(s: string, i: nat, j: nat)
    requires AllKeyChars(s) && i <= j <= |s|
    ensures AllKeyChars(s[i..j])
  {
    if i > 0 {
      KeyCharsSlice(s[1..], i - 1, j - 1);
      assert s[1..][i - 1..j - 1] == s[i..j];
    } else if j > 0 {
      KeyCharsSlice(s[1..], 0, j - 1);
      assert s[..j][1..] == s[1..][..j - 1];
    }
  }

  lemma {:induction false} KeyCharsIdentity(s: string)
    requires AllKeyChars(s)
    ensures Underscored(s) == s && Squash(s, false) == s
  {
    if s != "" { KeyCharsIdentity(s[1..]); }
  }

  lemma {:induction false} KeyCharAt(s: string, i: nat)
    requires AllKeyChars(s) && i < |s|
    ensures IsKeyChar(s[i])
  {
    if i > 0 { KeyCharAt(s[1..], i - 1); }
  }

  lemma TrimKeepsKeyChars(s: string, cut: Cutset)
    requires AllKeyChars(s)
    ensures AllKeyChars(Trim(s, cut))
  {
    var t := TrimLeft(s, cut);
    TrimLeftSpec(s, cut);
    TrimRightSpec(t, cut);
    KeyCharsSlice(s, |s| - |t|, |s|);
    assert s[|s| - |t|..|s|] == t;
    KeyCharsSlice(t, 0, |TrimRight(t, cut)|);
  }

  lemma SanitizedIsWord(part: string)
    ensures IsWord(SanitizeKeyPart(part))
  {
    var s := Underscored(Trim(TrimSpace(part), Either('{', '}')));
    SquashedChars(s, false);
    TrimKeepsKeyChars(Squash(s, false), Only('_'));
    KeyCharsOfEmpty();
  }

  lemma KeyCharsOfEmpty()
    ensures IsWord("empty")
  {
    KeyCharsFromEach("empty");
  }

  lemma {:induction false} KeyCharsFromEach(s: string)
    requires forall i :: 0 <= i < |s| ==> IsKeyChar(s[i])
    ensures AllKeyChars(s)
  {
    if s != "" { KeyCharsFromEach(s[1..]); }
  }

  /** Sanitizing is idempotent, and its fixed points are exactly the words. */
  lemma SanitizeFixesWords(s: string)
    ensures SanitizeKeyPart(s) == s <==> IsWord(s)
    ensures SanitizeKeyPart(SanitizeKeyPart(s)) == SanitizeKeyPart(s)
  {
    SanitizedIsWord(s);
    if IsWord(s) { WordIsFixed(s); }
    WordIsFixed(SanitizeKeyPart(s));
  }

  lemma WordIsFixed(s: string)
    requires IsWord(s)
    ensures SanitizeKeyPart(s) == s
  {
    KeyCharAt(s, 0);
    KeyCharAt(s, |s| - 1);
    TrimOfTrimmed(s, Whitespace);
    TrimOfTrimmed(s, Either('{', '}'));
    KeyCharsIdentity(s);
    TrimOfTrimmed(s, Only('_'));
  }

  // ----- What a sanitized part spells

  predicate IsAlnum(c: char) { 'A' <= c <= 'Z' || 'a' <= c <= 'z' || '0' <= c <= '9' }

  /** The text with an underscore for every character that is no ASCII letter or digit. */
  function Marked(s: string): string {
    if s == "" then "" else [if IsAlnum(s[0]) then s[0] else '_'] + Marked(s[1..])
  }

  lemma {:induction false} MarkedAt(s: string)
    ensures |Marked(s)| == |s| && forall i :: 0 <= i < |s| ==> Marked(s)[i] == if IsAlnum(s[i]) then s[i] else '_'
  {
    if s != "" { MarkedAt(s[1..]); }
  }

  lemma {:induction false} MarkedConcat(a: string, b: string)
    ensures Marked(a + b) == Marked(a) + Marked(b)
  {
    if a == "" {
      assert a + b == b;
    } else {
      assert (a + b)[1..] == a[1..] + b;
      MarkedConcat(a[1..], b);
    }
  }

  predicate Filler(s: string) { forall i :: 0 <= i < |s| ==> !IsAlnum(s[i]) }

  /** Characters that are no letters or digits at the ends belong to no word. */
  lemma {:induction false} FillerGoes(left: string, t: string, right: string)
    requires Filler(left) && Filler(right)
    ensures Pieces(Marked(left + (t + right)), '_') == Pieces(Marked(t), '_')
    decreases |left| + |right|
  {
    if left != "" {
      var rest := left[1..] + (t + right);
      FillerGoes(left[1..], t, right);
      assert (left + (t + right))[1..] == rest;
      PiecesAround("", Marked(rest), '_');
      NoPieces('_');
      assert ['_'] + Marked(rest) == "" + (['_'] + Marked(rest));
    } else if right != "" {
      var init := right[..|right| - 1];
      FillerGoes("", t, init);
      assert "" + (t + right) == (t + init) + [right[|right| - 1]] && "" + (t + init) == t + init;
      MarkedConcat(t + init, [right[|right| - 1]]);
      assert Marked([right[|right| - 1]]) == "_";
      PiecesEnd(Marked(t + init), '_');
    } else {
      assert left + (t + right) == t;
    }
  }

  lemma TrimKeepsWords(s: string, cut: Cutset)
    requires forall c :: cut.Has(c) ==> !IsAlnum(c)
    ensures Pieces(Marked(Trim(s, cut)), '_') == Pieces(Marked(s), '_')
  {
    var left, right := TrimCuts(s, cut);
    FillerGoes(left, Trim(s, cut), right);
  }

  lemma {:induction false} UnderscoredAlike(s: string)
    ensures Marked(Underscored(s)) == Marked(s)
  {
    if s != "" { UnderscoredAlike(s[1..]); }
  }

  /** Squashing keeps the first part and the later words, and inside a run all words. */
  lemma {:induction false} SquashKeepsWords(s: string)
    ensures Split(Squash(s, false), '_')[0] == Split(Marked(s), '_')[0]
    ensures NonEmpty(Split(Squash(s, false), '_')[1..]) == NonEmpty(Split(Marked(s), '_')[1..])
    ensures NonEmpty(Split(Squash(s, true), '_')) == NonEmpty(Split(Marked(s), '_'))
  {
    if s != "" {
      var t := s[1..];
      SquashKeepsWords(t);
      var a, b := Split(Squash(t, false), '_'), Split(Marked(t), '_');
      WordsOfParts(a, b);
      if IsAlnum(s[0]) {
        StartsPart(s[0], Squash(t, false));
        StartsPart(s[0], Marked(t));
        WordsOfParts(Split([s[0]] + Squash(t, false), '_'), Split([s[0]] + Marked(t), '_'));
      } else {
        OpensPart(Squash(t, false));
        OpensPart(Squash(t, true));
        OpensPart(Marked(t));
      }
    }
  }

  lemma WordsOfParts(a: seq<string>, b: seq<string>)
    requires a != [] && b != []
    ensures a[0] == b[0] && NonEmpty(a[1..]) == NonEmpty(b[1..]) ==> NonEmpty(a) == NonEmpty(b)
  {
  }

  lemma StartsPart(c: char, s: string)
    requires c != '_'
    ensures var parts := Split(s, '_');
            Split([c] + s, '_')[0] == [c] + parts[0] && Split([c] + s, '_')[1..] == parts[1..]
  {
    assert ([c] + s)[1..] == s;
  }

  lemma OpensPart(s: string)
    ensures Split(['_'] + s, '_')[0] == "" && Split(['_'] + s, '_')[1..] == Split(s, '_')
    ensures NonEmpty(Split(['_'] + s, '_')) == NonEmpty(Split(s, '_'))
  {
    assert (['_'] + s)[1..] == s;
    assert ([""] + Split(s, '_'))[1..] == Split(s, '_');
  }

  lemma SolidHasPieces(s: string)
    requires s != "" && s[0] != '_'
    ensures Pieces(s, '_') != []
  {
  }

  lemma SquashedHasWords(part: string)
    ensures var braceless := Trim(TrimSpace(part), Either('{', '}'));
            Pieces(Squash(Underscored(braceless), false), '_') == Pieces(Marked(part), '_')
  {
    var braceless := Trim(TrimSpace(part), Either('{', '}'));
    TrimKeepsWords(part, Whitespace);
    TrimKeepsWords(TrimSpace(part), Either('{', '}'));
    UnderscoredAlike(braceless);
    var s := Underscored(braceless);
    SquashKeepsWords(s);
    WordsOfParts(Split(Squash(s, false), '_'), Split(Marked(s), '_'));
  }

  /** Sanitizing keeps the words of ASCII letters and digits, in order and apart; a part without any
      becomes `empty`. */
  lemma SanitizeKeepsWords(part: string)
    ensures var words, r := Pieces(Marked(part), '_'), SanitizeKeyPart(part);
            if words == [] then r == "empty" else Pieces(r, '_') == words
  {
    var squashed := Squash(Underscored(Trim(TrimSpace(part), Either('{', '}'))), false);
    SquashedHasWords(part);
    TrimLeftKeepsPieces(squashed, '_');
    TrimRightKeepsPieces(TrimLeft(squashed, Only('_')), '_');
    var word := Trim(squashed, Only('_'));
    NoPieces('_');
    if word != "" { SolidHasPieces(word); }
  }

  // ----- The namespace of a plugin

  function NamespacePrefix(pluginID: string): string {
    "plugins." + (SanitizeKeyPart(pluginID) + ['.'])
  }

  predicate InNamespace(pluginID: string, key: string) { NamespacePrefix(pluginID) <= key }

  /** A dot ends a word, so a string starts with at most one dotted word. */
  lemma {:induction false} WordEndsAtDot(v: string, w: string, s: string)
    requires AllKeyChars(v) && AllKeyChars(w) && v + ['.'] <= s && w + ['.'] <= s
    ensures v == w
  {
    assert s[0] == (v + ['.'])[0] && s[0] == (w + ['.'])[0];
    if v != "" && w != "" {
      var t := s[1..];
      assert v + ['.'] == [v[0]] + (v[1..] + ['.']) && w + ['.'] == [w[0]] + (w[1..] + ['.']);
      assert s == [s[0]] + t;
      PrefixTail(v[0], v[1..] + ['.'], s);
      PrefixTail(w[0], w[1..] + ['.'], s);
      WordEndsAtDot(v[1..], w[1..], t);
      assert v == [v[0]] + v[1..] && w == [w[0]] + w[1..];
    }
  }

  lemma PrefixTail(c: char, w: string, s: string)
    requires [c] + w <= s
    ensures s[0] == c && w <= s[1..]
  {
    assert ([c] + w)[0] == s[0];
    assert w == ([c] + w)[1..] == s[..1 + |w|][1..] == s[1..][..|w|];
  }

  lemma PrefixShift(p: string, w: string, s: string)
    requires p + w <= s
    ensures |p| <= |s| && w <= s[|p|..]
  {
    assert w == (p + w)[|p|..] == s[..|p| + |w|][|p|..] == s[|p|..][..|w|];
  }

  lemma OneNamespace(a: string, b: string, key: string)
    requires InNamespace(a, key) && InNamespace(b, key)
    ensures SanitizeKeyPart(a) == SanitizeKeyPart(b)
  {
    SanitizedIsWord(a);
    SanitizedIsWord(b);
    PrefixShift("plugins.", SanitizeKeyPart(a) + ['.'], key);
    PrefixShift("plugins.", SanitizeKeyPart(b) + ['.'], key);
    WordEndsAtDot(SanitizeKeyPart(a), SanitizeKeyPart(b), key[|"plugins."|..]);
  }

  /** A key that starts with `plugins`, a word and a dot lies in the namespace of exactly the plugins whose
      sanitized ID is that word. */
  lemma KeyNamesPlugin(pluginID: string, word: string, rest: string)
    requires AllKeyChars(word)
    ensures InNamespace(pluginID, "plugins." + (word + (['.'] + rest))) <==> word == SanitizeKeyPart(pluginID)
  {
    var key, prefix := "plugins." + (word + (['.'] + rest)), "plugins.";
    SanitizedIsWord(pluginID);
    assert key[|prefix|..] == word + (['.'] + rest);
    Assoc(word, ['.'], rest);
    assert word + ['.'] <= key[|prefix|..];
    if InNamespace(pluginID, key) {
      PrefixShift(prefix, SanitizeKeyPart(pluginID) + ['.'], key);
      WordEndsAtDot(word, SanitizeKeyPart(pluginID), key[|prefix|..]);
    }
    Assoc(prefix, word + ['.'], rest);
  }

  /** Two plugin namespaces share a key exactly when their sanitized IDs are equal. */
  lemma NamespacesOverlapIff(a: string, b: string)
    ensures (exists key: string :: InNamespace(a, key) && InNamespace(b, key))
            <==> SanitizeKeyPart(a) == SanitizeKeyPart(b)
  {
    if SanitizeKeyPart(a) == SanitizeKeyPart(b) {
      assert InNamespace(a, NamespacePrefix(a)) && InNamespace(b, NamespacePrefix(a));
    }
    if exists key: string :: InNamespace(a, key) && InNamespace(b, key) {
      var key: string :| InNamespace(a, key) && InNamespace(b, key);
      OneNamespace(a, b, key);
    }
  }

  // ----- Valid plugin IDs

  predicate IsKebabChar(c: char) { 'a' <= c <= 'z' || '0' <= c <= '9' || c == '-' }

  /** What the plugin manifest admits: lower-case words and digits joined by single hyphens. */
  predicate IsPluginID(id: string) {
    && id != "" && (forall i :: 0 <= i < |id| ==> IsKebabChar(id[i]))
    && id[0] != '-' && id[|id| - 1] != '-'
    && forall i :: 0 <= i < |id| - 1 ==> id[i] != '-' || id[i + 1] != '-'
  }

  lemma {:induction false} UnderscoredAt(s: string)
    ensures |Underscored(s)| == |s|
    ensures forall i :: 0 <= i < |s| ==> Underscored(s)[i] == if s[i] == '-' then '_' else s[i]
  {
    if s != "" {
      UnderscoredAt(s[1..]);
      assert Underscored(s)[1..] == Underscored(s[1..]);
    }
  }

  lemma KebabIsTrimmed(id: string)
    requires IsPluginID(id)
    ensures Trim(TrimSpace(id), Either('{', '}')) == id
  {
    assert IsKebabChar(id[0]) && IsKebabChar(id[|id| - 1]);
    TrimOfTrimmed(id, Whitespace);
    TrimOfTrimmed(id, Either('{', '}'));
  }

  lemma UnderscoredIsWord(id: string)
    requires IsPluginID(id)
    ensures IsWord(Underscored(id))
  {
    UnderscoredAt(id);
    forall i | 0 <= i < |id| ensures IsKeyChar(Underscored(id)[i]) { assert IsKebabChar(id[i]); }
    KeyCharsFromEach(Underscored(id));
    assert IsKebabChar(id[0]) && IsKebabChar(id[|id| - 1]);
  }

  lemma SanitizedPluginID(id: string)
    requires IsPluginID(id)
    ensures SanitizeKeyPart(id) == Underscored(id)
  {
    KebabIsTrimmed(id);
    UnderscoredIsWord(id);
    KeyCharsIdentity(Underscored(id));
    TrimOfTrimmed(Underscored(id), Only('_'));
  }

  /** Sanitizing keeps valid plugin IDs apart, so different plugins have disjoint namespaces. */
  lemma ValidNamespacesDisjoint(a: string, b: string)
    requires IsPluginID(a) && IsPluginID(b)
    ensures SanitizeKeyPart(a) == SanitizeKeyPart(b) <==> a == b
    ensures (exists key: string :: InNamespace(a, key) && InNamespace(b, key)) <==> a == b
  {
    SanitizedPluginID(a);
    SanitizedPluginID(b);
    UnderscoredAt(a);
    UnderscoredAt(b);
    if Underscored(a) == Underscored(b) {
      forall i | 0 <= i < |a| ensures a[i] == b[i] {
        assert Underscored(a)[i] == Underscored(b)[i];
      }
      assert a == b;
    }
    NamespacesOverlapIff(a, b);
  }

  // ----- Filtering

  /** `restricted` is the plugin-namespace scope, `strict` the string-only value mode; `keyFilter`
      accepts everything when the loader has none. */
  datatype Loader = Loader(restricted: bool, strict: bool, keyFilter: string -> bool)

  predicate Accepts(l: Loader, pluginID: string, key: string) {
    && (l.restricted && TrimSpace(pluginID) != "" ==> InNamespace(pluginID, key))
    && l.keyFilter(key)
  }

  /** The entries of a normal catalog that pass the scope and the key filter. */
  function Filtered(l: Loader, pluginID: string, source: Catalog): Catalog {
    map k | k in source && Accepts(l, pluginID, k) :: source[k]
  }

  /** The filter loop; Go picks the order. Every accepted trimmed key is kept with the value of
      one of its raw spellings, and nothing else is. */
  method FilterCatalog(l: Loader, pluginID: string, source: Catalog) returns (target: Catalog)
    ensures forall k :: k in source && TrimSpace(k) != "" && Accepts(l, pluginID, TrimSpace(k)) ==>
              TrimSpace(k) in target
    ensures forall t :: t in target ==> Accepts(l, pluginID, t) && FromSource(source, t, target[t])
    ensures Normal(source) ==> target == Filtered(l, pluginID, source)
  {
    target := map[];
    if |source| == 0 {
      return;
    }
    var namespacePrefix := "";
    if l.restricted && TrimSpace(pluginID) != "" {
      namespacePrefix := NamespacePrefix(pluginID);
    }
    var remaining := source.Keys;
    while remaining != {}
      invariant remaining <= source.Keys
      invariant forall k ::
                  (k in source && k !in remaining && TrimSpace(k) != "" && Accepts(l, pluginID, TrimSpace(k))) ==>
                  TrimSpace(k) in target
      invariant forall t :: t in target ==> Accepts(l, pluginID, t) && FromSource(source, t, target[t])
    {
      var key :| key in remaining;
      remaining := remaining - {key};
      var trimmedKey := TrimSpace(key);
      if trimmedKey == "" {
        continue;
      }
      if namespacePrefix != "" && !(namespacePrefix <= trimmedKey) {
        continue;
      }
      if !l.keyFilter(trimmedKey) {
        continue;
      }
      assert FromSource(source, trimmedKey, source[key]);
      target := target[trimmedKey := source[key]];
    }
    if Normal(source) {
      NormalFilter(l, pluginID, source, target);
    }
  }

  /** `t` is a solid key that some raw key with this value trims to. */
  ghost predicate FromSource(source: Catalog, t: string, value: string) {
    t != "" && exists k :: k in source && TrimSpace(k) == t && source[k] == value
  }

  lemma NormalFilter(l: Loader, pluginID: string, source: Catalog, target: Catalog)
    requires Normal(source)
    requires forall k :: k in source && TrimSpace(k) != "" && Accepts(l, pluginID, TrimSpace(k)) ==>
              TrimSpace(k) in target
    requires forall t :: t in target ==> Accepts(l, pluginID, t) && FromSource(source, t, target[t])
    ensures target == Filtered(l, pluginID, source)
  {
    forall t ensures t in target <==> t in Filtered(l, pluginID, source)
             ensures t in target ==> t in source && target[t] == source[t]
    {
      if t in source { TrimOfTrimmed(t, Whitespace); }
      if t in target {
        var k :| k in source && TrimSpace(k) == t && source[k] == target[t];
        TrimOfTrimmed(k, Whitespace);
      }
    }
  }

  /** A filtered catalog has the entries that its source has and the loader accepts: by the key filter, and
      for a named plugin under restricted scope by its namespace. */
  lemma FilteredIff(l: Loader, pluginID: string, source: Catalog, key: string)
    ensures var f := Filtered(l, pluginID, source);
            && (key in f ==> f[key] == source[key])
            && (key in f <==> key in source && l.keyFilter(key)
                              && (l.restricted && TrimSpace(pluginID) != "" ==>
                                    "plugins." + (SanitizeKeyPart(pluginID) + ['.']) <= key))
  {
  }

  /** Under restricted scope, plugins whose sanitized IDs differ never contribute the same key. */
  lemma RestrictedBundlesDisjoint(l: Loader, a: string, b: string, ca: Catalog, cb: Catalog)
    requires l.restricted && TrimSpace(a) != "" && TrimSpace(b) != ""
    requires SanitizeKeyPart(a) != SanitizeKeyPart(b)
    ensures Filtered(l, a, ca).Keys !! Filtered(l, b, cb).Keys
  {
    forall key | key in Filtered(l, a, ca) ensures key !in Filtered(l, b, cb) {
      if key in Filtered(l, b, cb) { OneNamespace(a, b, key); }
    }
  }

  // ----- The two loading pipelines

  /** A decoder of JSON object texts; None for anything else. */
  type Decoder = string -> Option<map<string, Json>>

  ghost function ParseCatalog(decode: Decoder, content: string, strict: bool): Option<Catalog> {
    if content == "" then Some(map[])
    else
      match decode(content)
      case None => None
      case Some(fields) => Flatten("", Obj(fields), map[], strict)
  }

  lemma ParsedIsNormal(decode: Decoder, content: string, strict: bool)
    ensures ParseCatalog(decode, content, strict).Some? ==> Normal(ParseCatalog(decode, content, strict).value)
  {
    if content != "" && decode(content).Some? { FlattenIsNormal("", Obj(decode(content).value), map[], strict); }
  }

  method RunParseCatalog(decode: Decoder, content: string, strict: bool) returns (r: Option<Catalog>)
    ensures r == ParseCatalog(decode, content, strict)
    ensures r.Some? ==> Normal(r.value)
  {
    ParsedIsNormal(decode, content, strict);
    if |content| == 0 {
      return Some(map[]);
    }
    var fields := decode(content);
    if fields.None? {
      return None;
    }
    r := FlattenCatalogValue("", Obj(fields.value), map[], strict);
  }

  /** Parsing fails exactly on a content that is not empty and no JSON object, or that has a leaf the strict
      mode rejects; otherwise the leaves of the object, written in traversal order, are the catalog. */
  lemma ParseFailsIff(decode: Decoder, content: string, strict: bool)
    ensures var r, fields := ParseCatalog(decode, content, strict), decode(content);
            if content == "" then r == Some(map[])
            else if fields.None? then r.None?
            else
              && (r.None? <==> strict && HasScalar("", Obj(fields.value)))
              && (r.Some? ==> r.value == Write(map[], Leaves("", Obj(fields.value))))
  {
    if content != "" && decode(content).Some? {
      FlattenWritesLeaves("", Obj(decode(content).value), map[], strict);
    }
  }

  /** What one JSON content contributes: nothing when it does not parse. */
  ghost function Contribution(decode: Decoder, content: string, strict: bool): Catalog {
    match ParseCatalog(decode, content, strict)
    case None => map[]
    case Some(c) => c
  }

  /** The file pipeline: every file filtered by key, merged in path order. */
  ghost function FilesLoaded(l: Loader, decode: Decoder, files: seq<string>): Catalog {
    if files == [] then map[]
    else
      FilesLoaded(l, decode, files[..|files| - 1])
      + Filtered(l, "", Contribution(decode, files[|files| - 1], l.strict))
  }

  /** The asset pipeline: blank contents skipped, the others merged unfiltered. */
  ghost function AssetsLoaded(l: Loader, decode: Decoder, contents: seq<string>): Catalog {
    if contents == [] then map[]
    else
      var init := AssetsLoaded(l, decode, contents[..|contents| - 1]);
      if TrimSpace(contents[|contents| - 1]) == "" then init
      else init + Contribution(decode, contents[|contents| - 1], l.strict)
  }

  lemma {:induction false} LoadedAreNormal(l: Loader, decode: Decoder, contents: seq<string>)
    ensures Normal(FilesLoaded(l, decode, contents)) && Normal(AssetsLoaded(l, decode, contents))
  {
    if contents != [] {
      LoadedAreNormal(l, decode, contents[..|contents| - 1]);
      ParsedIsNormal(decode, contents[|contents| - 1], l.strict);
    }
  }

  method LoadFilesystemBundle(l: Loader, decode: Decoder, files: seq<string>) returns (bundle: Catalog)
    ensures bundle == FilesLoaded(l, decode, files)
  {
    bundle := map[];
    for n := 0 to |files|
      invariant bundle == FilesLoaded(l, decode, files[..n])
    {
      assert files[..n + 1][..n] == files[..n];
      var file: Catalog := map[];
      if |files[n]| > 0 {
        var parsed := RunParseCatalog(decode, files[n], l.strict);
        if parsed.Some? {
          file := FilterCatalog(l, "", parsed.value);
        }
      }
      assert file == Filtered(l, "", Contribution(decode, files[n], l.strict));
      ParsedIsNormal(decode, files[n], l.strict);
      var merged, order := MergeCatalog(bundle, file);
      bundle := merged;
    }
    assert files[..|files|] == files;
  }

  method SourcePluginBundle(l: Loader, decode: Decoder, pluginID: string, files: seq<string>) returns (bundle: Catalog)
    ensures bundle == Filtered(l, pluginID, FilesLoaded(l, decode, files))
  {
    LoadedAreNormal(l, decode, files);
    var loaded := LoadFilesystemBundle(l, decode, files);
    bundle := FilterCatalog(l, pluginID, loaded);
  }

  datatype LocaleAsset = LocaleAsset(locale: string, content: string)

  /** The contents of the assets for one locale, in order. */
  function ForLocale(assets: seq<LocaleAsset>, locale: string): seq<string> {
    if assets == [] then []
    else
      ForLocale(assets[..|assets| - 1], locale)
      + if TrimSpace(assets[|assets| - 1].locale) == TrimSpace(locale) then [assets[|assets| - 1].content] else []
  }

  /** An asset counts for a locale when its own is the same, blanks aside. */
  lemma ForLocaleSingle(x: LocaleAsset, locale: string)
    ensures ForLocale([x], locale) == if TrimSpace(x.locale) == TrimSpace(locale) then [x.content] else []
  {
    assert [x][..0] == [];
  }

  /** The assets of a locale keep their order. */
  lemma {:induction false} ForLocaleConcat(a: seq<LocaleAsset>, b: seq<LocaleAsset>, locale: string)
    ensures ForLocale(a + b, locale) == ForLocale(a, locale) + ForLocale(b, locale)
  {
    if b == [] {
      assert a + b == a;
    } else {
      ForLocaleConcat(a, b[..|b| - 1], locale);
      assert (a + b)[..|a + b| - 1] == a + b[..|b| - 1];
    }
  }

  lemma LocaleStep(assets: seq<LocaleAsset>, locale: string, n: nat)
    requires n < |assets|
    ensures ForLocale(assets[..n + 1], locale)
            == if TrimSpace(assets[n].locale) == TrimSpace(locale)
               then ForLocale(assets[..n], locale) + [assets[n].content]
               else ForLocale(assets[..n], locale)
  {
    assert assets[..n + 1][..n] == assets[..n];
  }

  lemma AssetsAppend(l: Loader, decode: Decoder, contents: seq<string>, content: string)
    ensures AssetsLoaded(l, decode, contents + [content])
            == if TrimSpace(content) == "" then AssetsLoaded(l, decode, contents)
               else AssetsLoaded(l, decode, contents) + Contribution(decode, content, l.strict)
  {
    assert (contents + [content])[..|contents|] == contents;
  }

  /** Parses one content and merges it; what does not parse is skipped. */
  method MergeContent(l: Loader, decode: Decoder, target: Catalog, content: string) returns (merged: Catalog)
    ensures merged == target + Contribution(decode, content, l.strict)
  {
    merged := target;
    var parsed := RunParseCatalog(decode, content, l.strict);
    if parsed.Some? {
      var next, order := MergeCatalog(merged, parsed.value);
      merged := next;
    }
  }

  method LoadAssets(l: Loader, decode: Decoder, locale: string, assets: seq<LocaleAsset>) returns (merged: Catalog)
    ensures merged == AssetsLoaded(l, decode, ForLocale(assets, locale))
  {
    merged := map[];
    for n := 0 to |assets|
      invariant merged == AssetsLoaded(l, decode, ForLocale(assets[..n], locale))
    {
      LocaleStep(assets, locale, n);
      AssetsAppend(l, decode, ForLocale(assets[..n], locale), assets[n].content);
      var asset := assets[n];
      if TrimSpace(asset.locale) != TrimSpace(locale) || TrimSpace(asset.content) == "" {
        continue;
      }
      merged := MergeContent(l, decode, merged, asset.content);
    }
    assert assets[..|assets|] == assets;
  }

  method DynamicPluginBundle(l: Loader, decode: Decoder, pluginID: string, locale: string, assets: seq<LocaleAsset>)
    returns (bundle: Catalog)
    ensures bundle == Filtered(l, pluginID, AssetsLoaded(l, decode, ForLocale(assets, locale)))
  {
    LoadedAreNormal(l, decode, ForLocale(assets, locale));
    var merged := LoadAssets(l, decode, locale, assets);
    bundle := FilterCatalog(l, pluginID, merged);
  }

  /** No JSON object text is blank. */
  ghost predicate BlankUndecodable(decode: Decoder) {
    forall s: string :: TrimSpace(s) == "" ==> decode(s).None?
  }

  lemma FilterOfUnion(l: Loader, pluginID: string, a: Catalog, b: Catalog)
    ensures Filtered(l, pluginID, a + b) == Filtered(l, pluginID, a) + Filtered(l, pluginID, b)
  {
  }

  lemma {:induction false} FilesAreFilteredAssets(l: Loader, decode: Decoder, contents: seq<string>)
    requires BlankUndecodable(decode)
    ensures FilesLoaded(l, decode, contents) == Filtered(l, "", AssetsLoaded(l, decode, contents))
  {
    if contents != [] {
      var init, last := contents[..|contents| - 1], contents[|contents| - 1];
      FilesAreFilteredAssets(l, decode, init);
      FilterOfUnion(l, "", AssetsLoaded(l, decode, init), Contribution(decode, last, l.strict));
    }
  }

  /** For the same contents in the same order, a source plugin and a dynamic plugin of the same ID
      get the same bundle: filtering each file by key first makes no difference. */
  lemma PipelinesAgree(l: Loader, decode: Decoder, pluginID: string, contents: seq<string>)
    requires BlankUndecodable(decode)
    ensures Filtered(l, pluginID, FilesLoaded(l, decode, contents))
            == Filtered(l, pluginID, AssetsLoaded(l, decode, contents))
  {
    FilesAreFilteredAssets(l, decode, contents);
  }
}
