/** Flattening a JSON locale resource into dotted keys. */
module CatalogFlatten {
  import opened GoStrings
  import opened Sorting

  /** A decoded JSON value. `Scalar` is anything but an object or a string, with its text form. */
  datatype Json = Obj(fields: map<string, Json>) | Str(text: string) | Scalar(text: string)

  type Catalog = map<string, string>

  // ----- The key order

  /** The comparator: trimmed keys first, raw keys to break ties. */
  predicate KeyLess(a: string, b: string) {
    if TrimSpace(a) == TrimSpace(b) then Less(a, b) else Less(TrimSpace(a), TrimSpace(b))
  }

  lemma KeyLessLaws(a: string, b: string, c: string)
    ensures !KeyLess(a, a)
    ensures KeyLess(a, b) && KeyLess(b, c) ==> KeyLess(a, c)
    ensures a != b ==> KeyLess(a, b) || KeyLess(b, a)
  {
    LessIsStrictTotalOrder(a, b, c);
    LessIsStrictTotalOrder(TrimSpace(a), TrimSpace(b), TrimSpace(c));
  }

  /** The comparator is a strict total order on raw keys, so sorting leaves no choice. */
  lemma KeyLessIsStrictTotalOrder()
    ensures StrictTotalOrder(KeyLess)
  {
    forall a, b, c ensures !KeyLess(a, a) && (KeyLess(a, b) && KeyLess(b, c) ==> KeyLess(a, c)) {
      KeyLessLaws(a, b, c);
    }
    forall a, b | a != b ensures KeyLess(a, b) || KeyLess(b, a) { KeyLessLaws(a, b, a); }
  }

  function SolidKeys(fields: map<string, Json>): set<string> { set k | k in fields && TrimSpace(k) != "" }

  /** The keys of an object in traversal order. */
  ghost function Keys(fields: map<string, Json>): (ks: seq<string>)
    ensures forall k :: k in ks ==> k in fields && TrimSpace(k) != ""
  {
    KeyLessIsStrictTotalOrder();
    var ks := SortedSet(KeyLess, SolidKeys(fields));
    assert forall k :: k in ks ==> k in SolidKeys(fields);
    ks
  }

  /** Every enumeration of the solid keys sorts to the same list. */
  lemma KeysOfEnumeration(fields: map<string, Json>, e: seq<string>)
    requires NoRepeats(e) && forall k :: k in e <==> k in SolidKeys(fields)
    ensures SortSeq(KeyLess, e) == Keys(fields)
  {
    KeyLessIsStrictTotalOrder();
    EnumerationSorts(KeyLess, SolidKeys(fields), e);
  }

  // ----- Flattening

  function Dotted(prefix: string, key: string): string {
    if prefix == "" then TrimSpace(key) else prefix + (['.'] + TrimSpace(key))
  }

  /** The entries a value adds to `out`, later ones overwriting earlier ones; None when a leaf is
      rejected. */
  ghost function Flatten(prefix: string, v: Json, out: Catalog, strict: bool): Option<Catalog>
    decreases v, 1, 0
  {
    match v
    case Obj(fields) => FlattenKeys(prefix, v, Keys(fields), out, strict)
    case Str(text) => Some(if prefix != "" then out[prefix := text] else out)
    case Scalar(text) =>
      if prefix == "" then Some(out)
      else if strict then None
      else Some(out[prefix := text])
  }

  ghost function FlattenKeys(prefix: string, v: Json, ks: seq<string>, out: Catalog, strict: bool): Option<Catalog>
    requires v.Obj? && forall k :: k in ks ==> k in v.fields
    decreases v, 0, |ks|
  {
    if ks == [] then Some(out)
    else
      match Flatten(Dotted(prefix, ks[0]), v.fields[ks[0]], out, strict)
      case None => None
      case Some(next) => FlattenKeys(prefix, v, ks[1..], next, strict)
  }

  method CollectKeys(fields: map<string, Json>) returns (keys: seq<string>)
    ensures NoRepeats(keys) && forall k :: k in keys <==> k in SolidKeys(fields)
  {
    keys := [];
    var remaining := fields.Keys;
    while remaining != {}
      invariant remaining <= fields.Keys
      invariant forall k :: k in keys <==> k in SolidKeys(fields) && k !in remaining
      invariant NoRepeats(keys)
    {
      var key :| key in remaining;
      remaining := remaining - {key};
      if TrimSpace(key) == "" {
        continue;
      }
      assert (keys + [key])[..|keys|] == keys;
      keys := keys + [key];
    }
  }

  /** The traversal as written: enumerate the map in any order, sort, recurse. The result is a
      function of the value alone. */
  method FlattenCatalogValue(prefix: string, v: Json, output: Catalog, strict: bool) returns (r: Option<Catalog>)
    ensures r == Flatten(prefix, v, output, strict)
    decreases v
  {
    match v {
      case Obj(fields) =>
        var keys := CollectKeys(fields);
        KeysOfEnumeration(fields, keys);
        var sorted := SortSeq(KeyLess, keys);
        var out := output;
        for n := 0 to |sorted|
          invariant FlattenKeys(prefix, v, sorted, output, strict) == FlattenKeys(prefix, v, sorted[n..], out, strict)
        {
          var key := sorted[n];
          assert key in sorted;
          var next := FlattenCatalogValue(Dotted(prefix, key), fields[key], out, strict);
          if next.None? {
            return None;
          }
          assert sorted[n..][1..] == sorted[n + 1..];
          out := next.value;
        }
        r := Some(out);
      case Str(text) =>
        r := Some(if prefix != "" then output[prefix := text] else output);
      case Scalar(text) =>
        if prefix == "" {
          return Some(output);
        }
        if strict {
          return None;
        }
        r := Some(output[prefix := text]);
    }
  }

  // ----- Reference: the last leaf of each path wins

  datatype Leaf = Leaf(path: string, text: string)

  /** The leaves of a value in traversal order. */
  ghost function Leaves(prefix: string, v: Json): seq<Leaf>
    decreases v, 1, 0
  {
    match v
    case Obj(fields) => LeavesOf(prefix, v, Keys(fields))
    case Str(text) => if prefix != "" then [Leaf(prefix, text)] else []
    case Scalar(text) => if prefix != "" then [Leaf(prefix, text)] else []
  }

  ghost function LeavesOf(prefix: string, v: Json, ks: seq<string>): seq<Leaf>
    requires v.Obj? && forall k :: k in ks ==> k in v.fields
    decreases v, 0, |ks|
  {
    if ks == [] then []
    else Leaves(Dotted(prefix, ks[0]), v.fields[ks[0]]) + LeavesOf(prefix, v, ks[1..])
  }

  /** Some addressable leaf is neither a string nor an object. */
  ghost predicate HasScalar(prefix: string, v: Json)
    decreases v
  {
    match v
    case Obj(fields) => exists k :: k in SolidKeys(fields) && HasScalar(Dotted(prefix, k), fields[k])
    case Str(_) => false
    case Scalar(_) => prefix != ""
  }

  function Write(out: Catalog, ls: seq<Leaf>): Catalog {
    if ls == [] then out else Write(out, ls[..|ls| - 1])[ls[|ls| - 1].path := ls[|ls| - 1].text]
  }

  lemma {:induction false} WriteConcat(out: Catalog, a: seq<Leaf>, b: seq<Leaf>)
    ensures Write(out, a + b) == Write(Write(out, a), b)
  {
    if b == [] {
      assert a + b == a;
    } else {
      assert (a + b)[..|a + b| - 1] == a + b[..|b| - 1];
      WriteConcat(out, a, b[..|b| - 1]);
    }
  }

  /** Flattening writes the leaves in traversal order, and fails exactly when a rejected leaf exists. */
  lemma {:induction false} FlattenWritesLeaves(prefix: string, v: Json, out: Catalog, strict: bool)
    ensures Flatten(prefix, v, out, strict)
            == if strict && HasScalar(prefix, v) then None else Some(Write(out, Leaves(prefix, v)))
    decreases v, 1, 0
  {
    match v {
      case Obj(fields) =>
        FlattenKeysWritesLeaves(prefix, v, Keys(fields), out, strict);
        KeyLessIsStrictTotalOrder();
        assert forall k :: k in Keys(fields) <==> k in SolidKeys(fields);
      case Str(text) =>
      case Scalar(text) =>
    }
  }

  lemma {:induction false} FlattenKeysWritesLeaves(prefix: string, v: Json, ks: seq<string>, out: Catalog, strict: bool)
    requires v.Obj? && forall k :: k in ks ==> k in v.fields
    ensures FlattenKeys(prefix, v, ks, out, strict)
            == if strict && exists k :: k in ks && HasScalar(Dotted(prefix, k), v.fields[k]) then None
               else Some(Write(out, LeavesOf(prefix, v, ks)))
    decreases v, 0, |ks|
  {
    if ks != [] {
      var k := ks[0];
      assert ks == [k] + ks[1..];
      var first := Leaves(Dotted(prefix, k), v.fields[k]);
      FlattenWritesLeaves(Dotted(prefix, k), v.fields[k], out, strict);
      FlattenKeysWritesLeaves(prefix, v, ks[1..], Write(out, first), strict);
      WriteConcat(out, first, LeavesOf(prefix, v, ks[1..]));
    }
  }

  /** The text of the last leaf with a path, if any. */
  function LastText(ls: seq<Leaf>, path: string): Option<string> {
    if ls == [] then None
    else if ls[|ls| - 1].path == path then Some(ls[|ls| - 1].text)
    else LastText(ls[..|ls| - 1], path)
  }

  lemma {:induction false} WriteLooksUpLast(out: Catalog, ls: seq<Leaf>, path: string)
    ensures path in Write(out, ls) <==> path in out || LastText(ls, path).Some?
    ensures LastText(ls, path).Some? ==> Write(out, ls)[path] == LastText(ls, path).value
    ensures LastText(ls, path).None? && path in out ==> Write(out, ls)[path] == out[path]
  {
    if ls != [] { WriteLooksUpLast(out, ls[..|ls| - 1], path); }
  }

  // ----- Keys are normal

  predicate NormalKey(k: string) { k != "" && Trimmed(k, Whitespace) }

  ghost predicate Normal(c: Catalog) { forall k :: k in c ==> NormalKey(k) }

  lemma DottedIsNormal(prefix: string, key: string)
    requires prefix == "" || NormalKey(prefix)
    requires TrimSpace(key) != ""
    ensures NormalKey(Dotted(prefix, key))
  {
    var t := TrimSpace(key);
    if prefix != "" {
      var d := prefix + (['.'] + t);
      assert d[0] == prefix[0] && d[|d| - 1] == t[|t| - 1];
    }
  }

  /** Every key flattening produces is non-empty and already trimmed. */
  lemma {:induction false} FlattenIsNormal(prefix: string, v: Json, out: Catalog, strict: bool)
    requires (prefix == "" || NormalKey(prefix)) && Normal(out)
    ensures Flatten(prefix, v, out, strict).Some? ==> Normal(Flatten(prefix, v, out, strict).value)
    decreases v, 1, 0
  {
    match v {
      case Obj(fields) => FlattenKeysIsNormal(prefix, v, Keys(fields), out, strict);
      case Str(text) =>
      case Scalar(text) =>
    }
  }

  lemma {:induction false} FlattenKeysIsNormal(prefix: string, v: Json, ks: seq<string>, out: Catalog, strict: bool)
    requires (prefix == "" || NormalKey(prefix)) && Normal(out)
    requires v.Obj? && forall k :: k in ks ==> k in v.fields && TrimSpace(k) != ""
    ensures FlattenKeys(prefix, v, ks, out, strict).Some? ==> Normal(FlattenKeys(prefix, v, ks, out, strict).value)
    decreases v, 0, |ks|
  {
    if ks != [] {
      assert ks[0] in ks;
      DottedIsNormal(prefix, ks[0]);
      FlattenIsNormal(Dotted(prefix, ks[0]), v.fields[ks[0]], out, strict);
      var next := Flatten(Dotted(prefix, ks[0]), v.fields[ks[0]], out, strict);
      if next.Some? { FlattenKeysIsNormal(prefix, v, ks[1..], next.value, strict); }
    }
  }

  // ----- Collisions

  /** `key` of an object has a leaf with this path below it. */
  ghost predicate Shows(prefix: string, v: Json, key: string, path: string) {
    v.Obj? && key in v.fields && LastText(Leaves(Dotted(prefix, key), v.fields[key]), path).Some?
  }

  /** The traversal meets such a leaf: a blank key would be skipped. */
  ghost predicate Gives(prefix: string, fields: map<string, Json>, key: string, path: string) {
    key in SolidKeys(fields) && Shows(prefix, Obj(fields), key, path)
  }

  /** Of two keys that give one path, the one that spells more of it decides; of two that are equal
      after trimming, the greater raw key. */
  predicate Outranks(a: string, b: string) {
    |TrimSpace(b)| < |TrimSpace(a)| || (TrimSpace(a) == TrimSpace(b) && Less(b, a))
  }

  lemma {:induction false} LastTextConcat(a: seq<Leaf>, b: seq<Leaf>, path: string)
    ensures LastText(a + b, path) == if LastText(b, path).Some? then LastText(b, path) else LastText(a, path)
  {
    if b == [] {
      assert a + b == a;
    } else {
      assert (a + b)[..|a + b| - 1] == a + b[..|b| - 1];
      LastTextConcat(a, b[..|b| - 1], path);
    }
  }

  /** `path` is the given prefix or continues it behind a dot. */
  predicate Below(prefix: string, path: string) { path == prefix || prefix + ['.'] <= path }

  lemma DottedBelow(prefix: string, key: string, path: string)
    requires prefix != "" && Below(Dotted(prefix, key), path)
    ensures Below(prefix, path)
  {
    var step := ['.'] + TrimSpace(key);
    assert prefix + ['.'] <= prefix + step;
    assert prefix + step <= path;
  }

  lemma {:induction false} LeafIsBelow(prefix: string, v: Json, path: string)
    requires prefix != "" && LastText(Leaves(prefix, v), path).Some?
    ensures Below(prefix, path)
    decreases v, 1, 0
  {
    match v {
      case Obj(fields) => LeafOfKeysIsBelow(prefix, v, Keys(fields), path);
      case Str(text) => assert [Leaf(prefix, text)][..0] == [];
      case Scalar(text) => assert [Leaf(prefix, text)][..0] == [];
    }
  }

  lemma {:induction false} LeafOfKeysIsBelow(prefix: string, v: Json, ks: seq<string>, path: string)
    requires prefix != "" && v.Obj? && forall k :: k in ks ==> k in v.fields
    requires LastText(LeavesOf(prefix, v, ks), path).Some?
    ensures Below(prefix, path)
    decreases v, 0, |ks|
  {
    if ks != [] {
      var first, rest := Leaves(Dotted(prefix, ks[0]), v.fields[ks[0]]), LeavesOf(prefix, v, ks[1..]);
      LastTextConcat(first, rest, path);
      if LastText(rest, path).Some? {
        LeafOfKeysIsBelow(prefix, v, ks[1..], path);
      } else {
        LeafIsBelow(Dotted(prefix, ks[0]), v.fields[ks[0]], path);
        DottedBelow(prefix, ks[0], path);
      }
    }
  }

  lemma {:induction false} PrefixIsLess(p: string, s: string)
    requires p <= s && p != s
    ensures Less(p, s)
  {
    if p != "" {
      assert p[0] == s[0] && p[1..] <= s[1..] && p == [p[0]] + p[1..] && s == [s[0]] + s[1..];
      PrefixIsLess(p[1..], s[1..]);
    }
  }

  /** What a path shows of the key that gives it. */
  lemma GivenBelow(prefix: string, fields: map<string, Json>, key: string, path: string)
    requires Gives(prefix, fields, key, path)
    ensures Below(Dotted(prefix, key), path)
  {
    assert Dotted(prefix, key) != "";
    LeafIsBelow(Dotted(prefix, key), fields[key], path);
  }

  /** Two prefixes of one path: the shorter one is a prefix of the longer one. */
  lemma ShorterIsPrefix(prefix: string, a: string, b: string, path: string)
    requires Below(Dotted(prefix, a), path) && Below(Dotted(prefix, b), path) && |TrimSpace(a)| <= |TrimSpace(b)|
    ensures TrimSpace(a) <= TrimSpace(b)
  {
    var s, t := TrimSpace(a), TrimSpace(b);
    var d, e := Dotted(prefix, a), Dotted(prefix, b);
    assert d <= path && e <= path;
    var n := if prefix == "" then 0 else |prefix| + 1;
    assert d[n..] == s && e[n..] == t;
    assert d == e[..|d|];
    assert s == t[..|s|];
  }

  /** Of the keys that give a path, the traversal visits the outranking ones later. */
  lemma OutrankedIsEarlier(prefix: string, fields: map<string, Json>, a: string, b: string, path: string)
    requires Gives(prefix, fields, a, path) && Gives(prefix, fields, b, path) && a != b
    ensures Outranks(a, b) <==> KeyLess(b, a)
  {
    GivenBelow(prefix, fields, a, path);
    GivenBelow(prefix, fields, b, path);
    var s, t := TrimSpace(a), TrimSpace(b);
    LessIsStrictTotalOrder(s, t, s);
    if |s| <= |t| { ShorterIsPrefix(prefix, a, b, path); }
    if |t| <= |s| { ShorterIsPrefix(prefix, b, a, path); }
    if s != t {
      if |s| < |t| { PrefixIsLess(s, t); } else { PrefixIsLess(t, s); }
    }
  }

  lemma LeavesOfStep(prefix: string, v: Json, ks: seq<string>, path: string)
    requires v.Obj? && ks != [] && forall k :: k in ks ==> k in v.fields
    ensures ks[0] in v.fields
    ensures LastText(LeavesOf(prefix, v, ks), path)
            == if LastText(LeavesOf(prefix, v, ks[1..]), path).Some? then LastText(LeavesOf(prefix, v, ks[1..]), path)
               else LastText(Leaves(Dotted(prefix, ks[0]), v.fields[ks[0]]), path)
  {
    assert ks[0] in ks;
    LastTextConcat(Leaves(Dotted(prefix, ks[0]), v.fields[ks[0]]), LeavesOf(prefix, v, ks[1..]), path);
  }

  /** The last key of a list that gives a path supplies its text. */
  lemma {:induction false} LastGiver(prefix: string, v: Json, ks: seq<string>, path: string) returns (i: nat)
    requires v.Obj? && forall k :: k in ks ==> k in v.fields
    requires LastText(LeavesOf(prefix, v, ks), path).Some?
    ensures i < |ks| && ks[i] in v.fields
    ensures forall j :: i < j < |ks| ==> !Shows(prefix, v, ks[j], path)
    ensures LastText(LeavesOf(prefix, v, ks), path) == LastText(Leaves(Dotted(prefix, ks[i]), v.fields[ks[i]]), path)
    decreases |ks|
  {
    LeavesOfStep(prefix, v, ks, path);
    if LastText(LeavesOf(prefix, v, ks[1..]), path).Some? {
      var j := LastGiver(prefix, v, ks[1..], path);
      i := j + 1;
    } else {
      i := 0;
      forall j | 0 < j < |ks| ensures !Shows(prefix, v, ks[j], path) {
        if Shows(prefix, v, ks[j], path) { GiverShows(prefix, v, ks[1..], j - 1, path); }
      }
    }
  }

  lemma {:induction false} GiverShows(prefix: string, v: Json, ks: seq<string>, j: nat, path: string)
    requires v.Obj? && j < |ks| && (forall k :: k in ks ==> k in v.fields) && Shows(prefix, v, ks[j], path)
    ensures LastText(LeavesOf(prefix, v, ks), path).Some?
    decreases j
  {
    LeavesOfStep(prefix, v, ks, path);
    if j > 0 {
      var rest := ks[1..];
      assert rest[j - 1] == ks[j];
      GiverShows(prefix, v, rest, j - 1, path);
    }
  }

  lemma KeysAscend(fields: map<string, Json>, i: nat, j: nat)
    requires i < j < |Keys(fields)|
    ensures KeyLess(Keys(fields)[i], Keys(fields)[j])
  {
    KeyLessIsStrictTotalOrder();
    AscendingAt(KeyLess, Keys(fields), i, j);
  }

  /** Of two keys that give a path, the later one in traversal order outranks the earlier one. */
  lemma LaterOutranks(prefix: string, fields: map<string, Json>, j: nat, i: nat, path: string)
    requires j < i < |Keys(fields)| && Keys(fields)[j] != Keys(fields)[i]
    requires Gives(prefix, fields, Keys(fields)[j], path) && Gives(prefix, fields, Keys(fields)[i], path)
    ensures Outranks(Keys(fields)[i], Keys(fields)[j])
  {
    var a, b := Keys(fields)[i], Keys(fields)[j];
    KeysAscend(fields, j, i);
    OutrankedIsEarlier(prefix, fields, a, b, path);
  }

  lemma PositionOf(fields: map<string, Json>, key: string) returns (j: nat)
    requires key in SolidKeys(fields)
    ensures j < |Keys(fields)| && Keys(fields)[j] == key
  {
    KeyLessIsStrictTotalOrder();
    assert key in Keys(fields);
    j :| 0 <= j < |Keys(fields)| && Keys(fields)[j] == key;
  }

  lemma SolidAt(fields: map<string, Json>, i: nat)
    requires i < |Keys(fields)|
    ensures Keys(fields)[i] in SolidKeys(fields)
  {
    assert Keys(fields)[i] in Keys(fields);
  }

  /** Whatever keys of an object collide on a path, one of them outranks all others, and the value at
      the path is the one below it. The rule applies again to the object below that key. */
  lemma DecidingKey(prefix: string, fields: map<string, Json>, path: string) returns (key: string)
    requires LastText(Leaves(prefix, Obj(fields)), path).Some?
    ensures Gives(prefix, fields, key, path)
    ensures forall k :: Gives(prefix, fields, k, path) && k != key ==> Outranks(key, k)
    ensures LastText(Leaves(prefix, Obj(fields)), path) == LastText(Leaves(Dotted(prefix, key), fields[key]), path)
  {
    var i := LastGiver(prefix, Obj(fields), Keys(fields), path);
    key := Keys(fields)[i];
    SolidAt(fields, i);
    forall k | Gives(prefix, fields, k, path) && k != key ensures Outranks(key, k) {
      var j := PositionOf(fields, k);
      LaterOutranks(prefix, fields, j, i, path);
    }
  }

  lemma GivenIsShown(prefix: string, fields: map<string, Json>, key: string, path: string)
    requires Gives(prefix, fields, key, path)
    ensures LastText(Leaves(prefix, Obj(fields)), path).Some?
  {
    var j := PositionOf(fields, key);
    GiverShows(prefix, Obj(fields), Keys(fields), j, path);
  }

  /** In any object, a key that outranks every other key giving a path decides that path. */
  lemma OutrankingKeyWins(prefix: string, fields: map<string, Json>, key: string, path: string)
    requires Gives(prefix, fields, key, path)
    requires forall k :: Gives(prefix, fields, k, path) && k != key ==> Outranks(key, k)
    ensures LastText(Leaves(prefix, Obj(fields)), path) == LastText(Leaves(Dotted(prefix, key), fields[key]), path)
  {
    GivenIsShown(prefix, fields, key, path);
    var best := DecidingKey(prefix, fields, path);
    if best != key { LessIsStrictTotalOrder(key, best, key); }
  }

  /** A key that carries a string itself beats every nested spelling of its path, and among the keys
      equal to it after trimming the greatest raw key decides; whatever else the object holds. */
  lemma GreatestRawKeyWins(prefix: string, fields: map<string, Json>, key: string, out: Catalog, strict: bool)
    requires key in SolidKeys(fields) && !fields[key].Obj?
    requires forall k :: k in SolidKeys(fields) && TrimSpace(k) == TrimSpace(key) && k != key ==> Less(k, key)
    ensures var r, path := Flatten(prefix, Obj(fields), out, strict), Dotted(prefix, key);
            r.Some? ==> path in r.value && r.value[path] == fields[key].text
  {
    var v, path := Obj(fields), Dotted(prefix, key);
    assert LastText(Leaves(path, fields[key]), path) == Some(fields[key].text);
    forall k | Gives(prefix, fields, k, path) && k != key ensures Outranks(key, k) {
      GivenBelow(prefix, fields, k, path);
      if |TrimSpace(key)| <= |TrimSpace(k)| { ShorterIsPrefix(prefix, key, k, path); }
    }
    OutrankingKeyWins(prefix, fields, key, path);
    FlattenWritesLeaves(prefix, v, out, strict);
    WriteLooksUpLast(out, Leaves(prefix, v), path);
  }
}
