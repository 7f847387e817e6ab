/** Message templates: `{name}` placeholders replaced one parameter at a time, in the arbitrary
    order in which Go enumerates a map. */
module Template {
  import opened GoStrings

  function Placeholder(name: string): string { ['{'] + (name + ['}']) }

  predicate BraceFree(s: string) { '{' !in s && '}' !in s }

  // ----- Format as written

  function FormatInOrder(template: string, params: map<string, string>, order: seq<string>): string
    requires forall k :: k in order ==> k in params
  {
    if order == [] then template
    else
      var key := order[|order| - 1];
      ReplaceAll(FormatInOrder(template, params, order[..|order| - 1]), Placeholder(key), params[key])
  }

  predicate Distinct(order: seq<string>) {
    order == [] || (order[|order| - 1] !in order[..|order| - 1] && Distinct(order[..|order| - 1]))
  }

  ghost predicate IsOrder(order: seq<string>, params: map<string, string>) {
    Distinct(order) && forall k :: k in order <==> k in params
  }

  /** The range loop picks the keys in an order of its own; `order` records it. */
  method Format(template: string, params: map<string, string>) returns (rendered: string, ghost order: seq<string>)
    ensures IsOrder(order, params) && rendered == FormatInOrder(template, params, order)
    ensures BraceFreeParams(params) && !HasNested(Tokenize(template)) ==> rendered == Simultaneous(template, params)
  {
    rendered, order := template, [];
    var remaining := params.Keys;
    while remaining != {}
      invariant remaining <= params.Keys
      invariant forall k :: k in order <==> k in params && k !in remaining
      invariant Distinct(order)
      invariant rendered == FormatInOrder(template, params, order)
    {
      var key :| key in remaining;
      rendered := ReplaceAll(rendered, Placeholder(key), params[key]);
      assert (order + [key])[..|order|] == order;
      order := order + [key];
      remaining := remaining - {key};
    }
    if BraceFreeParams(params) && !HasNested(Tokenize(template)) {
      FormatIsSimultaneous(template, params, order);
    }
  }

  // ----- Reference: simultaneous substitution

  /** A template is a list of literal characters and innermost brace-free groups. */
  datatype Token = Lit(c: char) | Slot(name: string)

  function BracelessPrefix(s: string): (k: nat)
    ensures k <= |s|
    ensures BraceFree(s[..k])
    ensures k < |s| ==> s[k] == '{' || s[k] == '}'
  {
    if s == "" || s[0] == '{' || s[0] == '}' then 0
    else
      var k := BracelessPrefix(s[1..]);
      assert s[..1 + k] == [s[0]] + s[1..][..k];
      1 + k
  }

  function Tokenize(t: string): seq<Token>
    decreases |t|
  {
    if t == "" then []
    else if t[0] != '{' then [Lit(t[0])] + Tokenize(t[1..])
    else
      var k := BracelessPrefix(t[1..]);
      if 1 + k < |t| && t[1 + k] == '}' then [Slot(t[1..1 + k])] + Tokenize(t[k + 2..])
      else [Lit('{')] + Tokenize(t[1..])
  }

  /** Replaces the slots that have a value and leaves the others as they were. */
  function Render(ts: seq<Token>, vals: map<string, string>): string {
    if ts == [] then ""
    else
      (match ts[0]
       case Lit(c) => [c]
       case Slot(n) => if n in vals then vals[n] else Placeholder(n))
      + Render(ts[1..], vals)
  }

  function Simultaneous(template: string, params: map<string, string>): string {
    Render(Tokenize(template), params)
  }

  predicate SlotsBraceFree(ts: seq<Token>) {
    ts == [] || ((ts[0].Slot? ==> BraceFree(ts[0].name)) && SlotsBraceFree(ts[1..]))
  }

  lemma GroupText(t: string, k: nat)
    requires 1 + k < |t| && t[0] == '{' && t[1 + k] == '}'
    ensures t == Placeholder(t[1..1 + k]) + t[k + 2..]
  {
  }

  lemma {:induction false} TokenizeIsFaithful(t: string)
    ensures Render(Tokenize(t), map[]) == t
    ensures SlotsBraceFree(Tokenize(t))
    decreases |t|
  {
    if t != "" {
      if t[0] != '{' {
        TokenizeIsFaithful(t[1..]);
      } else {
        var k := BracelessPrefix(t[1..]);
        if 1 + k < |t| && t[1 + k] == '}' {
          TokenizeIsFaithful(t[k + 2..]);
          assert t[1..][..k] == t[1..1 + k];
          GroupText(t, k);
        } else {
          TokenizeIsFaithful(t[1..]);
        }
      }
    }
  }

  ghost predicate BraceFreeParams(params: map<string, string>) {
    forall k :: k in params ==> BraceFree(k) && BraceFree(params[k])
  }

  // ----- Where a placeholder can appear

  /** `pat` occurs nowhere in `s`. */
  predicate Absent(pat: string, s: string)
    requires pat != ""
  {
    s == "" || (!(pat <= s) && Absent(pat, s[1..]))
  }

  lemma {:induction false} AbsentInSuffix(pat: string, a: string, b: string)
    requires pat != "" && Absent(pat, a + b)
    ensures Absent(pat, b)
  {
    if a == "" {
      assert a + b == b;
    } else {
      assert (a + b)[1..] == a[1..] + b;
      AbsentInSuffix(pat, a[1..], b);
    }
  }

  lemma {:induction false} AbsentBehind(pat: string, a: string, b: string)
    requires pat != "" && pat[0] == '{' && '{' !in a && Absent(pat, b)
    ensures Absent(pat, a + b)
  {
    if a == "" {
      assert a + b == b;
    } else {
      assert (a + b)[1..] == a[1..] + b && (a + b)[0] == a[0];
      AbsentBehind(pat, a[1..], b);
    }
  }

  lemma {:induction false} ReplaceSkips(a: string, b: string, pat: string, v: string)
    requires pat != "" && pat[0] == '{' && '{' !in a
    ensures ReplaceAll(a + b, pat, v) == a + ReplaceAll(b, pat, v)
  {
    if a == "" {
      assert a + b == b;
    } else {
      assert (a + b)[1..] == a[1..] + b && (a + b)[0] == a[0];
      ReplaceSkips(a[1..], b, pat, v);
    }
  }

  /** A brace-free name followed by `}` determines where it ends. */
  lemma {:induction false} NameEndsAtBrace(k: string, n: string, rest: string)
    requires BraceFree(k) && BraceFree(n) && k + ['}'] <= n + (['}'] + rest)
    ensures k == n
  {
    var w, s := k + ['}'], n + (['}'] + rest);
    assert w[0] == s[0];
    if k != "" && n != "" {
      assert w[1..] == k[1..] + ['}'] && s[1..] == n[1..] + (['}'] + rest);
      NameEndsAtBrace(k[1..], n[1..], rest);
      assert k == [k[0]] + k[1..] && n == [n[0]] + n[1..];
    }
  }

  lemma PlaceholderHead(k: string, c: char, rest: string)
    ensures Placeholder(k) <= [c] + rest <==> c == '{' && k + ['}'] <= rest
  {
    ConsPrefix('{', k + ['}'], c, rest);
  }

  lemma ConsPrefix(a: char, w: string, c: char, s: string)
    ensures [a] + w <= [c] + s <==> a == c && w <= s
  {
    if a == c && w <= s {
      assert ([c] + s)[..1 + |w|] == [c] + s[..|w|];
    }
    if [a] + w <= [c] + s {
      assert ([a] + w)[0] == ([c] + s)[0];
      assert w == ([a] + w)[1..] == ([c] + s)[..1 + |w|][1..] == s[..|w|];
    }
  }

  lemma SlotText(n: string, rest: string)
    ensures Placeholder(n) + rest == ['{'] + (n + (['}'] + rest))
  {
  }

  /** Replacing one placeholder leaves a slot of another name alone. */
  lemma OtherSlotStays(n: string, k: string, rest: string, v: string)
    requires BraceFree(n) && BraceFree(k) && n != k
    ensures ReplaceAll(Placeholder(n) + rest, Placeholder(k), v)
            == Placeholder(n) + ReplaceAll(rest, Placeholder(k), v)
    ensures Absent(Placeholder(k), rest) ==> Absent(Placeholder(k), Placeholder(n) + rest)
  {
    var tail := n + (['}'] + rest);
    SlotText(n, rest);
    PlaceholderHead(k, '{', tail);
    if k + ['}'] <= tail { NameEndsAtBrace(k, n, rest); }
    var s := ['{'] + tail;
    assert s[1..] == tail;
    var shut := n + ['}'];
    Assoc(n, ['}'], rest);
    ReplaceSkips(shut, rest, Placeholder(k), v);
    SlotText(n, ReplaceAll(rest, Placeholder(k), v));
    Assoc(n, ['}'], ReplaceAll(rest, Placeholder(k), v));
    if Absent(Placeholder(k), rest) { AbsentBehind(Placeholder(k), shut, rest); }
  }

  /** Replacing a placeholder replaces a slot of that name. */
  lemma OwnSlotReplaced(k: string, rest: string, v: string)
    ensures ReplaceAll(Placeholder(k) + rest, Placeholder(k), v) == v + ReplaceAll(rest, Placeholder(k), v)
  {
    var s := Placeholder(k) + rest;
    assert s[|Placeholder(k)|..] == rest;
    assert s[..|Placeholder(k)|] == Placeholder(k);
  }

  // ----- Partial substitutions share their brace-free stretches with the full one

  ghost predicate Extends(all: map<string, string>, some: map<string, string>) {
    forall k :: k in some ==> k in all && all[k] == some[k]
  }

  lemma {:induction false} SharedPrefix(ts: seq<Token>, some: map<string, string>, all: map<string, string>, w: string)
    requires Extends(all, some) && '{' !in w && w <= Render(ts, some)
    ensures w <= Render(ts, all)
  {
    if w != "" {
      var rest, full := Render(ts[1..], some), Render(ts[1..], all);
      match ts[0] {
        case Lit(c) =>
          assert w[1..] <= rest by { assert ([c] + rest)[1..] == rest; }
          SharedPrefix(ts[1..], some, all, w[1..]);
          assert w == [c] + w[1..];
          PrefixAfter([c], w[1..], full);
        case Slot(n) =>
          assert w[0] == Render(ts, some)[0];
          assert n in some;
          PrefixSplit(some[n], rest, w);
          if |w| > |some[n]| {
            SharedPrefix(ts[1..], some, all, w[|some[n]|..]);
            PrefixAfter(some[n], w[|some[n]|..], full);
          }
      }
    }
  }

  lemma PrefixAfter(a: string, w: string, s: string)
    requires w <= s
    ensures a + w <= a + s
  {
    assert (a + s)[..|a| + |w|] == a + s[..|w|];
  }

  lemma PrefixSplit(a: string, s: string, w: string)
    requires w <= a + s
    ensures |w| <= |a| ==> w <= a && forall t :: w <= a + t
    ensures |w| > |a| ==> w == a + w[|a|..] && w[|a|..] <= s
  {
    if |w| <= |a| {
      assert w == a[..|w|];
      forall t: string ensures w <= a + t { assert (a + t)[..|w|] == a[..|w|]; }
    } else {
      assert w[..|a|] == a;
      assert w[|a|..] == s[..|w| - |a|];
    }
  }

  /** Text that a partial substitution shows behind `y` is there in the full one too. */
  lemma SharedBehind(y: string, ts: seq<Token>, some: map<string, string>, all: map<string, string>, w: string)
    requires Extends(all, some) && '{' !in w && w <= y + Render(ts, some)
    ensures w <= y + Render(ts, all)
  {
    PrefixSplit(y, Render(ts, some), w);
    if |w| > |y| {
      SharedPrefix(ts, some, all, w[|y|..]);
      PrefixAfter(y, w[|y|..], Render(ts, all));
    }
  }

  /** Replacement passes over a piece of text when the full substitution shows no placeholder there. */
  lemma {:induction false} ReplacePasses(
    x: string, ts: seq<Token>, some: map<string, string>, all: map<string, string>, k: string, v: string)
    requires Extends(all, some) && BraceFree(k)
    requires Absent(Placeholder(k), x + Render(ts, all))
    ensures ReplaceAll(x + Render(ts, some), Placeholder(k), v)
            == x + ReplaceAll(Render(ts, some), Placeholder(k), v)
  {
    var now, full := Render(ts, some), Render(ts, all);
    if x == "" {
      assert x + now == now;
    } else {
      var c, y := x[0], x[1..];
      ConsTail(x, now);
      ConsTail(x, full);
      ReplacePasses(y, ts, some, all, k, v);
      PlaceholderHead(k, c, y + now);
      PlaceholderHead(k, c, y + full);
      if k + ['}'] <= y + now { SharedBehind(y, ts, some, all, k + ['}']); }
      ConsTail(x, ReplaceAll(now, Placeholder(k), v));
    }
  }

  lemma ConsTail(x: string, s: string)
    requires x != ""
    ensures x + s == [x[0]] + (x[1..] + s)
    ensures (x + s)[1..] == x[1..] + s
  {
  }

  /** One step of Format: when the full substitution shows no placeholder of `k`, replacing `k` in a
      partial substitution gives the next partial substitution. */
  lemma {:induction false} ReplaceStep(ts: seq<Token>, some: map<string, string>, all: map<string, string>, k: string)
    requires SlotsBraceFree(ts) && BraceFree(k)
    requires Extends(all, some) && k in all && k !in some
    requires Absent(Placeholder(k), Render(ts, all))
    ensures ReplaceAll(Render(ts, some), Placeholder(k), all[k]) == Render(ts, some[k := all[k]])
  {
    if ts != [] {
      var now, full, v := Render(ts[1..], some), Render(ts[1..], all), all[k];
      match ts[0] {
        case Lit(c) =>
          AbsentInSuffix(Placeholder(k), [c], full);
          ReplacePasses([c], ts[1..], some, all, k, v);
        case Slot(n) =>
          AbsentInSuffix(Placeholder(k), if n in all then all[n] else Placeholder(n), full);
          if n in some {
            ReplacePasses(some[n], ts[1..], some, all, k, v);
          } else if n == k {
            OwnSlotReplaced(k, now, v);
          } else {
            OtherSlotStays(n, k, now, v);
          }
      }
      ReplaceStep(ts[1..], some, all, k);
    }
  }

  function Restrict(params: map<string, string>, order: seq<string>): map<string, string>
    requires forall k :: k in order ==> k in params
  {
    map k | k in order :: params[k]
  }

  /** If the simultaneous result shows no parameter placeholder, every order produces it. */
  lemma {:induction false} OrderIrrelevant(template: string, params: map<string, string>, order: seq<string>)
    requires forall k :: k in order ==> k in params && BraceFree(k)
    requires forall k :: k in order ==> Absent(Placeholder(k), Simultaneous(template, params))
    requires Distinct(order)
    ensures FormatInOrder(template, params, order) == Render(Tokenize(template), Restrict(params, order))
  {
    TokenizeIsFaithful(template);
    if order == [] {
      assert Restrict(params, order) == map[];
    } else {
      var init, key := order[..|order| - 1], order[|order| - 1];
      assert order == init + [key];
      OrderIrrelevant(template, params, init);
      ReplaceStep(Tokenize(template), Restrict(params, init), params, key);
      assert Restrict(params, order) == Restrict(params, init)[key := params[key]];
    }
  }

  // ----- The exact condition on templates

  /** Scanning from just behind a `{`: a `}` comes before the next literal `{`. */
  predicate Closes(ts: seq<Token>) {
    && ts != []
    && match ts[0]
       case Slot(_) => Closes(ts[1..])
       case Lit(c) => c == '}' || (c != '{' && Closes(ts[1..]))
  }

  /** Some literal `{` is closed again with a placeholder inside, as in `{a{b}}`. */
  predicate HasNested(ts: seq<Token>) {
    ts != [] && ((ts[0] == Lit('{') && Closes(ts[1..])) || HasNested(ts[1..]))
  }

  lemma {:induction false} BraceNeedsClose(ts: seq<Token>, vals: map<string, string>, w: string)
    requires forall k :: k in vals ==> BraceFree(vals[k])
    requires BraceFree(w) && w + ['}'] <= Render(ts, vals)
    ensures Closes(ts)
  {
    var rest := Render(ts[1..], vals);
    var x := w + ['}'];
    match ts[0] {
      case Lit(c) =>
        assert x[0] == ([c] + rest)[0];
        if c != '}' {
          assert x[0] == c && w != "" && w[0] == c;
          assert x[1..] == w[1..] + ['}'];
          assert ([c] + rest)[1..] == rest;
          BraceNeedsClose(ts[1..], vals, w[1..]);
        }
      case Slot(n) =>
        assert x[0] == Render(ts, vals)[0];
        if n in vals {
          PrefixSplit(vals[n], rest, x);
          LastInside(w, vals[n]);
          if |x| > |vals[n]| {
            var k := |vals[n]|;
            assert x[k..] == w[k..] + ['}'];
            BraceNeedsClose(ts[1..], vals, w[k..]);
          }
        }
    }
  }

  lemma LastInside(w: string, v: string)
    ensures w + ['}'] <= v ==> '}' in v
  {
    if w + ['}'] <= v { assert v[|w|] == (w + ['}'])[|w|]; }
  }

  lemma {:induction false} NoNestedNoLeftover(ts: seq<Token>, params: map<string, string>, k: string)
    requires BraceFreeParams(params) && SlotsBraceFree(ts) && !HasNested(ts) && k in params
    ensures Absent(Placeholder(k), Render(ts, params))
  {
    if ts != [] {
      NoNestedNoLeftover(ts[1..], params, k);
      var rest := Render(ts[1..], params);
      match ts[0] {
        case Lit(c) =>
          PlaceholderHead(k, c, rest);
          if c == '{' && k + ['}'] <= rest { BraceNeedsClose(ts[1..], params, k); }
          assert ([c] + rest)[1..] == rest;
        case Slot(n) =>
          if n in params {
            AbsentBehind(Placeholder(k), params[n], rest);
          } else {
            OtherSlotStays(n, k, rest, "");
          }
      }
    }
  }

  lemma FormatIsSimultaneous(template: string, params: map<string, string>, order: seq<string>)
    requires BraceFreeParams(params) && IsOrder(order, params)
    requires !HasNested(Tokenize(template))
    ensures FormatInOrder(template, params, order) == Simultaneous(template, params)
  {
    TokenizeIsFaithful(template);
    forall k | k in order ensures Absent(Placeholder(k), Simultaneous(template, params)) {
      NoNestedNoLeftover(Tokenize(template), params, k);
    }
    OrderIrrelevant(template, params, order);
    assert Restrict(params, order) == params;
  }

  // ----- Nested templates always have failing parameters

  /** Every slot has the value `l`. */
  predicate AllMapTo(ts: seq<Token>, vals: map<string, string>, l: string) {
    ts == [] || ((ts[0].Slot? ==> ts[0].name in vals && vals[ts[0].name] == l) && AllMapTo(ts[1..], vals, l))
  }

  /** As Closes, but with no slot on the way. */
  predicate PlainCloses(ts: seq<Token>) {
    && ts != []
    && match ts[0]
       case Slot(_) => false
       case Lit(c) => c == '}' || (c != '{' && PlainCloses(ts[1..]))
  }

  /** A literal `{` never opens a plain group: the tokenizer would have made it a slot. */
  predicate Proper(ts: seq<Token>) {
    ts == [] || ((ts[0] == Lit('{') ==> !PlainCloses(ts[1..])) && Proper(ts[1..]))
  }

  lemma {:induction false} PlainMeansBrace(s: string)
    requires PlainCloses(Tokenize(s))
    ensures BracelessPrefix(s) < |s| && s[BracelessPrefix(s)] == '}'
  {
    if s[0] != '{' && s[0] != '}' {
      assert Tokenize(s)[1..] == Tokenize(s[1..]);
      PlainMeansBrace(s[1..]);
    }
  }

  lemma ProperCons(t: Token, ts: seq<Token>)
    requires Proper(ts) && (t == Lit('{') ==> !PlainCloses(ts))
    ensures Proper([t] + ts)
  {
    assert ([t] + ts)[1..] == ts;
  }

  lemma {:induction false} TokenizeIsProper(t: string)
    ensures Proper(Tokenize(t))
    decreases |t|
  {
    if t != "" {
      if t[0] != '{' {
        TokenizeIsProper(t[1..]);
        ProperCons(Lit(t[0]), Tokenize(t[1..]));
      } else {
        var k := BracelessPrefix(t[1..]);
        if 1 + k < |t| && t[1 + k] == '}' {
          TokenizeIsProper(t[k + 2..]);
          ProperCons(Slot(t[1..1 + k]), Tokenize(t[k + 2..]));
        } else {
          TokenizeIsProper(t[1..]);
          if PlainCloses(Tokenize(t[1..])) { PlainMeansBrace(t[1..]); }
          ProperCons(Lit('{'), Tokenize(t[1..]));
        }
      }
    }
  }

  /** The text up to the closing brace when every slot has the value `l`. */
  function Enclosed(ts: seq<Token>, l: string): string
    requires Closes(ts)
  {
    match ts[0]
    case Slot(_) => l + Enclosed(ts[1..], l)
    case Lit(c) => if c == '}' then "" else [c] + Enclosed(ts[1..], l)
  }

  lemma {:induction false} EnclosedShows(ts: seq<Token>, vals: map<string, string>, l: string)
    requires Closes(ts) && AllMapTo(ts, vals, l) && BraceFree(l)
    ensures Enclosed(ts, l) + ['}'] <= Render(ts, vals)
    ensures BraceFree(Enclosed(ts, l))
    ensures PlainCloses(ts) || |Enclosed(ts, l)| >= |l|
  {
    var rest := Render(ts[1..], vals);
    match ts[0] {
      case Slot(n) =>
        EnclosedShows(ts[1..], vals, l);
        PrefixAfter(l, Enclosed(ts[1..], l) + ['}'], rest);
        Assoc(l, Enclosed(ts[1..], l), ['}']);
      case Lit(c) =>
        if c == '}' {
          assert "" + ['}'] == ['}'];
        } else {
          EnclosedShows(ts[1..], vals, l);
          PrefixAfter([c], Enclosed(ts[1..], l) + ['}'], rest);
          Assoc([c], Enclosed(ts[1..], l), ['}']);
        }
    }
  }

  /** A nested group turns into a placeholder whose name is at least as long as the slot values. */
  lemma {:induction false} NestedShows(ts: seq<Token>, vals: map<string, string>, l: string) returns (j: string)
    requires HasNested(ts) && Proper(ts) && AllMapTo(ts, vals, l) && BraceFree(l)
    ensures BraceFree(j) && |j| >= |l| && !Absent(Placeholder(j), Render(ts, vals))
  {
    var rest := Render(ts[1..], vals);
    if ts[0] == Lit('{') && Closes(ts[1..]) {
      j := Enclosed(ts[1..], l);
      EnclosedShows(ts[1..], vals, l);
      PlaceholderHead(j, '{', rest);
    } else {
      j := NestedShows(ts[1..], vals, l);
      var head := match ts[0] { case Lit(c) => [c] case Slot(n) => vals[n] };
      assert Render(ts, vals) == head + rest;
      if Absent(Placeholder(j), head + rest) { AbsentInSuffix(Placeholder(j), head, rest); }
    }
  }

  /** A short name can only be read off literal characters. */
  lemma {:induction false} ShortNameIsPlain(ts: seq<Token>, vals: map<string, string>, l: string, w: string)
    requires AllMapTo(ts, vals, l) && BraceFree(l)
    requires BraceFree(w) && w + ['}'] <= Render(ts, vals)
    ensures PlainCloses(ts) || |w| >= |l|
  {
    var rest := Render(ts[1..], vals);
    match ts[0] {
      case Lit(c) =>
        if w == "" {
          assert (w + ['}'])[0] == ([c] + rest)[0];
        } else {
          assert w + ['}'] == [w[0]] + (w[1..] + ['}']);
          ConsPrefix(w[0], w[1..] + ['}'], c, rest);
          ShortNameIsPlain(ts[1..], vals, l, w[1..]);
        }
      case Slot(n) =>
        PrefixSplit(l, rest, w + ['}']);
        LastInside(w, l);
    }
  }

  lemma {:induction false} ShortNamesAbsent(ts: seq<Token>, vals: map<string, string>, l: string, k: string)
    requires AllMapTo(ts, vals, l) && BraceFree(l) && Proper(ts) && BraceFree(k) && |k| < |l|
    ensures Absent(Placeholder(k), Render(ts, vals))
  {
    if ts != [] {
      ShortNamesAbsent(ts[1..], vals, l, k);
      var rest := Render(ts[1..], vals);
      match ts[0] {
        case Lit(c) =>
          PlaceholderHead(k, c, rest);
          if k + ['}'] <= rest { ShortNameIsPlain(ts[1..], vals, l, k); }
          assert ([c] + rest)[1..] == rest;
        case Slot(n) =>
          AbsentBehind(Placeholder(k), l, rest);
      }
    }
  }

  function SlotNames(ts: seq<Token>): set<string> {
    if ts == [] then {}
    else (if ts[0].Slot? then {ts[0].name} else {}) + SlotNames(ts[1..])
  }

  /** A brace-free string longer than every slot name. */
  function Longer(ts: seq<Token>): (l: string)
    ensures BraceFree(l)
    ensures forall n :: n in SlotNames(ts) ==> |n| < |l|
  {
    if ts == [] then "a"
    else
      var l := Longer(ts[1..]);
      if ts[0].Slot? && |ts[0].name| >= |l| then seq(|ts[0].name| + 1, _ => 'a') else l
  }

  lemma {:induction false} SlotNamesMap(ts: seq<Token>, vals: map<string, string>, l: string)
    requires forall n :: n in SlotNames(ts) ==> n in vals && vals[n] == l
    ensures AllMapTo(ts, vals, l)
  {
    if ts != [] { SlotNamesMap(ts[1..], vals, l); }
  }

  lemma {:induction false} SlotNamesAreBraceFree(ts: seq<Token>)
    requires SlotsBraceFree(ts)
    ensures forall n :: n in SlotNames(ts) ==> BraceFree(n)
  {
    if ts != [] { SlotNamesAreBraceFree(ts[1..]); }
  }

  lemma {:induction false} UnusedValue(ts: seq<Token>, vals: map<string, string>, j: string, v: string)
    requires j !in SlotNames(ts)
    ensures Render(ts, vals[j := v]) == Render(ts, vals)
  {
    if ts != [] { UnusedValue(ts[1..], vals, j, v); }
  }

  lemma {:induction false} SomeOrder(names: set<string>) returns (order: seq<string>)
    ensures Distinct(order) && forall n :: n in order <==> n in names
  {
    if |names| == 0 {
      order := [];
    } else {
      var n :| n in names;
      var init := SomeOrder(names - {n});
      order := init + [n];
      assert order[..|init|] == init;
    }
  }

  lemma {:induction false} ErasingShrinks(s: string, pat: string)
    requires pat != ""
    ensures |ReplaceAll(s, pat, "")| <= |s|
    ensures !Absent(pat, s) ==> |ReplaceAll(s, pat, "")| < |s|
    decreases |s|
  {
    if s != "" {
      if pat <= s { ErasingShrinks(s[|pat|..], pat); } else { ErasingShrinks(s[1..], pat); }
    }
  }

  lemma LocalFormat(template: string, params: map<string, string>, more: map<string, string>, order: seq<string>)
    requires forall k :: k in order ==> k in params && k in more && more[k] == params[k]
    ensures FormatInOrder(template, params, order) == FormatInOrder(template, more, order)
  {
    if order != [] {
      assert order == order[..|order| - 1] + [order[|order| - 1]];
      LocalFormat(template, params, more, order[..|order| - 1]);
    }
  }

  ghost predicate LongValues(ts: seq<Token>, vals: map<string, string>, l: string) {
    && vals.Keys == SlotNames(ts) && AllMapTo(ts, vals, l) && BraceFree(l)
    && forall n :: n in vals ==> BraceFree(n) && |n| < |l| && vals[n] == l
  }

  lemma SomeLongValues(template: string) returns (vals: map<string, string>, l: string)
    ensures LongValues(Tokenize(template), vals, l)
  {
    var ts := Tokenize(template);
    l := Longer(ts);
    vals := map n | n in SlotNames(ts) :: l;
    TokenizeIsFaithful(template);
    SlotNamesAreBraceFree(ts);
    SlotNamesMap(ts, vals, l);
  }

  lemma LongValuesFormat(template: string, vals: map<string, string>, l: string, order: seq<string>)
    requires LongValues(Tokenize(template), vals, l) && IsOrder(order, vals)
    ensures FormatInOrder(template, vals, order) == Render(Tokenize(template), vals)
  {
    TokenizeIsProper(template);
    forall k | k in order ensures Absent(Placeholder(k), Simultaneous(template, vals)) {
      ShortNamesAbsent(Tokenize(template), vals, l, k);
    }
    OrderIrrelevant(template, vals, order);
    assert Restrict(vals, order) == vals;
  }

  lemma LastKeyErases(template: string, vals: map<string, string>, params: map<string, string>,
                      init: seq<string>, j: string)
    requires IsOrder(init, vals) && j !in vals && j !in SlotNames(Tokenize(template))
    requires params == vals[j := ""]
    requires FormatInOrder(template, vals, init) == Render(Tokenize(template), vals)
    requires !Absent(Placeholder(j), Render(Tokenize(template), vals))
    ensures IsOrder(init + [j], params)
    ensures FormatInOrder(template, params, init + [j]) != Simultaneous(template, params)
  {
    var order := init + [j];
    assert order[..|init|] == init;
    LocalFormat(template, vals, params, init);
    UnusedValue(Tokenize(template), vals, j, "");
    ErasingShrinks(Render(Tokenize(template), vals), Placeholder(j));
  }

  lemma FreshName(ts: seq<Token>, vals: map<string, string>, l: string, j: string)
    requires LongValues(ts, vals, l) && |j| >= |l| && BraceFree(j)
    ensures j !in vals && j !in SlotNames(ts)
    ensures BraceFreeParams(vals[j := ""])
  {
  }

  lemma NestedWitness(template: string) returns (vals: map<string, string>, init: seq<string>, j: string)
    requires HasNested(Tokenize(template))
    ensures IsOrder(init, vals) && j !in vals && j !in SlotNames(Tokenize(template))
    ensures BraceFreeParams(vals[j := ""])
    ensures FormatInOrder(template, vals, init) == Render(Tokenize(template), vals)
    ensures !Absent(Placeholder(j), Render(Tokenize(template), vals))
  {
    var l;
    vals, l := SomeLongValues(template);
    TokenizeIsProper(template);
    j := NestedShows(Tokenize(template), vals, l);
    FreshName(Tokenize(template), vals, l, j);
    init := SomeOrder(vals.Keys);
    LongValuesFormat(template, vals, l, init);
  }

  // ----- Two orders with different results

  lemma OpensOtherwise(w: string, s: string)
    requires BraceFree(w) && w + ['}'] <= s
    ensures s[0] != '{'
  {
    assert s[0] == (w + ['}'])[0];
  }

  /** In unrendered text a brace-free name can only be read off literal characters. */
  lemma {:induction false} PlainFromText(ts: seq<Token>, w: string)
    requires BraceFree(w) && w + ['}'] <= Render(ts, map[])
    ensures PlainCloses(ts)
  {
    var rest := Render(ts[1..], map[]);
    match ts[0] {
      case Lit(c) =>
        if w == "" {
          assert (w + ['}'])[0] == ([c] + rest)[0];
        } else {
          assert w + ['}'] == [w[0]] + (w[1..] + ['}']);
          ConsPrefix(w[0], w[1..] + ['}'], c, rest);
          PlainFromText(ts[1..], w[1..]);
        }
      case Slot(n) =>
        OpensOtherwise(w, Render(ts, map[]));
        assert false;
    }
  }

  /** A template shows only the placeholders it has slots for. */
  lemma {:induction false} UnslottedIsAbsent(ts: seq<Token>, j: string)
    requires Proper(ts) && SlotsBraceFree(ts) && BraceFree(j) && j !in SlotNames(ts)
    ensures Absent(Placeholder(j), Render(ts, map[]))
  {
    if ts != [] {
      UnslottedIsAbsent(ts[1..], j);
      var rest := Render(ts[1..], map[]);
      match ts[0] {
        case Lit(c) =>
          PlaceholderHead(j, c, rest);
          if c == '{' && j + ['}'] <= rest { PlainFromText(ts[1..], j); }
          assert ([c] + rest)[1..] == rest;
        case Slot(n) =>
          OtherSlotStays(n, j, rest, "");
      }
    }
  }

  lemma {:induction false} AbsentStays(s: string, pat: string, v: string)
    requires pat != "" && Absent(pat, s)
    ensures ReplaceAll(s, pat, v) == s
  {
    if s != "" {
      AbsentStays(s[1..], pat, v);
      assert s == [s[0]] + s[1..];
    }
  }

  lemma {:induction false} FirstKeyFirst(template: string, params: map<string, string>, j: string, order: seq<string>)
    requires j in params && forall k :: k in order ==> k in params
    ensures FormatInOrder(template, params, [j] + order)
            == FormatInOrder(ReplaceAll(template, Placeholder(j), params[j]), params, order)
  {
    if order == [] {
      assert [j] + order == [j] && [j][..0] == [];
    } else {
      var init, last := order[..|order| - 1], order[|order| - 1];
      assert order == init + [last];
      assert ([j] + order)[..|order|] == [j] + init;
      FirstKeyFirst(template, params, j, init);
    }
  }

  lemma {:induction false} DistinctCons(j: string, order: seq<string>)
    requires Distinct(order) && j !in order
    ensures Distinct([j] + order)
  {
    if order == [] {
      assert [j] + order == [j];
    } else {
      var init := order[..|order| - 1];
      assert order == init + [order[|order| - 1]];
      DistinctCons(j, init);
      assert ([j] + order)[..|order|] == [j] + init;
    }
  }

  /** Replacing `j` before everything else finds nothing to replace. */
  lemma FirstKeyIdles(template: string, vals: map<string, string>, params: map<string, string>,
                      init: seq<string>, j: string)
    requires IsOrder(init, vals) && j !in vals && j !in SlotNames(Tokenize(template)) && BraceFree(j)
    requires params == vals[j := ""]
    ensures IsOrder([j] + init, params)
    ensures FormatInOrder(template, params, [j] + init) == FormatInOrder(template, vals, init)
  {
    TokenizeIsFaithful(template);
    TokenizeIsProper(template);
    UnslottedIsAbsent(Tokenize(template), j);
    AbsentStays(template, Placeholder(j), "");
    FirstKeyFirst(template, params, j, init);
    LocalFormat(template, vals, params, init);
    DistinctCons(j, init);
  }

  /** For a nested template there are brace-free parameters and two orders with different results. */
  lemma NestedRaces(template: string) returns (params: map<string, string>, a: seq<string>, b: seq<string>)
    requires HasNested(Tokenize(template))
    ensures BraceFreeParams(params) && IsOrder(a, params) && IsOrder(b, params)
    ensures FormatInOrder(template, params, a) != FormatInOrder(template, params, b)
  {
    var vals, init, j := NestedWitness(template);
    params, a, b := vals[j := ""], init + [j], [j] + init;
    LastKeyErases(template, vals, params, init, j);
    UnusedValue(Tokenize(template), vals, j, "");
    assert j in params;
    FirstKeyIdles(template, vals, params, init, j);
  }

  /** For a nested template there are brace-free parameters and an order that Format gets wrong. */
  lemma NestedBreaks(template: string) returns (params: map<string, string>, order: seq<string>)
    requires HasNested(Tokenize(template))
    ensures BraceFreeParams(params) && IsOrder(order, params)
    ensures FormatInOrder(template, params, order) != Simultaneous(template, params)
  {
    var vals, init, j := NestedWitness(template);
    params, order := vals[j := ""], init + [j];
    LastKeyErases(template, vals, params, init, j);
  }

  /** Format is order-independent simultaneous substitution for every brace-free parameter map
      exactly when the template has no nested group. */
  lemma FormatReliableIff(template: string)
    ensures (forall params: map<string, string>, order: seq<string> ::
               BraceFreeParams(params) && IsOrder(order, params) ==>
                 FormatInOrder(template, params, order) == Simultaneous(template, params))
            <==> !HasNested(Tokenize(template))
  {
    if HasNested(Tokenize(template)) {
      var params, order := NestedBreaks(template);
    } else {
      forall params: map<string, string>, order: seq<string> | BraceFreeParams(params) && IsOrder(order, params)
        ensures FormatInOrder(template, params, order) == Simultaneous(template, params)
      {
        FormatIsSimultaneous(template, params, order);
      }
    }
  }

  ghost predicate OrderIndependent(template: string) {
    forall params: map<string, string>, a: seq<string>, b: seq<string> ::
      BraceFreeParams(params) && IsOrder(a, params) && IsOrder(b, params) ==>
        FormatInOrder(template, params, a) == FormatInOrder(template, params, b)
  }

  /** The result depends on the order in which the map is enumerated, for some brace-free parameters,
      exactly when the template has a nested group. */
  lemma OrderIndependentIff(template: string)
    ensures OrderIndependent(template) <==> !HasNested(Tokenize(template))
  {
    if HasNested(Tokenize(template)) {
      var params, a, b := NestedRaces(template);
    } else {
      forall params: map<string, string>, a: seq<string>, b: seq<string>
        | BraceFreeParams(params) && IsOrder(a, params) && IsOrder(b, params)
        ensures FormatInOrder(template, params, a) == FormatInOrder(template, params, b)
      {
        FormatIsSimultaneous(template, params, a);
        FormatIsSimultaneous(template, params, b);
      }
    }
  }

  /** Any parameter values at all are safe as long as the simultaneous result shows no placeholder
      of a parameter; then the order still does not matter. */
  lemma NoLeftoverNoRace(template: string, params: map<string, string>, order: seq<string>)
    requires IsOrder(order, params)
    requires forall k :: k in params ==> BraceFree(k) && Absent(Placeholder(k), Simultaneous(template, params))
    ensures FormatInOrder(template, params, order) == Simultaneous(template, params)
  {
    OrderIrrelevant(template, params, order);
    assert Restrict(params, order) == params;
  }
}
