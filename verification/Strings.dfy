/** The Go string functions the modelled code is built from, over sequences of Unicode characters. */
module GoStrings {

  datatype Option<+T> = None | Some(value: T)

  datatype Result<+T> = Ok(value: T) | Err(message: string)

  /** unicode.IsSpace: the code points with the White_Space property. */
  predicate IsSpace(c: char) {
    || '\t' <= c <= '\r'
    || c == ' ' || c == '\U{85}' || c == '\U{A0}' || c == '\U{1680}'
    || '\U{2000}' <= c <= '\U{200A}'
    || c == '\U{2028}' || c == '\U{2029}' || c == '\U{202F}' || c == '\U{205F}' || c == '\U{3000}'
  }

  /** What a trim call removes: white space, or the characters of a one- or two-character cutset. */
  datatype Cutset = Whitespace | Only(c: char) | Either(c: char, d: char) {
    predicate Has(x: char) {
      match this
      case Whitespace => IsSpace(x)
      case Only(a) => x == a
      case Either(a, b) => x == a || x == b
    }
  }

  /** No character of the cutset at either end. */
  predicate Trimmed(s: string, cut: Cutset) {
    s == "" || (!cut.Has(s[0]) && !cut.Has(s[|s| - 1]))
  }

  function TrimLeft(s: string, cut: Cutset): string {
    if s != "" && cut.Has(s[0]) then TrimLeft(s[1..], cut) else s
  }

  function TrimRight(s: string, cut: Cutset): string {
    if s != "" && cut.Has(s[|s| - 1]) then TrimRight(s[..|s| - 1], cut) else s
  }

  lemma {:induction false} TrimLeftSpec(s: string, cut: Cutset)
    ensures var r := TrimLeft(s, cut);
            && |r| <= |s| && r == s[|s| - |r|..]
            && (r == "" || !cut.Has(r[0]))
            && forall i :: 0 <= i < |s| - |r| ==> cut.Has(s[i])
  {
    if s != "" && cut.Has(s[0]) {
      var t, r := s[1..], TrimLeft(s[1..], cut);
      TrimLeftSpec(t, cut);
      assert t[|t| - |r|..] == s[|s| - |r|..];
      forall i | 0 <= i < |s| - |r| ensures cut.Has(s[i]) {
        if i > 0 { assert s[i] == t[i - 1]; }
      }
    }
  }

  lemma {:induction false} TrimRightSpec(s: string, cut: Cutset)
    ensures var r := TrimRight(s, cut);
            && |r| <= |s| && r == s[..|r|]
            && (r == "" || !cut.Has(r[|r| - 1]))
            && forall i :: |r| <= i < |s| ==> cut.Has(s[i])
  {
    if s != "" && cut.Has(s[|s| - 1]) { TrimRightSpec(s[..|s| - 1], cut); }
  }

  function Trim(s: string, cut: Cutset): (r: string)
    ensures Trimmed(r, cut) && |r| <= |s|
  {
    TrimLeftSpec(s, cut);
    TrimRightSpec(TrimLeft(s, cut), cut);
    TrimRight(TrimLeft(s, cut), cut)
  }

  /** strings.TrimSpace. */
  function TrimSpace(s: string): (r: string)
    ensures Trimmed(r, Whitespace) && |r| <= |s|
  {
    Trim(s, Whitespace)
  }

  lemma TakeDrop(s: string, k: nat)
    requires k <= |s|
    ensures s[..k] + s[k..] == s
  {
  }

  /** A trim cuts the string into three pieces, the outer two made of cut characters only. */
  lemma TrimCuts(s: string, cut: Cutset) returns (left: string, right: string)
    ensures s == left + (Trim(s, cut) + right)
    ensures forall i :: 0 <= i < |left| ==> cut.Has(left[i])
    ensures forall i :: 0 <= i < |right| ==> cut.Has(right[i])
  {
    var t := TrimLeft(s, cut);
    var r := TrimRight(t, cut);
    TrimLeftSpec(s, cut);
    TrimRightSpec(t, cut);
    left, right := s[..|s| - |t|], t[|r|..];
    TakeDrop(t, |r|);
    TakeDrop(s, |s| - |t|);
  }

  lemma TrimKeepsMembers(s: string, cut: Cutset, c: char)
    requires c in Trim(s, cut)
    ensures c in s
  {
    var left, right := TrimCuts(s, cut);
  }

  lemma TrimToNothing(s: string, cut: Cutset)
    ensures Trim(s, cut) == "" <==> forall i :: 0 <= i < |s| ==> cut.Has(s[i])
  {
    var left, right := TrimCuts(s, cut);
    var t := Trim(s, cut);
    if t != "" {
      assert (t + right)[0] == t[0];
      assert s[|left|] == (t + right)[0];
    }
  }

  lemma TrimOfTrimmed(s: string, cut: Cutset)
    requires Trimmed(s, cut)
    ensures Trim(s, cut) == s
  {
  }

  /** strings.Split with a one-character separator. */
  function Split(s: string, sep: char): (r: seq<string>)
    ensures |r| >= 1
    ensures forall i :: 0 <= i < |r| ==> sep !in r[i]
  {
    if s == "" then [""]
    else if s[0] == sep then [""] + Split(s[1..], sep)
    else
      var rest := Split(s[1..], sep);
      [[s[0]] + rest[0]] + rest[1..]
  }

  /** strings.Join with a one-character separator. */
  function Join(parts: seq<string>, sep: char): string {
    if |parts| == 0 then ""
    else if |parts| == 1 then parts[0]
    else parts[0] + ([sep] + Join(parts[1..], sep))
  }

  lemma {:induction false} SplitFirst(p: string, rest: string, sep: char)
    requires sep !in p
    ensures Split(p + ([sep] + rest), sep) == [p] + Split(rest, sep)
    ensures Split(p, sep) == [p]
  {
    var w := p + ([sep] + rest);
    if p == "" {
      assert w[1..] == rest;
    } else {
      SplitFirst(p[1..], rest, sep);
      assert w[0] == p[0] != sep;
      assert w[1..] == p[1..] + ([sep] + rest);
      assert [p[0]] + p[1..] == p;
    }
  }

  lemma {:induction false} SplitOfJoin(parts: seq<string>, sep: char)
    requires |parts| >= 1
    requires forall i :: 0 <= i < |parts| ==> sep !in parts[i]
    ensures Split(Join(parts, sep), sep) == parts
  {
    if |parts| == 1 {
      SplitFirst(parts[0], "", sep);
    } else {
      SplitOfJoin(parts[1..], sep);
      SplitFirst(parts[0], Join(parts[1..], sep), sep);
    }
  }

  lemma {:induction false} JoinOfSplit(s: string, sep: char)
    ensures Join(Split(s, sep), sep) == s
  {
    if s != "" {
      JoinOfSplit(s[1..], sep);
      var rest := Split(s[1..], sep);
      if s[0] == sep {
        assert ([""] + rest)[1..] == rest;
      } else if |rest| > 1 {
        assert ([[s[0]] + rest[0]] + rest[1..])[1..] == rest[1..];
        Assoc([s[0]], rest[0], [sep] + Join(rest[1..], sep));
      }
    }
  }

  /** A separator splits a string into independent halves. */
  lemma {:induction false} SplitAround(a: string, b: string, sep: char)
    ensures Split(a + ([sep] + b), sep) == Split(a, sep) + Split(b, sep)
  {
    var w := a + ([sep] + b);
    if a == "" {
      assert w[1..] == b;
    } else {
      var left, right := Split(a[1..], sep), Split(b, sep);
      SplitAround(a[1..], b, sep);
      assert w[0] == a[0] && w[1..] == a[1..] + ([sep] + b);
      SplitCons(w, left + right, sep);
      SplitCons(a, left, sep);
      ConsConcat(left, right, [a[0]] + left[0]);
    }
  }

  lemma SplitCons(s: string, rest: seq<string>, sep: char)
    requires s != "" && rest != [] && Split(s[1..], sep) == rest
    ensures Split(s, sep) == if s[0] == sep then [""] + rest else [[s[0]] + rest[0]] + rest[1..]
  {
  }

  lemma ConsConcat(left: seq<string>, right: seq<string>, head: string)
    requires left != []
    ensures (left + right)[0] == left[0]
    ensures [head] + (left + right)[1..] == ([head] + left[1..]) + right
    ensures [""] + (left + right) == ([""] + left) + right
  {
    assert (left + right)[1..] == left[1..] + right;
  }

  /** The non-empty parts between separators. */
  function Pieces(s: string, sep: char): seq<string> { NonEmpty(Split(s, sep)) }

  function NonEmpty(parts: seq<string>): seq<string> {
    if parts == [] then [] else (if parts[0] == "" then [] else [parts[0]]) + NonEmpty(parts[1..])
  }

  lemma {:induction false} NonEmptyConcat(a: seq<string>, b: seq<string>)
    ensures NonEmpty(a + b) == NonEmpty(a) + NonEmpty(b)
  {
    if a == [] {
      assert a + b == b;
    } else {
      assert (a + b)[0] == a[0] && (a + b)[1..] == a[1..] + b;
      NonEmptyConcat(a[1..], b);
    }
  }

  lemma NoPieces(sep: char)
    ensures Pieces("", sep) == []
  {
    assert Split("", sep) == [""];
    assert NonEmpty([""][1..]) == [];
  }

  lemma PiecesAround(a: string, b: string, sep: char)
    ensures Pieces(a + ([sep] + b), sep) == Pieces(a, sep) + Pieces(b, sep)
  {
    SplitAround(a, b, sep);
    NonEmptyConcat(Split(a, sep), Split(b, sep));
  }

  lemma PiecesOfWord(w: string, sep: char)
    requires w != "" && sep !in w
    ensures Pieces(w, sep) == [w]
  {
    SplitFirst(w, "", sep);
    assert NonEmpty([w][1..]) == [];
  }

  /** A text that does not end in a separator is a last word behind whatever comes before it. */
  lemma {:induction false} LastWord(s: string, sep: char) returns (k: nat)
    requires s != "" && s[|s| - 1] != sep
    ensures k < |s| && sep !in s[k..] && (k > 0 ==> s[k - 1] == sep)
  {
    k := |s| - 1;
    while k > 0 && s[k - 1] != sep
      invariant k < |s| && sep !in s[k..]
    {
      k := k - 1;
      assert s[k..] == [s[k]] + s[k + 1..];
    }
  }

  /** A further character of the last word extends the last piece. */
  lemma PiecesGrow(s: string, c: char, sep: char)
    requires s != "" && s[|s| - 1] != sep && c != sep
    ensures var ps := Pieces(s, sep); ps != [] && Pieces(s + [c], sep) == ps[..|ps| - 1] + [ps[|ps| - 1] + [c]]
  {
    var k := LastWord(s, sep);
    var w := s[k..];
    PiecesOfWord(w, sep);
    PiecesOfWord(w + [c], sep);
    if k == 0 {
      assert w == s;
    } else {
      var head := s[..k - 1];
      assert s == head + ([sep] + w);
      assert s + [c] == head + ([sep] + (w + [c]));
      PiecesAround(head, w, sep);
      PiecesAround(head, w + [c], sep);
      assert (Pieces(head, sep) + [w])[..|Pieces(head, sep)|] == Pieces(head, sep);
    }
  }

  /** Behind a separator, or at the start, a character is a piece of its own. */
  lemma PiecesStart(s: string, c: char, sep: char)
    requires (s == "" || s[|s| - 1] == sep) && c != sep
    ensures Pieces(s + [c], sep) == Pieces(s, sep) + [[c]]
  {
    PiecesOfWord([c], sep);
    if s == "" {
      assert s + [c] == [c];
      NoPieces(sep);
    } else {
      var head := s[..|s| - 1];
      assert s == head + ([sep] + "") && s + [c] == head + ([sep] + [c]);
      PiecesAround(head, "", sep);
      PiecesAround(head, [c], sep);
      NoPieces(sep);
    }
  }

  lemma PiecesEnd(s: string, sep: char)
    ensures Pieces(s + [sep], sep) == Pieces(s, sep)
  {
    assert s + [sep] == s + ([sep] + "");
    PiecesAround(s, "", sep);
    NoPieces(sep);
  }

  lemma {:induction false} TrimLeftKeepsPieces(s: string, sep: char)
    ensures Pieces(TrimLeft(s, Only(sep)), sep) == Pieces(s, sep)
  {
    if s != "" && s[0] == sep {
      TrimLeftKeepsPieces(s[1..], sep);
      NoPieces(sep);
      PiecesAround("", s[1..], sep);
      assert s == "" + ([sep] + s[1..]);
    }
  }

  lemma {:induction false} TrimRightKeepsPieces(s: string, sep: char)
    ensures Pieces(TrimRight(s, Only(sep)), sep) == Pieces(s, sep)
  {
    if s != "" && s[|s| - 1] == sep {
      var init := s[..|s| - 1];
      TrimRightKeepsPieces(init, sep);
      NoPieces(sep);
      PiecesAround(init, "", sep);
      assert s == init + ([sep] + "");
    }
  }

  lemma CutAt(s: string, k: nat)
    requires k < |s|
    ensures s == s[..k] + ([s[k]] + s[k + 1..])
  {
  }

  lemma DropConcat(a: string, b: string, k: nat)
    requires k <= |a|
    ensures (a + b)[k..] == a[k..] + b
  {
  }

  lemma Assoc(a: string, b: string, c: string)
    ensures (a + b) + c == a + (b + c)
  {
  }

  /** Go's `<` on strings: lexicographic by code point. */
  predicate Less(a: string, b: string) {
    if b == "" then false
    else if a == "" then true
    else a[0] < b[0] || (a[0] == b[0] && Less(a[1..], b[1..]))
  }

  lemma {:induction false} LessIsStrictTotalOrder(a: string, b: string, c: string)
    ensures !Less(a, a)
    ensures Less(a, b) && Less(b, c) ==> Less(a, c)
    ensures !(Less(a, b) && Less(b, a))
    ensures a != b ==> Less(a, b) || Less(b, a)
  {
    if a != "" && b != "" && c != "" {
      LessIsStrictTotalOrder(a[1..], b[1..], c[1..]);
      assert a == [a[0]] + a[1..] && b == [b[0]] + b[1..];
    } else if a != "" && b != "" {
      LessIsStrictTotalOrder(a[1..], b[1..], c);
      assert a == [a[0]] + a[1..] && b == [b[0]] + b[1..];
    } else if a != "" {
      LessIsStrictTotalOrder(a[1..], b, c);
    }
  }

  /** strings.ReplaceAll for a non-empty pattern: leftmost occurrences, left to right. */
  function ReplaceAll(s: string, old_: string, new_: string): string
    requires old_ != ""
  {
    if s == "" then ""
    else if old_ <= s then new_ + ReplaceAll(s[|old_|..], old_, new_)
    else [s[0]] + ReplaceAll(s[1..], old_, new_)
  }
}
