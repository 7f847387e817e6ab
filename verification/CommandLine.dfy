/** The quote-aware splitter for target command lines. */
module CommandLine {
  import opened GoStrings

  /** The scanner: finished fields, the field being built, and the open quote if any. */
  datatype Scan = Scan(fields: seq<string>, current: string, quote: Option<char>)

  function Flush(s: Scan): Scan {
    if s.current != "" then s.(fields := s.fields + [s.current], current := "") else s
  }

  function Step(s: Scan, c: char): Scan {
    if s.quote.Some? then
      if c == s.quote.value then s.(quote := None) else s.(current := s.current + [c])
    else if c == '\'' || c == '"' then s.(quote := Some(c))
    else if c == ' ' || c == '\t' then Flush(s)
    else s.(current := s.current + [c])
  }

  function Run(s: Scan, line: string): Scan
    decreases line
  {
    if line == "" then s else Run(Step(s, line[0]), line[1..])
  }

  const START := Scan([], "", None)

  function SplitLine(line: string): Result<seq<string>> {
    var s := Run(START, line);
    if s.quote.Some? then Err("unterminated quote") else Ok(Flush(s).fields)
  }

  method SplitBuildCommandLine(line: string) returns (r: Result<seq<string>>)
    ensures r == SplitLine(line)
  {
    var fields: seq<string> := [];
    var current := "";
    var quote: Option<char> := None;
    for k := 0 to |line|
      invariant Run(START, line) == Run(Scan(fields, current, quote), line[k..])
    {
      var c := line[k];
      assert line[k..][0] == c && line[k..][1..] == line[k + 1..];
      if quote.Some? {
        if c == quote.value {
          quote := None;
          continue;
        }
        current := current + [c];
        continue;
      }
      if c == '\'' || c == '"' {
        quote := Some(c);
        continue;
      }
      if c == ' ' || c == '\t' {
        if |current| > 0 {
          fields := fields + [current];
          current := "";
        }
        continue;
      }
      current := current + [c];
    }
    if quote.Some? {
      return Err("unterminated quote");
    }
    if |current| > 0 {
      fields := fields + [current];
    }
    return Ok(fields);
  }

  // ----- Quotes

  /** The quote left open by a text that starts inside `quote`. */
  function OpenQuote(quote: Option<char>, text: string): Option<char>
    decreases text
  {
    if text == "" then quote
    else
      OpenQuote(match quote
                case Some(q) => if text[0] == q then None else quote
                case None => if text[0] == '\'' || text[0] == '"' then Some(text[0]) else None,
                text[1..])
  }

  lemma {:induction false} RunTracksQuote(s: Scan, text: string)
    ensures Run(s, text).quote == OpenQuote(s.quote, text)
    decreases text
  {
    if text != "" { RunTracksQuote(Step(s, text[0]), text[1..]); }
  }

  /** The splitter fails exactly when a quote is left open. */
  lemma FailsIffQuoteOpen(line: string)
    ensures SplitLine(line).Err? <==> OpenQuote(None, line).Some?
  {
    RunTracksQuote(START, line);
  }

  predicate NoEmptyField(fields: seq<string>) {
    fields == [] || (fields[|fields| - 1] != "" && NoEmptyField(fields[..|fields| - 1]))
  }

  lemma {:induction false} RunKeepsFieldsSolid(s: Scan, text: string)
    requires NoEmptyField(s.fields)
    ensures NoEmptyField(Flush(Run(s, text)).fields)
    decreases text
  {
    if s.current != "" { assert Flush(s).fields[..|s.fields|] == s.fields; }
    if text != "" { RunKeepsFieldsSolid(Step(s, text[0]), text[1..]); }
  }

  /** No field is ever empty. */
  lemma NoFieldIsEmpty(line: string)
    requires SplitLine(line).Ok?
    ensures NoEmptyField(SplitLine(line).value)
  {
    RunKeepsFieldsSolid(START, line);
  }

  // ----- Composition

  lemma {:induction false} RunConcat(s: Scan, a: string, b: string)
    ensures Run(s, a + b) == Run(Run(s, a), b)
    decreases a
  {
    if a == "" {
      assert a + b == b;
    } else {
      assert (a + b)[1..] == a[1..] + b;
      RunConcat(Step(s, a[0]), a[1..], b);
    }
  }

  /** Fields finished earlier do not influence the scan. */
  lemma {:induction false} RunAfter(before: seq<string>, s: Scan, text: string)
    ensures Run(s.(fields := before + s.fields), text)
            == Run(s, text).(fields := before + Run(s, text).fields)
    decreases text
  {
    if text != "" {
      var t := s.(fields := before + s.fields);
      assert before + (s.fields + [s.current]) == (before + s.fields) + [s.current];
      assert Step(t, text[0]) == Step(s, text[0]).(fields := before + Step(s, text[0]).fields);
      RunAfter(before, Step(s, text[0]), text[1..]);
    }
  }

  /** Splitting two texts joined by a blank is splitting both, provided the first closes its quotes. */
  lemma SplitConcat(a: string, blank: char, b: string)
    requires blank == ' ' || blank == '\t'
    requires SplitLine(a).Ok?
    ensures SplitLine(a + ([blank] + b))
            == match SplitLine(b)
               case Err(e) => Err(e)
               case Ok(fields) => Ok(SplitLine(a).value + fields)
  {
    var s := Run(START, a);
    var t := Flush(s);
    RunConcat(START, a, [blank] + b);
    assert ([blank] + b)[1..] == b;
    assert Step(s, blank) == t == START.(fields := t.fields + START.fields) by {
      assert t.fields + [] == t.fields;
    }
    RunAfter(t.fields, START, b);
    var u := Run(START, b);
    if u.current != "" {
      assert t.fields + (u.fields + [u.current]) == (t.fields + u.fields) + [u.current];
    }
  }

  // ----- Quoted rendering

  function Quoted(field: string): string { ['\''] + (field + ['\'']) }

  function Rendered(fields: seq<string>): string {
    if fields == [] then ""
    else if |fields| == 1 then Quoted(fields[0])
    else Quoted(fields[0]) + ([' '] + Rendered(fields[1..]))
  }

  lemma {:induction false} RunInsideQuote(s: Scan, text: string)
    requires s.quote == Some('\'') && '\'' !in text
    ensures Run(s, text) == s.(current := s.current + text)
    decreases text
  {
    if text == "" {
      assert s.current + text == s.current;
    } else {
      RunInsideQuote(Step(s, text[0]), text[1..]);
      assert (s.current + [text[0]]) + text[1..] == s.current + text;
    }
  }

  lemma QuotedSplits(field: string)
    requires field != "" && '\'' !in field
    ensures SplitLine(Quoted(field)) == Ok([field])
  {
    var q := Quoted(field);
    assert q[1..] == field + ['\''];
    var s := Step(START, '\'');
    RunConcat(s, field, ['\'']);
    RunInsideQuote(s, field);
    assert "" + field == field;
    var t := Run(s, field);
    assert ['\''][1..] == "";
    assert Run(t, ['\'']) == Step(t, '\'');
    assert [] + [field] == [field];
  }

  /** Any non-empty fields without single quotes, rendered in single quotes and joined by spaces,
      come back unchanged: blanks, tabs and double quotes inside them are preserved. */
  lemma {:induction false} RenderedSplits(fields: seq<string>)
    requires forall i :: 0 <= i < |fields| ==> fields[i] != "" && '\'' !in fields[i]
    ensures SplitLine(Rendered(fields)) == Ok(fields)
  {
    if fields != [] {
      QuotedSplits(fields[0]);
      if |fields| == 1 {
        assert fields == [fields[0]];
      } else {
        RenderedSplits(fields[1..]);
        SplitConcat(Quoted(fields[0]), ' ', Rendered(fields[1..]));
        assert fields == [fields[0]] + fields[1..];
      }
    }
  }

  // ----- Any line, read as pieces

  /** A piece of a line: text outside quotes, quoted text, or a blank between fields. */
  datatype Piece = Plain(text: string) | Single(text: string) | Double(text: string) | Blank(c: char)

  predicate Writable(p: Piece) {
    match p
    case Plain(t) => ' ' !in t && '\t' !in t && '\'' !in t && '"' !in t
    case Single(t) => '\'' !in t
    case Double(t) => '"' !in t
    case Blank(c) => c == ' ' || c == '\t'
  }

  predicate AllWritable(ps: seq<Piece>) { forall p :: p in ps ==> Writable(p) }

  function Written(p: Piece): string {
    match p
    case Plain(t) => t
    case Single(t) => ['\''] + (t + ['\''])
    case Double(t) => ['"'] + (t + ['"'])
    case Blank(c) => [c]
  }

  function Line(ps: seq<Piece>): string { if ps == [] then "" else Written(ps[0]) + Line(ps[1..]) }

  function Solid(field: string): seq<string> { if field == "" then [] else [field] }

  /** The fields of a line, read off its pieces: texts that no blank separates are glued together, and a
      field without any character is none. */
  function Glued(ps: seq<Piece>, current: string): seq<string> {
    if ps == [] then Solid(current)
    else
      match ps[0]
      case Blank(_) => Solid(current) + Glued(ps[1..], "")
      case _ => Glued(ps[1..], current + ps[0].text)
  }

  lemma {:induction false} RunQuoted(s: Scan, q: char, text: string)
    requires s.quote == Some(q) && q !in text
    ensures Run(s, text + [q]) == s.(current := s.current + text, quote := None)
    decreases text
  {
    var w := text + [q];
    if text == "" {
      assert w == [q] && w[1..] == "";
      assert Run(s, w) == Step(s, q);
      assert s.current + text == s.current;
    } else {
      assert w[0] == text[0] && w[1..] == text[1..] + [q];
      RunQuoted(Step(s, text[0]), q, text[1..]);
      assert (s.current + [text[0]]) + text[1..] == s.current + text;
    }
  }

  lemma {:induction false} RunPlain(s: Scan, text: string)
    requires s.quote.None? && Writable(Plain(text))
    ensures Run(s, text) == s.(current := s.current + text)
    decreases text
  {
    if text == "" {
      assert s.current + text == s.current;
    } else {
      RunPlain(Step(s, text[0]), text[1..]);
      assert (s.current + [text[0]]) + text[1..] == s.current + text;
    }
  }

  /** One piece at a time: text of any kind joins the field being built, a blank finishes it. */
  lemma RunPiece(s: Scan, p: Piece)
    requires s.quote.None? && Writable(p)
    ensures Run(s, Written(p))
            == if p.Blank? then s.(fields := s.fields + Solid(s.current), current := "")
               else s.(current := s.current + p.text)
  {
    match p
    case Plain(t) => RunPlain(s, t);
    case Single(t) => RunOpened(s, '\'', t);
    case Double(t) => RunOpened(s, '"', t);
    case Blank(c) =>
      assert [c][1..] == "";
      assert Run(s, [c]) == Step(s, c);
      assert s.fields + [] == s.fields;
  }

  lemma RunOpened(s: Scan, q: char, t: string)
    requires s.quote.None? && (q == '\'' || q == '"') && q !in t
    ensures Run(s, [q] + (t + [q])) == s.(current := s.current + t)
  {
    assert ([q] + (t + [q]))[1..] == t + [q];
    RunQuoted(Step(s, q), q, t);
  }

  lemma {:induction false} RunPieces(s: Scan, ps: seq<Piece>)
    requires s.quote.None? && AllWritable(ps)
    ensures var t := Run(s, Line(ps)); t.quote.None? && Flush(t).fields == s.fields + Glued(ps, s.current)
    decreases ps
  {
    if ps == [] {
      assert s.fields + [] == s.fields;
    } else {
      RunConcat(s, Written(ps[0]), Line(ps[1..]));
      RunPiece(s, ps[0]);
      var next := Run(s, Written(ps[0]));
      RunPieces(next, ps[1..]);
      if ps[0].Blank? {
        assert (s.fields + Solid(s.current)) + Glued(ps[1..], "") == s.fields + (Solid(s.current) + Glued(ps[1..], ""));
      }
    }
  }

  /** Every line written in plain text, single quotes, double quotes and blanks splits into the glued
      texts of its pieces. */
  lemma PiecesSplit(ps: seq<Piece>)
    requires AllWritable(ps)
    ensures SplitLine(Line(ps)) == Ok(Glued(ps, ""))
  {
    RunPieces(START, ps);
    assert [] + Glued(ps, "") == Glued(ps, "");
  }

  /** The first occurrence of a quote that gets closed. */
  lemma {:induction false} ClosesAt(q: char, text: string) returns (k: nat)
    requires OpenQuote(Some(q), text).None?
    ensures k < |text| && text[k] == q && q !in text[..k] && OpenQuote(None, text[k + 1..]).None?
    decreases text
  {
    if text[0] == q {
      k := 0;
    } else {
      k := ClosesAt(q, text[1..]);
      k := k + 1;
      assert text[..k] == [text[0]] + text[1..][..k - 1];
      assert text[1..][k..] == text[k + 1..];
    }
  }

  /** Conversely, every line that the splitter accepts is written in such pieces. */
  lemma AcceptedIsPieces(line: string) returns (ps: seq<Piece>)
    requires SplitLine(line).Ok?
    ensures AllWritable(ps) && Line(ps) == line && SplitLine(line) == Ok(Glued(ps, ""))
  {
    FailsIffQuoteOpen(line);
    ps := PiecesOf(line);
    PiecesSplit(ps);
  }

  lemma FirstPiece(line: string) returns (p: Piece, rest: string)
    requires line != "" && OpenQuote(None, line).None?
    ensures Writable(p) && line == Written(p) + rest && |rest| < |line| && OpenQuote(None, rest).None?
  {
    var c, tail := line[0], line[1..];
    assert line == [c] + tail;
    if c == '\'' || c == '"' {
      var k := ClosesAt(c, tail);
      CutAt(tail, k);
      var text := tail[..k];
      p, rest := if c == '"' then Double(text) else Single(text), tail[k + 1..];
      Assoc(text, [c], rest);
      Assoc([c], text + [c], rest);
    } else {
      p, rest := if c == ' ' || c == '\t' then Blank(c) else Plain([c]), tail;
    }
  }

  lemma {:induction false} PiecesOf(line: string) returns (ps: seq<Piece>)
    requires OpenQuote(None, line).None?
    ensures AllWritable(ps) && Line(ps) == line
    decreases |line|
  {
    if line == "" {
      ps := [];
    } else {
      var p, rest := FirstPiece(line);
      var tail := PiecesOf(rest);
      ps := [p] + tail;
      assert ps[1..] == tail;
    }
  }

  /** In particular a word without blanks and quotes is one field, as it stands. */
  lemma PlainWordSplits(w: string)
    requires w != "" && ' ' !in w && '\t' !in w && '\'' !in w && '"' !in w
    ensures SplitLine(w) == Ok([w])
  {
    var ps := [Plain(w)];
    PiecesSplit(ps);
    assert ps[1..] == [] && Line([]) == "";
    assert Line(ps) == w;
    assert "" + w == w;
  }

  function TextOf(field: seq<Piece>): string {
    if field == [] then "" else (if field[0].Blank? then "" else field[0].text) + TextOf(field[1..])
  }

  function Texts(fields: seq<seq<Piece>>): seq<string> {
    if fields == [] then [] else [TextOf(fields[0])] + Texts(fields[1..])
  }

  predicate IsField(field: seq<Piece>) {
    && (forall p :: p in field ==> Writable(p) && !p.Blank?)
    && TextOf(field) != ""
  }

  function FieldLine(fields: seq<seq<Piece>>): string {
    if fields == [] then ""
    else if |fields| == 1 then Line(fields[0])
    else Line(fields[0]) + ([' '] + FieldLine(fields[1..]))
  }

  lemma {:induction false} GluedField(field: seq<Piece>, current: string)
    requires forall p :: p in field ==> !p.Blank?
    ensures Glued(field, current) == Solid(current + TextOf(field))
    decreases field
  {
    if field == [] {
      assert current + "" == current;
    } else {
      assert field[0] in field;
      GluedField(field[1..], current + field[0].text);
      Assoc(current, field[0].text, TextOf(field[1..]));
    }
  }

  /** Fields glued from plain, single-quoted and double-quoted pieces in any mixture, joined by spaces,
      come back as the texts of their pieces, one field each. */
  lemma {:induction false} FieldsComeBack(fields: seq<seq<Piece>>)
    requires forall i :: 0 <= i < |fields| ==> IsField(fields[i])
    ensures SplitLine(FieldLine(fields)) == Ok(Texts(fields))
  {
    if fields != [] {
      PiecesSplit(fields[0]);
      GluedField(fields[0], "");
      assert "" + TextOf(fields[0]) == TextOf(fields[0]);
      if |fields| > 1 {
        FieldsComeBack(fields[1..]);
        SplitConcat(Line(fields[0]), ' ', FieldLine(fields[1..]));
      } else {
        assert Texts(fields[1..]) == [];
        assert [TextOf(fields[0])] + [] == [TextOf(fields[0])];
      }
    }
  }
}
