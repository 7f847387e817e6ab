/** Option lists and typed values of system parameters. */
module ConfigOptions {
  import opened GoStrings

  datatype Choice = Choice(caption: string, value: string)

  // ----- Normal form of an option list

  /** Trimmed, with an empty caption filled from the value. */
  function NormalizeOption(o: Choice): Choice {
    var value := TrimSpace(o.value);
    Choice(if TrimSpace(o.caption) == "" then value else TrimSpace(o.caption), value)
  }

  function NormalizeOptions(options: seq<Choice>): Result<seq<Choice>> {
    if options == [] then Ok([])
    else
      match NormalizeOptions(options[..|options| - 1])
      case Err(e) => Err(e)
      case Ok(init) =>
        var o := NormalizeOption(options[|options| - 1]);
        if o.value == "" then Err("option value is required") else Ok(init + [o])
  }

  predicate IsNormal(o: Choice) {
    o.caption != "" && Trimmed(o.caption, Whitespace) && o.value != "" && Trimmed(o.value, Whitespace)
  }

  predicate AllNormal(options: seq<Choice>) {
    options == [] || (IsNormal(options[|options| - 1]) && AllNormal(options[..|options| - 1]))
  }

  lemma {:induction false} NormalizeKeepsNormal(options: seq<Choice>)
    requires AllNormal(options)
    ensures NormalizeOptions(options) == Ok(options)
  {
    if options != [] {
      var o, init := options[|options| - 1], options[..|options| - 1];
      NormalizeKeepsNormal(init);
      TrimOfTrimmed(o.caption, Whitespace);
      TrimOfTrimmed(o.value, Whitespace);
      assert options == init + [o];
    }
  }

  method RunNormalizeOptions(options: seq<Choice>) returns (r: Result<seq<Choice>>)
    ensures r == NormalizeOptions(options)
  {
    var normalized: seq<Choice> := [];
    for k := 0 to |options|
      invariant NormalizeOptions(options[..k]) == Ok(normalized)
    {
      assert options[..k + 1][..k] == options[..k];
      var value := TrimSpace(options[k].value);
      if value == "" {
        FailsFrom(options, k + 1);
        return NormalizeOptions(options[..k + 1]);
      }
      var caption := TrimSpace(options[k].caption);
      if caption == "" {
        caption := value;
      }
      normalized := normalized + [Choice(caption, value)];
    }
    assert options[..|options|] == options;
    return Ok(normalized);
  }

  lemma {:induction false} FailsFrom(options: seq<Choice>, k: nat)
    requires k <= |options| && NormalizeOptions(options[..k]).Err?
    ensures NormalizeOptions(options) == NormalizeOptions(options[..k])
    decreases |options|
  {
    if k == |options| {
      assert options[..k] == options;
    } else {
      var init := options[..|options| - 1];
      assert init[..k] == options[..k];
      FailsFrom(init, k);
    }
  }

  // ----- Parsing the line format

  function IndexByte(s: string, c: char): (k: int)
    ensures -1 <= k < |s|
  {
    if s == "" then -1
    else if s[0] == c then 0
    else
      var k := IndexByte(s[1..], c);
      if k < 0 then -1 else k + 1
  }

  /** The position of the first `=` or `|`, chosen from the first of each. */
  function SeparatorIndex(line: string): (sep: int)
    ensures -1 <= sep < |line|
  {
    var eq, pipe := IndexByte(line, '='), IndexByte(line, '|');
    if eq >= 0 && pipe >= 0 then (if eq < pipe then eq else pipe)
    else if eq >= 0 then eq
    else pipe
  }

  function SplitSimpleOptionLine(line: string): (string, string) {
    var sep := SeparatorIndex(line);
    if sep < 0 then ("", TrimSpace(line))
    else (TrimSpace(line[..sep]), TrimSpace(line[sep + 1..]))
  }

  /** The option one non-blank, trimmed line stands for. */
  function ParseLine(line: string): Result<Choice> {
    var (caption, value) := SplitSimpleOptionLine(line);
    if value == "" then Err("option value is required")
    else Ok(Choice(if caption == "" then value else caption, value))
  }

  function ParseLines(lines: seq<string>): Result<seq<Choice>> {
    if lines == [] then Ok([])
    else
      var line := TrimSpace(lines[|lines| - 1]);
      match ParseLines(lines[..|lines| - 1])
      case Err(e) => Err(e)
      case Ok(init) =>
        if line == "" then Ok(init)
        else
          match ParseLine(line)
          case Err(e) => Err(e)
          case Ok(o) => Ok(init + [o])
  }

  function ParseOptionsSimple(raw: string): Result<seq<Choice>> {
    match ParseLines(Split(raw, '\n'))
    case Err(e) => Err(e)
    case Ok(options) => NormalizeOptions(options)
  }

  method RunParseOptionsSimple(raw: string) returns (r: Result<seq<Choice>>)
    ensures r == ParseOptionsSimple(raw)
  {
    var lines := Split(raw, '\n');
    var options: seq<Choice> := [];
    for k := 0 to |lines|
      invariant ParseLines(lines[..k]) == Ok(options)
    {
      assert lines[..k + 1][..k] == lines[..k];
      var line := TrimSpace(lines[k]);
      if line == "" {
        continue;
      }
      var (caption, value) := SplitSimpleOptionLine(line);
      if value == "" {
        LinesFailFrom(lines, k + 1);
        return Err("option value is required");
      }
      if caption == "" {
        caption := value;
      }
      options := options + [Choice(caption, value)];
    }
    assert lines[..|lines|] == lines;
    r := RunNormalizeOptions(options);
  }

  lemma {:induction false} LinesFailFrom(lines: seq<string>, k: nat)
    requires k <= |lines| && ParseLines(lines[..k]).Err?
    ensures ParseLines(lines) == ParseLines(lines[..k])
    decreases |lines|
  {
    if k == |lines| {
      assert lines[..k] == lines;
    } else {
      var init := lines[..|lines| - 1];
      assert init[..k] == lines[..k];
      LinesFailFrom(init, k);
    }
  }

  /** The JSON branch is the given decoder followed by normalization. */
  function ParseOptions(raw: string, decode: string -> Result<seq<Choice>>): Result<seq<Choice>> {
    var trimmed := TrimSpace(raw);
    if trimmed == "" then Ok([])
    else if trimmed[0] == '[' then
      match decode(trimmed)
      case Err(e) => Err(e)
      case Ok(options) => NormalizeOptions(options)
    else ParseOptionsSimple(trimmed)
  }

  // ----- Printing the line format

  function Line(o: Choice): string {
    var caption, value := TrimSpace(o.caption), TrimSpace(o.value);
    if caption == "" || caption == value then value else caption + (['='] + value)
  }

  function Lines(options: seq<Choice>): seq<string> {
    if options == [] then []
    else
      var o := options[|options| - 1];
      Lines(options[..|options| - 1]) + if TrimSpace(o.value) == "" then [] else [Line(o)]
  }

  function FormatOptionsSimple(options: seq<Choice>): string { Join(Lines(options), '\n') }

  method RunFormatOptionsSimple(options: seq<Choice>) returns (text: string)
    ensures text == FormatOptionsSimple(options)
  {
    if |options| == 0 {
      return "";
    }
    var lines: seq<string> := [];
    for k := 0 to |options|
      invariant lines == Lines(options[..k])
    {
      assert options[..k + 1][..k] == options[..k];
      var caption := TrimSpace(options[k].caption);
      var value := TrimSpace(options[k].value);
      if value == "" {
        continue;
      }
      if caption == "" || caption == value {
        lines := lines + [value];
        continue;
      }
      lines := lines + [caption + (['='] + value)];
    }
    assert options[..|options|] == options;
    text := Join(lines, '\n');
  }

  // ----- One line

  predicate NoSeparator(s: string) { '=' !in s && '|' !in s }

  /** A bare value has no separator in it, a captioned one has none in the caption. */
  predicate SeparatorSafe(o: Choice) { NoSeparator(o.caption) }

  lemma {:induction false} IndexInConcat(a: string, b: string, c: char)
    ensures IndexByte(a, c) >= 0 <==> c in a
    ensures IndexByte(a + b, c)
            == if c in a then IndexByte(a, c) else if IndexByte(b, c) < 0 then -1 else |a| + IndexByte(b, c)
  {
    if a == "" {
      assert a + b == b;
    } else {
      IndexInConcat(a[1..], b, c);
      assert (a + b)[0] == a[0] && (a + b)[1..] == a[1..] + b;
      assert a == [a[0]] + a[1..];
    }
  }

  lemma SeparatorInConcat(a: string, b: string)
    ensures SeparatorIndex(a) >= 0 <==> !NoSeparator(a)
    ensures !NoSeparator(a) ==> SeparatorIndex(a + b) == SeparatorIndex(a)
    ensures NoSeparator(a) && b != "" && b[0] == '=' ==> SeparatorIndex(a + b) == |a|
  {
    IndexInConcat(a, b, '=');
    IndexInConcat(a, b, '|');
  }

  lemma TrimNotLonger(s: string)
    ensures |TrimSpace(s)| <= |s|
  {
  }

  lemma {:induction false} TrimLeftKeepsEnding(x: string, y: string)
    requires y != "" && !IsSpace(y[0])
    ensures var t := TrimLeft(x + y, Whitespace); |t| >= |y| && t[|t| - 1] == y[|y| - 1]
  {
    if x == "" {
      assert x + y == y;
    } else {
      assert (x + y)[0] == x[0] && (x + y)[1..] == x[1..] + y;
      TrimLeftKeepsEnding(x[1..], y);
    }
  }

  /** A trimmed ending survives a trim. */
  lemma TrimKeepsEnding(x: string, y: string)
    requires y != "" && Trimmed(y, Whitespace)
    ensures |TrimSpace(x + y)| >= |y|
  {
    TrimLeftKeepsEnding(x, y);
  }

  lemma LineOfNormal(o: Choice)
    requires IsNormal(o)
    ensures Line(o) == if o.caption == o.value then o.value else o.caption + (['='] + o.value)
    ensures Line(o) != "" && Trimmed(Line(o), Whitespace)
  {
    TrimOfTrimmed(o.caption, Whitespace);
    TrimOfTrimmed(o.value, Whitespace);
    if o.caption != o.value {
      var line := o.caption + (['='] + o.value);
      assert line[0] == o.caption[0] && line[|line| - 1] == o.value[|o.value| - 1];
    }
  }

  lemma BareLine(o: Choice)
    requires IsNormal(o) && o.caption == o.value
    ensures ParseLine(Line(o)) == Ok(o) <==> NoSeparator(o.caption)
  {
    LineOfNormal(o);
    SeparatorInConcat(o.value, "");
    TrimOfTrimmed(o.value, Whitespace);
    var sep := SeparatorIndex(o.value);
    if sep >= 0 { TrimNotLonger(o.value[sep + 1..]); }
  }

  lemma SafeSplit(caption: string, value: string)
    requires NoSeparator(caption) && Trimmed(caption, Whitespace) && Trimmed(value, Whitespace)
    ensures SplitSimpleOptionLine(caption + (['='] + value)) == (caption, value)
  {
    var line := caption + (['='] + value);
    SeparatorInConcat(caption, ['='] + value);
    assert line[..|caption|] == caption && line[|caption| + 1..] == value;
    TrimOfTrimmed(caption, Whitespace);
    TrimOfTrimmed(value, Whitespace);
  }

  lemma UnsafeSplit(caption: string, value: string)
    requires !NoSeparator(caption) && value != "" && Trimmed(value, Whitespace)
    ensures var (c, v) := SplitSimpleOptionLine(caption + (['='] + value)); |c| < |caption| && |v| > |value|
  {
    var y := ['='] + value;
    var line := caption + y;
    SeparatorInConcat(caption, y);
    var sep := SeparatorIndex(caption);
    TrimNotLonger(line[..sep]);
    assert y[|y| - 1] == value[|value| - 1];
    DropConcat(caption, y, sep + 1);
    TrimKeepsEnding(caption[sep + 1..], y);
  }

  lemma CaptionedLine(o: Choice)
    requires IsNormal(o) && o.caption != o.value
    ensures ParseLine(Line(o)) == Ok(o) <==> NoSeparator(o.caption)
  {
    LineOfNormal(o);
    if NoSeparator(o.caption) {
      SafeSplit(o.caption, o.value);
    } else {
      UnsafeSplit(o.caption, o.value);
    }
  }

  lemma LineRoundTrip(o: Choice)
    requires IsNormal(o)
    ensures ParseLine(Line(o)) == Ok(o) <==> SeparatorSafe(o)
  {
    if o.caption == o.value { BareLine(o); } else { CaptionedLine(o); }
  }

  // ----- How any text is read

  lemma FirstSeparator(caption: string, sep: char, value: string)
    requires NoSeparator(caption) && (sep == '=' || sep == '|')
    ensures SeparatorIndex(caption + ([sep] + value)) == |caption|
  {
    IndexInConcat(caption, [sep] + value, '=');
    IndexInConcat(caption, [sep] + value, '|');
    assert ([sep] + value)[0] == sep;
  }

  /** A line is caption, separator and value, the caption taken from the value when it is blank; a line
      without a value is an error. */
  lemma SeparatedLine(caption: string, sep: char, value: string)
    requires NoSeparator(caption) && (sep == '=' || sep == '|')
    ensures ParseLine(caption + ([sep] + value))
            == if TrimSpace(value) == "" then Err("option value is required")
               else Ok(Choice(if TrimSpace(caption) == "" then TrimSpace(value) else TrimSpace(caption),
                              TrimSpace(value)))
  {
    var line := caption + ([sep] + value);
    FirstSeparator(caption, sep, value);
    assert line[..|caption|] == caption && line[|caption| + 1..] == value;
  }

  /** A line without separator is its own caption and value. */
  lemma UnseparatedLine(line: string)
    requires NoSeparator(line) && TrimSpace(line) != ""
    ensures ParseLine(line) == Ok(Choice(TrimSpace(line), TrimSpace(line)))
  {
    SeparatorInConcat(line, "");
    assert line + "" == line;
  }

  /** The non-blank lines without the blanks around them. */
  function SolidLines(lines: seq<string>): seq<string> {
    if lines == [] then []
    else
      var line := TrimSpace(lines[|lines| - 1]);
      SolidLines(lines[..|lines| - 1]) + if line == "" then [] else [line]
  }

  predicate ReadAs(lines: seq<string>, options: seq<Choice>) {
    |options| == |lines| && forall i :: 0 <= i < |lines| ==> ParseLine(lines[i]) == Ok(options[i])
  }

  predicate Readable(lines: seq<string>) { forall i :: 0 <= i < |lines| ==> ParseLine(lines[i]).Ok? }

  lemma AllButLast(lines: seq<string>, line: string)
    ensures Readable(lines + [line]) <==> Readable(lines) && ParseLine(line).Ok?
  {
    assert (lines + [line])[|lines|] == line;
    if Readable(lines + [line]) {
      forall i | 0 <= i < |lines| ensures ParseLine(lines[i]).Ok? { assert (lines + [line])[i] == lines[i]; }
    }
  }

  lemma {:induction false} ParseLinesIff(lines: seq<string>)
    ensures ParseLines(lines).Ok? <==> Readable(SolidLines(lines))
    ensures ParseLines(lines).Ok? ==> ReadAs(SolidLines(lines), ParseLines(lines).value)
  {
    if lines != [] {
      var init, line := lines[..|lines| - 1], TrimSpace(lines[|lines| - 1]);
      ParseLinesIff(init);
      if line == "" {
        assert SolidLines(lines) == SolidLines(init);
      } else {
        AllButLast(SolidLines(init), line);
        assert SolidLines(lines) == SolidLines(init) + [line];
      }
    }
  }

  /** A text that does not open with a bracket is accepted exactly when every line that is not blank is,
      and gives one option per such line, in order; a blank text gives none; any other text is what the
      JSON decoder makes of it, normalized. */
  lemma TextIsReadByLine(raw: string, decode: string -> Result<seq<Choice>>)
    ensures var text, r := TrimSpace(raw), ParseOptions(raw, decode);
            var lines := SolidLines(Split(text, '\n'));
            if text == "" then r == Ok([])
            else if text[0] == '[' then
              r == if decode(text).Ok? then NormalizeOptions(decode(text).value) else Err(decode(text).message)
            else
              && (r.Ok? <==> Readable(lines))
              && (r.Ok? ==> ReadAs(lines, r.value))
  {
    var lines := Split(TrimSpace(raw), '\n');
    ParseLinesIff(lines);
    ParsedAreNormal(lines);
    if ParseLines(lines).Ok? { NormalizeKeepsNormal(ParseLines(lines).value); }
  }

  predicate NormalizedAt(options: seq<Choice>, r: seq<Choice>, i: nat)
    requires i < |options| && i < |r|
  {
    && r[i].value == TrimSpace(options[i].value)
    && r[i].caption == if TrimSpace(options[i].caption) == "" then r[i].value else TrimSpace(options[i].caption)
  }

  /** A list has a normal form exactly when no value is blank; it holds the same options in the same order,
      trimmed, with blank captions filled from the values. */
  lemma {:induction false} NormalizeIff(options: seq<Choice>)
    ensures NormalizeOptions(options).Ok? <==> forall i :: 0 <= i < |options| ==> TrimSpace(options[i].value) != ""
    ensures NormalizeOptions(options).Ok? ==>
              var r := NormalizeOptions(options).value;
              |r| == |options| && forall i :: 0 <= i < |r| ==> NormalizedAt(options, r, i)
  {
    if options != [] {
      var n := |options| - 1;
      NormalizeIff(options[..n]);
      assert options == options[..n] + [options[n]];
      if NormalizeOptions(options).Ok? {
        var init, r := NormalizeOptions(options[..n]).value, NormalizeOptions(options).value;
        forall i | 0 <= i < n ensures NormalizedAt(options, r, i) { assert NormalizedAt(options[..n], init, i); }
      }
    }
  }

  // ----- The whole text

  /** How many pieces are not blank. */
  function Solid(pieces: seq<string>): nat {
    if pieces == [] then 0
    else Solid(pieces[..|pieces| - 1]) + if TrimSpace(pieces[|pieces| - 1]) == "" then 0 else 1
  }

  lemma {:induction false} SolidConcat(a: seq<string>, b: seq<string>)
    ensures Solid(a + b) == Solid(a) + Solid(b)
  {
    if b == [] {
      assert a + b == a;
    } else {
      assert (a + b)[..|a + b| - 1] == a + b[..|b| - 1];
      SolidConcat(a, b[..|b| - 1]);
    }
  }

  /** One option per non-blank piece. */
  lemma {:induction false} ParsedPerSolid(pieces: seq<string>)
    ensures ParseLines(pieces).Ok? ==> |ParseLines(pieces).value| == Solid(pieces)
  {
    if pieces != [] { ParsedPerSolid(pieces[..|pieces| - 1]); }
  }

  lemma {:induction false} NormalizeKeepsLength(options: seq<Choice>)
    ensures NormalizeOptions(options).Ok? ==> |NormalizeOptions(options).value| == |options|
  {
    if options != [] { NormalizeKeepsLength(options[..|options| - 1]); }
  }

  /** Text with a non-blank character has a non-blank piece. */
  lemma {:induction false} SolidPiece(s: string, sep: char, i: nat)
    requires IsSpace(sep) && i < |s| && !IsSpace(s[i])
    ensures Solid(Split(s, sep)) >= 1
  {
    if sep in s[..i] {
      var k :| 0 <= k < |s[..i]| && s[..i][k] == sep;
      assert s == s[..k] + ([sep] + s[k + 1..]);
      SplitAround(s[..k], s[k + 1..], sep);
      SolidPiece(s[k + 1..], sep, i - k - 1);
      SolidConcat(Split(s[..k], sep), Split(s[k + 1..], sep));
    } else if sep in s[i..] {
      var k :| 0 <= k < |s[i..]| && s[i..][k] == sep;
      var p := i + k;
      assert s == s[..p] + ([sep] + s[p + 1..]);
      SplitAround(s[..p], s[p + 1..], sep);
      SolidPiece(s[..p], sep, i);
      SolidConcat(Split(s[..p], sep), Split(s[p + 1..], sep));
    } else {
      assert s == s[..i] + s[i..];
      SplitFirst(s, "", sep);
      TrimToNothing(s, Whitespace);
      assert [s][..0] == [];
    }
  }

  lemma TwoSolid(a: string, b: string, sep: char)
    requires Solid(Split(a, sep)) >= 1 && Solid(Split(b, sep)) >= 1
    ensures Solid(Split(a + ([sep] + b), sep)) >= 2
  {
    SplitAround(a, b, sep);
    SolidConcat(Split(a, sep), Split(b, sep));
  }

  lemma BrokenLineSolid(line: string, k: nat)
    requires k < |line| && IsSpace(line[k]) && !IsSpace(line[0]) && !IsSpace(line[|line| - 1])
    ensures Solid(Split(line, line[k])) >= 2
  {
    CutAt(line, k);
    var a, b := line[..k], line[k + 1..];
    assert a[0] == line[0] && b[|b| - 1] == line[|line| - 1];
    SolidPiece(a, line[k], 0);
    SolidPiece(b, line[k], |b| - 1);
    TwoSolid(a, b, line[k]);
  }

  /** A trimmed line yields one non-blank piece, and more than one if it holds a line break. */
  lemma LineSolid(line: string, sep: char)
    requires IsSpace(sep) && line != "" && Trimmed(line, Whitespace)
    ensures Solid(Split(line, sep)) >= 1
    ensures sep in line ==> Solid(Split(line, sep)) >= 2
  {
    if sep in line {
      var k :| 0 <= k < |line| && line[k] == sep;
      BrokenLineSolid(line, k);
    } else {
      SolidPiece(line, sep, 0);
    }
  }

  predicate AllSolidLines(lines: seq<string>) {
    lines == [] || (lines[0] != "" && Trimmed(lines[0], Whitespace) && AllSolidLines(lines[1..]))
  }

  predicate OneLiners(lines: seq<string>) { lines == [] || ('\n' !in lines[0] && OneLiners(lines[1..])) }

  lemma {:induction false} TextSolid(lines: seq<string>)
    requires lines != [] && AllSolidLines(lines)
    ensures Solid(Split(Join(lines, '\n'), '\n')) >= |lines|
    ensures Solid(Split(Join(lines, '\n'), '\n')) == |lines| ==> OneLiners(lines)
  {
    LineSolid(lines[0], '\n');
    if |lines| > 1 {
      TextSolid(lines[1..]);
      SplitAround(lines[0], Join(lines[1..], '\n'), '\n');
      SolidConcat(Split(lines[0], '\n'), Split(Join(lines[1..], '\n'), '\n'));
    }
  }

  lemma {:induction false} OneLinersSplit(lines: seq<string>)
    requires lines != [] && OneLiners(lines)
    ensures Split(Join(lines, '\n'), '\n') == lines
  {
    if |lines| == 1 {
      SplitFirst(lines[0], "", '\n');
    } else {
      OneLinersSplit(lines[1..]);
      SplitFirst(lines[0], Join(lines[1..], '\n'), '\n');
    }
  }

  lemma {:induction false} TextIsTrimmed(lines: seq<string>)
    requires lines != [] && AllSolidLines(lines)
    ensures var text := Join(lines, '\n'); text != "" && Trimmed(text, Whitespace) && text[0] == lines[0][0]
  {
    if |lines| > 1 { TextIsTrimmed(lines[1..]); }
  }

  lemma LinesStep(init: seq<Choice>, o: Choice)
    requires IsNormal(o)
    ensures Lines(init + [o]) == Lines(init) + [Line(o)]
    ensures Line(o) != "" && Trimmed(Line(o), Whitespace)
  {
    LineOfNormal(o);
    TrimOfTrimmed(o.value, Whitespace);
    assert (init + [o])[..|init|] == init;
  }

  lemma {:induction false} SolidAppend(lines: seq<string>, line: string)
    requires AllSolidLines(lines) && line != "" && Trimmed(line, Whitespace)
    ensures AllSolidLines(lines + [line])
  {
    if lines == [] {
      assert lines + [line] == [line];
    } else {
      assert (lines + [line])[0] == lines[0] && (lines + [line])[1..] == lines[1..] + [line];
      SolidAppend(lines[1..], line);
    }
  }

  lemma {:induction false} LinesOfNormal(options: seq<Choice>)
    requires AllNormal(options)
    ensures |Lines(options)| == |options| && AllSolidLines(Lines(options))
  {
    if options != [] {
      var init, o := options[..|options| - 1], options[|options| - 1];
      assert options == init + [o];
      LinesOfNormal(init);
      LinesStep(init, o);
      SolidAppend(Lines(init), Line(o));
    }
  }

  lemma {:induction false} OneLinersAppend(lines: seq<string>, line: string)
    ensures OneLiners(lines + [line]) <==> OneLiners(lines) && '\n' !in line
  {
    if lines == [] {
      assert lines + [line] == [line];
    } else {
      assert (lines + [line])[0] == lines[0] && (lines + [line])[1..] == lines[1..] + [line];
      OneLinersAppend(lines[1..], line);
    }
  }

  predicate NoBreaks(o: Choice) { '\n' !in o.caption && '\n' !in o.value }

  predicate AllNoBreaks(options: seq<Choice>) {
    options == [] || (NoBreaks(options[|options| - 1]) && AllNoBreaks(options[..|options| - 1]))
  }

  predicate AllSeparatorSafe(options: seq<Choice>) {
    options == [] || (SeparatorSafe(options[|options| - 1]) && AllSeparatorSafe(options[..|options| - 1]))
  }

  lemma {:induction false} OneLinersIffNoBreaks(options: seq<Choice>)
    requires AllNormal(options)
    ensures OneLiners(Lines(options)) <==> AllNoBreaks(options)
  {
    if options != [] {
      var init, o := options[..|options| - 1], options[|options| - 1];
      assert options == init + [o];
      OneLinersIffNoBreaks(init);
      LinesStep(init, o);
      OneLinersAppend(Lines(init), Line(o));
      LineBreaks(o);
    }
  }

  lemma LineBreaks(o: Choice)
    requires IsNormal(o)
    ensures '\n' in Line(o) <==> !NoBreaks(o)
  {
    LineOfNormal(o);
  }

  lemma ParseStep(lines: seq<string>, line: string)
    requires line != "" && Trimmed(line, Whitespace)
    ensures ParseLines(lines + [line])
            == match ParseLines(lines)
               case Err(e) => Err(e)
               case Ok(init) =>
                 match ParseLine(line)
                 case Err(e) => Err(e)
                 case Ok(o) => Ok(init + [o])
  {
    TrimOfTrimmed(line, Whitespace);
    assert (lines + [line])[..|lines|] == lines;
  }

  /** Line by line, the text parses back exactly when every option is separator-safe. */
  lemma {:induction false} ParseOfLines(options: seq<Choice>)
    requires AllNormal(options)
    ensures ParseLines(Lines(options)) == Ok(options) <==> AllSeparatorSafe(options)
  {
    if options != [] {
      var init, o := options[..|options| - 1], options[|options| - 1];
      assert options == init + [o];
      ParseOfLines(init);
      LinesStep(init, o);
      LineRoundTrip(o);
      ParseStep(Lines(init), Line(o));
    }
  }

  /** What one option must satisfy for the line format: no line break, and no separator before the
      one that Format writes (or none at all in a bare value). */
  predicate LineSafe(options: seq<Choice>) { AllNoBreaks(options) && AllSeparatorSafe(options) }

  lemma SimpleRoundTrip(options: seq<Choice>)
    requires options != [] && AllNormal(options)
    ensures ParseOptionsSimple(FormatOptionsSimple(options)) == Ok(options) <==> LineSafe(options)
  {
    var lines := Lines(options);
    var pieces := Split(FormatOptionsSimple(options), '\n');
    LinesOfNormal(options);
    TextSolid(lines);
    OneLinersIffNoBreaks(options);
    ParsedPerSolid(pieces);
    if ParseLines(pieces).Ok? { NormalizeKeepsLength(ParseLines(pieces).value); }
    if OneLiners(lines) {
      OneLinersSplit(lines);
      ParseOfLines(options);
      ParsedAreNormal(lines);
      if ParseLines(lines).Ok? { NormalizeKeepsNormal(ParseLines(lines).value); }
    }
  }

  lemma ParsedLineIsNormal(line: string)
    ensures ParseLine(line).Ok? ==> IsNormal(ParseLine(line).value)
  {
  }

  lemma NormalAppend(options: seq<Choice>, o: Choice)
    requires AllNormal(options) && IsNormal(o)
    ensures AllNormal(options + [o])
  {
    assert (options + [o])[..|options|] == options;
  }

  /** What the line parser accepts is already normal, so the second pass changes nothing. */
  lemma {:induction false} ParsedAreNormal(lines: seq<string>)
    ensures ParseLines(lines).Ok? ==> AllNormal(ParseLines(lines).value)
  {
    if lines != [] && ParseLines(lines).Ok? {
      var init, line := lines[..|lines| - 1], TrimSpace(lines[|lines| - 1]);
      ParsedAreNormal(init);
      if line != "" {
        ParsedLineIsNormal(line);
        NormalAppend(ParseLines(init).value, ParseLine(line).value);
      }
    }
  }

  /** JSON spells out keys, quotes and brackets, so a JSON text is longer than the same options in
      the line format. */
  ghost predicate Verbose(decode: string -> Result<seq<Choice>>) {
    forall t: string :: decode(t).Ok? && NormalizeOptions(decode(t).value).Ok? ==>
      |FormatOptionsSimple(NormalizeOptions(decode(t).value).value)| < |t|
  }

  lemma {:induction false} TextStart(options: seq<Choice>)
    requires options != [] && AllNormal(options)
    ensures options[0].caption != "" && Lines(options) != [] && Lines(options)[0] != ""
    ensures Lines(options)[0][0] == options[0].caption[0]
  {
    var init, o := options[..|options| - 1], options[|options| - 1];
    assert options == init + [o];
    LinesStep(init, o);
    LineOfNormal(o);
    if init != [] { TextStart(init); }
  }

  /** Printing and parsing a normalized list gives it back exactly when no option holds a line break,
      no caption that is written and no bare value holds a separator, and the first caption does not
      open with a bracket. */
  lemma OptionsRoundTripIff(options: seq<Choice>, decode: string -> Result<seq<Choice>>)
    requires options != [] && AllNormal(options) && Verbose(decode)
    ensures options[0].caption != ""
    ensures ParseOptions(FormatOptionsSimple(options), decode) == Ok(options)
            <==> LineSafe(options) && options[0].caption[0] != '['
  {
    var text := FormatOptionsSimple(options);
    LinesOfNormal(options);
    TextIsTrimmed(Lines(options));
    TrimOfTrimmed(text, Whitespace);
    TextStart(options);
    if text[0] != '[' { SimpleRoundTrip(options); }
  }

  function Single(caption: string, value: string): seq<Choice> { [Choice(caption, value)] }

  lemma SingleIsNormal(caption: string, value: string)
    requires caption != "" && value != "" && Trimmed(caption, Whitespace) && Trimmed(value, Whitespace)
    ensures AllNormal(Single(caption, value))
    ensures AllSeparatorSafe(Single(caption, value)) <==> NoSeparator(caption)
    ensures AllNoBreaks(Single(caption, value)) <==> '\n' !in caption && '\n' !in value
  {
    assert Single(caption, value)[..0] == [];
  }

  /** Options that printing and parsing do not preserve, one for each part of the condition. */
  lemma OptionsAreLost(decode: string -> Result<seq<Choice>>)
    requires Verbose(decode)
    ensures ParseOptions(FormatOptionsSimple(Single("a=b", "c")), decode) != Ok(Single("a=b", "c"))
    ensures ParseOptions(FormatOptionsSimple(Single("a\nb", "c")), decode) != Ok(Single("a\nb", "c"))
    ensures ParseOptions(FormatOptionsSimple(Single("[a", "c")), decode) != Ok(Single("[a", "c"))
  {
    SingleIsNormal("a=b", "c");
    SingleIsNormal("a\nb", "c");
    SingleIsNormal("[a", "c");
    assert "a=b"[1] == '=' && "a\nb"[1] == '\n';
    OptionsRoundTripIff(Single("a=b", "c"), decode);
    OptionsRoundTripIff(Single("a\nb", "c"), decode);
    OptionsRoundTripIff(Single("[a", "c"), decode);
  }

  lemma TrimTwice(s: string)
    ensures TrimSpace(TrimSpace(s)) == TrimSpace(s)
  {
    TrimOfTrimmed(TrimSpace(s), Whitespace);
  }

  lemma NormalizedOption(o: Choice)
    requires TrimSpace(o.value) != ""
    ensures IsNormal(NormalizeOption(o)) && Line(NormalizeOption(o)) == Line(o)
  {
    TrimTwice(o.value);
    TrimTwice(o.caption);
  }

  lemma {:induction false} NormalizedLines(options: seq<Choice>)
    requires NormalizeOptions(options).Ok?
    ensures AllNormal(NormalizeOptions(options).value)
    ensures Lines(options) == Lines(NormalizeOptions(options).value)
  {
    if options != [] {
      var init, o := options[..|options| - 1], options[|options| - 1];
      NormalizedLines(init);
      var os, n := NormalizeOptions(init).value, NormalizeOption(o);
      NormalizedOption(o);
      NormalAppend(os, n);
      LinesStep(os, n);
      assert NormalizeOptions(options).value == os + [n];
    }
  }

  /** Lists that are not normalized yet print like their normal form, so the round trip above says
      when printing and parsing normalizes them. */
  lemma FormatOfNormalized(options: seq<Choice>)
    requires NormalizeOptions(options).Ok?
    ensures AllNormal(NormalizeOptions(options).value)
    ensures FormatOptionsSimple(options) == FormatOptionsSimple(NormalizeOptions(options).value)
  {
    NormalizedLines(options);
  }

  /** The options that have a value. */
  function Valued(options: seq<Choice>): seq<Choice> {
    if options == [] then []
    else Valued(options[..|options| - 1])
         + if TrimSpace(options[|options| - 1].value) == "" then [] else [options[|options| - 1]]
  }

  lemma {:induction false} ValuedHaveValues(options: seq<Choice>)
    ensures forall o :: o in Valued(options) ==> TrimSpace(o.value) != ""
  {
    if options != [] { ValuedHaveValues(options[..|options| - 1]); }
  }

  lemma LinesAppend(options: seq<Choice>, o: Choice)
    requires TrimSpace(o.value) != ""
    ensures Lines(options + [o]) == Lines(options) + [Line(o)]
  {
    assert (options + [o])[..|options|] == options;
  }

  lemma {:induction false} ValuedLines(options: seq<Choice>)
    ensures Lines(Valued(options)) == Lines(options)
  {
    if options != [] {
      var init, o := options[..|options| - 1], options[|options| - 1];
      ValuedLines(init);
      if TrimSpace(o.value) == "" {
        assert Valued(options) == Valued(init);
      } else {
        LinesAppend(Valued(init), o);
      }
    }
  }

  /** And any list at all prints like the normal form of its options that have a value. */
  lemma FormatOfAny(options: seq<Choice>)
    ensures NormalizeOptions(Valued(options)).Ok?
    ensures FormatOptionsSimple(options) == FormatOptionsSimple(NormalizeOptions(Valued(options)).value)
  {
    ValuedLines(options);
    ValuedHaveValues(options);
    NormalizeIff(Valued(options));
    FormatOfNormalized(Valued(options));
  }
}
