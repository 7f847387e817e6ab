/** Typed parameter values, and the normal form of multi-select values. */
module ConfigValues {
  import opened GoStrings
  import opened ConfigOptions

  // ----- Multi-select normal form

  /** The distinct non-blank trimmed parts, each at its first occurrence. */
  function Dedup(parts: seq<string>): seq<string> {
    if parts == [] then []
    else
      var init, p := Dedup(parts[..|parts| - 1]), TrimSpace(parts[|parts| - 1]);
      if p == "" || p in init then init else init + [p]
  }

  function NormalForm(value: string): string { Join(Dedup(Split(value, ';')), ';') }

  method NormalizeMultiSelectValue(value: string) returns (r: string)
    ensures r == NormalForm(value)
  {
    var parts := Split(value, ';');
    var normalized: seq<string> := [];
    var seen: set<string> := {};
    for k := 0 to |parts|
      invariant normalized == Dedup(parts[..k])
      invariant forall p :: p in seen <==> p in normalized
    {
      assert parts[..k + 1][..k] == parts[..k];
      var part := TrimSpace(parts[k]);
      if part == "" {
        continue;
      }
      if part in seen {
        continue;
      }
      seen := seen + {part};
      normalized := normalized + [part];
    }
    assert parts[..|parts|] == parts;
    r := Join(normalized, ';');
  }

  /** Non-blank, trimmed, free of separators and not repeated. */
  predicate IsClean(parts: seq<string>) {
    parts == [] ||
    var p := parts[|parts| - 1];
    p != "" && Trimmed(p, Whitespace) && ';' !in p && p !in parts[..|parts| - 1] && IsClean(parts[..|parts| - 1])
  }

  lemma {:induction false} CleanIsFixed(parts: seq<string>)
    requires IsClean(parts)
    ensures Dedup(parts) == parts
    ensures forall i :: 0 <= i < |parts| ==> ';' !in parts[i]
  {
    if parts != [] {
      var init := parts[..|parts| - 1];
      CleanIsFixed(init);
      TrimOfTrimmed(parts[|parts| - 1], Whitespace);
      assert parts == init + [parts[|parts| - 1]];
    }
  }

  lemma TrimKeepsOut(s: string, c: char)
    requires c !in s
    ensures c !in TrimSpace(s)
  {
    if c in TrimSpace(s) { TrimKeepsMembers(s, Whitespace, c); }
  }

  lemma {:induction false} DedupIsClean(parts: seq<string>)
    requires forall i :: 0 <= i < |parts| ==> ';' !in parts[i]
    ensures IsClean(Dedup(parts))
  {
    if parts != [] {
      var init, p := parts[..|parts| - 1], TrimSpace(parts[|parts| - 1]);
      DedupIsClean(init);
      TrimKeepsOut(parts[|parts| - 1], ';');
      assert (Dedup(init) + [p])[..|Dedup(init)|] == Dedup(init);
    }
  }

  /** The position of the first part that trims to `p`. */
  function FirstAt(parts: seq<string>, p: string): (k: nat)
    ensures k <= |parts|
  {
    if parts == [] || TrimSpace(parts[0]) == p then 0 else 1 + FirstAt(parts[1..], p)
  }

  lemma {:induction false} FirstAtAppend(parts: seq<string>, part: string, p: string)
    ensures FirstAt(parts + [part], p)
            == if FirstAt(parts, p) < |parts| then FirstAt(parts, p)
               else if TrimSpace(part) == p then |parts| else |parts| + 1
  {
    if parts == [] {
      assert parts + [part] == [part];
    } else {
      assert (parts + [part])[1..] == parts[1..] + [part] && (parts + [part])[0] == parts[0];
      FirstAtAppend(parts[1..], part, p);
    }
  }

  lemma {:induction false} FirstAtFinds(parts: seq<string>, p: string)
    requires p in Dedup(parts)
    ensures FirstAt(parts, p) < |parts|
  {
    var init := parts[..|parts| - 1];
    assert parts == init + [parts[|parts| - 1]];
    FirstAtAppend(init, parts[|parts| - 1], p);
    if p in Dedup(init) { FirstAtFinds(init, p); }
  }

  lemma {:induction false} FirstAtMisses(parts: seq<string>, p: string)
    requires p != "" && p !in Dedup(parts)
    ensures FirstAt(parts, p) == |parts|
  {
    if parts != [] {
      var init := parts[..|parts| - 1];
      assert parts == init + [parts[|parts| - 1]];
      FirstAtAppend(init, parts[|parts| - 1], p);
      FirstAtMisses(init, p);
    }
  }

  /** The parts stand in the order of their first occurrences. */
  lemma {:induction false} DedupOrder(parts: seq<string>, i: nat, j: nat)
    requires i < j < |Dedup(parts)|
    ensures FirstAt(parts, Dedup(parts)[i]) < FirstAt(parts, Dedup(parts)[j])
  {
    var init, last := parts[..|parts| - 1], parts[|parts| - 1];
    assert parts == init + [last];
    var a, b := Dedup(parts)[i], Dedup(parts)[j];
    FirstAtAppend(init, last, a);
    FirstAtAppend(init, last, b);
    FirstAtFinds(init, a);
    if j < |Dedup(init)| {
      DedupOrder(init, i, j);
      FirstAtFinds(init, b);
    } else {
      FirstAtMisses(init, b);
    }
  }

  lemma NormalFormParts(value: string)
    ensures var ps := Dedup(Split(value, ';'));
            && IsClean(ps)
            && (ps == [] ==> NormalForm(value) == "")
            && (ps != [] ==> NormalForm(value) != "" && Split(NormalForm(value), ';') == ps)
  {
    var ps := Dedup(Split(value, ';'));
    DedupIsClean(Split(value, ';'));
    CleanIsFixed(ps);
    if ps != [] {
      SplitOfJoin(ps, ';');
      FirstIsSolid(ps);
    }
  }

  lemma {:induction false} FirstIsSolid(ps: seq<string>)
    requires IsClean(ps) && ps != []
    ensures ps[0] != ""
  {
    if |ps| > 1 { FirstIsSolid(ps[..|ps| - 1]); }
  }

  /** Normalizing twice changes nothing, and the parts are those of the value. */
  lemma NormalFormIdempotent(value: string)
    ensures NormalForm(NormalForm(value)) == NormalForm(value)
    ensures Dedup(Split(NormalForm(value), ';')) == Dedup(Split(value, ';'))
  {
    var ps := Dedup(Split(value, ';'));
    NormalFormParts(value);
    CleanIsFixed(ps);
    if ps == [] {
      assert Split("", ';') == [""];
      assert TrimSpace("") == "";
      assert [""][..0] == [];
    }
  }

  // ----- Validation

  datatype Code = Text | Textarea | Number | Boolean | Select | Radio | MultiSelect | Richtext {
    predicate RequiresOptions() { Select? || Radio? || MultiSelect? }
  }

  /** The persisted name of a type. */
  function CodeName(code: Code): string {
    match code
    case Text => "text"
    case Textarea => "textarea"
    case Number => "number"
    case Boolean => "boolean"
    case Select => "select"
    case Radio => "radio"
    case MultiSelect => "multi_select"
    case Richtext => "richtext"
  }

  /** Blank means text; a name that is not published is rejected. */
  function ResolveCode(raw: string): Option<Code> {
    var name := TrimSpace(raw);
    if name == "" || name == CodeName(Text) then Some(Text)
    else if name == CodeName(Textarea) then Some(Textarea)
    else if name == CodeName(Number) then Some(Number)
    else if name == CodeName(Boolean) then Some(Boolean)
    else if name == CodeName(Select) then Some(Select)
    else if name == CodeName(Radio) then Some(Radio)
    else if name == CodeName(MultiSelect) then Some(MultiSelect)
    else if name == CodeName(Richtext) then Some(Richtext)
    else None
  }

  lemma NamesDiffer(a: Code, b: Code)
    ensures CodeName(a) == CodeName(b) <==> a == b
    ensures CodeName(a) != ""
  {
    assert CodeName(Select)[0] == 's' && CodeName(Number)[0] == 'n';
    assert |CodeName(Radio)| == 5 && |CodeName(Textarea)| == 8 && |CodeName(Richtext)| == 8;
    assert CodeName(Textarea)[0] == 't' && CodeName(Richtext)[0] == 'r';
  }

  /** A type name resolves to exactly the type it names, blanks aside. */
  lemma ResolveCodeIff(raw: string, code: Code)
    ensures ResolveCode(raw) == Some(code)
            <==> TrimSpace(raw) == CodeName(code) || (TrimSpace(raw) == "" && code == Text)
  {
    forall c: Code ensures CodeName(c) == CodeName(code) <==> c == code { NamesDiffer(c, code); }
    NamesDiffer(code, code);
  }

  predicate Allowed(options: seq<Choice>, value: string) {
    exists i :: 0 <= i < |options| && options[i].value == value
  }

  method OptionValueAllowed(options: seq<Choice>, value: string) returns (ok: bool)
    ensures ok == Allowed(options, value)
  {
    for k := 0 to |options|
      invariant forall i :: 0 <= i < k ==> options[i].value != value
    {
      if options[k].value == value {
        return true;
      }
    }
    return false;
  }

  predicate AllAllowed(options: seq<Choice>, parts: seq<string>) {
    parts == [] || (Allowed(options, parts[|parts| - 1]) && AllAllowed(options, parts[..|parts| - 1]))
  }

  predicate AcceptsMulti(options: seq<Choice>, value: string) {
    NormalForm(value) == "" || AllAllowed(options, Split(NormalForm(value), ';'))
  }

  /** Acceptance of a value of a resolved type. `isFloat` stands for strconv.ParseFloat succeeding. */
  predicate Accepts(code: Code, options: seq<Choice>, value: string, isFloat: string -> bool) {
    && (code.RequiresOptions() ==> options != [])
    && match code
       case Boolean => value == "true" || value == "false"
       case Number => TrimSpace(value) != "" && isFloat(TrimSpace(value))
       case Select => Allowed(options, value)
       case Radio => Allowed(options, value)
       case MultiSelect => AcceptsMulti(options, value)
       case Text => true
       case Textarea => true
       case Richtext => true
  }

  method AllPartsAllowed(options: seq<Choice>, parts: seq<string>) returns (ok: bool)
    ensures ok == AllAllowed(options, parts)
  {
    for k := 0 to |parts|
      invariant AllAllowed(options, parts[..k])
    {
      var allowed := OptionValueAllowed(options, parts[k]);
      assert parts[..k + 1][..k] == parts[..k];
      if !allowed {
        RejectsFrom(options, parts, k + 1);
        return false;
      }
    }
    assert parts[..|parts|] == parts;
    return true;
  }

  lemma {:induction false} RejectsFrom(options: seq<Choice>, parts: seq<string>, k: nat)
    requires k <= |parts| && !AllAllowed(options, parts[..k])
    ensures !AllAllowed(options, parts)
    decreases |parts|
  {
    if k == |parts| {
      assert parts[..k] == parts;
    } else {
      assert parts[..|parts| - 1][..k] == parts[..k];
      RejectsFrom(options, parts[..|parts| - 1], k);
    }
  }

  method CheckValue(code: Code, options: seq<Choice>, value: string, isFloat: string -> bool) returns (ok: bool)
    ensures ok == Accepts(code, options, value, isFloat)
  {
    if code.RequiresOptions() && |options| == 0 {
      return false;
    }
    match code {
      case Boolean =>
        return value == "true" || value == "false";
      case Number =>
        if TrimSpace(value) == "" {
          return false;
        }
        return isFloat(TrimSpace(value));
      case Select =>
        ok := OptionValueAllowed(options, value);
      case Radio =>
        ok := OptionValueAllowed(options, value);
      case MultiSelect =>
        var normalized := NormalizeMultiSelectValue(value);
        if normalized == "" {
          return true;
        }
        ok := AllPartsAllowed(options, Split(normalized, ';'));
      case Text => return true;
      case Textarea => return true;
      case Richtext => return true;
    }
  }

  method ValidateTypedValue(valueType: string, optionsRaw: string, value: string,
                            decode: string -> Result<seq<Choice>>, isFloat: string -> bool)
    returns (ok: bool)
    ensures ok <==> var code, options := ResolveCode(valueType), ParseOptions(optionsRaw, decode);
                    code.Some? && options.Ok? && Accepts(code.value, options.value, value, isFloat)
  {
    var code := ResolveCode(valueType);
    if code.None? {
      return false;
    }
    var parsed := ParseOptions(optionsRaw, decode);
    if parsed.Err? {
      return false;
    }
    ok := CheckValue(code.value, parsed.value, value, isFloat);
  }

  /** Of the types other than multi-select: a Boolean is spelled in one of two ways, a number is not blank
      and parses without its blanks, a choice is the value of an option, and texts are free. */
  lemma OtherTypesAcceptIff(options: seq<Choice>, value: string, isFloat: string -> bool)
    ensures Accepts(Boolean, options, value, isFloat) <==> value in {"true", "false"}
    ensures Accepts(Number, options, value, isFloat)
            <==> (exists i :: 0 <= i < |value| && !IsSpace(value[i])) && isFloat(TrimSpace(value))
    ensures Accepts(Select, options, value, isFloat) <==> exists o :: o in options && o.value == value
    ensures Accepts(Radio, options, value, isFloat) <==> exists o :: o in options && o.value == value
    ensures forall code: Code :: code in {Text, Textarea, Richtext} ==> Accepts(code, options, value, isFloat)
  {
    TrimToNothing(value, Whitespace);
    if o :| o in options && o.value == value {
      var i :| 0 <= i < |options| && options[i] == o;
    }
  }

  /** Every part that is not blank is, trimmed, an option value. */
  predicate Covered(options: seq<Choice>, parts: seq<string>) {
    parts == [] ||
    var p := TrimSpace(parts[|parts| - 1]);
    (p == "" || Allowed(options, p)) && Covered(options, parts[..|parts| - 1])
  }

  lemma {:induction false} AllowedMember(options: seq<Choice>, parts: seq<string>, p: string)
    requires AllAllowed(options, parts) && p in parts
    ensures Allowed(options, p)
  {
    if p != parts[|parts| - 1] { AllowedMember(options, parts[..|parts| - 1], p); }
  }

  lemma {:induction false} DedupCovers(options: seq<Choice>, parts: seq<string>)
    ensures AllAllowed(options, Dedup(parts)) <==> Covered(options, parts)
  {
    if parts != [] {
      var init, p := Dedup(parts[..|parts| - 1]), TrimSpace(parts[|parts| - 1]);
      DedupCovers(options, parts[..|parts| - 1]);
      assert (init + [p])[..|init|] == init;
      if p in init && AllAllowed(options, init) { AllowedMember(options, init, p); }
    }
  }

  lemma AcceptsMultiIffCovered(options: seq<Choice>, value: string)
    ensures AcceptsMulti(options, value) <==> Covered(options, Split(value, ';'))
  {
    NormalFormParts(value);
    DedupCovers(options, Split(value, ';'));
  }

  lemma AcceptsMultiOfNormalForm(options: seq<Choice>, value: string)
    ensures AcceptsMulti(options, NormalForm(value)) <==> AcceptsMulti(options, value)
  {
    NormalFormIdempotent(value);
  }

  /** A multi-select value is accepted exactly when its normal form is, and exactly when every
      non-blank trimmed part is an option value. */
  lemma MultiSelectAcceptsParts(options: seq<Choice>, value: string, isFloat: string -> bool)
    ensures Accepts(MultiSelect, options, value, isFloat)
            <==> Accepts(MultiSelect, options, NormalForm(value), isFloat)
    ensures Accepts(MultiSelect, options, value, isFloat)
            <==> options != [] && Covered(options, Split(value, ';'))
  {
    AcceptsMultiOfNormalForm(options, value);
    AcceptsMultiIffCovered(options, value);
  }

  lemma {:induction false} DedupIsTrimmed(parts: seq<string>, p: string)
    requires p in Dedup(parts)
    ensures p != "" && Trimmed(p, Whitespace)
  {
    if p in Dedup(parts[..|parts| - 1]) { DedupIsTrimmed(parts[..|parts| - 1], p); }
  }

  /** The value of an option selects that option alone, if it can be selected at all. */
  lemma OwnValueSelects(options: seq<Choice>, o: Choice, isFloat: string -> bool)
    requires o in options && ';' !in o.value && o.value != "" && Trimmed(o.value, Whitespace)
    ensures Accepts(MultiSelect, options, o.value, isFloat)
    ensures Dedup(Split(o.value, ';')) == [o.value]
  {
    SplitFirst(o.value, "", ';');
    TrimOfTrimmed(o.value, Whitespace);
    assert [o.value][..0] == [];
    assert Allowed(options, o.value) by {
      var i :| 0 <= i < |options| && options[i] == o;
    }
    MultiSelectAcceptsParts(options, o.value, isFloat);
  }

  /** `value` is an accepted multi-select value that chooses the option. */
  predicate Chooses(options: seq<Choice>, o: Choice, value: string, isFloat: string -> bool) {
    Accepts(MultiSelect, options, value, isFloat) && o.value in Dedup(Split(value, ';'))
  }

  /** An option can be chosen in a multi-select exactly when its value is non-blank, trimmed and free
      of the separator. */
  lemma OptionSelectableIff(options: seq<Choice>, o: Choice, isFloat: string -> bool)
    requires o in options
    ensures (exists v: string :: Chooses(options, o, v, isFloat))
            <==> o.value != "" && Trimmed(o.value, Whitespace) && ';' !in o.value
  {
    if v: string :| Chooses(options, o, v, isFloat) {
      DedupIsTrimmed(Split(v, ';'), o.value);
      DedupIsClean(Split(v, ';'));
      CleanIsFixed(Dedup(Split(v, ';')));
    }
    if o.value != "" && Trimmed(o.value, Whitespace) && ';' !in o.value {
      OwnValueSelects(options, o, isFloat);
      assert Chooses(options, o, o.value, isFloat);
    }
  }

  lemma {:induction false} NormalMember(options: seq<Choice>, o: Choice)
    requires AllNormal(options) && o in options
    ensures IsNormal(o)
  {
    if o != options[|options| - 1] { NormalMember(options[..|options| - 1], o); }
  }

  /** An option text the parser accepts may still hold options nobody can choose: exactly those whose
      value holds the separator. */
  lemma ParsedOptionSelectableIff(raw: string, decode: string -> Result<seq<Choice>>, o: Choice,
                                   isFloat: string -> bool)
    requires ParseOptions(raw, decode).Ok? && o in ParseOptions(raw, decode).value
    ensures (exists v: string :: Chooses(ParseOptions(raw, decode).value, o, v, isFloat)) <==> ';' !in o.value
  {
    ParsedOptionsAreNormal(raw, decode);
    NormalMember(ParseOptions(raw, decode).value, o);
    OptionSelectableIff(ParseOptions(raw, decode).value, o, isFloat);
  }

  /** The parser accepts the text `a;b` as one option, and no multi-select value can choose it. */
  lemma UnselectableOption(decode: string -> Result<seq<Choice>>, isFloat: string -> bool)
    requires Verbose(decode)
    ensures var options, o := Single("a;b", "a;b"), Choice("a;b", "a;b");
            && ParseOptions("a;b", decode) == Ok(options)
            && !exists v: string :: Chooses(options, o, v, isFloat)
  {
    var options, o := Single("a;b", "a;b"), Choice("a;b", "a;b");
    SingleIsNormal("a;b", "a;b");
    OptionsRoundTripIff(options, decode);
    assert Lines(options) == ["a;b"] by {
      LineOfNormal(o);
      LinesStep([], o);
      assert [] + [o] == options;
    }
    assert "a;b"[1] == ';';
    ParsedOptionSelectableIff("a;b", decode, o, isFloat);
  }

  lemma ParsedOptionsAreNormal(raw: string, decode: string -> Result<seq<Choice>>)
    ensures ParseOptions(raw, decode).Ok? ==> AllNormal(ParseOptions(raw, decode).value)
  {
    var trimmed := TrimSpace(raw);
    if trimmed != "" && ParseOptions(raw, decode).Ok? {
      if trimmed[0] == '[' {
        NormalizedLines(decode(trimmed).value);
      } else {
        NormalizedLines(ParseLines(Split(trimmed, '\n')).value);
      }
    }
  }
}
