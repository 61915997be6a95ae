/**
 * What MediaType promises: the normal form every instance keeps, the
 * behaviour of each derivation, range containment, and the round trip
 * between toString and parse.
 */
module MediaTypeLaws {
  import opened Options
  import opened Ascii
  import opened OrderedMaps
  import opened Grammar
  import opened ParameterScanner
  import opened MediaTypes

  /** ANY_TYPE, MediaType.java:64. */
  const AnyType: MediaType := MediaType(Wildcard, Wildcard, [])

  /** The attributes of ps, lower-cased, in ps's order. */
  function LowerKeys(ps: ParamMap): seq<string>
  {
    seq(|ps|, i requires 0 <= i < |ps| => Lower(ps[i].0))
  }

  predicate AsciiValues(m: ParamMap)
  {
    forall i :: 0 <= i < |m| ==> AllAscii(m[i].1)
  }

  // ---------------------------------------------------------------------
  // Tokens and case

  lemma WildcardFacts()
    ensures IsNormalToken(Wildcard)
    ensures forall t: string :: Lower(t) == Wildcard ==> t == Wildcard
  {
    assert IsTokenChar('*');
    forall t: string | Lower(t) == Wildcard ensures t == Wildcard {
      assert |Lower(t)| == |t| == 1;
      assert Lower(t)[0] == LowerChar(t[0]) == '*';
      assert t == [t[0]];
    }
  }

  // ---------------------------------------------------------------------
  // normalizeParameters and create (MediaType.java:171-196)

  /**
   * The normalised map is in normal form, and its attributes are the
   * lower-cased attributes of the argument, each where it first occurs.
   */
  lemma NormalizedParametersNormal(ps: ParamMap)
    requires AllTokenKeys(ps)
    ensures NormalizedParameters(ps).Ok?
    ensures ParamsNormal(NormalizedParameters(ps).value)
    ensures Keys(NormalizedParameters(ps).value) == Dedup(LowerKeys(ps))
  {
    var n := NormalizedEntries(ps);
    var r := PutAll([], n);
    PutAllKeys([], n);
    assert Keys([]) + Keys(n) == LowerKeys(ps);
    PutAllEntries([], n);
    forall i | 0 <= i < |r|
      ensures IsNormalToken(r[i].0) && (r[i].0 == Charset ==> IsUpperCase(r[i].1))
    {
      assert r[i] in n;
      var j :| 0 <= j < |n| && n[j] == r[i];
      LowerToken(ps[j].0);
      UpperIdempotent(ps[j].1);
    }
  }

  /**
   * Attributes that coincide once lower-cased keep the value of the last
   * of them: upper-cased under charset, verbatim otherwise.
   */
  lemma NormalizedLastValueWins(ps: ParamMap, i: int)
    requires AllTokenKeys(ps) && 0 <= i < |ps|
    requires forall j :: i < j < |ps| ==> Lower(ps[j].0) != Lower(ps[i].0)
    ensures var k := Lower(ps[i].0);
      Lookup(NormalizedParameters(ps).value, k) == Some(if k == Charset then Upper(ps[i].1) else ps[i].1)
  {
    var n := NormalizedEntries(ps);
    LastValueAt(n, i);
    PutAllLookup([], n, Lower(ps[i].0));
  }

  /** An attribute none of the arguments lower-cases to is absent. */
  lemma NormalizedAbsent(ps: ParamMap, k: string)
    requires AllTokenKeys(ps)
    requires forall j :: 0 <= j < |ps| ==> Lower(ps[j].0) != k
    ensures Lookup(NormalizedParameters(ps).value, k).None?
  {
    var n := NormalizedEntries(ps);
    LastValueAbsent(n, k);
    PutAllLookup([], n, k);
  }

  /** Normalising a map already in normal form leaves it as it is. */
  lemma NormalizedOfNormal(ps: ParamMap)
    requires ParamsNormal(ps)
    ensures NormalizedParameters(ps) == Ok(ps)
  {
    forall i | 0 <= i < |ps| ensures NormalizedEntries(ps)[i] == ps[i] {
      assert IsNormalToken(ps[i].0);
    }
    assert NormalizedEntries(ps) == ps;
    PutAllIntoEmpty(ps);
  }

  /**
   * create succeeds exactly when the wildcard rule holds and the type,
   * the subtype and every attribute are tokens; the wildcard rule is
   * checked first; what it builds is in normal form.
   */
  lemma CreateContract(t: string, st: string, ps: ParamMap)
    ensures Create(t, st, ps).Ok? <==>
      (t == Wildcard ==> st == Wildcard) && IsToken(t) && IsToken(st) && AllTokenKeys(ps)
    ensures t == Wildcard && st != Wildcard ==> Create(t, st, ps) == Err(WildcardType)
    ensures Create(t, st, ps).Err? ==> Create(t, st, ps).error != Malformed
    ensures Create(t, st, ps).Ok? ==>
      var m := Create(t, st, ps).value;
      && Valid(m)
      && m.topLevel == Lower(t) && m.subtype == Lower(st)
      && Keys(m.parameters) == Dedup(LowerKeys(ps))
  {
    if Create(t, st, ps).Ok? {
      WildcardFacts();
      NormalizedParametersNormal(ps);
    }
  }

  // ---------------------------------------------------------------------
  // parse (MediaType.java:145-154)

  /**
   * parse rejects as malformed exactly the inputs outside the grammar. An
   * input inside it is rejected only by the wildcard rule; otherwise it
   * parses to its lower-cased type and subtype, in normal form.
   */
  lemma ParseContract(s: string)
    ensures ParseText(s) == Err(Malformed) <==> !InLanguage(s)
    ensures SplitMediaType(s).Some? ==>
      var (t, st, tail) := SplitMediaType(s).value;
      && (ParseText(s).Ok? <==> (t == Wildcard ==> st == Wildcard))
      && (ParseText(s).Err? ==> ParseText(s) == Err(WildcardType))
      && (ParseText(s).Ok? ==> ParseText(s).value.topLevel == Lower(t) && ParseText(s).value.subtype == Lower(st))
    ensures ParseText(s).Ok? ==> Valid(ParseText(s).value)
  {
    RecogniserExact(s);
    match SplitMediaType(s)
    case None =>
    case Some((t, st, tail)) =>
      SplitMediaTypeSound(s);
      ParsedAttributesAreTokens(SplitTail(tail).value);
      CreateContract(t, st, PutAll([], RawPairs(SplitTail(tail).value)));
  }

  /** The parser's map holds only the attributes of the text, all tokens. */
  lemma ParsedAttributesAreTokens(ps: seq<RawParameter>)
    requires ParametersOk(ps)
    ensures AllTokenKeys(PutAll([], RawPairs(ps)))
  {
    var n := RawPairs(ps);
    var r := PutAll([], n);
    PutAllEntries([], n);
    forall i | 0 <= i < |r|
      ensures IsToken(r[i].0)
    {
      assert r[i] in r;
      var j :| 0 <= j < |n| && n[j] == r[i];
      assert ParameterOk(ps[j]);
    }
  }

  /**
   * The scanner folds pairs on their attributes as written, before they
   * are lower-cased. So in "x=v1;lower(x)=v2;x=v3" the third pair
   * overwrites the first, the second keeps its place after it, and once
   * normalised the attribute lower(x) holds v2, not the last value v3:
   * "a/b;A=1;a=2;A=3" parses to a/b;a=2.
   */
  lemma ParseFoldsRawAttributes(t: string, st: string, x: string, v1: string, v2: string, v3: string)
    requires IsToken(t) && IsToken(st) && (t == Wildcard ==> st == Wildcard)
    requires IsToken(x) && Lower(x) != x && Lower(x) != Charset
    requires IsToken(v1) && IsToken(v2) && IsToken(v3)
    ensures ParseText(t + "/" + st + ";" + x + "=" + v1 + ";" + Lower(x) + "=" + v2 + ";" + x + "=" + v3)
      == Ok(MediaType(Lower(t), Lower(st), [(Lower(x), v2)]))
  {
    var y := Lower(x);
    LowerToken(x);
    FoldParsed(t, st, x, y, v1, v2, v3);
    FoldRaw(x, y, v1, v2, v3);
    FoldNormalized(x, v3, v2);
  }

  /** The grammar reads "t/st;x=v1;y=v2;x=v3" as three bare parameters. */
  lemma FoldParsed(t: string, st: string, x: string, y: string, v1: string, v2: string, v3: string)
    requires IsToken(t) && IsToken(st) && IsToken(x) && IsToken(y)
    requires IsToken(v1) && IsToken(v2) && IsToken(v3)
    ensures var input := t + "/" + st + ";" + x + "=" + v1 + ";" + y + "=" + v2 + ";" + x + "=" + v3;
      && SplitMediaType(input).Some?
      && SplitMediaType(input).value.0 == t && SplitMediaType(input).value.1 == st
      && RawPairs(SplitTail(SplitMediaType(input).value.2).value) == [(x, v1), (y, v2), (x, v3)]
  {
    var ps := [RawParameter("", x, BareValue(v1)), RawParameter("", y, BareValue(v2)),
               RawParameter("", x, BareValue(v3))];
    FoldText(t, st, x, y, v1, v2, v3);
    assert ParametersOk(ps) by {
      assert ParameterOk(ps[0]) && ParameterOk(ps[1]) && ParameterOk(ps[2]);
    }
    SplitMediaTypeComplete(t, st, ps);
    SplitTailComplete(ps);
    assert RawPairs(ps) == [(x, v1), (y, v2), (x, v3)];
  }

  /** The text of three bare parameters with no blanks. */
  lemma FoldText(t: string, st: string, x: string, y: string, v1: string, v2: string, v3: string)
    ensures t + "/" + st + ";" + x + "=" + v1 + ";" + y + "=" + v2 + ";" + x + "=" + v3
      == t + "/" + st + TailText([RawParameter("", x, BareValue(v1)), RawParameter("", y, BareValue(v2)),
                                  RawParameter("", x, BareValue(v3))])
  {
    var p1 := RawParameter("", x, BareValue(v1));
    var p2 := RawParameter("", y, BareValue(v2));
    var p3 := RawParameter("", x, BareValue(v3));
    TailTextOfThree(p1, p2, p3);
    var head := t + "/" + st;
    BarePiece(head, x, v1);
    BarePiece(head + ParameterText(p1), y, v2);
    BarePiece(head + ParameterText(p1) + ParameterText(p2), x, v3);
  }

  lemma BarePiece(h: string, x: string, v: string)
    ensures h + ";" + x + "=" + v == h + ParameterText(RawParameter("", x, BareValue(v)))
  {
    assert ParameterText(RawParameter("", x, BareValue(v))) == ";" + x + "=" + v;
  }

  lemma TailTextOfThree(p1: RawParameter, p2: RawParameter, p3: RawParameter)
    ensures TailText([p1, p2, p3]) == ParameterText(p1) + ParameterText(p2) + ParameterText(p3)
  {
    assert [p3][1..] == [];
    assert TailText([p3]) == ParameterText(p3);
    assert [p2, p3][1..] == [p3];
    assert TailText([p2, p3]) == ParameterText(p2) + ParameterText(p3);
    assert [p1, p2, p3][1..] == [p2, p3];
  }

  lemma PutAllSnoc(m: ParamMap, n: ParamMap, e: Entry)
    ensures PutAll(m, n + [e]) == Put(PutAll(m, n), e.0, e.1)
  {
    assert (n + [e])[..|n|] == n;
  }

  lemma FoldRaw(x: string, y: string, v1: string, v2: string, v3: string)
    requires x != y
    ensures PutAll([], [(x, v1), (y, v2), (x, v3)]) == [(x, v3), (y, v2)]
  {
    var m1: ParamMap := [(x, v1)];
    var m2: ParamMap := [(x, v1), (y, v2)];
    PutAllSnoc([], [], (x, v1));
    assert [] + [(x, v1)] == m1;
    PutAllSnoc([], m1, (y, v2));
    IndexOfIs(m1, y, 1);
    assert m1 + [(y, v2)] == m2;
    PutAllSnoc([], m2, (x, v3));
    IndexOfIs(m2, x, 0);
    assert m2 + [(x, v3)] == [(x, v1), (y, v2), (x, v3)];
  }

  lemma FoldNormalized(x: string, v3: string, v2: string)
    requires IsToken(x) && Lower(x) != Charset
    ensures NormalizedParameters([(x, v3), (Lower(x), v2)]) == Ok([(Lower(x), v2)])
  {
    var y := Lower(x);
    var folded := [(x, v3), (y, v2)];
    assert AllTokenKeys(folded) by {
      LowerToken(x);
    }
    var n := NormalizedEntries(folded);
    assert n == [(y, v3), (y, v2)] by {
      LowerIdempotent(x);
      assert NormalizeEntry(folded[0]) == (y, v3);
      assert NormalizeEntry(folded[1]) == (y, v2);
    }
    PutTwice(y, v3, v2);
  }

  /** Putting the same key twice into an empty map keeps the second value. */
  lemma PutTwice(y: string, a: string, b: string)
    ensures PutAll([], [(y, a), (y, b)]) == [(y, b)]
  {
    var first: ParamMap := [(y, a)];
    PutAllSnoc([], [], (y, a));
    assert [] + [(y, a)] == first;
    PutAllSnoc([], first, (y, b));
    IndexOfIs(first, y, 0);
    assert first + [(y, b)] == [(y, a), (y, b)];
  }

  // ---------------------------------------------------------------------
  // escapeAndQuote and toString (MediaType.java:373-400)

  /** Dropping the escaping backslashes gives back the escaped value. */
  lemma EscapeRoundTrip(v: string)
    ensures Unquote(EscapeItems(v)) == v
    ensures AllAscii(v) ==> forall i :: 0 <= i < |v| ==> ItemOk(EscapeItems(v)[i])
  {
  }

  /**
   * ParametersParser.readValue, set on the text escapeAndQuote writes for
   * an ASCII value, reads the value back and stops just past the closing
   * quote: the text is a value ReadValue accepts and it denotes v.
   */
  lemma EscapeScan(v: string, s: string, i: int)
    requires AllAscii(v)
    requires 0 <= i <= |s|
    requires var q := ValueText(QuotedValue(EscapeItems(v)));
      i + |q| <= |s| && s[i..i + |q|] == q && (i + |q| == |s| || s[i + |q|] == ';')
    ensures ValueOk(QuotedValue(EscapeItems(v)))
    ensures ValueAt(s, i, QuotedValue(EscapeItems(v)))
    ensures ValueOf(QuotedValue(EscapeItems(v))) == v
    ensures SplitValue(s[i..]) == Some((QuotedValue(EscapeItems(v)), s[i + |ValueText(QuotedValue(EscapeItems(v)))|..]))
  {
    EscapeRoundTrip(v);
    var q := ValueText(QuotedValue(EscapeItems(v)));
    var rest := s[i + |q|..];
    assert s[i..] == q + rest;
    SplitQuotedValueComplete(EscapeItems(v), rest);
  }

  /**
   * readValue run on what escapeAndQuote writes, with the cursor on the
   * '=' before it and the end of the text or a ';' after it: it reads the
   * value back and leaves the cursor just past the closing quote.
   */
  method ReadBackEscaped(v: string, more: string) returns (text: string, value: string, cursor: int)
    requires AllAscii(v) && (more == [] || more[0] == ';')
    ensures text == "=" + ValueText(QuotedValue(EscapeItems(v))) + more
    ensures value == v
    ensures cursor == |text| - |more|
  {
    var quoted := EscapeAndQuote(v);
    text := "=" + quoted + more;
    var parser := new ParametersParser();
    parser.params := text;
    assert text[1..1 + |quoted|] == quoted;
    EscapeScan(v, text, 1);
    value := parser.ReadValue(QuotedValue(EscapeItems(v)));
    cursor := parser.index;
  }

  /** A value is written bare exactly when it is a token; written either way it denotes itself. */
  lemma RenderValueContract(v: string)
    ensures ValueText(RenderValue(v)) == v <==> IsToken(v)
    ensures ValueOf(RenderValue(v)) == v
    ensures AllAscii(v) ==> ValueOk(RenderValue(v))
  {
    EscapeRoundTrip(v);
    if !IsToken(v) {
      ItemsTextLength(EscapeItems(v));
    }
  }

  lemma {:induction false} ItemsTextLength(items: seq<QuotedItem>)
    ensures |ItemsText(items)| >= |items|
    decreases |items|
  {
    if items != [] {
      ItemsTextLength(items[1..]);
    }
  }

  /** toString of an instance without parameters is type/subtype. */
  lemma RenderNoParameters(m: MediaType)
    requires m.parameters == []
    ensures Render(m) == m.topLevel + "/" + m.subtype
    ensures Render(m) == m.topLevel + "/" + m.subtype + TailText(RenderParameters(m.parameters))
  {
  }

  /**
   * toString writes each parameter, in map order, as "; " + attribute +
   * "=" + its value, bare when a token, quoted and escaped otherwise.
   */
  lemma RenderParts(m: MediaType)
    ensures Render(m) == m.topLevel + "/" + m.subtype + TailText(RenderParameters(m.parameters))
    ensures forall i :: 0 <= i < |m.parameters| ==>
      ParameterText(RenderParameters(m.parameters)[i])
        == "; " + m.parameters[i].0 + "=" + ValueText(RenderValue(m.parameters[i].1))
  {
  }

  lemma RenderedParametersOk(m: MediaType)
    requires Valid(m) && AsciiValues(m.parameters)
    ensures ParametersOk(RenderParameters(m.parameters))
    ensures RawPairs(RenderParameters(m.parameters)) == m.parameters
  {
    var rendered := RenderParameters(m.parameters);
    forall i | 0 <= i < |rendered|
      ensures ParameterOk(rendered[i]) && ValueOf(rendered[i].value) == m.parameters[i].1
    {
      RenderValueContract(m.parameters[i].1);
      assert IsNormalToken(m.parameters[i].0);
    }
  }

  /**
   * Parsing what toString writes gives the instance back, whenever every
   * parameter value is ASCII; so the result equals it as well.
   */
  lemma RenderParseRoundTrip(m: MediaType)
    requires Valid(m) && AsciiValues(m.parameters)
    ensures ParseText(Render(m)) == Ok(m)
    ensures Equals(ParseText(Render(m)).value, m)
  {
    var rendered := RenderParameters(m.parameters);
    RenderedParametersOk(m);
    RenderParts(m);
    SplitMediaTypeComplete(m.topLevel, m.subtype, rendered);
    SplitTailComplete(rendered);
    PutAllIntoEmpty(m.parameters);
    NormalizedOfNormal(m.parameters);
    ContainsAllReflexive(m.parameters);
  }

  lemma {:induction false} ItemsTextAscii(items: seq<QuotedItem>)
    requires forall i :: 0 <= i < |items| ==> ItemOk(items[i])
    ensures AllAscii(ItemsText(items))
    decreases |items|
  {
    if items != [] {
      ItemsTextAscii(items[1..]);
      assert ItemOk(items[0]);
    }
  }

  lemma ParameterTextAscii(p: RawParameter)
    requires ParameterOk(p)
    ensures AllAscii(ParameterText(p))
  {
    if p.value.QuotedValue? {
      ItemsTextAscii(p.value.items);
    }
    var text := ParameterText(p);
    var b := 1 + |p.blanks|;
    var a := b + |p.attribute|;
    forall x | 0 <= x < |text| ensures IsAscii(text[x]) {
      if 0 < x < b {
        assert text[x] == p.blanks[x - 1];
      } else if b <= x < a {
        assert text[x] == p.attribute[x - b];
      } else if a + 1 <= x {
        assert text[x] == ValueText(p.value)[x - a - 1];
      }
    }
  }

  lemma {:induction false} TailTextAscii(ps: seq<RawParameter>)
    requires ParametersOk(ps)
    ensures AllAscii(TailText(ps))
    decreases |ps|
  {
    if ps != [] {
      assert ParameterOk(ps[0]);
      ParameterTextAscii(ps[0]);
      assert ParametersOk(ps[1..]) by {
        forall i | 0 <= i < |ps[1..]| ensures ParameterOk(ps[1..][i]) {
          assert ps[1..][i] == ps[i + 1];
        }
      }
      TailTextAscii(ps[1..]);
    }
  }

  /** The grammar admits only ASCII text, so parse rejects any other. */
  lemma ParseRejectsNonAscii(s: string)
    requires !AllAscii(s)
    ensures ParseText(s) == Err(Malformed)
  {
    if SplitMediaType(s).Some? {
      SplitMediaTypeSound(s);
      var (t, st, tail) := SplitMediaType(s).value;
      var ps := SplitTail(tail).value;
      TailTextAscii(ps);
    }
  }

  lemma AsciiConcat(a: string, b: string)
    ensures AllAscii(a + b) <==> AllAscii(a) && AllAscii(b)
  {
    if AllAscii(a + b) {
      forall i | 0 <= i < |a| ensures IsAscii(a[i]) {
        assert a[i] == (a + b)[i];
      }
      forall i | 0 <= i < |b| ensures IsAscii(b[i]) {
        assert b[i] == (a + b)[|a| + i];
      }
    }
  }

  lemma {:induction false} ItemsTextAsciiBack(items: seq<QuotedItem>)
    requires AllAscii(ItemsText(items))
    ensures forall i :: 0 <= i < |items| ==> IsAscii(items[i].c)
    decreases |items|
  {
    if items != [] {
      AsciiConcat(ItemText(items[0]), ItemsText(items[1..]));
      ItemsTextAsciiBack(items[1..]);
      assert IsAscii(ItemText(items[0])[|ItemText(items[0])| - 1]);
      forall i | 1 <= i < |items| ensures IsAscii(items[i].c) {
        assert items[i] == items[1..][i - 1];
      }
    }
  }

  /** A value whose rendering is ASCII is ASCII. */
  lemma RenderValueAsciiBack(v: string)
    requires AllAscii(ValueText(RenderValue(v)))
    ensures AllAscii(v)
  {
    if !IsToken(v) {
      var items := EscapeItems(v);
      AsciiConcat("\"" + ItemsText(items), "\"");
      AsciiConcat("\"", ItemsText(items));
      ItemsTextAsciiBack(items);
      EscapeRoundTrip(v);
      forall i | 0 <= i < |v| ensures IsAscii(v[i]) {
        assert v[i] == Unquote(items)[i] == items[i].c;
      }
    }
  }

  lemma {:induction false} TailTextAsciiBack(ps: seq<RawParameter>)
    requires AllAscii(TailText(ps))
    ensures forall i :: 0 <= i < |ps| ==> AllAscii(ValueText(ps[i].value))
    decreases |ps|
  {
    if ps != [] {
      var p := ps[0];
      AsciiConcat(ParameterText(p), TailText(ps[1..]));
      assert ParameterText(p) == (";" + p.blanks + p.attribute + "=") + ValueText(p.value);
      AsciiConcat(";" + p.blanks + p.attribute + "=", ValueText(p.value));
      TailTextAsciiBack(ps[1..]);
      forall i | 1 <= i < |ps| ensures AllAscii(ValueText(ps[i].value)) {
        assert ps[i] == ps[1..][i - 1];
      }
    }
  }

  /**
   * toString quotes a value that is not ASCII, and the grammar then
   * rejects the text: parse reads back what toString writes exactly when
   * every parameter value is ASCII.
   */
  lemma ParseRenderIffAscii(m: MediaType)
    requires Valid(m)
    ensures ParseText(Render(m)).Ok? <==> AsciiValues(m.parameters)
  {
    if AsciiValues(m.parameters) {
      RenderParseRoundTrip(m);
    } else if ParseText(Render(m)).Ok? {
      var rendered := RenderParameters(m.parameters);
      RenderParts(m);
      if !AllAscii(Render(m)) {
        ParseRejectsNonAscii(Render(m));
      }
      AsciiConcat(m.topLevel + "/" + m.subtype, TailText(rendered));
      TailTextAsciiBack(rendered);
      forall i | 0 <= i < |m.parameters| ensures AllAscii(m.parameters[i].1) {
        RenderValueAsciiBack(m.parameters[i].1);
      }
    }
  }

  // ---------------------------------------------------------------------
  // withParameters, withParameter, withoutParameter, withoutParameters
  // (MediaType.java:283-334)

  /** withParameters succeeds exactly when every attribute is a token, and keeps type and subtype. */
  lemma WithParametersContract(m: MediaType, ps: ParamMap)
    ensures WithParameters(m, ps).Ok? <==> AllTokenKeys(ps)
    ensures WithParameters(m, ps).Err? ==> WithParameters(m, ps) == Err(InvalidToken)
    ensures WithParameters(m, ps).Ok? ==>
      WithParameters(m, ps).value.topLevel == m.topLevel && WithParameters(m, ps).value.subtype == m.subtype
  {
  }

  /**
   * The attributes of m keep their positions, and the argument's
   * normalised attributes that are new follow in the argument's order.
   * The result is in normal form again.
   */
  lemma WithParametersKeys(m: MediaType, ps: ParamMap)
    requires Valid(m) && AllTokenKeys(ps)
    ensures var r := WithParameters(m, ps).value.parameters;
      && Keys(r) == Dedup(Keys(m.parameters) + Keys(NormalizedParameters(ps).value))
      && |m.parameters| <= |r| && Keys(r)[..|m.parameters|] == Keys(m.parameters)
    ensures Valid(WithParameters(m, ps).value)
  {
    var n := NormalizedParameters(ps).value;
    NormalizedParametersNormal(ps);
    PutAllIntoEmpty(m.parameters);
    PutAllKeys(m.parameters, n);
    assert Distinct(Keys(m.parameters));
    DedupPrefix(Keys(m.parameters), Keys(n));
    var r := PutAll(m.parameters, n);
    PutAllEntries(m.parameters, n);
    forall i | 0 <= i < |r|
      ensures IsNormalToken(r[i].0) && (r[i].0 == Charset ==> IsUpperCase(r[i].1))
    {
      assert r[i] in m.parameters || r[i] in n;
    }
  }

  /** The argument's normalised value wins; other attributes keep theirs. */
  lemma WithParametersLookup(m: MediaType, ps: ParamMap, k: string)
    requires Valid(m) && AllTokenKeys(ps)
    ensures var n := NormalizedParameters(ps).value;
      Lookup(WithParameters(m, ps).value.parameters, k)
        == if Lookup(n, k).Some? then Lookup(n, k) else Lookup(m.parameters, k)
  {
    var n := NormalizedParameters(ps).value;
    NormalizedParametersNormal(ps);
    PutAllIntoEmpty(m.parameters);
    PutAllLookup(m.parameters, n, k);
    LastValueOfDistinct(n, k);
  }

  /**
   * withParameter sets the lower-cased attribute to the value (upper-cased
   * under charset) and leaves every other attribute alone.
   */
  lemma WithParameterLookup(m: MediaType, attribute: string, value: string, k: string)
    requires Valid(m)
    ensures WithParameter(m, attribute, value).Ok? <==> IsToken(attribute)
    ensures IsToken(attribute) ==>
      var a := Lower(attribute);
      Lookup(WithParameter(m, attribute, value).value.parameters, k)
        == if k == a then Some(if a == Charset then Upper(value) else value) else Lookup(m.parameters, k)
    ensures IsToken(attribute) ==> Valid(WithParameter(m, attribute, value).value)
  {
    var ps := [(attribute, value)];
    if IsToken(attribute) {
      WithParametersLookup(m, ps, k);
      WithParametersKeys(m, ps);
      if k == Lower(attribute) {
        NormalizedLastValueWins(ps, 0);
      } else {
        NormalizedAbsent(ps, k);
      }
    }
  }

  /** withCharset sets charset to the charset's name, upper-cased. */
  lemma WithCharsetLookup(m: MediaType, charsetName: string)
    requires Valid(m)
    ensures WithCharset(m, charsetName).Ok?
    ensures Lookup(WithCharset(m, charsetName).value.parameters, Charset) == Some(Upper(charsetName))
  {
    assert IsToken(Charset) by {
      assert forall c :: c in Charset ==> IsTokenChar(c);
    }
    assert Lower(Charset) == Charset;
    WithParameterLookup(m, Charset, charsetName, Charset);
  }

  /**
   * withoutParameter drops only the entry whose attribute equals its
   * argument as given, keeps the others in order, and changes nothing
   * when there is no such entry.
   */
  lemma WithoutParameterContract(m: MediaType, attribute: string)
    requires Valid(m)
    ensures var r := WithoutParameter(m, attribute);
      && r.topLevel == m.topLevel && r.subtype == m.subtype
      && r.parameters == Without(m.parameters, attribute)
      && Lookup(r.parameters, attribute).None?
      && (forall k :: k != attribute ==> Lookup(r.parameters, k) == Lookup(m.parameters, k))
      && (Lookup(m.parameters, attribute).None? ==> r == m)
      && Valid(r)
  {
    var p := m.parameters;
    PutAllIntoEmpty(p);
    RemoveIsWithout(p, attribute);
    RemoveLookup(p, attribute);
    KeysIndexOf(p, attribute);
    var r := Remove(p, attribute);
    var i := IndexOf(p, attribute);
    if i < |p| {
      RemoveAt(p, i);
      forall j | 0 <= j < |r|
        ensures IsNormalToken(r[j].0) && (r[j].0 == Charset ==> IsUpperCase(r[j].1))
      {
        assert r[j] == if j < i then p[j] else p[j + 1];
      }
    }
  }

  /** No case normalisation: withoutParameter("Charset") keeps a charset parameter. */
  lemma WithoutParameterIsCaseSensitive()
    ensures var m := MediaType("text", "plain", [(Charset, "UTF-8")]);
      && WithoutParameter(m, "Charset") == m
      && WithoutParameter(m, Charset).parameters == []
  {
    var p := [(Charset, "UTF-8")];
    assert PutAll([], p) == p;
    assert IndexOf(p, "Charset") == 1;
  }

  /** withoutParameters keeps type and subtype, empties the map, and m is in the result's range. */
  lemma WithoutParametersContract(m: MediaType)
    requires Valid(m)
    ensures var r := WithoutParameters(m);
      && Valid(r) && Render(r) == m.topLevel + "/" + m.subtype
      && Is(m, r) && (m.parameters != [] ==> !Equals(m, r))
  {
  }

  // ---------------------------------------------------------------------
  // hasWildcard, is, equals (MediaType.java:242-244, 348-366)

  /** In normal form a wildcard type forces a wildcard subtype, so only the subtype decides. */
  lemma HasWildcardOfValid(m: MediaType)
    requires Valid(m)
    ensures HasWildcard(m) <==> m.subtype == Wildcard
  {
  }

  /** ANY_TYPE is what create("*", "*") builds, and every media type is in its range. */
  lemma IsAnyType(m: MediaType)
    ensures CreateSimple(Wildcard, Wildcard) == Ok(AnyType)
    ensures Is(m, AnyType)
  {
    WildcardFacts();
    assert Lower(Wildcard) == Wildcard;
    NormalizedOfNormal([]);
  }

  lemma IsReflexive(m: MediaType)
    requires Valid(m)
    ensures Is(m, m)
  {
    ContainsAllReflexive(m.parameters);
  }

  lemma IsTransitive(a: MediaType, b: MediaType, c: MediaType)
    requires Valid(b)
    requires Is(a, b) && Is(b, c)
    ensures Is(a, c)
  {
    ContainsAllTransitive(a.parameters, b.parameters, c.parameters);
  }

  /** text/html is in the range of text with any subtype, and not the other way round. */
  lemma IsNotSymmetric()
    ensures var html := MediaType("text", "html", []);
      var text := MediaType("text", Wildcard, []);
      Is(html, text) && !Is(text, html)
  {
  }

  /** equals compares parameters by content, whatever their order. */
  lemma EqualsIgnoresOrder(a: MediaType, b: MediaType)
    requires Valid(a) && Valid(b)
    ensures Equals(a, b) <==>
      a.topLevel == b.topLevel && a.subtype == b.subtype
      && forall k :: Lookup(a.parameters, k) == Lookup(b.parameters, k)
  {
    MapEqualsIffSameLookups(a.parameters, b.parameters);
  }

  lemma EqualsExample()
    ensures var a := MediaType("text", "plain", [("a", "1"), ("b", "2")]);
      var b := MediaType("text", "plain", [("b", "2"), ("a", "1")]);
      Equals(a, b) && a != b
  {
    var p := [("a", "1"), ("b", "2")];
    var q := [("b", "2"), ("a", "1")];
    assert Lookup(q, "a") == Some("1");
    assert Lookup(q, "b") == Some("2");
  }

  /** Two instances each in the other's range are equal, and conversely. */
  lemma IsBothWaysIffEquals(a: MediaType, b: MediaType)
    requires Valid(a) && Valid(b)
    ensures Equals(a, b) <==> Is(a, b) && Is(b, a)
  {
    var p := a.parameters;
    var q := b.parameters;
    MapEqualsIffSameLookups(p, q);
    if Equals(a, b) {
      forall i | 0 <= i < |q| ensures Lookup(p, q[i].0) == Some(q[i].1) {
        LookupAt(q, i);
      }
      forall i | 0 <= i < |p| ensures Lookup(q, p[i].0) == Some(p[i].1) {
        LookupAt(p, i);
      }
    }
    if Is(a, b) && Is(b, a) {
      forall k ensures Lookup(p, k) == Lookup(q, k) {
        var i := IndexOf(p, k);
        var j := IndexOf(q, k);
        if j < |q| {
          assert Lookup(p, q[j].0) == Some(q[j].1);
        } else {
          assert forall x :: 0 <= x < |p| ==> p[x].0 != k;
          IndexOfIs(p, k, |p|);
        }
      }
    }
  }
}
