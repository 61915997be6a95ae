/**
 * The media-type grammar of RFC 2045 section 5.1 with the media ranges of
 * section 14.1 of RFC 2616, as the Java code states it in one regular
 * expression (MediaType.java:53-57):
 *
 *   token         = 1*(ASCII, not a control, not whitespace, not one of ()<>@,;:"/[]?=\)
 *   quoted-string = '"' *( ASCII except '"' and '\'  |  '\' ASCII ) '"'
 *   media-type    = token "/" token *( ";" *[ \t\r\n] token "=" ( token | quoted-string ) )
 *
 * The parameter part is described by a syntax tree (RawParameter) and its
 * text; SplitMediaType and SplitTail recognise the language and rebuild
 * the tree. They accept exactly the texts of well-formed trees.
 */
module Grammar {
  import opened Options
  import opened Ascii
  import opened OrderedMaps

  /** `\p{Cntrl}`: U+0000..U+001F and U+007F. */
  predicate IsControl(c: char) { c as int < 32 || c as int == 127 }

  /** `\s`: space, tab, newline, vertical tab, form feed, carriage return. */
  predicate IsRegexSpace(c: char)
  {
    c == ' ' || c == '\t' || c == '\n' || c as int == 11 || c as int == 12 || c == '\r'
  }

  /** The separators `()<>@,;:"/[]?=\` that a token may not contain. */
  const Separators: string := "()<>@,;:\"/[]?=\\"
  predicate IsSeparator(c: char)
  {
    c in Separators
  }

  predicate IsTokenChar(c: char)
  {
    IsAscii(c) && !IsControl(c) && !IsRegexSpace(c) && !IsSeparator(c)
  }

  predicate IsToken(s: string)
  {
    |s| > 0 && forall i :: 0 <= i < |s| ==> IsTokenChar(s[i])
  }

  /** The blanks `[ \t\r\n]` allowed between a ';' and the attribute. */
  predicate IsBlank(c: char) { c == ' ' || c == '\t' || c == '\r' || c == '\n' }

  /** Characters that stand for themselves inside a quoted string. */
  predicate IsQuotedTextChar(c: char) { IsAscii(c) && c != '"' && c != '\\' }

  // ---------------------------------------------------------------------
  // Syntax trees of the parameter part and their text

  /** One unit of quoted-string content: a plain character or a backslash pair. */
  datatype QuotedItem = Plain(c: char) | Escaped(c: char)

  datatype RawValue = BareValue(token: string) | QuotedValue(items: seq<QuotedItem>)

  /** `";" blanks attribute "=" value` */
  datatype RawParameter = RawParameter(blanks: string, attribute: string, value: RawValue)

  predicate ItemOk(it: QuotedItem)
  {
    match it
    case Plain(c) => IsQuotedTextChar(c)
    case Escaped(c) => IsAscii(c)
  }

  predicate ValueOk(v: RawValue)
  {
    match v
    case BareValue(t) => IsToken(t)
    case QuotedValue(items) => forall i :: 0 <= i < |items| ==> ItemOk(items[i])
  }

  predicate ParameterOk(p: RawParameter)
  {
    && (forall i :: 0 <= i < |p.blanks| ==> IsBlank(p.blanks[i]))
    && IsToken(p.attribute)
    && ValueOk(p.value)
  }

  predicate ParametersOk(ps: seq<RawParameter>)
  {
    forall i :: 0 <= i < |ps| ==> ParameterOk(ps[i])
  }

  function ItemText(it: QuotedItem): string
  {
    match it
    case Plain(c) => [c]
    case Escaped(c) => ['\\', c]
  }

  function ItemsText(items: seq<QuotedItem>): string
  {
    if items == [] then "" else ItemText(items[0]) + ItemsText(items[1..])
  }

  /** The characters a quoted string stands for: each backslash dropped. */
  function Unquote(items: seq<QuotedItem>): string
  {
    seq(|items|, i requires 0 <= i < |items| => items[i].c)
  }

  function ValueText(v: RawValue): string
  {
    match v
    case BareValue(t) => t
    case QuotedValue(items) => "\"" + ItemsText(items) + "\""
  }

  /** The parameter value a value's text denotes. */
  function ValueOf(v: RawValue): string
  {
    match v
    case BareValue(t) => t
    case QuotedValue(items) => Unquote(items)
  }

  function ParameterText(p: RawParameter): string
  {
    ";" + p.blanks + p.attribute + "=" + ValueText(p.value)
  }

  function TailText(ps: seq<RawParameter>): string
  {
    if ps == [] then "" else ParameterText(ps[0]) + TailText(ps[1..])
  }

  /** The (attribute, value) pairs a parameter part denotes, in text order. */
  function RawPairs(ps: seq<RawParameter>): ParamMap
  {
    seq(|ps|, i requires 0 <= i < |ps| => (ps[i].attribute, ValueOf(ps[i].value)))
  }

  /** The whole input matches the regular expression at MediaType.java:56-57. */
  ghost predicate InLanguage(s: string)
  {
    exists t: string, st: string, ps: seq<RawParameter> ::
      IsToken(t) && IsToken(st) && ParametersOk(ps) && s == t + "/" + st + TailText(ps)
  }

  // ---------------------------------------------------------------------
  // The recogniser

  /** Splits s after its longest prefix of token characters. */
  function SplitToken(s: string): (r: (string, string))
    ensures r.0 + r.1 == s
    ensures forall i :: 0 <= i < |r.0| ==> IsTokenChar(r.0[i])
    ensures r.1 == [] || !IsTokenChar(r.1[0])
    decreases |s|
  {
    if |s| > 0 && IsTokenChar(s[0]) then
      var (run, rest) := SplitToken(s[1..]);
      ([s[0]] + run, rest)
    else ([], s)
  }

  /** Splits s after its longest prefix of blanks. */
  function SplitBlanks(s: string): (r: (string, string))
    ensures r.0 + r.1 == s
    ensures forall i :: 0 <= i < |r.0| ==> IsBlank(r.0[i])
    ensures r.1 == [] || !IsBlank(r.1[0])
    decreases |s|
  {
    if |s| > 0 && IsBlank(s[0]) then
      var (run, rest) := SplitBlanks(s[1..]);
      ([s[0]] + run, rest)
    else ([], s)
  }

  /** Reads quoted-string content up to its closing quote; gives the items and what follows. */
  function SplitQuoted(s: string): (r: Option<(seq<QuotedItem>, string)>)
    ensures r.Some? ==> |r.value.1| < |s|
    decreases |s|
  {
    if |s| == 0 then None
    else if s[0] == '"' then Some(([], s[1..]))
    else if s[0] == '\\' then
      if |s| >= 2 && IsAscii(s[1]) then
        match SplitQuoted(s[2..])
        case None => None
        case Some((items, rest)) => Some(([Escaped(s[1])] + items, rest))
      else None
    else if IsAscii(s[0]) then
      match SplitQuoted(s[1..])
      case None => None
      case Some((items, rest)) => Some(([Plain(s[0])] + items, rest))
    else None
  }

  /** Reads a token or a quoted string; gives the value and what follows. */
  function SplitValue(s: string): (r: Option<(RawValue, string)>)
    ensures r.Some? ==> |r.value.1| < |s|
  {
    if |s| > 0 && s[0] == '"' then
      match SplitQuoted(s[1..])
      case None => None
      case Some((items, rest)) => Some((QuotedValue(items), rest))
    else
      var (t, rest) := SplitToken(s);
      if t == [] then None else Some((BareValue(t), rest))
  }

  /** Reads one `";" *[ \t\r\n] token "=" ( token | quoted-string )`; gives it and what follows. */
  function SplitParameter(s: string): (r: Option<(RawParameter, string)>)
    ensures r.Some? ==> |r.value.1| < |s|
  {
    if s == [] || s[0] != ';' then None
    else
      var (blanks, named) := SplitBlanks(s[1..]);
      var (attribute, rest) := SplitToken(named);
      if attribute == [] || rest == [] || rest[0] != '=' then None
      else
        match SplitValue(rest[1..])
        case None => None
        case Some((v, more)) => Some((RawParameter(blanks, attribute, v), more))
  }

  /** Recognises `*( ";" *[ \t\r\n] token "=" ( token | quoted-string ) )`. */
  function SplitTail(s: string): Option<seq<RawParameter>>
    decreases |s|
  {
    if s == [] then Some([])
    else
      match SplitParameter(s)
      case None => None
      case Some((p, more)) =>
        match SplitTail(more)
        case None => None
        case Some(ps) => Some([p] + ps)
  }

  predicate IsParameterTail(s: string) { SplitTail(s).Some? }

  /** `token "/" token` at the start of s: the type, the subtype and the rest of s. */
  function SplitHead(s: string): Option<(string, string, string)>
  {
    var (t, rest) := SplitToken(s);
    if t == [] || rest == [] || rest[0] != '/' then None
    else
      var (st, tail) := SplitToken(rest[1..]);
      if st == [] then None else Some((t, st, tail))
  }

  /**
   * MEDIA_TYPE_PATTERN.matcher(input).matches() and its groups 1, 2 and 3:
   * the type, the subtype and the raw parameter part.
   */
  function SplitMediaType(s: string): (r: Option<(string, string, string)>)
    ensures r.Some? ==> IsParameterTail(r.value.2)
  {
    match SplitHead(s)
    case None => None
    case Some((t, st, tail)) => if IsParameterTail(tail) then Some((t, st, tail)) else None
  }

  // ---------------------------------------------------------------------
  // Facts about texts

  lemma {:induction false} ItemsTextConcat(a: seq<QuotedItem>, b: seq<QuotedItem>)
    ensures ItemsText(a + b) == ItemsText(a) + ItemsText(b)
    decreases |a|
  {
    if a == [] {
      assert a + b == b;
    } else {
      assert (a + b)[0] == a[0];
      assert (a + b)[1..] == a[1..] + b;
      ItemsTextConcat(a[1..], b);
    }
  }

  lemma {:induction false} TailTextConcat(a: seq<RawParameter>, b: seq<RawParameter>)
    ensures TailText(a + b) == TailText(a) + TailText(b)
    decreases |a|
  {
    if a == [] {
      assert a + b == b;
    } else {
      assert (a + b)[0] == a[0];
      assert (a + b)[1..] == a[1..] + b;
      TailTextConcat(a[1..], b);
    }
  }

  /** Token characters are neither blanks, nor '=', ';', '"' or '\', and lie above U+0020. */
  lemma TokenCharFacts(c: char)
    requires IsTokenChar(c)
    ensures !IsBlank(c) && c != '=' && c != ';' && c != '"' && c != '\\' && c > ' '
  {
  }

  /** The split after the maximal run of token characters is the only one with a maximal run. */
  lemma SplitTokenOf(x: string, y: string)
    requires forall i :: 0 <= i < |x| ==> IsTokenChar(x[i])
    requires y == [] || !IsTokenChar(y[0])
    ensures SplitToken(x + y) == (x, y)
  {
    var (a, b) := SplitToken(x + y);
    assert forall i :: 0 <= i < |x| ==> (x + y)[i] == x[i];
    assert y != [] ==> (x + y)[|x|] == y[0];
    assert forall i :: 0 <= i < |a| ==> (a + b)[i] == a[i];
    assert b != [] ==> (a + b)[|a|] == b[0];
    assert |a| == |x|;
    assert a == (a + b)[..|a|] && x == (x + y)[..|x|];
    assert b == (a + b)[|a|..] && y == (x + y)[|x|..];
  }

  /** The same for the maximal run of blanks. */
  lemma SplitBlanksOf(x: string, y: string)
    requires forall i :: 0 <= i < |x| ==> IsBlank(x[i])
    requires y == [] || !IsBlank(y[0])
    ensures SplitBlanks(x + y) == (x, y)
  {
    var (a, b) := SplitBlanks(x + y);
    assert forall i :: 0 <= i < |x| ==> (x + y)[i] == x[i];
    assert y != [] ==> (x + y)[|x|] == y[0];
    assert forall i :: 0 <= i < |a| ==> (a + b)[i] == a[i];
    assert b != [] ==> (a + b)[|a|] == b[0];
    assert |a| == |x|;
    assert a == (a + b)[..|a|] && x == (x + y)[..|x|];
    assert b == (a + b)[|a|..] && y == (x + y)[|x|..];
  }

  // ---------------------------------------------------------------------
  // The recogniser accepts the texts of well-formed trees, and rebuilds them

  lemma {:induction false} SplitQuotedComplete(items: seq<QuotedItem>, rest: string)
    requires forall i :: 0 <= i < |items| ==> ItemOk(items[i])
    ensures SplitQuoted(ItemsText(items) + "\"" + rest) == Some((items, rest))
    decreases |items|
  {
    var s := ItemsText(items) + "\"" + rest;
    if items == [] {
      assert s == "\"" + rest;
      assert s[1..] == rest;
    } else {
      var tl := items[1..];
      SplitQuotedComplete(tl, rest);
      assert items == [items[0]] + tl;
      match items[0]
      case Plain(c) =>
        assert s == [c] + (ItemsText(tl) + "\"" + rest);
        assert s[1..] == ItemsText(tl) + "\"" + rest;
      case Escaped(c) =>
        assert s == ['\\', c] + (ItemsText(tl) + "\"" + rest);
        assert s[2..] == ItemsText(tl) + "\"" + rest;
    }
  }

  lemma {:induction false} SplitQuotedSound(s: string)
    requires SplitQuoted(s).Some?
    ensures var (items, rest) := SplitQuoted(s).value;
      (forall i :: 0 <= i < |items| ==> ItemOk(items[i])) && s == ItemsText(items) + "\"" + rest
    decreases |s|
  {
    if s[0] == '"' {
      assert s == "\"" + s[1..];
    } else if s[0] == '\\' {
      SplitQuotedSound(s[2..]);
      var (items, rest) := SplitQuoted(s[2..]).value;
      ItemsCons(Escaped(s[1]), items);
      assert s == ['\\', s[1]] + s[2..];
    } else {
      SplitQuotedSound(s[1..]);
      var (items, rest) := SplitQuoted(s[1..]).value;
      ItemsCons(Plain(s[0]), items);
      assert s == [s[0]] + s[1..];
    }
  }

  lemma ItemsCons(it: QuotedItem, items: seq<QuotedItem>)
    requires ItemOk(it) && forall i :: 0 <= i < |items| ==> ItemOk(items[i])
    ensures forall i :: 0 <= i < |[it] + items| ==> ItemOk(([it] + items)[i])
    ensures ItemsText([it] + items) == ItemText(it) + ItemsText(items)
  {
    assert ([it] + items)[1..] == items;
  }

  lemma SplitValueComplete(v: RawValue, rest: string)
    requires ValueOk(v)
    requires rest == [] || rest[0] == ';'
    ensures SplitValue(ValueText(v) + rest) == Some((v, rest))
  {
    match v
    case BareValue(t) => SplitBareComplete(t, rest);
    case QuotedValue(items) => SplitQuotedValueComplete(items, rest);
  }

  lemma SplitBareComplete(t: string, rest: string)
    requires IsToken(t)
    requires rest == [] || rest[0] == ';'
    ensures SplitValue(t + rest) == Some((BareValue(t), rest))
  {
    TokenCharFacts(t[0]);
    assert !IsTokenChar(';');
    SplitTokenOf(t, rest);
  }

  lemma SplitQuotedValueComplete(items: seq<QuotedItem>, rest: string)
    requires forall i :: 0 <= i < |items| ==> ItemOk(items[i])
    ensures SplitValue(ValueText(QuotedValue(items)) + rest) == Some((QuotedValue(items), rest))
  {
    var s := ValueText(QuotedValue(items)) + rest;
    SplitQuotedComplete(items, rest);
    assert s[0] == '"';
    assert s[1..] == ItemsText(items) + "\"" + rest;
  }

  lemma SplitValueSound(s: string)
    requires SplitValue(s).Some?
    ensures var (v, rest) := SplitValue(s).value;
      ValueOk(v) && s == ValueText(v) + rest
  {
    if |s| > 0 && s[0] == '"' {
      SplitQuotedSound(s[1..]);
      assert s == "\"" + s[1..];
    }
  }

  lemma SplitParameterComplete(p: RawParameter, more: string)
    requires ParameterOk(p)
    requires more == [] || more[0] == ';'
    ensures SplitParameter(ParameterText(p) + more) == Some((p, more))
  {
    var s := ParameterText(p) + more;
    var vt := ValueText(p.value);
    var rest := "=" + (vt + more);
    var named := p.attribute + rest;
    assert s == ";" + (p.blanks + named);
    assert s[1..] == p.blanks + named;
    TokenCharFacts(p.attribute[0]);
    SplitBlanksOf(p.blanks, named);
    assert !IsTokenChar('=');
    SplitTokenOf(p.attribute, rest);
    assert rest[1..] == vt + more;
    SplitValueComplete(p.value, more);
  }

  lemma {:induction false} SplitParameterSound(s: string)
    requires SplitParameter(s).Some?
    ensures var (p, more) := SplitParameter(s).value;
      ParameterOk(p) && s == ParameterText(p) + more
  {
    var (blanks, named) := SplitBlanks(s[1..]);
    var (attribute, rest) := SplitToken(named);
    SplitValueSound(rest[1..]);
    var (v, more) := SplitValue(rest[1..]).value;
    var p := RawParameter(blanks, attribute, v);
    assert SplitParameter(s).value == (p, more);
    assert IsToken(attribute);
    ParameterPieces(s, p, rest, more);
  }

  /** Glues the pieces SplitParameter cuts s into back together. */
  lemma ParameterPieces(s: string, p: RawParameter, rest: string, more: string)
    requires |s| > 0 && s[0] == ';' && s[1..] == p.blanks + (p.attribute + rest)
    requires |rest| > 0 && rest[0] == '=' && rest[1..] == ValueText(p.value) + more
    ensures s == ParameterText(p) + more
  {
    assert s == ";" + s[1..];
    assert rest == "=" + rest[1..];
  }

  lemma {:induction false} SplitTailComplete(ps: seq<RawParameter>)
    requires ParametersOk(ps)
    ensures SplitTail(TailText(ps)) == Some(ps)
    decreases |ps|
  {
    if ps != [] {
      assert ParametersOk(ps[1..]) by {
        forall i | 0 <= i < |ps[1..]| ensures ParameterOk(ps[1..][i]) {
          assert ps[1..][i] == ps[i + 1];
        }
      }
      SplitTailComplete(ps[1..]);
      TailTextStart(ps[1..]);
      SplitParameterComplete(ps[0], TailText(ps[1..]));
      assert [ps[0]] + ps[1..] == ps;
    }
  }

  lemma TailTextStart(ps: seq<RawParameter>)
    ensures TailText(ps) == [] || TailText(ps)[0] == ';'
  {
  }

  lemma {:induction false} SplitTailSound(s: string)
    requires SplitTail(s).Some?
    ensures ParametersOk(SplitTail(s).value) && TailText(SplitTail(s).value) == s
    decreases |s|
  {
    if s != [] {
      SplitParameterSound(s);
      var (p, more) := SplitParameter(s).value;
      SplitTailSound(more);
      var ps := SplitTail(more).value;
      assert SplitTail(s).value == [p] + ps;
      assert ([p] + ps)[0] == p;
      assert ([p] + ps)[1..] == ps;
      forall i | 0 <= i < |[p] + ps| ensures ParameterOk(([p] + ps)[i]) {
        if i > 0 {
          assert ([p] + ps)[i] == ps[i - 1];
        }
      }
    }
  }

  lemma SplitHeadComplete(t: string, st: string, tail: string)
    requires IsToken(t) && IsToken(st) && (tail == [] || tail[0] == ';')
    ensures SplitHead(t + "/" + st + tail) == Some((t, st, tail))
  {
    var rest := "/" + (st + tail);
    assert t + "/" + st + tail == t + rest;
    assert !IsTokenChar('/');
    SplitTokenOf(t, rest);
    assert rest[1..] == st + tail;
    assert !IsTokenChar(';');
    SplitTokenOf(st, tail);
  }

  lemma SplitMediaTypeComplete(t: string, st: string, ps: seq<RawParameter>)
    requires IsToken(t) && IsToken(st) && ParametersOk(ps)
    ensures SplitMediaType(t + "/" + st + TailText(ps)) == Some((t, st, TailText(ps)))
  {
    TailTextStart(ps);
    SplitHeadComplete(t, st, TailText(ps));
    SplitTailComplete(ps);
  }

  lemma {:induction false} SplitHeadSound(s: string)
    requires SplitHead(s).Some?
    ensures var (t, st, tail) := SplitHead(s).value;
      IsToken(t) && IsToken(st) && s == t + "/" + st + tail
  {
    var (t, rest) := SplitToken(s);
    assert rest == "/" + rest[1..];
  }

  lemma {:induction false} SplitMediaTypeSound(s: string)
    requires SplitMediaType(s).Some?
    ensures var (t, st, tail) := SplitMediaType(s).value;
      && IsToken(t) && IsToken(st)
      && ParametersOk(SplitTail(tail).value)
      && s == t + "/" + st + TailText(SplitTail(tail).value)
  {
    SplitHeadSound(s);
    SplitTailSound(SplitHead(s).value.2);
  }

  /** SplitMediaType accepts exactly the language of the regular expression. */
  lemma RecogniserExact(s: string)
    ensures SplitMediaType(s).Some? <==> InLanguage(s)
  {
    if SplitMediaType(s).Some? {
      SplitMediaTypeSound(s);
      var (t, st, tail) := SplitMediaType(s).value;
      var ps := SplitTail(tail).value;
      assert IsToken(t) && IsToken(st) && ParametersOk(ps) && s == t + "/" + st + TailText(ps);
    }
    if InLanguage(s) {
      var t, st, ps :| IsToken(t) && IsToken(st) && ParametersOk(ps) && s == t + "/" + st + TailText(ps);
      SplitMediaTypeComplete(t, st, ps);
    }
  }
}
