/**
 * The media type value (MediaType.java): a lower-case type and subtype
 * and an insertion-ordered map of parameters. Every instance comes out of
 * create, directly or through parse, or out of one of the derivations
 * withParameters / withoutParameter / withoutParameters of an instance.
 *
 * Each way the Java code rejects an input (an IllegalArgumentException
 * from Parameters.checkCondition) is an Err here; the three kinds are
 * told apart only to show which check failed.
 */
module MediaTypes {
  import opened Ascii
  import opened OrderedMaps
  import opened Grammar
  import opened ParameterScanner

  datatype Error =
    | Malformed       // the input does not match the media-type grammar
    | InvalidToken    // a type, subtype or attribute that is not a token
    | WildcardType    // "*" as type with a subtype that is not "*"

  datatype Result<T> = Ok(value: T) | Err(error: Error)

  const Wildcard: string := "*"
  const Charset: string := "charset"

  /** `type` is a keyword here, hence topLevel. */
  datatype MediaType = MediaType(topLevel: string, subtype: string, parameters: ParamMap)

  predicate IsLowerCase(s: string) { Lower(s) == s }

  predicate IsUpperCase(s: string) { Upper(s) == s }

  /** A token that lower-casing leaves alone: what normalizeToken returns. */
  predicate IsNormalToken(s: string) { IsToken(s) && IsLowerCase(s) }

  /**
   * The normal form of a parameter map: distinct lower-case token
   * attributes, and a charset value that upper-casing leaves alone.
   */
  predicate ParamsNormal(m: ParamMap)
  {
    && DistinctKeys(m)
    && (forall i :: 0 <= i < |m| ==> IsNormalToken(m[i].0))
    && (forall i :: 0 <= i < |m| ==> m[i].0 == Charset ==> IsUpperCase(m[i].1))
  }

  /** The normal form of every instance (MediaType.java:24-33). */
  predicate Valid(m: MediaType)
  {
    && IsNormalToken(m.topLevel)
    && IsNormalToken(m.subtype)
    && (m.topLevel == Wildcard ==> m.subtype == Wildcard)
    && ParamsNormal(m.parameters)
  }

  // ---------------------------------------------------------------------
  // create, normalizeToken, normalizeParameters (MediaType.java:166-196)

  /** normalizeToken: a token, lower-cased; anything else is rejected. */
  function NormalizeToken(token: string): (r: Result<string>)
    ensures r.Ok? <==> IsToken(token)
    ensures r.Ok? ==> r.value == Lower(token) && IsNormalToken(r.value)
  {
    if IsToken(token) then
      LowerToken(token);
      Ok(Lower(token))
    else Err(InvalidToken)
  }

  /** One entry of normalizeParameters: the lower-cased attribute, and the value upper-cased under charset. */
  function NormalizeEntry(e: Entry): Entry
  {
    var attribute := Lower(e.0);
    (attribute, if attribute == Charset then Upper(e.1) else e.1)
  }

  function NormalizedEntries(ps: ParamMap): (r: ParamMap)
    ensures |r| == |ps|
  {
    seq(|ps|, i requires 0 <= i < |ps| => NormalizeEntry(ps[i]))
  }

  predicate AllTokenKeys(ps: ParamMap)
  {
    forall i :: 0 <= i < |ps| ==> IsToken(ps[i].0)
  }

  /**
   * normalizeParameters: the normalised entries put, in ps's order, into a
   * fresh insertion-ordered map; rejected as soon as one attribute is not
   * a token.
   */
  function NormalizedParameters(ps: ParamMap): Result<ParamMap>
  {
    if AllTokenKeys(ps) then Ok(PutAll([], NormalizedEntries(ps))) else Err(InvalidToken)
  }

  /** normalizeParameters as the Java code runs it: one put per entry. */
  method NormalizeParameters(ps: ParamMap) returns (r: Result<ParamMap>)
    ensures r == NormalizedParameters(ps)
  {
    var params: ParamMap := [];
    var i := 0;
    while i < |ps|
      invariant 0 <= i <= |ps|
      invariant forall j :: 0 <= j < i ==> IsToken(ps[j].0)
      invariant params == PutAll([], NormalizedEntries(ps[..i]))
    {
      var attribute := NormalizeToken(ps[i].0);
      if attribute.Err? {
        assert !AllTokenKeys(ps) by {
          assert !IsToken(ps[i].0);
        }
        return Err(attribute.error);
      }
      var value := if attribute.value == Charset then Upper(ps[i].1) else ps[i].1;
      NormalizedEntriesSnoc(ps, i);
      params := Put(params, attribute.value, value);
      i := i + 1;
    }
    assert ps[..i] == ps;
    return Ok(params);
  }

  lemma NormalizedEntriesSnoc(ps: ParamMap, i: int)
    requires 0 <= i < |ps|
    ensures NormalizedEntries(ps[..i + 1]) == NormalizedEntries(ps[..i]) + [NormalizeEntry(ps[i])]
  {
  }

  /** create: the wildcard rule on the raw type first, then the type, the subtype and the parameters. */
  function Create(t: string, st: string, ps: ParamMap): Result<MediaType>
  {
    if t == Wildcard && st != Wildcard then Err(WildcardType)
    else
      match NormalizeToken(t)
      case Err(e) => Err(e)
      case Ok(normalizedType) =>
        match NormalizeToken(st)
        case Err(e) => Err(e)
        case Ok(normalizedSubtype) =>
          match NormalizedParameters(ps)
          case Err(e) => Err(e)
          case Ok(params) => Ok(MediaType(normalizedType, normalizedSubtype, params))
  }

  /** create(type, subtype): no parameters. */
  function CreateSimple(t: string, st: string): Result<MediaType>
  {
    Create(t, st, [])
  }

  // ---------------------------------------------------------------------
  // parse (MediaType.java:145-154)

  /** What parse gives for an input: the grammar's groups, the scanner's map, then create. */
  function ParseText(input: string): Result<MediaType>
  {
    match SplitMediaType(input)
    case None => Err(Malformed)
    case Some((t, st, params)) => Create(t, st, PutAll([], RawPairs(SplitTail(params).value)))
  }

  /** parse: match the grammar, hand group 3 to a fresh ParametersParser, then create. */
  method Parse(input: string) returns (r: Result<MediaType>)
    ensures r == ParseText(input)
  {
    var groups := SplitMediaType(input);
    if groups.None? {
      return Err(Malformed);
    }
    var (t, st, params) := groups.value;
    var parser := new ParametersParser();
    var parameters := parser.Parse(params);
    r := Create(t, st, parameters);
  }

  // ---------------------------------------------------------------------
  // The derivations (MediaType.java:269-334)

  /** withParameters: this map's entries, then the normalised argument's entries, put into a fresh map. */
  function WithParameters(m: MediaType, ps: ParamMap): Result<MediaType>
  {
    match NormalizedParameters(ps)
    case Err(e) => Err(e)
    case Ok(normalized) =>
      Ok(MediaType(m.topLevel, m.subtype, PutAll(PutAll([], m.parameters), normalized)))
  }

  /** withParameter: withParameters with a one-entry map. */
  function WithParameter(m: MediaType, attribute: string, value: string): Result<MediaType>
  {
    WithParameters(m, [(attribute, value)])
  }

  /** withCharset, with the charset's canonical name given as a string. */
  function WithCharset(m: MediaType, charsetName: string): Result<MediaType>
  {
    WithParameter(m, Charset, charsetName)
  }

  /** withoutParameter: a copy of the map without the entry whose key equals attribute as given. */
  function WithoutParameter(m: MediaType, attribute: string): MediaType
  {
    MediaType(m.topLevel, m.subtype, Remove(PutAll([], m.parameters), attribute))
  }

  function WithoutParameters(m: MediaType): MediaType
  {
    MediaType(m.topLevel, m.subtype, [])
  }

  // ---------------------------------------------------------------------
  // hasWildcard, is, equals (MediaType.java:242-244, 348-366)

  predicate HasWildcard(m: MediaType)
  {
    m.topLevel == Wildcard || m.subtype == Wildcard
  }

  /** m.is(range) */
  predicate Is(m: MediaType, range: MediaType)
  {
    && (range.topLevel == Wildcard || range.topLevel == m.topLevel)
    && (range.subtype == Wildcard || range.subtype == m.subtype)
    && ContainsAll(m.parameters, range.parameters)
  }

  predicate Equals(m: MediaType, o: MediaType)
  {
    m.topLevel == o.topLevel && m.subtype == o.subtype && MapEquals(m.parameters, o.parameters)
  }

  // ---------------------------------------------------------------------
  // toString and escapeAndQuote (MediaType.java:373-400)

  /** The quoted-string items escapeAndQuote writes: a backslash before each '\' and '"'. */
  function EscapeItems(v: string): (r: seq<QuotedItem>)
    ensures |r| == |v|
  {
    seq(|v|, i requires 0 <= i < |v| => if v[i] == '\\' || v[i] == '"' then Escaped(v[i]) else Plain(v[i]))
  }

  /** A value as toString writes it: bare when it is a token, else quoted and escaped. */
  function RenderValue(v: string): RawValue
  {
    if IsToken(v) then BareValue(v) else QuotedValue(EscapeItems(v))
  }

  /** One parameter as toString writes it: "; " + attribute + "=" + value. */
  function RenderParameter(e: Entry): RawParameter
  {
    RawParameter(" ", e.0, RenderValue(e.1))
  }

  function RenderParameters(m: ParamMap): (r: seq<RawParameter>)
    ensures |r| == |m|
  {
    seq(|m|, i requires 0 <= i < |m| => RenderParameter(m[i]))
  }

  /** toString */
  function Render(m: MediaType): string
  {
    if m.parameters == [] then m.topLevel + "/" + m.subtype
    else m.topLevel + "/" + m.subtype + TailText(RenderParameters(m.parameters))
  }

  /** escapeAndQuote */
  method EscapeAndQuote(value: string) returns (escaped: string)
    ensures escaped == ValueText(QuotedValue(EscapeItems(value)))
  {
    escaped := "\"";
    ghost var items := EscapeItems(value);
    for i := 0 to |value|
      invariant escaped == "\"" + ItemsText(items[..i])
    {
      var c := value[i];
      if c == '\\' || c == '"' {
        escaped := escaped + "\\";
      }
      escaped := escaped + [c];
      ItemsTextSnocAt(items, i);
    }
    assert items[..|value|] == items;
    escaped := escaped + "\"";
  }

  lemma ItemsTextSnocAt(items: seq<QuotedItem>, i: int)
    requires 0 <= i < |items|
    ensures ItemsText(items[..i + 1]) == ItemsText(items[..i]) + ItemText(items[i])
  {
    ItemsTextConcat(items[..i], [items[i]]);
    assert items[..i] + [items[i]] == items[..i + 1];
  }

  /** Joiner.on("; ").withPrefix("; ").join: each part after "; ". */
  function JoinWithPrefix(parts: seq<string>): string
  {
    if parts == [] then "" else "; " + parts[0] + JoinWithPrefix(parts[1..])
  }

  /** toString as the Java code runs it: a list of attribute=value texts, then one join. */
  method ToString(m: MediaType) returns (s: string)
    ensures s == Render(m)
  {
    if m.parameters == [] {
      return m.topLevel + "/" + m.subtype;
    }
    var params: seq<string> := [];
    ghost var rendered := RenderParameters(m.parameters);
    for i := 0 to |m.parameters|
      invariant |params| == i
      invariant forall k :: 0 <= k < i ==> params[k] == rendered[k].attribute + "=" + ValueText(rendered[k].value)
    {
      var attribute := m.parameters[i].0;
      var value := m.parameters[i].1;
      if !IsToken(value) {
        value := EscapeAndQuote(value);
      }
      params := params + [attribute + "=" + value];
    }
    JoinRendered(params, rendered);
    s := m.topLevel + "/" + m.subtype + JoinWithPrefix(params);
  }

  lemma {:induction false} JoinRendered(parts: seq<string>, ps: seq<RawParameter>)
    requires |parts| == |ps|
    requires forall k :: 0 <= k < |ps| ==> ps[k].blanks == " "
    requires forall k :: 0 <= k < |ps| ==> parts[k] == ps[k].attribute + "=" + ValueText(ps[k].value)
    ensures JoinWithPrefix(parts) == TailText(ps)
    decreases |ps|
  {
    if ps != [] {
      JoinRendered(parts[1..], ps[1..]);
      assert "; " + parts[0] == ParameterText(ps[0]);
    }
  }

  // ---------------------------------------------------------------------
  // Token facts

  lemma LowerToken(t: string)
    requires IsToken(t)
    ensures IsToken(Lower(t)) && IsLowerCase(Lower(t))
  {
    LowerIdempotent(t);
    forall i | 0 <= i < |t| ensures IsTokenChar(Lower(t)[i]) {
      var c := t[i];
      if 'A' <= c <= 'Z' {
        assert 'a' <= LowerChar(c) <= 'z';
      }
    }
  }
}
