# MediaType in Dafny

A model of `com.ryan.net.MediaType`, an immutable Internet Media Type value
following RFC 2045 (section 5.1) and RFC 2046, with the media ranges of
section 14.1 of RFC 2616. The value has:

- a top-level type;
- a subtype;
- an insertion-ordered map of parameters.

The model covers:

- the token and media-type grammar;
- the `ParametersParser` cursor that reads the parameter part;
- `parse`, `create`, `normalizeToken` and `normalizeParameters`;
- the derivations `withParameter`, `withParameters`, `withCharset`,
  `withoutParameter` and `withoutParameters`;
- `hasWildcard`, `is` and `equals`;
- `toString` and `escapeAndQuote`.

Files, one module each:

| file | module | models |
|---|---|---|
| `options.dfy` | `Options` | an `Option` type |
| `ascii.dfy` | `Ascii` | the ASCII-only case mapping of the project's `ASCII` helper, and `String.trim` |
| `ordered_maps.dfy` | `OrderedMaps` | the `LinkedHashMap`/`ImmutableMap` that holds the parameters: a sequence of entries in iteration order; `put` overwrites in place or appends; `putAll`, `remove`, `get`, `entrySet().containsAll` and `AbstractMap.equals` |
| `grammar.dfy` | `Grammar` | the regular expression at `MediaType.java:53-57` as a syntax tree of the parameter part, its text, and a deterministic recogniser proved to accept exactly the texts of well-formed trees |
| `parameters_parser.dfy` | `ParameterScanner` | the class `ParametersParser` with its `params` and `index` fields and its three methods, written as imperative loops over the cursor and proved against the syntax tree |
| `media_type.dfy` | `MediaTypes` | the `MediaType` value, its normal form, the normaliser, `parse`, the derivations, `is`/`equals`, and rendering; `normalizeParameters`, `escapeAndQuote` and `toString` are also loop methods proved against their specification functions |
| `laws.dfy` | `MediaTypeLaws` | what the class promises, stated and proved as lemmas |

Every rejection in the Java code is an `IllegalArgumentException` raised by
`Parameters.checkCondition`. Here it is an `Err` of a `Result`. The error
names which check failed: `Malformed`, `InvalidToken` or `WildcardType`.

Two behaviours of the code are worth knowing. The lemmas state both.

- `ParametersParser` folds pairs under their attribute as written, trimmed
  but not yet lower-cased. Lower-casing happens afterwards, in `create`. So
  attributes that differ only in case do not always keep the last value:
  `a/b;A=1;a=2;A=3` parses to `a/b; a=2`. See
  `MediaTypeLaws.ParseFoldsRawAttributes`. Maps handed to `create`,
  `withParameter` and `withParameters` directly do keep the last value. See
  `MediaTypeLaws.NormalizedLastValueWins`.
- `toString` quotes any value that is not a token, non-ASCII ones included.
  The grammar admits only ASCII, so `parse` reads back what `toString`
  writes exactly when every parameter value is ASCII. See
  `MediaTypeLaws.ParseRenderIffAscii` and `MediaTypeLaws.RenderParseRoundTrip`.

## Model

| member | source | states |
|---|---|---|
| OrderedMaps.PutLookup | src/main/java/com/ryan/collection/ImmutableMap.java:10-15 | after `put(k, v)`, `get(k)` is `v` and every other key maps as before |
| OrderedMaps.PutKeys | src/main/java/com/ryan/collection/ImmutableMap.java:10-15 | re-putting a present key leaves the key order unchanged; a new key is appended; keys stay distinct |
| OrderedMaps.PutAllLookup | src/main/java/com/ryan/net/MediaType.java:303-305 | after `putAll(n)` a key maps to its last value in `n` if `n` has it, else to its old value |
| OrderedMaps.PutAllKeys | src/main/java/com/ryan/collection/ImmutableMap.java:10-15 | the keys after `putAll(n)` are the old keys followed by `n`'s new keys, each where it first occurs; keys stay distinct |
| OrderedMaps.PutAllIntoEmpty | src/main/java/com/ryan/net/MediaType.java:319-320 | copying a map into a fresh map with `putAll` gives the same entries in the same order |
| OrderedMaps.RemoveLookup | src/main/java/com/ryan/net/MediaType.java:321 | after `remove(k)`, `k` is absent, every other key maps as before, and an absent `k` leaves the map unchanged |
| OrderedMaps.RemoveIsWithout | src/main/java/com/ryan/net/MediaType.java:321 | `remove(k)` equals the map filtered of the entries with key `k`, the others in order |
| OrderedMaps.MapEqualsIffSameLookups | src/main/java/com/ryan/net/MediaType.java:365 | `AbstractMap.equals` (same size, every entry of one in the other) holds iff both maps give the same value for every key |
| OrderedMaps.ContainsAllTransitive | src/main/java/com/ryan/net/MediaType.java:351 | `entrySet().containsAll` is transitive |
| Grammar.SplitToken | src/main/java/com/ryan/net/MediaType.java:53 | splits off the longest prefix of token characters |
| Grammar.SplitTailComplete | src/main/java/com/ryan/net/MediaType.java:55-57 | the text of every well-formed parameter list is accepted and gives that list back |
| Grammar.SplitTailSound | src/main/java/com/ryan/net/MediaType.java:55-57 | an accepted parameter part is the text of the well-formed list it gives |
| Grammar.SplitMediaTypeComplete | src/main/java/com/ryan/net/MediaType.java:56-57 | `token/token` plus a well-formed parameter text matches; groups 1-3 are the type, the subtype and the parameter text |
| Grammar.SplitMediaTypeSound | src/main/java/com/ryan/net/MediaType.java:147-151 | on a match, groups 1 and 2 are tokens and the input is `type/subtype` followed by the text of a well-formed parameter list |
| Grammar.RecogniserExact | src/main/java/com/ryan/net/MediaType.java:53-58 | the recogniser accepts exactly the inputs the media-type regular expression matches as a whole |
| ParameterScanner.ParametersParser.constructor | src/main/java/com/ryan/net/MediaType.java:402-404 | a fresh parser has its cursor at 0 |
| ParameterScanner.ParametersParser.Parse | src/main/java/com/ryan/net/MediaType.java:406-413 | on a parameter part the grammar accepts: every `charAt` is in bounds, the loop stops, an empty part gives the empty map with the cursor left at 0, otherwise the cursor ends on the last character or past it, and the map is the pairs of the part put in text order |
| ParameterScanner.ParametersParser.ReadParameter | src/main/java/com/ryan/net/MediaType.java:410 | one turn of the loop gives the next pair's attribute and value and moves the cursor to the next `;` or to the end |
| ParameterScanner.ParametersParser.ReadAttribute | src/main/java/com/ryan/net/MediaType.java:415-423 | reads up to the next `=`, leaves the cursor on it, and gives the trimmed text in between |
| ParameterScanner.ParametersParser.ReadValue | src/main/java/com/ryan/net/MediaType.java:425-445 | a bare value runs to the next `;` or the end; a quoted value drops each escaping backslash, keeps the next character as it is, ends at the first unescaped `"`, and leaves the cursor past it |
| MediaTypes.NormalizeToken | src/main/java/com/ryan/net/MediaType.java:180-184 | succeeds iff the argument is a token; the result is the argument ASCII-lower-cased, a lower-case token |
| MediaTypes.LowerToken | src/main/java/com/ryan/net/MediaType.java:183 | ASCII lower-casing keeps a token a token |
| MediaTypes.NormalizeParameters | src/main/java/com/ryan/net/MediaType.java:186-196 | the loop puts each lower-cased entry into a fresh map, upper-casing the charset value, and fails at the first attribute that is not a token |
| MediaTypes.Parse | src/main/java/com/ryan/net/MediaType.java:145-154 | matches the grammar, runs a fresh `ParametersParser` on group 3, then calls `create` |
| MediaTypes.EscapeAndQuote | src/main/java/com/ryan/net/MediaType.java:390-400 | writes the value between quotes, with a backslash before each `\` and `"` |
| MediaTypes.JoinRendered | src/main/java/com/ryan/net/MediaType.java:52 | joining the `attribute=value` texts with the `"; "` prefix joiner gives the text of the parameter list |
| MediaTypes.ToString | src/main/java/com/ryan/net/MediaType.java:373-388 | the loop's text is the rendering of the instance |
| MediaTypeLaws.WildcardFacts | src/main/java/com/ryan/net/MediaType.java:50 | `*` is a lower-case token, and only `*` lower-cases to `*` |
| MediaTypeLaws.NormalizedParametersNormal | src/main/java/com/ryan/net/MediaType.java:186-196 | the normalised map has distinct lower-case token attributes and an upper-case charset value; its attributes are the lower-cased attributes in first-occurrence order |
| MediaTypeLaws.NormalizedLastValueWins | src/main/java/com/ryan/net/MediaType.java:186-196 | attributes that collide once lower-cased keep the last value: upper-cased under charset, as given otherwise |
| MediaTypeLaws.NormalizedAbsent | src/main/java/com/ryan/net/MediaType.java:186-196 | an attribute that no argument attribute lower-cases to is absent |
| MediaTypeLaws.NormalizedOfNormal | src/main/java/com/ryan/net/MediaType.java:186-196 | normalising a map already in normal form returns it unchanged |
| MediaTypeLaws.CreateContract | src/main/java/com/ryan/net/MediaType.java:171-178 | `create` succeeds iff the wildcard rule holds and the type, the subtype and every attribute are tokens; the wildcard rule is checked first; the instance is in normal form, with a lower-cased type and subtype |
| MediaTypeLaws.ParseContract | src/main/java/com/ryan/net/MediaType.java:141-154 | `parse` fails as malformed iff the input is outside the grammar; an input inside it fails only with `WildcardType`, exactly when its type is `*` and its subtype is not; otherwise it parses to the lower-cased type and subtype, in normal form |
| MediaTypeLaws.ParsedAttributesAreTokens | src/main/java/com/ryan/net/MediaType.java:406-413 | every attribute in the map the parser builds from an accepted parameter part is a token |
| MediaTypeLaws.ParseFoldsRawAttributes | src/main/java/com/ryan/net/MediaType.java:406-413 | `t/st;x=v1;lower(x)=v2;x=v3` parses to the single parameter `lower(x)=v2`, because the parser folds on raw attributes |
| MediaTypeLaws.EscapeRoundTrip | src/main/java/com/ryan/net/MediaType.java:390-400 | dropping the escaping backslashes gives the value back; an ASCII value escapes to valid quoted-string items |
| MediaTypeLaws.EscapeScan | src/main/java/com/ryan/net/MediaType.java:425-445 | the text `escapeAndQuote(v)` writes for ASCII `v` is a quoted value that `readValue` accepts, the grammar reads it as one value, and it denotes `v` |
| MediaTypeLaws.ReadBackEscaped | src/main/java/com/ryan/net/MediaType.java:390-400 | a `ParametersParser` whose `readValue` runs on `"=" + escapeAndQuote(v)`, for ASCII `v` and followed by nothing or a `;`, gives `v` back and leaves the cursor just past the closing quote |
| MediaTypeLaws.RenderValueContract | src/main/java/com/ryan/net/MediaType.java:382-384 | a value is written bare iff it is a token; either way it denotes itself; an ASCII value renders to a well-formed value |
| MediaTypeLaws.RenderNoParameters | src/main/java/com/ryan/net/MediaType.java:375-377 | with no parameters, `toString` is `type/subtype` |
| MediaTypeLaws.RenderParts | src/main/java/com/ryan/net/MediaType.java:378-387 | each parameter, in map order, is written as `"; " + attribute + "=" + value` |
| MediaTypeLaws.RenderedParametersOk | src/main/java/com/ryan/net/MediaType.java:378-387 | the rendered parameters of a valid instance with ASCII values are well-formed and denote exactly its map |
| MediaTypeLaws.RenderParseRoundTrip | src/main/java/com/ryan/net/MediaType.java:373-388 | parsing `toString` of a valid instance with ASCII values gives the same instance back, so the two are `equals` |
| MediaTypeLaws.ParseRejectsNonAscii | src/main/java/com/ryan/net/MediaType.java:145-148 | any input with a non-ASCII character is rejected as malformed |
| MediaTypeLaws.ParseRenderIffAscii | src/main/java/com/ryan/net/MediaType.java:382-385 | for a valid instance, `parse(toString())` succeeds iff every parameter value is ASCII |
| MediaTypeLaws.WithParametersContract | src/main/java/com/ryan/net/MediaType.java:302-307 | `withParameters` succeeds iff every attribute is a token, and keeps the type and the subtype |
| MediaTypeLaws.WithParametersKeys | src/main/java/com/ryan/net/MediaType.java:302-307 | existing attributes keep their positions; new normalised attributes follow in argument order; the result is in normal form |
| MediaTypeLaws.WithParametersLookup | src/main/java/com/ryan/net/MediaType.java:302-307 | an attribute maps to the argument's normalised value if present, else to its old value |
| MediaTypeLaws.WithParameterLookup | src/main/java/com/ryan/net/MediaType.java:283-287 | `withParameter` succeeds iff the attribute is a token; the lower-cased attribute gets the value (upper-cased under charset) and every other attribute is kept; the result is in normal form |
| MediaTypeLaws.WithCharsetLookup | src/main/java/com/ryan/net/MediaType.java:269-271 | `withCharset` always succeeds and sets `charset` to the upper-cased charset name |
| MediaTypeLaws.WithoutParameterContract | src/main/java/com/ryan/net/MediaType.java:317-323 | drops only the entry whose attribute equals the argument as given; others keep their values and order; an absent attribute leaves the instance unchanged; normal form is kept |
| MediaTypeLaws.WithoutParameterIsCaseSensitive | src/main/java/com/ryan/net/MediaType.java:317-323 | `withoutParameter("Charset")` keeps a `charset` parameter; `withoutParameter("charset")` removes it |
| MediaTypeLaws.WithoutParametersContract | src/main/java/com/ryan/net/MediaType.java:331-334 | keeps the type and the subtype with no parameters; the original is in the result's range, and is not `equals` to it when it had parameters |
| MediaTypeLaws.HasWildcardOfValid | src/main/java/com/ryan/net/MediaType.java:242-244 | for an instance in normal form, `hasWildcard` holds iff the subtype is `*` |
| MediaTypeLaws.IsAnyType | src/main/java/com/ryan/net/MediaType.java:64 | `ANY_TYPE` is what `create("*", "*")` builds, and every media type is in its range |
| MediaTypeLaws.IsReflexive | src/main/java/com/ryan/net/MediaType.java:348-352 | every instance in normal form is in its own range |
| MediaTypeLaws.IsTransitive | src/main/java/com/ryan/net/MediaType.java:348-352 | `a.is(b)` and `b.is(c)` give `a.is(c)` |
| MediaTypeLaws.IsNotSymmetric | src/main/java/com/ryan/net/MediaType.java:348-352 | `text/html` is in the range `text/*`, but not the other way round |
| MediaTypeLaws.EqualsIgnoresOrder | src/main/java/com/ryan/net/MediaType.java:354-366 | `equals` holds iff the types, the subtypes and every attribute's value agree, whatever the parameter order |
| MediaTypeLaws.EqualsExample | src/main/java/com/ryan/net/MediaType.java:354-366 | two instances whose parameters differ only in order are `equals` |
| MediaTypeLaws.IsBothWaysIffEquals | src/main/java/com/ryan/net/MediaType.java:348-366 | two instances in normal form are `equals` iff each is in the other's range |

## Left out

- `charset()` (MediaType.java:255-258) looks up the JVM charset registry, which is foreign code. `withCharset` takes the charset's canonical name as a string.
- `hashCode` (MediaType.java:368-371) depends on `XObjects.hashCode`, which is not part of this model.
- `Serializable`, `serialVersionUID` and the constants table at MediaType.java:64-134. `ANY_TYPE` is kept, as `MediaTypeLaws.AnyType`.
- The getters `type()`, `subtype()` and `parameters()` are the datatype's fields. Immutability needs no modelling, since Dafny values are immutable.
- `NullPointerException` paths: Dafny strings are never null.
- Java strings are sequences of UTF-16 code units, while a Dafny `string` is a sequence of Unicode scalar values. So lone surrogates cannot be represented, and a supplementary character is one `char` here but two in Java. No modelled behaviour depends on this: the grammar and the case maps are ASCII-only, and escaping touches only `\` and `"`.
- The `java.util.regex` engine. The deterministic recogniser replaces it, and `Grammar.RecogniserExact` proves the two languages equal.
- `URLs.java` and `ImmutableSet.java`. Of `ImmutableMap.java`, only the insertion-order contract is modelled, in `OrderedMaps`.
- The helper classes `ASCII`, `Strings`, `Joiner` and `Parameters` are not part of this model. They appear as plain functions: the case maps, concatenation, `MediaTypes.JoinWithPrefix` and `Err` results.
- ParameterScanner.ParametersParser.Parse: requires a parameter part the grammar accepts and a fresh cursor, as its only caller guarantees. Its behaviour on other text (Java's `StringIndexOutOfBoundsException`) is not modelled.
- ParameterScanner.ParametersParser.ReadParameter: groups the `readAttribute`/`readValue` pair of one loop turn into one method. The Java code calls the two directly inside `put`.
