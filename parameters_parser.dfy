/**
 * MediaType.ParametersParser (MediaType.java:402-446): a cursor over the
 * parameter part of a media type. It keeps the text and an index into it,
 * reads one `attribute=value` pair at a time, and folds the pairs into an
 * insertion-ordered map under their trimmed, not yet normalised, attribute.
 *
 * Its only caller hands it a parameter part the regular expression at
 * MediaType.java:56-57 has accepted, so Parse requires IsParameterTail and
 * is proved against the syntax tree the recogniser rebuilds: it never reads
 * past the end of the text, it stops, and it gives exactly the pairs the
 * tree denotes, in text order.
 */
module ParameterScanner {
  import opened Ascii
  import opened OrderedMaps
  import opened Grammar

  /** The text of v sits in s from position i on and is followed by the end of s or a ';'. */
  predicate ValueAt(s: string, i: int, v: RawValue)
  {
    && 0 <= i
    && i + |ValueText(v)| <= |s|
    && s[i..i + |ValueText(v)|] == ValueText(v)
    && (i + |ValueText(v)| == |s| || s[i + |ValueText(v)|] == ';')
  }

  /** The first position from i on that holds c, or |s| when there is none. */
  function FindFrom(s: string, c: char, i: nat): (r: nat)
    requires i <= |s|
    ensures i <= r <= |s|
    ensures r < |s| ==> s[r] == c
    ensures forall j :: i <= j < r ==> s[j] != c
    decreases |s| - i
  {
    if i == |s| then i else if s[i] == c then i else FindFrom(s, c, i + 1)
  }

  class ParametersParser {
    var params: string
    var index: int

    constructor ()
      ensures params == "" && index == 0
    {
      params := "";
      index := 0;
    }

    /**
     * Reads the pairs of p into a map. An empty p gives the empty map
     * without entering the loop.
     */
    method Parse(p: string) returns (m: ParamMap)
      requires index == 0
      requires IsParameterTail(p)
      modifies this
      ensures params == p
      ensures p == "" ==> m == [] && index == 0
      ensures p != "" ==> |p| - 1 <= index <= |p|
      ensures m == PutAll([], RawPairs(SplitTail(p).value))
    {
      params := p;
      m := [];
      ghost var ps := SplitTail(p).value;
      SplitTailSound(p);
      ghost var done: seq<RawParameter> := [];
      ghost var rest := ps;
      while index < |params| - 1
        invariant params == p && 0 <= index
        invariant ps == done + rest
        invariant ParametersOk(rest)
        invariant m == PutAll([], RawPairs(done))
        invariant Unread(p, index, rest)
        decreases |rest|
      {
        ParameterStep(p, index, rest);
        var attribute, value := ReadParameter(rest[0]);
        m := Put(m, attribute, value);
        RawPairsSnoc(done, rest[0]);
        MoveFirst(done, rest);
        NextParameter(rest);
        done := done + [rest[0]];
        rest := rest[1..];
      }
      if rest != [] {
        assert false;
      }
      assert done == ps;
    }

    /**
     * One turn of Parse's loop: ReadAttribute, then ReadValue. The cursor
     * moves from the ';' of the first unread parameter to the ';' of the
     * next one, or to the end of the text.
     */
    method ReadParameter(ghost q: RawParameter) returns (attribute: string, value: string)
      requires PairAt(params, index, q)
      modifies this`index
      ensures attribute == q.attribute && value == ValueOf(q.value)
      ensures index == After(params, old(index), q)
    {
      ghost var e := index + 1 + |q.blanks| + |q.attribute|;
      attribute := ReadAttribute();
      assert index == e;
      value := ReadValue(q.value);
    }

    /** Reads up to the next '=' (which stays under the cursor) and trims what it read. */
    method ReadAttribute() returns (attribute: string)
      requires 0 <= index < |params| && FindFrom(params, '=', index + 1) < |params|
      modifies this`index
      ensures index == FindFrom(params, '=', old(index) + 1)
      ensures attribute == Trim(params[old(index) + 1..index])
    {
      ghost var stop := FindFrom(params, '=', index + 1);
      var text := "";
      index := index + 1;
      var c := params[index];
      while c != '='
        invariant old(index) < index <= stop
        invariant c == params[index]
        invariant text == params[old(index) + 1..index]
        invariant FindFrom(params, '=', index) == stop
        decreases stop - index
      {
        text := text + [c];
        index := index + 1;
        c := params[index];
      }
      attribute := Trim(text);
    }

    /**
     * Reads the value after the '=' under the cursor. A bare value runs to
     * the next ';' or the end of the text, and the cursor is left on that
     * ';' or on the last character. A quoted value drops each escaping
     * backslash, keeps the character after it verbatim, stops at the first
     * unescaped '"', and the cursor is left just past that quote.
     */
    method ReadValue(ghost v: RawValue) returns (value: string)
      requires ValueOk(v) && ValueAt(params, index + 1, v)
      modifies this`index
      ensures value == ValueOf(v)
      ensures var e := old(index) + 1 + |ValueText(v)|;
        index == if v.BareValue? && e == |params| then e - 1 else e
    {
      ghost var start := index + 1;
      ValueOpens(params, start, v);
      index := index + 1;
      var c := params[index];
      var quoted := c == '"';
      if quoted {
        index := index + 1;
        c := params[index];
      }
      var escaped := false;
      value := "";
      ghost var items := if quoted then v.items else [];
      ghost var base := start + 1;
      ghost var close := start + |ValueText(v)| - 1;
      ghost var j := 0;
      while (c != ';' || quoted) && (c != '"' || escaped)
        invariant 0 <= index < |params|
        invariant c == params[index]
        invariant !quoted ==> InBare(params, start, index, v, value, escaped)
        invariant quoted ==> InQuoted(params, base, close, index, items, j, value, escaped)
        decreases |params| - index
      {
        if !quoted {
          BareStep(params, start, index, v, value);
        } else if c == '\\' && !escaped {
          QuotedEscape(params, base, close, index, items, j, value);
        } else {
          QuotedStep(params, base, close, index, items, j, value, escaped);
        }
        if c == '\\' && !escaped {
          escaped := true;
        } else {
          if quoted {
            j := j + 1;
          }
          escaped := false;
          value := value + [c];
        }
        if index == |params| - 1 {
          break;
        }
        index := index + 1;
        c := params[index];
      }
      if quoted {
        QuotedDone(params, base, close, index, items, j, value, escaped);
      } else {
        assert value == v.token;
      }
      index := index + if quoted then 1 else 0;
    }
  }

  // ---------------------------------------------------------------------
  // Loop states of ReadValue

  /** In a bare value: the token read so far, the cursor on the next character. */
  ghost predicate InBare(s: string, start: int, index: int, v: RawValue, value: string, escaped: bool)
  {
    && v.BareValue? && IsToken(v.token) && ValueAt(s, start, v)
    && !escaped
    && start <= index <= start + |v.token|
    && index < |s|
    && value == v.token[..index - start]
  }

  /** In a quoted value: j items read and unescaped; escaped when the cursor is on an escaped character. */
  ghost predicate InQuoted(s: string, base: int, close: int, index: int, items: seq<QuotedItem>,
                           j: int, value: string, escaped: bool)
  {
    && 0 <= base <= index <= close < |s|
    && s[base..close] == ItemsText(items)
    && s[close] == '"'
    && (forall i :: 0 <= i < |items| ==> ItemOk(items[i]))
    && 0 <= j <= |items|
    && value == Unquote(items[..j])
    && (!escaped ==> index == base + |ItemsText(items[..j])|)
    && (escaped ==> j < |items| && items[j].Escaped? && index == base + |ItemsText(items[..j])| + 1)
    && (j == |items| ==> index == close)
  }

  /** One turn of the bare loop appends the next character of the token. */
  lemma {:induction false} BareStep(s: string, start: int, index: int, v: RawValue, value: string)
    requires InBare(s, start, index, v, value, false)
    requires s[index] != ';'
    ensures s[index] != '\\'
    ensures index < start + |v.token|
    ensures value + [s[index]] == v.token[..index - start + 1]
    ensures index == |s| - 1 ==> index + 1 == start + |v.token|
    ensures index < |s| - 1 ==> InBare(s, start, index + 1, v, value + [s[index]], false)
  {
    var t := v.token;
    assert ValueText(v) == t;
    assert s[index] == s[start..start + |t|][index - start] == t[index - start];
    TokenCharFacts(t[index - start]);
    assert t[..index - start + 1] == t[..index - start] + [t[index - start]];
  }

  /** The text of the items splits around item j. */
  lemma {:induction false} ItemsTextAt(items: seq<QuotedItem>, j: int)
    requires 0 <= j < |items|
    ensures ItemsText(items) == ItemsText(items[..j]) + ItemText(items[j]) + ItemsText(items[j + 1..])
  {
    var rest := items[j..];
    ItemsTextConcat(items[..j], rest);
    assert items[..j] + rest == items;
    assert rest[0] == items[j] && rest[1..] == items[j + 1..];
  }

  /** The text of the first j + 1 items extends that of the first j. */
  lemma {:induction false} ItemsTextSnoc(items: seq<QuotedItem>, j: int)
    requires 0 <= j < |items|
    ensures ItemsText(items[..j + 1]) == ItemsText(items[..j]) + ItemText(items[j])
  {
    var one := [items[j]];
    ItemsTextConcat(items[..j], one);
    assert items[..j] + one == items[..j + 1];
    assert one[1..] == [];
  }

  /** Where item j's text sits, and what it looks like. */
  lemma {:induction false} ItemAt(s: string, base: int, close: int, items: seq<QuotedItem>, j: int)
    requires 0 <= base <= close <= |s| && s[base..close] == ItemsText(items)
    requires 0 <= j < |items|
    ensures var b := base + |ItemsText(items[..j])|; var it := ItemText(items[j]);
      && b + |it| <= close
      && (forall r :: 0 <= r < |it| ==> s[b + r] == it[r])
      && base + |ItemsText(items[..j + 1])| == b + |it|
  {
    ItemsTextAt(items, j);
    ItemsTextSnoc(items, j);
    var before := ItemsText(items[..j]);
    var it := ItemText(items[j]);
    var all := before + it + ItemsText(items[j + 1..]);
    forall r | 0 <= r < |it| ensures s[base + |before| + r] == it[r] {
      assert s[base..close][|before| + r] == all[|before| + r];
    }
  }

  /** A backslash under the cursor in a quoted value opens an escaped item. */
  lemma {:induction false} QuotedEscape(s: string, base: int, close: int, index: int, items: seq<QuotedItem>,
                     j: int, value: string)
    requires InQuoted(s, base, close, index, items, j, value, false)
    requires s[index] == '\\'
    ensures index + 1 < close
    ensures InQuoted(s, base, close, index + 1, items, j, value, true)
  {
    ItemAt(s, base, close, items, j);
  }

  /** One turn of the quoted loop that appends a character completes item j. */
  lemma {:induction false} QuotedStep(s: string, base: int, close: int, index: int, items: seq<QuotedItem>,
                   j: int, value: string, escaped: bool)
    requires InQuoted(s, base, close, index, items, j, value, escaped)
    requires s[index] != '"' || escaped
    requires !(s[index] == '\\' && !escaped)
    ensures index < close
    ensures InQuoted(s, base, close, index + 1, items, j + 1, value + [s[index]], false)
  {
    QuotedChar(s, base, close, index, items, j, value, escaped);
    assert items[..j + 1] == items[..j] + [items[j]];
    if j + 1 == |items| {
      assert items[..j + 1] == items;
    }
    assert Unquote(items[..j + 1]) == Unquote(items[..j]) + [items[j].c];
  }

  /** The character that turn appends is item j's, and the cursor then sits just past item j. */
  lemma {:induction false} QuotedChar(s: string, base: int, close: int, index: int, items: seq<QuotedItem>,
                   j: int, value: string, escaped: bool)
    requires InQuoted(s, base, close, index, items, j, value, escaped)
    requires s[index] != '"' || escaped
    requires !(s[index] == '\\' && !escaped)
    ensures j < |items| && s[index] == items[j].c
    ensures index < close && index + 1 == base + |ItemsText(items[..j + 1])| <= close
  {
    ItemAt(s, base, close, items, j);
    var b := base + |ItemsText(items[..j])|;
    match items[j] {
      case Plain(c) =>
        assert s[b] == ItemText(items[j])[0] == c;
      case Escaped(c) =>
        assert s[b] == ItemText(items[j])[0] == '\\';
        assert s[b + 1] == ItemText(items[j])[1] == c;
    }
  }

  /** The quoted loop stops only on the closing quote, with every item read. */
  lemma {:induction false} QuotedDone(s: string, base: int, close: int, index: int, items: seq<QuotedItem>,
                   j: int, value: string, escaped: bool)
    requires InQuoted(s, base, close, index, items, j, value, escaped)
    requires s[index] == '"' && !escaped
    ensures j == |items| && value == Unquote(items) && index == close
  {
    if j < |items| {
      ItemAt(s, base, close, items, j);
      assert false;
    }
    assert items[..j] == items;
  }

  /** Where ReadValue's loop starts: on the token's first character, or just past the opening quote. */
  lemma {:induction false} ValueOpens(s: string, start: int, v: RawValue)
    requires ValueOk(v) && ValueAt(s, start, v)
    ensures start < |s| && (s[start] == '"' <==> v.QuotedValue?)
    ensures v.BareValue? ==> InBare(s, start, start, v, "", false)
    ensures v.QuotedValue? ==>
      start + 1 < |s| && InQuoted(s, start + 1, start + |ValueText(v)| - 1, start + 1, v.items, 0, "", false)
  {
    var text := ValueText(v);
    assert s[start] == s[start..start + |text|][0] == text[0];
    match v {
      case BareValue(t) =>
        TokenCharFacts(t[0]);
      case QuotedValue(items) =>
        QuotedValueAt(s, start, items);
        assert items[..0] == [];
    }
  }

  /** A quoted value found at position start: its content, then its closing quote. */
  lemma {:induction false} QuotedValueAt(s: string, start: int, items: seq<QuotedItem>)
    requires ValueAt(s, start, QuotedValue(items))
    ensures var close := start + |ValueText(QuotedValue(items))| - 1;
      && start + 1 <= close < |s|
      && s[start + 1..close] == ItemsText(items) && s[close] == '"'
  {
    var text := ValueText(QuotedValue(items));
    var close := start + |text| - 1;
    forall x | start <= x < start + |text| ensures s[x] == text[x - start] {
      assert s[start..start + |text|][x - start] == s[x];
    }
    assert s[start + 1..close] == ItemsText(items);
  }

  /** Where the parts of a parameter's text sit once that text is found at position i. */
  lemma {:induction false} ParameterAtPartsSlice(s: string, i: int, q: RawParameter)
    requires ParameterOk(q)
    requires 0 <= i && i + |ParameterText(q)| <= |s| && s[i..i + |ParameterText(q)|] == ParameterText(q)
    ensures var e := i + 1 + |q.blanks| + |q.attribute|;
      && e < |s| && s[e] == '='
      && s[i + 1..e] == q.blanks + q.attribute
      && (forall j :: i < j < e ==> s[j] != '=')
      && s[e + 1..e + 1 + |ValueText(q.value)|] == ValueText(q.value)
      && |ParameterText(q)| == e + 1 + |ValueText(q.value)| - i
  {
    var e := i + 1 + |q.blanks| + |q.attribute|;
    var pt := ParameterText(q);
    var named := q.blanks + q.attribute;
    var vt := ValueText(q.value);
    assert pt == ";" + named + "=" + vt;
    forall x | i <= x < i + |pt| ensures s[x] == pt[x - i] {
      assert s[i..i + |pt|][x - i] == s[x];
    }
    assert s[i + 1..e] == named;
    forall j | i < j < e ensures s[j] != '=' {
      assert s[j] == named[j - i - 1];
      if j - i - 1 >= |q.blanks| {
        TokenCharFacts(q.attribute[j - i - 1 - |q.blanks|]);
      }
    }
    assert s[e] == pt[e - i];
    assert s[e + 1..e + 1 + |vt|] == vt;
  }

  /**
   * The parameters in rest are the ones still to read: their text starts
   * at the cursor, or, once none is left, the cursor is at or just before
   * the end of s.
   */
  ghost predicate Unread(s: string, index: int, rest: seq<RawParameter>)
  {
    if rest == [] then |s| - 1 <= index <= |s|
    else 0 <= index <= |s| && s[index..] == TailText(rest)
  }

  /**
   * Parameter q sits in s with its ';' at start: the first '=' after start
   * ends its attribute, trimming the text before that '=' gives the
   * attribute, and q's value follows the '='.
   */
  ghost predicate PairAt(s: string, start: int, q: RawParameter)
  {
    var e := start + 1 + |q.blanks| + |q.attribute|;
    && 0 <= start < |s| - 1 && e < |s| && FindFrom(s, '=', start + 1) == e
    && Trim(s[start + 1..e]) == q.attribute
    && ValueOk(q.value) && ValueAt(s, e + 1, q.value)
  }

  /**
   * Where the cursor stands once parameter q, whose ';' is at start, is
   * read: just past its value, except after a bare value that ends the
   * text, where it stays on the value's last character.
   */
  ghost function After(s: string, start: int, q: RawParameter): int
  {
    var f := start + 1 + |q.blanks| + |q.attribute| + 1 + |ValueText(q.value)|;
    if q.value.BareValue? && f == |s| then f - 1 else f
  }

  /** The first of the parameters still to read, and the text of the others. */
  lemma {:induction false} NextParameter(rest: seq<RawParameter>)
    requires rest != [] && ParametersOk(rest)
    ensures ParameterOk(rest[0]) && ParametersOk(rest[1..])
    ensures TailText(rest) == ParameterText(rest[0]) + TailText(rest[1..])
    ensures TailText(rest[1..]) == [] <==> rest[1..] == []
    ensures TailText(rest[1..]) == [] || TailText(rest[1..])[0] == ';'
  {
    TailTextStart(rest[1..]);
    if rest[1..] != [] {
      assert |ParameterText(rest[1..][0])| > 0;
    }
    assert ParametersOk(rest[1..]) by {
      forall i | 0 <= i < |rest[1..]| ensures ParameterOk(rest[1..][i]) {
        assert rest[1..][i] == rest[i + 1];
      }
    }
  }

  /**
   * What one turn of Parse's loop relies on: from the ';' of the first
   * unread parameter, the first '=' ends its attribute, its value follows
   * that '=', and the cursor ReadValue leaves behind is where the others
   * start.
   */
  lemma {:induction false} ParameterStep(s: string, start: int, rest: seq<RawParameter>)
    requires rest != [] && ParametersOk(rest) && Unread(s, start, rest)
    ensures PairAt(s, start, rest[0])
    ensures Unread(s, After(s, start, rest[0]), rest[1..])
  {
    var q := rest[0];
    var t := TailText(rest[1..]);
    var f := start + 1 + |q.blanks| + |q.attribute| + 1 + |ValueText(q.value)|;
    assert PairAt(s, start, q) && s[f..] == t && (t == [] <==> rest[1..] == []) by {
      NextParameter(rest);
      PairAtText(s, start, q, t);
    }
    if rest[1..] != [] {
      assert f < |s|;
      assert After(s, start, q) == f;
    } else {
      assert f == |s|;
    }
  }

  /** Parameter q's text, followed by t, sits in s from position start on. */
  lemma {:induction false} PairAtText(s: string, start: int, q: RawParameter, t: string)
    requires ParameterOk(q) && 0 <= start <= |s| && s[start..] == ParameterText(q) + t
    requires t == [] || t[0] == ';'
    ensures PairAt(s, start, q)
    ensures s[start + 1 + |q.blanks| + |q.attribute| + 1 + |ValueText(q.value)|..] == t
  {
    AttributeStep(s, start, q, t);
    ValueStep(s, start, q, t);
  }

  /**
   * Parameter q's text followed by t sits in s from position i on: the
   * cursor is short of the last character, the first '=' after it ends
   * the attribute, and trimming the text before that '=' gives q's
   * attribute.
   */
  lemma {:induction false} AttributeStep(s: string, i: int, q: RawParameter, t: string)
    requires ParameterOk(q) && 0 <= i <= |s| && s[i..] == ParameterText(q) + t
    ensures var e := i + 1 + |q.blanks| + |q.attribute|;
      && i < |s| - 1 && e < |s|
      && FindFrom(s, '=', i + 1) == e
      && Trim(s[i + 1..e]) == q.attribute
  {
    var e := i + 1 + |q.blanks| + |q.attribute|;
    assert e < |s| && s[i + 1..e] == q.blanks + q.attribute by {
      SuffixParts(s, i, q, t);
    }
    assert FindFrom(s, '=', i + 1) == e by {
      SuffixParts(s, i, q, t);
      FindFromIs(s, '=', i + 1, e);
    }
    assert |ValueText(q.value)| > 0;
    TrimAttribute(s[i + 1..e], q);
  }

  /**
   * Parameter q's text followed by t sits in s from position i on: q's
   * value follows its '=', and t follows q's value.
   */
  lemma {:induction false} ValueStep(s: string, i: int, q: RawParameter, t: string)
    requires ParameterOk(q) && 0 <= i <= |s| && s[i..] == ParameterText(q) + t
    requires t == [] || t[0] == ';'
    ensures var e := i + 1 + |q.blanks| + |q.attribute|;
      && ValueOk(q.value) && ValueAt(s, e + 1, q.value)
      && s[e + 1 + |ValueText(q.value)|..] == t
  {
    SuffixParts(s, i, q, t);
    var e := i + 1 + |q.blanks| + |q.attribute|;
    var f := e + 1 + |ValueText(q.value)|;
    assert s[i..][f - i..] == t;
    if t != [] {
      assert s[f] == s[i..][f - i] == t[0];
    }
  }

  /** The parts of a parameter's text once that text, followed by t, is found at position i. */
  lemma {:induction false} SuffixParts(s: string, i: int, q: RawParameter, t: string)
    requires ParameterOk(q) && 0 <= i <= |s| && s[i..] == ParameterText(q) + t
    ensures var e := i + 1 + |q.blanks| + |q.attribute|;
      && e < |s| && s[e] == '='
      && s[i + 1..e] == q.blanks + q.attribute
      && (forall j :: i < j < e ==> s[j] != '=')
      && s[e + 1..e + 1 + |ValueText(q.value)|] == ValueText(q.value)
      && |ParameterText(q)| == e + 1 + |ValueText(q.value)| - i
  {
    var pt := ParameterText(q);
    assert s[i..i + |pt|] == pt by {
      assert s[i..][..|pt|] == pt;
    }
    ParameterAtPartsSlice(s, i, q);
  }

  lemma {:induction false} TrimAttribute(x: string, q: RawParameter)
    requires ParameterOk(q) && x == q.blanks + q.attribute
    ensures Trim(x) == q.attribute
  {
    TrimBlanksBefore(q.blanks, q.attribute);
  }

  lemma {:induction false} FindFromIs(s: string, c: char, i: nat, r: nat)
    requires i <= r < |s| && s[r] == c
    requires forall j :: i <= j < r ==> s[j] != c
    ensures FindFrom(s, c, i) == r
    decreases r - i
  {
    if i < r {
      FindFromIs(s, c, i + 1, r);
    }
  }

  lemma {:induction false} MoveFirst<T>(done: seq<T>, rest: seq<T>)
    requires rest != []
    ensures done + rest == (done + [rest[0]]) + rest[1..]
  {
  }

  lemma {:induction false} RawPairsSnoc(done: seq<RawParameter>, q: RawParameter)
    ensures PutAll([], RawPairs(done + [q])) == Put(PutAll([], RawPairs(done)), q.attribute, ValueOf(q.value))
  {
    assert RawPairs(done + [q])[..|done|] == RawPairs(done);
  }
}
