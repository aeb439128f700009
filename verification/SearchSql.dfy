/** The SQL printer of the full-text search library, and a reader that takes its texts apart again. */
module SearchSql {
  import opened Options
  import opened FluxusVector
  import opened Sequences
  import opened Texts

  datatype Config = Config(kind: int, name: string)

  datatype Query = Query(config: Config, mode: int, input: string)

  /** A searched expression with its weight; no weight is the empty text. */
  datatype Field = Field(expression: string, weight: string)

  const QUOTE := "'"
  const EXPRESSION_END := ", ''))"

  // ---------- printing ----------

  /** A string literal: quotes inside are doubled. */
  function Quoted(s: string): string {
    QUOTE + Replaced(s, QUOTE, "''") + QUOTE
  }

  method Quote(texto: string) returns (r: string)
    ensures r == Quoted(texto)
  {
    var escaped := ReplaceAll(texto, QUOTE, "''");
    var out := QUOTE + escaped;
    r := out + QUOTE;
  }

  function QueryFunction(mode: int): string {
    match mode
    case 1 => "phraseto_tsquery"
    case 2 => "websearch_to_tsquery"
    case 3 => "to_tsquery"
    case _ => "plainto_tsquery"
  }

  function QueryText(q: Query): string {
    QueryFunction(q.mode) + "(" + Quoted(q.config.name) + ", " + Quoted(q.input) + ")"
  }

  method QuerySql(q: Query) returns (out: string)
    ensures out == QueryText(q)
  {
    var fn := "plainto_tsquery";
    if q.mode == 1 {
      fn := "phraseto_tsquery";
    } else if q.mode == 2 {
      fn := "websearch_to_tsquery";
    } else if q.mode == 3 {
      fn := "to_tsquery";
    }
    out := fn + "(";
    var name := Quote(q.config.name);
    out := out + name;
    out := out + ", ";
    var input := Quote(q.input);
    out := out + input;
    out := out + ")";
  }

  function Opening(name: string): string {
    "to_tsvector(" + Quoted(name) + ", coalesce("
  }

  function FieldBase(name: string, f: Field): string {
    Opening(name) + f.expression + EXPRESSION_END
  }

  function FieldText(name: string, f: Field): string {
    if f.weight == "" then FieldBase(name, f) else "setweight(" + FieldBase(name, f) + ", " + Quoted(f.weight) + ")"
  }

  function Printer(name: string): Field -> string {
    f => FieldText(name, f)
  }

  /** The fields' texts joined by the concatenation operator. */
  function DocumentText(name: string, fields: seq<Field>): string {
    Joined(Mapped(Printer(name), fields), " || ")
  }

  method FieldSql(config: Config, f: Field) returns (r: string)
    ensures r == FieldText(config.name, f)
  {
    var base := "to_tsvector(";
    var name := Quote(config.name);
    base := base + name;
    base := base + ", coalesce(";
    base := base + f.expression;
    base := base + EXPRESSION_END;
    if |f.weight| == 0 { return base; }
    var weighted := "setweight(";
    weighted := weighted + base;
    weighted := weighted + ", ";
    var weight := Quote(f.weight);
    weighted := weighted + weight;
    weighted := weighted + ")";
    return weighted;
  }

  method DocumentSql(config: Config, fields: Fluxus<Field>) returns (out: string)
    requires fields.Valid()
    ensures out == DocumentText(config.name, fields.Contents())
  {
    ghost var all := fields.Contents();
    out := "";
    for i := 0 to fields.len
      invariant out == DocumentText(config.name, all[..i])
    {
      if i > 0 { out := out + " || "; }
      var field := fields.Get(i);
      var text := FieldSql(config, field);
      out := out + text;
      DocumentGrows(config.name, all, i);
    }
    assert all[..fields.len] == all;
  }

  lemma DocumentGrows(name: string, fields: seq<Field>, i: nat)
    requires i < |fields|
    ensures DocumentText(name, fields[..i + 1])
            == (if i > 0 then DocumentText(name, fields[..i]) + " || " else "") + FieldText(name, fields[i])
  {
    JoinedGrows(Printer(name), fields, i, " || ");
  }

  lemma JoinedGrows<T>(show: T -> string, items: seq<T>, i: nat, sep: string)
    requires i < |items|
    ensures Joined(Mapped(show, items[..i + 1]), sep)
            == (if i > 0 then Joined(Mapped(show, items[..i]), sep) + sep else "") + show(items[i])
  {
    JoinedSnoc(Mapped(show, items[..i]), show(items[i]), sep);
    assert Mapped(show, items[..i + 1]) == Mapped(show, items[..i]) + [show(items[i])];
  }

  // ---------- names ----------

  predicate NameChar(c: char) {
    'a' <= c <= 'z' || 'A' <= c <= 'Z' || '0' <= c <= '9' || c == '_'
  }

  method ValidName(name: string) returns (ok: bool)
    ensures ok <==> name != "" && forall i :: 0 <= i < |name| ==> NameChar(name[i])
  {
    if |name| == 0 { return false; }
    var i := 0;
    while i < |name|
      invariant 0 <= i <= |name| && forall k :: 0 <= k < i ==> NameChar(name[k])
    {
      if !NameChar(name[i]) { return false; }
      i := i + 1;
    }
    return true;
  }

  /** The letters, the digits and the underscore. */
  lemma NameChars(c: char)
    ensures NameChar(c) <==>
            c in "abcdefghijklmnopqrstuvwxyz" || c in "ABCDEFGHIJKLMNOPQRSTUVWXYZ" || c in "0123456789" || c in "_"
  {
    LowerCase(c);
    UpperCase(c);
    Decimal(c);
  }

  lemma LowerCase(c: char)
    ensures c in "abcdefghijklmnopqrstuvwxyz" <==> 'a' <= c <= 'z'
  {
  }

  lemma UpperCase(c: char)
    ensures c in "ABCDEFGHIJKLMNOPQRSTUVWXYZ" <==> 'A' <= c <= 'Z'
  {
  }

  lemma Decimal(c: char)
    ensures c in "0123456789" <==> '0' <= c <= '9'
  {
  }

  datatype ConfigError = InvalidName

  /** Language (1) and custom (2) configurations accept the same names. */
  method NamedConfig(kind: int, name: string) returns (r: Result<Config, ConfigError>)
    ensures r.Ok? <==> name != "" && forall i :: 0 <= i < |name| ==> NameChar(name[i])
    ensures r.Ok? ==> r.value == Config(kind, name) && Quoted(name) == QUOTE + name + QUOTE
  {
    var ok := ValidName(name);
    if !ok { return Err(InvalidName); }
    PlainTextIsUnchanged(name);
    return Ok(Config(kind, name));
  }

  // ---------- reading ----------

  /** A quoted text after its opening quote: the value up to the first quote that is not doubled, and the rest. */
  function ReadBody(t: string): (r: Option<(string, string)>)
    ensures r.Some? ==> |r.value.1| < |t|
  {
    if t == "" then None
    else if t[0] != '\'' then Prepend(t[0], ReadBody(t[1..]))
    else if |t| > 1 && t[1] == '\'' then Prepend('\'', ReadBody(t[2..]))
    else Some(("", t[1..]))
  }

  function Prepend(c: char, r: Option<(string, string)>): Option<(string, string)> {
    if r.None? then None else Some(([c] + r.value.0, r.value.1))
  }

  function ReadLiteral(t: string): (r: Option<(string, string)>)
    ensures r.Some? ==> |r.value.1| < |t|
  {
    if t == "" || t[0] != '\'' then None else ReadBody(t[1..])
  }

  /** The text after `pre`. */
  function Strip(t: string, pre: string): (r: Option<string>)
    ensures r.Some? <==> pre <= t
    ensures r.Some? ==> t == pre + r.value
  {
    if pre <= t then Some(t[|pre|..]) else None
  }

  /** The doubled text, character by character. */
  function Doubled(s: string): string {
    if s == "" then "" else (if s[0] == '\'' then "''" else [s[0]]) + Doubled(s[1..])
  }

  lemma {:induction false} ReplacedIsDoubled(s: string, i: nat)
    requires i <= |s|
    ensures ReplacedFrom(s, QUOTE, "''", i) == Doubled(s[i..])
    decreases |s| - i
  {
    ReplacedUnroll(s, QUOTE, "''", i);
    if i < |s| {
      ReplacedIsDoubled(s, i + 1);
      assert s[i..][1..] == s[i + 1..];
      assert OccursAt(s, QUOTE, i) <==> s[i] == '\'' by { assert s[i..i + 1] == [s[i]]; }
    }
  }

  lemma {:induction false} PlainTextIsUnchanged(s: string)
    requires '\'' !in s
    ensures Quoted(s) == QUOTE + s + QUOTE
  {
    ReplacedIsDoubled(s, 0);
    DoubledPlain(s);
    assert s[0..] == s;
  }

  lemma {:induction false} DoubledPlain(s: string)
    requires '\'' !in s
    ensures Doubled(s) == s
  {
    if s != "" {
      DoubledPlain(s[1..]);
      assert s == [s[0]] + s[1..];
    }
  }

  function PrependAll(s: string, r: Option<(string, string)>): Option<(string, string)> {
    if r.None? then None else Some((s + r.value.0, r.value.1))
  }

  /** Reading past a doubled text reads the text. */
  lemma {:induction false} ReadPastDoubled(s: string, rest: string)
    ensures ReadBody(Doubled(s) + rest) == PrependAll(s, ReadBody(rest))
  {
    if s == "" {
      assert Doubled(s) + rest == rest;
      PrependNothing(ReadBody(rest));
    } else {
      ReadPastDoubled(s[1..], rest);
      ReadOne(s[0], Doubled(s[1..]) + rest);
      DoubledCons(s, rest);
      PrependOneMore(s, ReadBody(rest));
    }
  }

  lemma PrependNothing(r: Option<(string, string)>)
    ensures PrependAll("", r) == r
  {
    assert r.Some? ==> "" + r.value.0 == r.value.0;
  }

  lemma PrependOneMore(s: string, r: Option<(string, string)>)
    requires s != ""
    ensures Prepend(s[0], PrependAll(s[1..], r)) == PrependAll(s, r)
  {
    assert r.Some? ==> [s[0]] + (s[1..] + r.value.0) == s + r.value.0;
  }

  lemma DoubledCons(s: string, rest: string)
    requires s != ""
    ensures Doubled(s) + rest == Doubled([s[0]]) + (Doubled(s[1..]) + rest)
  {
    var one := Doubled([s[0]]);
    assert one == (if s[0] == '\'' then "''" else [s[0]]) by { assert [s[0]][1..] == ""; }
    Reassociate(one, Doubled(s[1..]), rest);
  }

  lemma Reassociate(a: string, b: string, c: string)
    ensures (a + b) + c == a + (b + c)
  {
  }

  lemma ReadOne(c: char, t: string)
    ensures ReadBody(Doubled([c]) + t) == Prepend(c, ReadBody(t))
  {
    if c == '\'' {
      assert (Doubled([c]) + t)[2..] == t;
    } else {
      assert (Doubled([c]) + t)[1..] == t;
    }
  }

  /** Reading a literal gives back the text and what follows it exactly when no quote follows. */
  lemma QuotedReadsBack(s: string, rest: string)
    ensures ReadLiteral(Quoted(s) + rest) == Some((s, rest)) <==> rest == "" || rest[0] != '\''
  {
    ReplacedIsDoubled(s, 0);
    assert s[0..] == s;
    var t := Quoted(s) + rest;
    var after := QUOTE + rest;
    assert t[1..] == Doubled(s) + after;
    ReadPastDoubled(s, after);
    assert after[1..] == rest;
    if rest == "" || rest[0] != '\'' {
      assert s + "" == s;
    } else if ReadBody(after).Some? {
      assert |ReadBody(after).value.0| > 0;
    }
  }

  /** What a query's text says: its mode, configuration name and input. */
  datatype Reading = Reading(mode: int, name: string, input: string)

  function ReadArguments(mode: int, t: string): Option<Reading> {
    var name := ReadLiteral(t);
    if name.None? then None
    else
      var comma := Strip(name.value.1, ", ");
      if comma.None? then None
      else
        var input := ReadLiteral(comma.value);
        if input.Some? && input.value.1 == ")" then Some(Reading(mode, name.value.0, input.value.0)) else None
  }

  function ReadQuery(t: string): Option<Reading> {
    if Strip(t, "plainto_tsquery(").Some? then ReadArguments(0, Strip(t, "plainto_tsquery(").value)
    else if Strip(t, "phraseto_tsquery(").Some? then ReadArguments(1, Strip(t, "phraseto_tsquery(").value)
    else if Strip(t, "websearch_to_tsquery(").Some? then ReadArguments(2, Strip(t, "websearch_to_tsquery(").value)
    else if Strip(t, "to_tsquery(").Some? then ReadArguments(3, Strip(t, "to_tsquery(").value)
    else None
  }

  /** Modes other than 1, 2 and 3 print as plain queries. */
  function EffectiveMode(mode: int): int {
    if mode == 1 || mode == 2 || mode == 3 then mode else 0
  }

  lemma ArgumentsReadBack(mode: int, name: string, input: string)
    ensures ReadArguments(mode, Quoted(name) + ", " + Quoted(input) + ")") == Some(Reading(mode, name, input))
  {
    var last := Quoted(input) + ")";
    QuotedReadsBack(name, ", " + last);
    QuotedReadsBack(input, ")");
    assert Quoted(name) + ", " + Quoted(input) + ")" == Quoted(name) + (", " + last);
    assert Strip(", " + last, ", ") == Some(last);
  }

  /** A query's text reads back as the query. */
  lemma QueryReadsBack(q: Query)
    ensures ReadQuery(QueryText(q)) == Some(Reading(EffectiveMode(q.mode), q.config.name, q.input))
  {
    var args := Quoted(q.config.name) + ", " + Quoted(q.input) + ")";
    var fn := QueryFunction(q.mode) + "(";
    assert QueryText(q) == fn + args;
    FunctionReadsBack(q.mode, args);
    ArgumentsReadBack(EffectiveMode(q.mode), q.config.name, q.input);
  }

  lemma FunctionReadsBack(mode: int, args: string)
    ensures ReadQuery(QueryFunction(mode) + "(" + args) == ReadArguments(EffectiveMode(mode), args)
  {
    var t := QueryFunction(mode) + "(" + args;
    if mode == 1 {
      NotPrefix("plainto_tsquery(", t, 1);
      assert Strip("phraseto_tsquery(" + args, "phraseto_tsquery(") == Some(args);
    } else if mode == 2 {
      NotPrefix("plainto_tsquery(", t, 0);
      NotPrefix("phraseto_tsquery(", t, 0);
      assert Strip("websearch_to_tsquery(" + args, "websearch_to_tsquery(") == Some(args);
    } else if mode == 3 {
      NotPrefix("plainto_tsquery(", t, 0);
      NotPrefix("phraseto_tsquery(", t, 0);
      NotPrefix("websearch_to_tsquery(", t, 0);
      assert Strip("to_tsquery(" + args, "to_tsquery(") == Some(args);
    } else {
      assert Strip("plainto_tsquery(" + args, "plainto_tsquery(") == Some(args);
    }
  }

  lemma NotPrefix(pre: string, t: string, i: nat)
    requires i < |pre| && i < |t| && pre[i] != t[i]
    ensures !(pre <= t)
  {
  }

  /** Two queries print alike exactly when their effective mode, configuration name and input agree. */
  lemma SameSqlSameQuery(a: Query, b: Query)
    ensures QueryText(a) == QueryText(b)
            <==> EffectiveMode(a.mode) == EffectiveMode(b.mode) && a.config.name == b.config.name && a.input == b.input
  {
    QueryReadsBack(a);
    QueryReadsBack(b);
  }

  // ---------- reading documents ----------

  /** Reads one unweighted field: configuration name, expression and rest. The expression ends where its
      closing text first occurs. */
  function ReadBase(t: string): (r: Option<(string, string, string)>)
    ensures r.Some? ==> |r.value.2| < |t|
  {
    var open := Strip(t, "to_tsvector(");
    if open.None? then None
    else
      var name := ReadLiteral(open.value);
      if name.None? then None
      else
        var inner := Strip(name.value.1, ", coalesce(");
        if inner.None? then None
        else
          match Find(inner.value, EXPRESSION_END, 0)
          case None => None
          case Some(p) => Some((name.value.0, inner.value[..p], inner.value[p + |EXPRESSION_END|..]))
  }

  /** Reads one field. */
  function ReadField(t: string): (r: Option<(string, Field, string)>)
    ensures r.Some? ==> |r.value.2| < |t|
  {
    var weighted := Strip(t, "setweight(");
    var base := ReadBase(if weighted.Some? then weighted.value else t);
    if base.None? then None
    else if weighted.None? then Some((base.value.0, Field(base.value.1, ""), base.value.2))
    else ReadWeight(base.value)
  }

  function ReadWeight(base: (string, string, string)): (r: Option<(string, Field, string)>)
    ensures r.Some? ==> |r.value.2| < |base.2|
  {
    var comma := Strip(base.2, ", ");
    if comma.None? then None
    else
      var weight := ReadLiteral(comma.value);
      if weight.None? then None
      else
        var close := Strip(weight.value.1, ")");
        if close.None? then None else Some((base.0, Field(base.1, weight.value.0), close.value))
  }

  /** Reads fields separated by the concatenation operator, each with its configuration name. */
  function ReadFields(t: string): Option<seq<(string, Field)>>
    decreases |t|
  {
    var first := ReadField(t);
    if first.None? then None
    else if first.value.2 == "" then Some([(first.value.0, first.value.1)])
    else
      var more := Strip(first.value.2, " || ");
      if more.None? then None
      else
        var rest := ReadFields(more.value);
        if rest.None? then None else Some([(first.value.0, first.value.1)] + rest.value)
  }

  /** An expression that does not close early: the closing text first occurs after it. */
  predicate Closed(expression: string) {
    Find(expression + EXPRESSION_END, EXPRESSION_END, 0) == Some(|expression|)
  }

  lemma ClosedFoundFirst(expression: string, rest: string)
    requires Closed(expression)
    ensures Find(expression + EXPRESSION_END + rest, EXPRESSION_END, 0) == Some(|expression|)
  {
    var short, t, n := expression + EXPRESSION_END, expression + EXPRESSION_END + rest, |EXPRESSION_END|;
    forall j | 0 <= j <= |expression| ensures OccursAt(t, EXPRESSION_END, j) == OccursAt(short, EXPRESSION_END, j) {
      assert t[j..j + n] == short[j..j + n];
    }
    FindIsFirst(t, EXPRESSION_END, 0, |expression|);
  }

  /** Otherwise it occurs earlier. */
  lemma OpenFoundEarlier(expression: string, rest: string)
    requires !Closed(expression)
    ensures var p := Find(expression + EXPRESSION_END + rest, EXPRESSION_END, 0); p.Some? && p.value < |expression|
  {
    var short, t, n := expression + EXPRESSION_END, expression + EXPRESSION_END + rest, |EXPRESSION_END|;
    assert short[|expression|..|expression| + n] == EXPRESSION_END && OccursAt(short, EXPRESSION_END, |expression|);
    var p := Find(short, EXPRESSION_END, 0).value;
    assert t[p..p + n] == short[p..p + n] && OccursAt(t, EXPRESSION_END, p);
  }

  /** An unweighted field reads back exactly when its expression does not close early. */
  lemma BaseReadsBack(name: string, f: Field, rest: string)
    ensures Closed(f.expression) ==> ReadBase(FieldBase(name, f) + rest) == Some((name, f.expression, rest))
    ensures !Closed(f.expression) ==> ReadBase(FieldBase(name, f) + rest).Some?
                                      && ReadBase(FieldBase(name, f) + rest).value.1 != f.expression
  {
    var inner := f.expression + EXPRESSION_END + rest;
    var args := ", coalesce(" + inner;
    BaseParts(name, f, rest);
    assert Strip("to_tsvector(" + (Quoted(name) + args), "to_tsvector(") == Some(Quoted(name) + args);
    QuotedReadsBack(name, args);
    assert Strip(args, ", coalesce(") == Some(inner);
    if Closed(f.expression) {
      ClosedFoundFirst(f.expression, rest);
      assert inner[..|f.expression|] == f.expression && inner[|f.expression| + |EXPRESSION_END|..] == rest;
    } else {
      OpenFoundEarlier(f.expression, rest);
    }
  }

  lemma BaseParts(name: string, f: Field, rest: string)
    ensures FieldBase(name, f) + rest
            == "to_tsvector(" + (Quoted(name) + (", coalesce(" + (f.expression + EXPRESSION_END + rest)))
  {
  }

  lemma FieldReadsBack(name: string, f: Field, rest: string)
    ensures ReadField(FieldText(name, f) + rest) == Some((name, f, rest)) <==> Closed(f.expression)
    ensures !Closed(f.expression) ==> var r := ReadField(FieldText(name, f) + rest); r.Some? ==> r.value.1 != f
  {
    if f.weight == "" {
      BaseReadsBack(name, f, rest);
      assert (FieldText(name, f) + rest)[0] == 't';
    } else {
      var close := ")" + rest;
      var tail := ", " + (Quoted(f.weight) + close);
      WeightParts(name, f, rest);
      BaseReadsBack(name, f, tail);
      assert Strip("setweight(" + (FieldBase(name, f) + tail), "setweight(") == Some(FieldBase(name, f) + tail);
      QuotedReadsBack(f.weight, close);
      assert Strip(tail, ", ") == Some(Quoted(f.weight) + close) && Strip(close, ")") == Some(rest);
    }
  }

  lemma WeightParts(name: string, f: Field, rest: string)
    requires f.weight != ""
    ensures FieldText(name, f) + rest
            == "setweight(" + (FieldBase(name, f) + (", " + (Quoted(f.weight) + (")" + rest))))
  {
  }

  function Tagged(name: string, fields: seq<Field>): (r: seq<(string, Field)>)
    ensures |r| == |fields| && forall i :: 0 <= i < |fields| ==> r[i] == (name, fields[i])
  {
    seq(|fields|, i requires 0 <= i < |fields| => (name, fields[i]))
  }

  predicate AllClosed(fields: seq<Field>) {
    forall f :: f in fields ==> Closed(f.expression)
  }

  /** A document reads back as its fields, in order, exactly when none of its expressions closes early. */
  lemma {:induction false} DocumentReadsBack(name: string, fields: seq<Field>)
    requires fields != []
    ensures ReadFields(DocumentText(name, fields)) == Some(Tagged(name, fields)) <==> AllClosed(fields)
    decreases |fields|
  {
    if |fields| == 1 {
      FieldReadsBack(name, fields[0], "");
      assert FieldText(name, fields[0]) + "" == DocumentText(name, fields);
      assert Tagged(name, fields) == [(name, fields[0])];
      LastFieldRead(name, fields[0], DocumentText(name, fields));
    } else {
      var rest := DocumentText(name, fields[1..]);
      DocumentReadsBack(name, fields[1..]);
      FieldReadsBack(name, fields[0], " || " + rest);
      DocumentCons(name, fields);
      TaggedCons(name, fields);
      NextFieldRead(name, fields[0], fields[1..], rest);
    }
  }

  lemma LastFieldRead(name: string, f: Field, t: string)
    requires ReadField(t) == Some((name, f, "")) <==> Closed(f.expression)
    requires !Closed(f.expression) ==> ReadField(t).Some? ==> ReadField(t).value.1 != f
    ensures ReadFields(t) == Some([(name, f)]) <==> Closed(f.expression)
  {
    var r := ReadFields(t);
    if r.Some? { assert r.value[0] == (ReadField(t).value.0, ReadField(t).value.1); }
  }

  lemma NextFieldRead(name: string, f: Field, fields: seq<Field>, rest: string)
    requires var r := ReadField(FieldText(name, f) + (" || " + rest));
             (r == Some((name, f, " || " + rest)) <==> Closed(f.expression))
             && (!Closed(f.expression) ==> r.Some? ==> r.value.1 != f)
    requires ReadFields(rest) == Some(Tagged(name, fields)) <==> AllClosed(fields)
    ensures ReadFields(FieldText(name, f) + (" || " + rest)) == Some([(name, f)] + Tagged(name, fields))
            <==> Closed(f.expression) && AllClosed(fields)
  {
    var r := ReadFields(FieldText(name, f) + (" || " + rest));
    assert Strip(" || " + rest, " || ") == Some(rest);
    if r == Some([(name, f)] + Tagged(name, fields)) {
      assert r.value[0] == (name, f);
      assert r.value[1..] == Tagged(name, fields);
    }
  }

  lemma TaggedCons(name: string, fields: seq<Field>)
    requires fields != []
    ensures Tagged(name, fields) == [(name, fields[0])] + Tagged(name, fields[1..])
    ensures AllClosed(fields) <==> Closed(fields[0].expression) && AllClosed(fields[1..])
  {
    assert fields == [fields[0]] + fields[1..];
  }

  lemma DocumentCons(name: string, fields: seq<Field>)
    requires |fields| > 1
    ensures DocumentText(name, fields) == FieldText(name, fields[0]) + (" || " + DocumentText(name, fields[1..]))
  {
    PrintedTail(Printer(name), fields);
  }

  lemma PrintedTail<T>(show: T -> string, items: seq<T>)
    requires items != []
    ensures Mapped(show, items)[1..] == Mapped(show, items[1..])
  {
  }

  // ---------- which documents print alike ----------

  /** What follows an expression's end inside a document: the next field, or the field's weight. */
  function Continuation(f: Field): string {
    EXPRESSION_END + if f.weight == "" then " || " else ", '"
  }

  /** The expression nowhere closes early and goes on the way a field of its kind would go on. */
  ghost predicate Unambiguous(f: Field) {
    forall j :: !OccursAt(f.expression, Continuation(f), j)
  }

  ghost predicate AllUnambiguous(fields: seq<Field>) {
    forall f :: f in fields ==> Unambiguous(f)
  }

  /** The same text read with two ends of the expression: the longer expression holds the shorter one's end
      and all of its continuation that lies before the longer one's own end. */
  lemma EarlierEnd(e1: string, r1: string, e2: string, r2: string, more: string)
    requires e1 + EXPRESSION_END + r1 == e2 + EXPRESSION_END + r2 && more <= r1
    requires |e1| + |EXPRESSION_END + more| <= |e2|
    ensures OccursAt(e2, EXPRESSION_END + more, |e1|)
  {
    var t, n := e1 + EXPRESSION_END + r1, |EXPRESSION_END + more|;
    assert t[|e1|..|e1| + n] == EXPRESSION_END + more;
    assert e2 == t[..|e2|] && e2[|e1|..|e1| + n] == t[|e1|..|e1| + n];
  }

  /** Where the two ends are: the second one starts where the first one's text has a comma. */
  lemma EndsApart(e1: string, r1: string, e2: string, r2: string)
    requires e1 + EXPRESSION_END + r1 == e2 + EXPRESSION_END + r2 && |e1| < |e2|
    ensures var d := |e2| - |e1|; 6 <= d <= |r1| && EXPRESSION_END <= r1[d - 6..]
  {
    var t, d := e1 + EXPRESSION_END + r1, |e2| - |e1|;
    assert t[|e2|] == t[|e2|..|e2| + 6][0] && t[|e2|..|e2| + 6] == EXPRESSION_END;
    assert forall k :: 0 < k < 6 ==> t[|e1| + k] == EXPRESSION_END[k] != ',';
    assert t[|e1| + 6..] == r1;
    assert t[|e2|..] == r1[d - 6..] && t[|e2|..] == EXPRESSION_END + r2;
  }

  /** What may follow an unweighted field. */
  predicate FieldFollows(r: string) {
    r == "" || " || " <= r
  }

  lemma UnweightedEnd(e1: string, r1: string, e2: string, r2: string)
    requires e1 + EXPRESSION_END + r1 == e2 + EXPRESSION_END + r2 && |e1| < |e2| && FieldFollows(r1)
    ensures OccursAt(e2, EXPRESSION_END + " || ", |e1|)
  {
    EndsApart(e1, r1, e2, r2);
    var d := |e2| - |e1|;
    assert r1[d - 6] == r1[d - 6..][0] == ',';
    EarlierEnd(e1, r1, e2, r2, " || ");
  }

  /** What follows a weighted field's expression. */
  predicate WeightFollows(r: string) {
    |r| > 4 && ", '" <= r && !(r[3] == '\'' && r[4] == ')')
  }

  lemma WeightedEnd(e1: string, r1: string, e2: string, r2: string)
    requires e1 + EXPRESSION_END + r1 == e2 + EXPRESSION_END + r2 && |e1| < |e2| && WeightFollows(r1)
    ensures OccursAt(e2, EXPRESSION_END + ", '", |e1|)
  {
    EndsApart(e1, r1, e2, r2);
    var d := |e2| - |e1|;
    var late := r1[d - 6..];
    assert late[0] == ',' && late[3] == '\'' && late[4] == ')';
    assert d == 6 ==> late == r1;
    EarlierEnd(e1, r1, e2, r2, ", '");
  }

  /** A weight that is not empty never prints as an empty literal. */
  lemma WeightPrints(w: string, rest: string)
    requires w != ""
    ensures WeightFollows(", " + (Quoted(w) + (")" + rest)))
  {
    ReplacedIsDoubled(w, 0);
    assert w[0..] == w;
    var r := ", " + (Quoted(w) + (")" + rest));
    assert Quoted(w)[0] == '\'' && Quoted(w)[1] == Doubled(w)[0];
    assert r[2] == Quoted(w)[0] && r[3] == Quoted(w)[1];
    if w[0] == '\'' { assert r[4] == Quoted(w)[2] == Doubled(w)[1]; }
  }

  predicate Follows(f: Field, r: string) {
    if f.weight == "" then FieldFollows(r) else WeightFollows(r)
  }

  lemma NoEarlierEnd(x: Field, r: string, y: Field, r': string)
    requires Unambiguous(y) && (x.weight == "" <==> y.weight == "") && Follows(x, r)
    requires x.expression + EXPRESSION_END + r == y.expression + EXPRESSION_END + r'
    ensures |y.expression| <= |x.expression|
  {
    if |x.expression| < |y.expression| {
      assert !OccursAt(y.expression, Continuation(y), |x.expression|);
      if y.weight == "" {
        UnweightedEnd(x.expression, r, y.expression, r');
      } else {
        WeightedEnd(x.expression, r, y.expression, r');
      }
    }
  }

  /** The expression and what follows it are told apart. */
  lemma SameExpression(x: Field, r: string, y: Field, r': string)
    requires Unambiguous(x) && Unambiguous(y) && (x.weight == "" <==> y.weight == "") && Follows(x, r) && Follows(y, r')
    requires x.expression + EXPRESSION_END + r == y.expression + EXPRESSION_END + r'
    ensures x.expression == y.expression && r == r'
  {
    NoEarlierEnd(x, r, y, r');
    NoEarlierEnd(y, r', x, r);
    SameSplit(x.expression + EXPRESSION_END, r, y.expression + EXPRESSION_END, r');
    SameSplit(x.expression, EXPRESSION_END, y.expression, EXPRESSION_END);
  }

  lemma SameSplit(a: string, b: string, c: string, d: string)
    requires a + b == c + d && |a| == |c|
    ensures a == c && b == d
  {
    assert a == (a + b)[..|a|] && c == (c + d)[..|c|];
    assert b == (a + b)[|a|..] && d == (c + d)[|c|..];
  }

  /** Two field texts whose names and expressions are read off the front. */
  lemma SameBase(a: string, x: Field, r: string, b: string, y: Field, r': string)
    requires FieldBase(a, x) + r == FieldBase(b, y) + r'
    ensures a == b && x.expression + EXPRESSION_END + r == y.expression + EXPRESSION_END + r'
  {
    var inner, inner' := x.expression + EXPRESSION_END + r, y.expression + EXPRESSION_END + r';
    var args, args' := ", coalesce(" + inner, ", coalesce(" + inner';
    BaseParts(a, x, r);
    BaseParts(b, y, r');
    SameSplit("to_tsvector(", Quoted(a) + args, "to_tsvector(", Quoted(b) + args');
    SameLiteral(a, args, b, args');
    SameSplit(", coalesce(", inner, ", coalesce(", inner');
  }

  lemma SameLiteral(a: string, r: string, b: string, r': string)
    requires Quoted(a) + r == Quoted(b) + r' && r != "" && r' != "" && r[0] != '\'' && r'[0] != '\''
    ensures a == b && r == r'
  {
    QuotedReadsBack(a, r);
    QuotedReadsBack(b, r');
  }

  lemma SameField(a: string, x: Field, r: string, b: string, y: Field, r': string)
    requires FieldText(a, x) + r == FieldText(b, y) + r' && FieldFollows(r) && FieldFollows(r')
    requires Unambiguous(x) && Unambiguous(y)
    ensures a == b && x == y && r == r'
  {
    assert (FieldText(a, x) + r)[0] == if x.weight == "" then 't' else 's';
    assert (FieldText(b, y) + r')[0] == if y.weight == "" then 't' else 's';
    if x.weight == "" {
      SameBase(a, x, r, b, y, r');
      SameExpression(x, r, y, r');
    } else {
      var close, close' := ")" + r, ")" + r';
      var tail, tail' := ", " + (Quoted(x.weight) + close), ", " + (Quoted(y.weight) + close');
      WeightParts(a, x, r);
      WeightParts(b, y, r');
      SameSplit("setweight(", FieldBase(a, x) + tail, "setweight(", FieldBase(b, y) + tail');
      SameBase(a, x, tail, b, y, tail');
      WeightPrints(x.weight, r);
      WeightPrints(y.weight, r');
      SameExpression(x, tail, y, tail');
      SameSplit(", ", Quoted(x.weight) + close, ", ", Quoted(y.weight) + close');
      SameLiteral(x.weight, close, y.weight, close');
      SameSplit(")", r, ")", r');
    }
  }

  /** What a document prints after its first field. */
  function AfterFirst(name: string, fields: seq<Field>): string
    requires fields != []
  {
    if |fields| == 1 then "" else " || " + DocumentText(name, fields[1..])
  }

  lemma FirstField(name: string, fields: seq<Field>)
    requires fields != []
    ensures DocumentText(name, fields) == FieldText(name, fields[0]) + AfterFirst(name, fields)
  {
    if |fields| > 1 { DocumentCons(name, fields); }
  }

  /** Documents without ambiguous expressions print alike exactly when they have the same fields under the same
      name. */
  lemma {:induction false} SameSqlSameDocument(a: string, f: seq<Field>, b: string, g: seq<Field>)
    requires f != [] && g != [] && AllUnambiguous(f) && AllUnambiguous(g)
    ensures DocumentText(a, f) == DocumentText(b, g) <==> a == b && f == g
    decreases |f|
  {
    if DocumentText(a, f) == DocumentText(b, g) {
      SameFirst(a, f, b, g);
      if |f| > 1 { SameSqlSameDocument(a, f[1..], b, g[1..]); }
      HeadTail(f);
      HeadTail(g);
    }
  }

  lemma SameFirst(a: string, f: seq<Field>, b: string, g: seq<Field>)
    requires f != [] && g != [] && AllUnambiguous(f) && AllUnambiguous(g)
    requires DocumentText(a, f) == DocumentText(b, g)
    ensures a == b && f[0] == g[0] && (|f| == 1 <==> |g| == 1)
    ensures |f| > 1 ==> DocumentText(a, f[1..]) == DocumentText(b, g[1..])
    ensures AllUnambiguous(f[1..]) && AllUnambiguous(g[1..])
  {
    FirstField(a, f);
    FirstField(b, g);
    SameField(a, f[0], AfterFirst(a, f), b, g[0], AfterFirst(b, g));
    if |f| > 1 { SameSplit(" || ", DocumentText(a, f[1..]), " || ", DocumentText(b, g[1..])); }
  }

  lemma HeadTail<T>(s: seq<T>)
    requires s != []
    ensures s == [s[0]] + s[1..]
  {
  }

  /** The one field that prints like two: its expression runs through the end of the first field. */
  function Fused(name: string, f: Field, g: Field): Field {
    var between := if f.weight == "" then " || " else ", '" + (Quoted(f.weight)[1..] + (")" + (" || " + "setweight(")));
    Field(f.expression + EXPRESSION_END + between + Opening(name) + g.expression, g.weight)
  }

  /** Without the condition the property fails for every pair of fields that are both weighted or both not: one
      field prints like the two. */
  lemma FusedPrintsAlike(name: string, f: Field, g: Field)
    requires f.weight == "" <==> g.weight == ""
    ensures DocumentText(name, [Fused(name, f, g)]) == DocumentText(name, [f, g])
    ensures !Unambiguous(Fused(name, f, g))
  {
    DocumentCons(name, [f, g]);
    assert [f, g][1..] == [g];
    if f.weight == "" {
      Glue(Opening(name), f.expression, EXPRESSION_END, " || ", g.expression);
    } else {
      FusedWeights(name, f, g);
    }
    FusedIsAmbiguous(name, f, g);
  }

  lemma FusedIsAmbiguous(name: string, f: Field, g: Field)
    requires f.weight == "" <==> g.weight == ""
    ensures !Unambiguous(Fused(name, f, g))
  {
    var h, c, i := Fused(name, f, g), Continuation(f), |f.expression|;
    assert h.expression[i..i + |c|] == c;
    assert OccursAt(h.expression, Continuation(h), i);
  }

  lemma Glue(open: string, e: string, close: string, between: string, g: string)
    ensures open + (e + close + between + open + g) + close == (open + e + close) + (between + (open + g + close))
  {
  }

  lemma FusedWeights(name: string, f: Field, g: Field)
    requires f.weight != "" && g.weight != ""
    ensures FieldText(name, Fused(name, f, g)) == FieldText(name, f) + (" || " + FieldText(name, g))
  {
    var q, s := Quoted(f.weight), "setweight(";
    var between := ", " + (q + (")" + (" || " + s)));
    assert ", '" + (q[1..] + (")" + (" || " + s))) == between by { assert q == "'" + q[1..]; }
    Glue(Opening(name), f.expression, EXPRESSION_END, between, g.expression);
    GlueWeights(s, FieldBase(name, f), q, FieldBase(name, g), Quoted(g.weight));
  }

  lemma GlueWeights(s: string, a: string, q: string, b: string, p: string)
    ensures s + (a + (", " + (q + (")" + (" || " + s))) + b)) + ", " + p + ")"
            == (s + a + ", " + q + ")") + (" || " + (s + b + ", " + p + ")"))
  {
    var tail := b + ", " + p + ")";
    assert s + (a + (", " + (q + (")" + (" || " + s))) + b)) + ", " + p + ")"
        == s + a + ", " + q + ")" + " || " + s + tail;
    assert s + b + ", " + p + ")" == s + tail;
  }

  lemma StartsOtherwise(s: string, n: string, j: int)
    requires n != "" && (0 <= j && j + |n| <= |s| ==> s[j] != n[0])
    ensures !OccursAt(s, n, j)
  {
    assert 0 <= j && j + |n| <= |s| ==> s[j..j + |n|][0] == s[j];
  }

  /** An expression with an end of its own is unambiguous, though the reader above does not recover it. */
  lemma CoalesceIsUnambiguous(weight: string)
    ensures Unambiguous(Field("lower(coalesce(title, ''))", weight)) && !Closed("lower(coalesce(title, ''))")
  {
    var head := "lower(coalesce(title";
    var e := head + EXPRESSION_END;
    assert e == "lower(coalesce(title, ''))" && ',' !in head;
    var c := Continuation(Field(e, weight));
    forall j ensures !OccursAt(e, c, j) {
      assert 0 <= j < |head| ==> e[j] == head[j] && head[j] in head;
      StartsOtherwise(e, c, j);
    }
    var short := e + EXPRESSION_END;
    assert short[|head|..|head| + 6] == EXPRESSION_END;
    assert OccursAt(short, EXPRESSION_END, |head|);
  }

  // ---------- examples ----------

  /** Texts without quotes stand between quotes as they are. */
  lemma PlainQueryPrints(q: Query)
    requires '\'' !in q.config.name && '\'' !in q.input
    ensures QueryText(q) ==
            (match q.mode
             case 1 => "phraseto_tsquery('"
             case 2 => "websearch_to_tsquery('"
             case 3 => "to_tsquery('"
             case _ => "plainto_tsquery('") + q.config.name + "', '" + q.input + "')"
  {
    PlainTextIsUnchanged(q.config.name);
    PlainTextIsUnchanged(q.input);
    var fn := QueryFunction(q.mode);
    PlainParts(fn, q.config.name, q.input);
    assert "phraseto_tsquery" + "('" == "phraseto_tsquery('";
    assert "websearch_to_tsquery" + "('" == "websearch_to_tsquery('";
    assert "to_tsquery" + "('" == "to_tsquery('" && "plainto_tsquery" + "('" == "plainto_tsquery('";
  }

  lemma PlainParts(fn: string, a: string, b: string)
    ensures fn + "(" + ("'" + a + "'") + ", " + ("'" + b + "'") + ")" == fn + "('" + a + "', '" + b + "')"
  {
  }

  lemma QuotedExample()
    ensures Quoted("it's") == "'it''s'"
  {
    ReplacedIsDoubled("it's", 0);
    assert "it's"[0..] == "it's" && "it's"[1..] == "t's" && "t's"[1..] == "'s" && "'s"[1..] == "s" && "s"[1..] == "";
    assert Doubled("s") == "s" && Doubled("'s") == "''s" && Doubled("t's") == "t''s" && Doubled("it's") == "it''s";
  }

  lemma OpeningExample()
    ensures Opening("simple") == "to_tsvector('simple', coalesce("
  {
    PlainTextIsUnchanged("simple");
    assert Quoted("simple") == "'simple'";
  }

  lemma WeightExample(base: string)
    ensures "setweight(" + base + ", " + Quoted("A") + ")" == "setweight(" + base + ", 'A')"
  {
    PlainTextIsUnchanged("A");
    assert Quoted("A") == "'A'";
    assert "setweight(" + base + ", " + "'A'" + ")" == "setweight(" + base + (", " + "'A'" + ")");
  }

  /** A weighted field and a plain one. */
  lemma DocumentExample()
    ensures DocumentText("simple", [Field("title", "A"), Field("body", "")])
            == "setweight(" + "to_tsvector('simple', coalesce(title, ''))" + ", 'A')"
               + (" || " + "to_tsvector('simple', coalesce(body, ''))")
  {
    var f, g := Field("title", "A"), Field("body", "");
    OpeningExample();
    WeightExample(FieldBase("simple", f));
    DocumentCons("simple", [f, g]);
    assert [f, g][1..] == [g] && DocumentText("simple", [g]) == FieldText("simple", g) by { SingleField("simple", g); }
    assert FieldBase("simple", f) == "to_tsvector('simple', coalesce(title, ''))";
    assert FieldBase("simple", g) == "to_tsvector('simple', coalesce(body, ''))";
  }

  lemma SingleField(name: string, f: Field)
    ensures DocumentText(name, [f]) == FieldText(name, f)
  {
  }
}
