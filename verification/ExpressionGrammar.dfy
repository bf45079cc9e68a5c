/** The documented expression grammar, and the proof that the scanning parser implements it. */
module ExpressionGrammar {
  import opened Wrappers
  import opened Expressions

  /** Sentences of the grammar. Parentheses are part of the tree, so that one theorem covers
      bare, fully parenthesised and redundantly parenthesised text. */
  datatype Syntax =
    | Empty
    | Test(field: Field, op: Comparison, value: string)
    | Member(field: Field, values: seq<string>)
    | Paren(inner: Syntax)
    | Conj(left: Syntax, right: Syntax)
    | Disj(left: Syntax, right: Syntax)

  function FieldText(f: Field): string {
    match f
    case HttpMethod => "http.method"
    case HttpHost => "http.host"
    case HttpPath => "http.path"
    case HttpHeader(name) => HEADER_PREFIX + name
    case NetProtocol => "net.protocol"
    case TlsSni => "tls.sni"
  }

  function OpText(op: Comparison): string {
    match op
    case Equal => " == "
    case NotEqual => " != "
    case Matches => " ~ "
  }

  function Quoted(v: string): string {
    "\"" + v + "\""
  }

  function Listed(vs: seq<string>): string {
    if vs == [] then []
    else if |vs| == 1 then Quoted(vs[0])
    else Quoted(vs[0]) + (", " + Listed(vs[1..]))
  }

  function Text(x: Syntax): string {
    match x
    case Empty => []
    case Test(f, op, v) => FieldText(f) + OpText(op) + Quoted(v)
    case Member(f, vs) => FieldText(f) + " in " + Listed(vs)
    case Paren(y) => "(" + Text(y) + ")"
    case Conj(l, r) => Text(l) + " && " + Text(r)
    case Disj(l, r) => Text(l) + " || " + Text(r)
  }

  /** A header name is looked up in lower case. */
  function Folded(f: Field): Field {
    if f.HttpHeader? then HttpHeader(Lower(f.name)) else f
  }

  /** What a sentence means. */
  function Meaning(x: Syntax): Expression {
    match x
    case Empty => True
    case Test(f, Equal, v) => Eq(Folded(f), v)
    case Test(f, NotEqual, v) => Ne(Folded(f), v)
    case Test(f, Matches, v) => Regex(Folded(f), v)
    case Member(f, vs) => In(Folded(f), vs)
    case Paren(y) => Meaning(y)
    case Conj(l, r) => And(Meaning(l), Meaning(r))
    case Disj(l, r) => Or(Meaning(l), Meaning(r))
  }

  // ---------------------------------------------------------------- well-formed sentences

  ghost predicate HasPair(s: string, a: char, b: char) {
    exists j :: 0 <= j < |s| - 1 && s[j] == a && s[j + 1] == b
  }

  /** Header names are ASCII and free of blanks, quotes, parentheses, '=' and '~'. */
  predicate NameChar(c: char) {
    IsAscii(c) && !IsSpace(c) && c != '"' && c != '(' && c != ')' && c != '=' && c != '~'
  }

  ghost predicate FieldOk(f: Field) {
    f.HttpHeader? ==> forall i :: 0 <= i < |f.name| ==> NameChar(f.name[i])
  }

  /** Parentheses pair up: starting d levels deep, s never closes more than was opened and ends at level 0. */
  predicate Nested(s: string, d: nat) {
    if s == [] then d == 0
    else if s[0] == '(' then Nested(s[1..], d + 1)
    else if s[0] == ')' then d > 0 && Nested(s[1..], d - 1)
    else Nested(s[1..], d)
  }

  ghost predicate ValueOk(v: string) {
    '"' !in v && Nested(v, 0)
  }

  /** The operator search looks inside quotes, in the order ==, !=, ~, in; a value must not
      contain an operator that is searched for before the one it belongs to. */
  ghost predicate TestOk(compiles: string -> bool, op: Comparison, v: string) {
    && ValueOk(v)
    && (op != Equal ==> !HasPair(v, '=', '='))
    && (op == Matches ==> !HasPair(v, '!', '=') && compiles(v))
  }

  ghost predicate MemberOk(v: string) {
    ValueOk(v) && ',' !in v && '~' !in v && !HasPair(v, '=', '=') && !HasPair(v, '!', '=')
  }

  predicate IsAtom(x: Syntax) {
    x.Test? || x.Member? || x.Paren?
  }

  /** && binds tighter than ||, and both nest to the right. */
  ghost predicate Sentence(compiles: string -> bool, x: Syntax) {
    match x
    case Empty => true
    case Test(f, op, v) => FieldOk(f) && TestOk(compiles, op, v)
    case Member(f, vs) => FieldOk(f) && vs != [] && forall i :: 0 <= i < |vs| ==> MemberOk(vs[i])
    case Paren(y) => Sentence(compiles, y)
    case Conj(l, r) => Sentence(compiles, l) && Sentence(compiles, r) && IsAtom(l) && (IsAtom(r) || r.Conj?)
    case Disj(l, r) => Sentence(compiles, l) && Sentence(compiles, r) && (IsAtom(l) || l.Conj?) && !r.Empty?
  }

  // ---------------------------------------------------------------- parts of a text

  lemma AtSplit(s: string, pos: nat, a: string, b: string)
    requires StartsAt(s, pos, a + b)
    ensures StartsAt(s, pos, a) && StartsAt(s, pos + |a|, b)
  {
    forall i | 0 <= i < |a|
      ensures s[pos + i] == a[i]
    {
      assert (a + b)[i] == a[i];
    }
    forall i | 0 <= i < |b|
      ensures s[pos + |a| + i] == b[i]
    {
      assert (a + b)[|a| + i] == b[i];
    }
  }

  lemma FieldTextChars(f: Field)
    requires FieldOk(f)
    ensures var t := FieldText(f);
            t != [] && t[0] in "hnt" && forall i :: 0 <= i < |t| ==> NameChar(t[i])
  {
  }

  // ---------------------------------------------------------------- what the operator scan passes over

  /** Inside parentheses only parentheses count; balanced text is passed over. */
  lemma {:induction false} SkipsNested(input: string, op: string, lo: nat, t: string, base: nat, d: nat)
    requires StartsAt(input, lo, t) && Nested(t, d) && base >= 1
    ensures FindOp(input, op, lo, base + d, false) == FindOp(input, op, lo + |t|, base, false)
    decreases |t|
  {
    if t != [] {
      assert input[lo + 0] == t[0];
      assert StartsAt(input, lo + 1, t[1..]) by {
        AtSplit(input, lo, [t[0]], t[1..]);
      }
      var d' := if t[0] == '(' then d + 1 else if t[0] == ')' then d - 1 else d;
      SkipsNested(input, op, lo + 1, t[1..], base, d');
    }
  }

  /** Inside quotes nothing counts until the closing quote. */
  lemma {:induction false} SkipsQuoted(input: string, op: string, lo: nat, v: string)
    requires StartsAt(input, lo, v) && '"' !in v
    ensures FindOp(input, op, lo, 0, true) == FindOp(input, op, lo + |v|, 0, true)
    decreases |v|
  {
    if v != [] {
      assert input[lo + 0] == v[0];
      AtSplit(input, lo, [v[0]], v[1..]);
      SkipsQuoted(input, op, lo + 1, v[1..]);
    }
  }

  predicate Plain(c: char) {
    IsAscii(c) && c != '"' && c != '(' && c != ')'
  }

  /** Outside both, text without quotes, parentheses and hits is passed over. */
  lemma {:induction false} SkipsPlain(input: string, op: string, lo: nat, hi: nat)
    requires lo <= hi <= |input|
    requires forall i :: lo <= i < hi ==> Plain(input[i]) && !Hit(input, op, i)
    ensures FindOp(input, op, lo, 0, false) == FindOp(input, op, hi, 0, false)
    decreases hi - lo
  {
    if lo < hi {
      SkipsPlain(input, op, lo + 1, hi);
    }
  }

  ghost predicate Operator(op: string) {
    op == "||" || op == "&&"
  }

  lemma SkipsQuotation(input: string, op: string, lo: nat, v: string)
    requires StartsAt(input, lo, Quoted(v)) && '"' !in v
    ensures FindOp(input, op, lo, 0, false) == FindOp(input, op, lo + |v| + 2, 0, false)
  {
    AtSplit(input, lo, "\"" + v, "\"");
    AtSplit(input, lo, "\"", v);
    assert input[lo + 0] == "\""[0] && input[lo + 1 + |v| + 0] == "\""[0];
    SkipsQuoted(input, op, lo + 1, v);
  }

  /** A blank-separated connective other than op. */
  lemma SkipsBlankOp(input: string, op: string, lo: nat, t: string)
    requires Operator(op) && StartsAt(input, lo, t)
    requires forall i :: 0 <= i < |t| ==> t[i] != op[0] && Plain(t[i])
    ensures FindOp(input, op, lo, 0, false) == FindOp(input, op, lo + |t|, 0, false)
  {
    forall i | lo <= i < lo + |t|
      ensures Plain(input[i]) && !Hit(input, op, i)
    {
      assert input[lo + (i - lo)] == t[i - lo];
      NoHitWithout(input, op, i);
    }
    SkipsPlain(input, op, lo, lo + |t|);
  }

  lemma NoHitWithout(input: string, op: string, i: nat)
    requires Operator(op) && i < |input| && input[i] != op[0]
    ensures !Hit(input, op, i)
  {
    assert StartsAt(input, i, op) ==> input[i + 0] == op[0];
  }

  lemma SkipsField(input: string, op: string, lo: nat, f: Field)
    requires Operator(op) && FieldOk(f) && StartsAt(input, lo, FieldText(f))
    ensures FindOp(input, op, lo, 0, false) == FindOp(input, op, lo + |FieldText(f)|, 0, false)
  {
    var t := FieldText(f);
    FieldTextChars(f);
    forall i | lo <= i < lo + |t|
      ensures Plain(input[i]) && !Hit(input, op, i)
    {
      assert input[lo + (i - lo)] == t[i - lo] && NameChar(t[i - lo]);
      if i == lo {
        NoHitWithout(input, op, i);
      } else {
        assert input[lo + (i - 1 - lo)] == t[i - 1 - lo] && NameChar(t[i - 1 - lo]);
      }
    }
    SkipsPlain(input, op, lo, lo + |t|);
  }

  lemma {:induction false} SkipsListed(input: string, op: string, lo: nat, vs: seq<string>)
    requires Operator(op) && StartsAt(input, lo, Listed(vs))
    requires forall i :: 0 <= i < |vs| ==> '"' !in vs[i]
    ensures FindOp(input, op, lo, 0, false) == FindOp(input, op, lo + |Listed(vs)|, 0, false)
    decreases |vs|
  {
    if |vs| == 1 {
      SkipsQuotation(input, op, lo, vs[0]);
    } else if |vs| > 1 {
      var q := Quoted(vs[0]);
      AtSplit(input, lo, q, ", " + Listed(vs[1..]));
      AtSplit(input, lo + |q|, ", ", Listed(vs[1..]));
      SkipsQuotation(input, op, lo, vs[0]);
      SkipsBlankOp(input, op, lo + |q|, ", ");
      SkipsListed(input, op, lo + |q| + 2, vs[1..]);
    }
  }

  // ---------------------------------------------------------------- every text is balanced

  lemma {:induction false} NestedConcat(a: string, b: string, d: nat)
    requires Nested(a, d) && Nested(b, 0)
    ensures Nested(a + b, d)
    decreases |a|
  {
    if a == [] {
      assert a + b == b;
    } else {
      assert (a + b)[1..] == a[1..] + b;
      NestedConcat(a[1..], b, if a[0] == '(' then d + 1 else if a[0] == ')' then d - 1 else d);
    }
  }

  lemma {:induction false} NestedPlain(s: string)
    requires forall i :: 0 <= i < |s| ==> s[i] != '(' && s[i] != ')'
    ensures Nested(s, 0)
  {
    if s != [] {
      NestedPlain(s[1..]);
    }
  }

  lemma {:induction false} NestedParen(t: string, d: nat)
    requires Nested(t, d)
    ensures Nested(t + ")", d + 1)
    decreases |t|
  {
    if t == [] {
      assert (t + ")")[1..] == [];
    } else {
      assert (t + ")")[1..] == t[1..] + ")";
      NestedParen(t[1..], if t[0] == '(' then d + 1 else if t[0] == ')' then d - 1 else d);
    }
  }

  lemma NestedQuoted(v: string)
    requires Nested(v, 0)
    ensures Nested(Quoted(v), 0)
  {
    NestedPlain("\"");
    NestedConcat("\"", v, 0);
    NestedConcat("\"" + v, "\"", 0);
  }

  lemma {:induction false} NestedListed(vs: seq<string>)
    requires forall i :: 0 <= i < |vs| ==> Nested(vs[i], 0)
    ensures Nested(Listed(vs), 0)
  {
    if |vs| >= 1 {
      NestedQuoted(vs[0]);
    }
    if |vs| > 1 {
      NestedListed(vs[1..]);
      NestedPlain(", ");
      NestedConcat(", ", Listed(vs[1..]), 0);
      NestedConcat(Quoted(vs[0]), ", " + Listed(vs[1..]), 0);
    }
  }

  lemma NestedField(f: Field)
    requires FieldOk(f)
    ensures Nested(FieldText(f), 0)
  {
    FieldTextChars(f);
    NestedPlain(FieldText(f));
  }

  lemma Nested3(a: string, b: string, c: string)
    requires Nested(a, 0) && Nested(c, 0)
    requires forall i :: 0 <= i < |b| ==> b[i] != '(' && b[i] != ')'
    ensures Nested(a + b + c, 0)
  {
    NestedPlain(b);
    NestedConcat(a, b, 0);
    NestedConcat(a + b, c, 0);
  }

  lemma {:induction false} NestedText(compiles: string -> bool, x: Syntax)
    requires Sentence(compiles, x)
    ensures Nested(Text(x), 0)
  {
    match x
    case Empty =>
    case Test(f, op, v) =>
      NestedField(f);
      NestedQuoted(v);
      Nested3(FieldText(f), OpText(op), Quoted(v));
    case Member(f, vs) =>
      NestedField(f);
      NestedListed(vs);
      Nested3(FieldText(f), " in ", Listed(vs));
    case Paren(y) =>
      NestedText(compiles, y);
      NestedParen(Text(y), 0);
      assert Text(x) == "(" + (Text(y) + ")");
    case Conj(l, r) =>
      NestedText(compiles, l);
      NestedText(compiles, r);
      Nested3(Text(l), " && ", Text(r));
    case Disj(l, r) =>
      NestedText(compiles, l);
      NestedText(compiles, r);
      Nested3(Text(l), " || ", Text(r));
  }

  // ---------------------------------------------------------------- scanning a sentence

  lemma SkipsTest(input: string, op: string, lo: nat, f: Field, o: Comparison, v: string)
    requires Operator(op) && FieldOk(f) && '"' !in v && StartsAt(input, lo, FieldText(f) + OpText(o) + Quoted(v))
    ensures FindOp(input, op, lo, 0, false) == FindOp(input, op, lo + |FieldText(f) + OpText(o) + Quoted(v)|, 0, false)
  {
    var t := FieldText(f);
    AtSplit(input, lo, t + OpText(o), Quoted(v));
    AtSplit(input, lo, t, OpText(o));
    SkipsField(input, op, lo, f);
    SkipsBlankOp(input, op, lo + |t|, OpText(o));
    SkipsQuotation(input, op, lo + |t| + |OpText(o)|, v);
  }

  lemma SkipsMember(input: string, op: string, lo: nat, f: Field, vs: seq<string>)
    requires Operator(op) && FieldOk(f) && StartsAt(input, lo, FieldText(f) + " in " + Listed(vs))
    requires forall i :: 0 <= i < |vs| ==> '"' !in vs[i]
    ensures FindOp(input, op, lo, 0, false) == FindOp(input, op, lo + |FieldText(f) + " in " + Listed(vs)|, 0, false)
  {
    var t := FieldText(f);
    AtSplit(input, lo, t + " in ", Listed(vs));
    AtSplit(input, lo, t, " in ");
    SkipsField(input, op, lo, f);
    SkipsBlankOp(input, op, lo + |t|, " in ");
    SkipsListed(input, op, lo + |t| + 4, vs);
  }

  lemma SkipsParen(input: string, op: string, lo: nat, t: string)
    requires StartsAt(input, lo, "(" + t + ")") && Nested(t, 0)
    ensures FindOp(input, op, lo, 0, false) == FindOp(input, op, lo + |"(" + t + ")"|, 0, false)
  {
    AtSplit(input, lo, "(" + t, ")");
    AtSplit(input, lo, "(", t);
    assert input[lo + 0] == "("[0] && input[lo + 1 + |t| + 0] == ")"[0];
    SkipsNested(input, op, lo + 1, t, 1, 0);
  }

  lemma SkipsAtom(compiles: string -> bool, input: string, op: string, lo: nat, x: Syntax)
    requires Operator(op) && IsAtom(x) && Sentence(compiles, x) && StartsAt(input, lo, Text(x))
    ensures FindOp(input, op, lo, 0, false) == FindOp(input, op, lo + |Text(x)|, 0, false)
  {
    match x
    case Test(f, o, v) =>
      SkipsTest(input, op, lo, f, o, v);
    case Member(f, vs) =>
      SkipsMember(input, op, lo, f, vs);
    case Paren(y) =>
      NestedText(compiles, y);
      SkipsParen(input, op, lo, Text(y));
  }

  /** The || scan passes over a whole conjunction. */
  lemma {:induction false} SkipsConj(compiles: string -> bool, input: string, lo: nat, x: Syntax, hi: nat)
    requires (IsAtom(x) || x.Conj?) && Sentence(compiles, x) && StartsAt(input, lo, Text(x)) && hi == lo + |Text(x)|
    ensures FindOp(input, "||", lo, 0, false) == FindOp(input, "||", hi, 0, false)
    decreases x
  {
    if x.Conj? {
      var l, r := Text(x.left), Text(x.right);
      AtSplit(input, lo, l + " && ", r);
      AtSplit(input, lo, l, " && ");
      SkipsAtom(compiles, input, "||", lo, x.left);
      SkipsBlankOp(input, "||", lo + |l|, " && ");
      SkipsConj(compiles, input, lo + |l| + 4, x.right, hi);
    } else {
      SkipsAtom(compiles, input, "||", lo, x);
    }
  }

  ghost predicate Between(mid: string, op: string) {
    Operator(op) && |mid| == 4 && mid[0] == ' ' && mid[1] == op[0] && mid[2] == op[1] && mid[3] == ' '
  }

  /** A connective between blanks is found. */
  lemma FindsConnective(input: string, op: string, mid: string, lo: nat)
    requires Between(mid, op) && StartsAt(input, lo, mid)
    ensures FindOp(input, op, lo, 0, false) == Found(lo + 1)
  {
    assert input[lo + 0] == mid[0] && input[lo + 1] == mid[1] && input[lo + 2] == mid[2] && input[lo + 3] == mid[3];
    NoHitWithout(input, op, lo);
    assert Hit(input, op, lo + 1);
  }

  // ---------------------------------------------------------------- trimming

  ghost predicate Solid(s: string) {
    s != [] && !IsSpace(s[0]) && !IsSpace(s[|s| - 1])
  }

  lemma TrimSolid(s: string)
    requires s == [] || Solid(s)
    ensures Trim(s) == s
  {
  }

  lemma TrimAfter(s: string)
    requires Solid(s)
    ensures Trim(s + " ") == s
  {
    assert (s + " ")[0] == s[0];
    assert TrimStart(s + " ") == s + " ";
    assert (s + " ")[..|s + " "| - 1] == s;
    assert TrimEnd(s + " ") == TrimEnd(s);
  }

  lemma TrimBefore(s: string)
    requires Solid(s)
    ensures Trim(" " + s) == s
  {
    assert (" " + s)[1..] == s;
    assert TrimStart(" " + s) == s;
  }

  lemma {:induction false} SolidListed(vs: seq<string>)
    requires vs != []
    ensures Solid(Listed(vs))
  {
    if |vs| > 1 {
      SolidListed(vs[1..]);
    }
  }

  lemma {:induction false} SolidText(compiles: string -> bool, x: Syntax)
    requires Sentence(compiles, x) && !x.Empty?
    ensures Solid(Text(x))
    ensures IsAtom(x) && !x.Paren? ==> Text(x)[0] != '('
  {
    match x
    case Test(f, op, v) =>
      FieldTextChars(f);
    case Member(f, vs) =>
      FieldTextChars(f);
      SolidListed(vs);
    case Paren(y) =>
    case Conj(l, r) =>
      SolidText(compiles, l);
      SolidText(compiles, r);
    case Disj(l, r) =>
      SolidText(compiles, l);
      SolidText(compiles, r);
  }

  // ---------------------------------------------------------------- comparisons

  lemma FindIs(s: string, needle: string, k: nat)
    requires StartsAt(s, k, needle)
    requires forall j :: 0 <= j < k ==> !StartsAt(s, j, needle)
    ensures Find(s, needle, 0) == Some(k)
  {
    FindIsFirst(s, needle, 0);
  }

  lemma ParsesField(f: Field, padding: string)
    requires FieldOk(f) && (padding == "" || padding == " ")
    ensures ParseField(FieldText(f) + padding) == Some(Folded(f))
  {
    var t := FieldText(f);
    FieldTextChars(f);
    if padding == "" {
      assert t + padding == t;
      TrimSolid(t);
    } else {
      TrimAfter(t);
    }
    if f.HttpHeader? {
      assert t[..|HEADER_PREFIX|] == HEADER_PREFIX && t[|HEADER_PREFIX|..] == f.name;
      assert t[5] == 'h' && t[7] == 'a' && t[|HEADER_PREFIX| - 1] == '.';
    }
  }

  lemma StripsQuoted(v: string)
    ensures StripQuotes(Trim(Quoted(v))) == Some(v)
    ensures StripQuotes(Trim(" " + Quoted(v))) == Some(v)
  {
    var q := Quoted(v);
    TrimSolid(q);
    TrimBefore(q);
    assert q[1..|q| - 1] == v;
  }

  lemma NoPairConcat(x: string, y: string, a: char, b: char)
    requires !HasPair(x, a, b) && !HasPair(y, a, b)
    requires x == [] || y == [] || x[|x| - 1] != a || y[0] != b
    ensures !HasPair(x + y, a, b)
  {
    var s := x + y;
    if HasPair(s, a, b) {
      var j :| 0 <= j < |s| - 1 && s[j] == a && s[j + 1] == b;
      if j + 1 < |x| {
        assert x[j] == a && x[j + 1] == b;
      } else if j >= |x| {
        assert y[j - |x|] == a && y[j - |x| + 1] == b;
      }
    }
  }

  lemma PairIsOccurrence(s: string, a: char, b: char)
    ensures Find(s, [a, b], 0).None? <==> !HasPair(s, a, b)
  {
    FindIsFirst(s, [a, b], 0);
    if HasPair(s, a, b) {
      var j :| 0 <= j < |s| - 1 && s[j] == a && s[j + 1] == b;
      assert StartsAt(s, j, [a, b]);
    }
    var r := Find(s, [a, b], 0);
    if r.Some? {
      assert s[r.value + 0] == [a, b][0] && s[r.value + 1] == [a, b][1];
    }
  }

  lemma FieldNoPair(f: Field, a: char)
    requires FieldOk(f)
    ensures !HasPair(FieldText(f), a, '=')
  {
    FieldTextChars(f);
    if HasPair(FieldText(f), a, '=') {
      var j :| 0 <= j < |FieldText(f)| - 1 && FieldText(f)[j] == a && FieldText(f)[j + 1] == '=';
      assert NameChar(FieldText(f)[j + 1]);
    }
  }

  lemma QuotedNoPair(v: string, a: char)
    requires !HasPair(v, a, '=') && a != '"'
    ensures !HasPair(Quoted(v), a, '=')
  {
    NoPairConcat("\"", v, a, '=');
    NoPairConcat("\"" + v, "\"", a, '=');
  }

  /** No a= occurs in field, connective and quoted rest when it occurs in none of them. */
  lemma NoPairInTest(f: Field, t: string, mid: string, rest: string, s: string, a: char)
    requires FieldOk(f) && t == FieldText(f) && s == t + mid + rest
    requires a != ' ' && mid != [] && mid[0] == ' ' && mid[|mid| - 1] == ' '
    requires !HasPair(mid, a, '=') && !HasPair(rest, a, '=')
    ensures Find(s, [a, '='], 0).None?
  {
    FieldNoPair(f, a);
    NoPairConcat(t, mid, a, '=');
    NoPairConcat(t + mid, rest, a, '=');
    PairIsOccurrence(s, a, '=');
  }

  /** The connective of a test is where the search first finds it. */
  lemma FindsInTest(f: Field, mid: string, rest: string, s: string, needle: string, k: nat, at: nat)
    requires at == |FieldText(f)| + k
    requires FieldOk(f) && s == FieldText(f) + mid + rest
    requires |needle| >= 1 && StartsAt(mid, k, needle) && needle[0] in "=! ~"
    requires forall i :: 0 <= i < k ==> mid[i] != needle[0]
    requires needle[0] == '!' ==> |needle| >= 2 && needle[1] == '=' && mid[0] == ' '
    ensures Find(s, needle, 0) == Some(at)
  {
    var t := FieldText(f);
    FieldTextChars(f);
    forall j | 0 <= j < |needle|
      ensures s[|t| + k + j] == needle[j]
    {
      assert s[|t| + (k + j)] == mid[k + j];
    }
    forall j | 0 <= j < |t| + k
      ensures !StartsAt(s, j, needle)
    {
      if StartsAt(s, j, needle) {
        assert s[j + 0] == needle[0];
        if j < |t| {
          assert s[j] == t[j] && NameChar(t[j]);
          if needle[0] == '!' {
            assert s[j + 1] == needle[1];
            assert s[j + 1] == if j + 1 < |t| then t[j + 1] else mid[0];
            assert j + 1 < |t| ==> NameChar(t[j + 1]);
          }
        } else {
          assert s[j] == mid[j - |t|];
        }
      }
    }
    FindIs(s, needle, |t| + k);
  }

  /** Field and value, as the parser cuts them out around the connective. */
  lemma CutsText(t: string, mid: string, q: string, s: string)
    requires s == t + mid + q && |mid| >= 2 && mid[0] == ' ' && mid[|mid| - 1] == ' '
    ensures s[..|t| + 1] == t + " " && s[|t| + |mid| - 1..] == " " + q
  {
  }

  lemma CutsTest(compiles: string -> bool, f: Field, op: Comparison, v: string, field: string, value: string)
    requires FieldOk(f) && field == FieldText(f) + " " && value == " " + Quoted(v)
    requires op == Matches ==> compiles(v)
    ensures ParseValueTest(compiles, op, field, value) == Parsed(Meaning(Test(f, op, v)))
  {
    ParsesField(f, " ");
    StripsQuoted(v);
  }

  // Which branch of ParseComparison is taken, given what the searches find.

  lemma PicksEqual(compiles: string -> bool, s: string, p: nat)
    requires Trim(s) == s && Find(s, "==", 0) == Some(p)
    ensures p + 2 <= |s|
    ensures ParseComparison(compiles, s) == ParseValueTest(compiles, Equal, s[..p], s[p + 2..])
  {
  }

  lemma PicksNotEqual(compiles: string -> bool, s: string, p: nat)
    requires Trim(s) == s && Find(s, "==", 0).None? && Find(s, "!=", 0) == Some(p)
    ensures p + 2 <= |s|
    ensures ParseComparison(compiles, s) == ParseValueTest(compiles, NotEqual, s[..p], s[p + 2..])
  {
  }

  lemma PicksMatches(compiles: string -> bool, s: string, p: nat)
    requires Trim(s) == s && Find(s, "==", 0).None? && Find(s, "!=", 0).None? && Find(s, "~", 0) == Some(p)
    requires 0 < p < |s| - 1 && !PartOfOther(s, p)
    ensures ParseComparison(compiles, s) == ParseValueTest(compiles, Matches, s[..p], s[p + 1..])
  {
  }

  lemma PicksMember(compiles: string -> bool, s: string, p: nat)
    requires Trim(s) == s && Find(s, "==", 0).None? && Find(s, "!=", 0).None?
    requires Find(s, "~", 0).None? || PartOfOther(s, Find(s, "~", 0).value)
    requires Find(s, " in ", 0) == Some(p)
    ensures p + 4 <= |s|
    ensures ParseComparison(compiles, s) == ParseListTest(false, s[..p], s[p + 4..])
  {
  }

  lemma EqualCut(compiles: string -> bool, f: Field, t: string, v: string, s: string, p: nat)
    requires FieldOk(f) && t == FieldText(f) && s == t + " == " + Quoted(v) && p == |t| + 1
    ensures p + 2 <= |s| && ParseValueTest(compiles, Equal, s[..p], s[p + 2..]) == Parsed(Eq(Folded(f), v))
  {
    CutsText(t, " == ", Quoted(v), s);
    CutsTest(compiles, f, Equal, v, s[..p], s[p + 2..]);
  }

  lemma ParsesEqual(compiles: string -> bool, f: Field, v: string, s: string)
    requires FieldOk(f) && s == FieldText(f) + " == " + Quoted(v) && Trim(s) == s
    ensures ParseComparison(compiles, s) == Parsed(Eq(Folded(f), v))
  {
    var t := FieldText(f);
    FindsInTest(f, " == ", Quoted(v), s, "==", 1, |t| + 1);
    PicksEqual(compiles, s, |t| + 1);
    EqualCut(compiles, f, t, v, s, |t| + 1);
  }

  lemma NotEqualFinds(f: Field, t: string, v: string, s: string)
    requires FieldOk(f) && t == FieldText(f) && s == t + " != " + Quoted(v) && !HasPair(v, '=', '=')
    ensures Find(s, ['=', '='], 0).None? && Find(s, "!=", 0) == Some(|t| + 1)
  {
    QuotedNoPair(v, '=');
    NoPairInTest(f, t, " != ", Quoted(v), s, '=');
    FindsInTest(f, " != ", Quoted(v), s, "!=", 1, |t| + 1);
  }

  lemma NotEqualCut(compiles: string -> bool, f: Field, t: string, v: string, s: string, p: nat)
    requires FieldOk(f) && t == FieldText(f) && s == t + " != " + Quoted(v) && p == |t| + 1
    ensures p + 2 <= |s| && ParseValueTest(compiles, NotEqual, s[..p], s[p + 2..]) == Parsed(Ne(Folded(f), v))
  {
    CutsText(t, " != ", Quoted(v), s);
    CutsTest(compiles, f, NotEqual, v, s[..p], s[p + 2..]);
  }

  lemma ParsesNotEqual(compiles: string -> bool, f: Field, v: string, s: string)
    requires FieldOk(f) && s == FieldText(f) + " != " + Quoted(v) && Trim(s) == s && !HasPair(v, '=', '=')
    ensures ParseComparison(compiles, s) == Parsed(Ne(Folded(f), v))
  {
    var t := FieldText(f);
    assert "==" == ['=', '='];
    NotEqualFinds(f, t, v, s);
    PicksNotEqual(compiles, s, |t| + 1);
    NotEqualCut(compiles, f, t, v, s, |t| + 1);
  }

  /** Neither == nor != is found in a match test. */
  lemma MatchesNoPair(f: Field, t: string, v: string, s: string, a: char)
    requires FieldOk(f) && t == FieldText(f) && s == t + " ~ " + Quoted(v)
    requires (a == '=' || a == '!') && !HasPair(v, a, '=')
    ensures Find(s, [a, '='], 0).None?
  {
    QuotedNoPair(v, a);
    NoPairInTest(f, t, " ~ ", Quoted(v), s, a);
  }

  lemma MatchesCut(compiles: string -> bool, f: Field, t: string, v: string, s: string, p: nat)
    requires FieldOk(f) && t == FieldText(f) && s == t + " ~ " + Quoted(v) && p == |t| + 1 && compiles(v)
    ensures 0 < p < |s| - 1 && !PartOfOther(s, p)
    ensures ParseValueTest(compiles, Matches, s[..p], s[p + 1..]) == Parsed(Regex(Folded(f), v))
  {
    assert s[p - 1] == ' ' && s[p + 1] == ' ';
    CutsText(t, " ~ ", Quoted(v), s);
    CutsTest(compiles, f, Matches, v, s[..p], s[p + 1..]);
  }

  lemma ParsesMatches(compiles: string -> bool, f: Field, v: string, s: string)
    requires FieldOk(f) && s == FieldText(f) + " ~ " + Quoted(v) && Trim(s) == s
    requires !HasPair(v, '=', '=') && !HasPair(v, '!', '=') && compiles(v)
    ensures ParseComparison(compiles, s) == Parsed(Regex(Folded(f), v))
  {
    var t := FieldText(f);
    assert "==" == ['=', '='] && "!=" == ['!', '='];
    MatchesNoPair(f, t, v, s, '=');
    MatchesNoPair(f, t, v, s, '!');
    FindsInTest(f, " ~ ", Quoted(v), s, "~", 1, |t| + 1);
    MatchesCut(compiles, f, t, v, s, |t| + 1);
    PicksMatches(compiles, s, |t| + 1);
  }

  lemma ParsesTest(compiles: string -> bool, f: Field, op: Comparison, v: string)
    requires FieldOk(f) && TestOk(compiles, op, v)
    ensures ParseComparison(compiles, Text(Test(f, op, v))) == Parsed(Meaning(Test(f, op, v)))
  {
    var s := Text(Test(f, op, v));
    SolidText(compiles, Test(f, op, v));
    TrimSolid(s);
    match op
    case Equal => ParsesEqual(compiles, f, v, s);
    case NotEqual => ParsesNotEqual(compiles, f, v, s);
    case Matches => ParsesMatches(compiles, f, v, s);
  }

  lemma {:induction false} SplitsAt(a: string, b: string)
    requires ',' !in a
    ensures Split(a + "," + b, ',') == [a] + Split(b, ',')
    decreases |a|
  {
    var s := a + "," + b;
    if a == [] {
      assert s[1..] == b;
    } else {
      assert s[1..] == a[1..] + "," + b;
      SplitsAt(a[1..], b);
      assert [s[0]] + a[1..] == a;
    }
  }

  lemma {:induction false} SplitsNot(a: string)
    requires ',' !in a
    ensures Split(a, ',') == [a]
  {
    if a != [] {
      SplitsNot(a[1..]);
      assert [a[0]] + a[1..] == a;
    }
  }

  lemma StripsFirst(q: string, v: string, rest: string, vs: seq<string>)
    requires ',' !in q && StripQuotes(Trim(q)) == Some(v) && StripAll(Split(rest, ',')) == Some(vs)
    ensures StripAll(Split(q + "," + rest, ',')) == Some([v] + vs)
  {
    SplitsAt(q, rest);
    assert ([q] + Split(rest, ','))[1..] == Split(rest, ',');
  }

  lemma StripsOnly(q: string, v: string)
    requires ',' !in q && StripQuotes(Trim(q)) == Some(v)
    ensures StripAll(Split(q, ',')) == Some([v])
  {
    SplitsNot(q);
    assert [q][1..] == [] && [v] + [] == [v];
    assert StripAll([q][1..]) == Some([]);
  }

  lemma PaddedQuoted(padding: string, v: string)
    requires (padding == "" || padding == " ") && ',' !in v
    ensures StripQuotes(Trim(padding + Quoted(v))) == Some(v) && ',' !in padding + Quoted(v)
  {
    StripsQuoted(v);
    QuotedWithout(v, ',');
    if padding == "" {
      assert padding + Quoted(v) == Quoted(v);
    } else {
      assert padding + Quoted(v) == " " + Quoted(v);
      assert ',' !in " ";
    }
  }

  lemma QuotedWithout(v: string, c: char)
    requires c !in v && c != '"'
    ensures c !in Quoted(v)
  {
  }

  lemma ListedStep(vs: seq<string>, padding: string)
    requires |vs| > 1
    ensures padding + Listed(vs) == padding + Quoted(vs[0]) + "," + (" " + Listed(vs[1..]))
  {
    Regroup(padding, Quoted(vs[0]), Listed(vs[1..]));
  }

  lemma Regroup(a: string, b: string, c: string)
    ensures a + (b + (", " + c)) == a + b + "," + (" " + c)
  {
    assert ", " + c == "," + (" " + c);
  }

  /** The list behind "in" comes back element by element. */
  lemma {:induction false} SplitsListed(vs: seq<string>, padding: string)
    requires vs != [] && (forall i :: 0 <= i < |vs| ==> ',' !in vs[i])
    requires padding == "" || padding == " "
    ensures StripAll(Split(padding + Listed(vs), ',')) == Some(vs)
    decreases |vs|
  {
    PaddedQuoted(padding, vs[0]);
    if |vs| == 1 {
      StripsOnly(padding + Quoted(vs[0]), vs[0]);
      assert vs == [vs[0]];
    } else {
      SplitsListed(vs[1..], " ");
      SplitsMore(vs, padding, vs[1..]);
    }
  }

  lemma SplitsMore(vs: seq<string>, padding: string, later: seq<string>)
    requires |vs| > 1 && later == vs[1..] && ',' !in padding + Quoted(vs[0])
    requires StripQuotes(Trim(padding + Quoted(vs[0]))) == Some(vs[0])
    requires StripAll(Split(" " + Listed(later), ',')) == Some(later)
    ensures StripAll(Split(padding + Listed(vs), ',')) == Some(vs)
  {
    StripsFirst(padding + Quoted(vs[0]), vs[0], " " + Listed(later), later);
    ListedStep(vs, padding);
    assert vs == [vs[0]] + later;
  }

  lemma {:induction false} ListedNoPair(vs: seq<string>, a: char)
    requires a == '=' || a == '!'
    requires forall i :: 0 <= i < |vs| ==> !HasPair(vs[i], a, '=')
    ensures !HasPair(Listed(vs), a, '=')
  {
    if |vs| >= 1 {
      QuotedNoPair(vs[0], a);
    }
    if |vs| > 1 {
      ListedNoPair(vs[1..], a);
      NoPairConcat(", ", Listed(vs[1..]), a, '=');
      NoPairConcat(Quoted(vs[0]), ", " + Listed(vs[1..]), a, '=');
    }
  }

  lemma {:induction false} ListedNoTilde(vs: seq<string>)
    requires forall i :: 0 <= i < |vs| ==> '~' !in vs[i]
    ensures '~' !in Listed(vs)
  {
    if |vs| > 1 {
      ListedNoTilde(vs[1..]);
    }
  }

  lemma NoTilde(s: string)
    requires '~' !in s
    ensures Find(s, "~", 0).None?
  {
    var r := Find(s, "~", 0);
    if r.Some? {
      assert s[r.value + 0] == "~"[0];
    }
  }

  lemma MemberNoTilde(f: Field, vs: seq<string>, s: string)
    requires FieldOk(f) && s == FieldText(f) + " in " + Listed(vs)
    requires forall i :: 0 <= i < |vs| ==> '~' !in vs[i]
    ensures Find(s, "~", 0).None?
  {
    FieldTextChars(f);
    ListedNoTilde(vs);
    NoTilde(s);
  }

  lemma MemberNoPair(f: Field, vs: seq<string>, s: string, a: char)
    requires FieldOk(f) && s == FieldText(f) + " in " + Listed(vs) && (a == '=' || a == '!')
    requires forall i :: 0 <= i < |vs| ==> !HasPair(vs[i], a, '=')
    ensures Find(s, [a, '='], 0).None?
  {
    ListedNoPair(vs, a);
    NoPairInTest(f, FieldText(f), " in ", Listed(vs), s, a);
  }

  lemma FindsIn(f: Field, list: string, s: string)
    requires FieldOk(f) && s == FieldText(f) + " in " + list
    ensures Find(s, " in ", 0) == Some(|FieldText(f)|)
  {
    FindsInTest(f, " in ", list, s, " in ", 0, |FieldText(f)|);
  }

  /** In a membership test none of ==, != and ~ is found, and the first " in " is the connective. */
  lemma FindsMember(f: Field, vs: seq<string>, s: string)
    requires FieldOk(f) && s == FieldText(f) + " in " + Listed(vs)
    requires forall i :: 0 <= i < |vs| ==> MemberOk(vs[i])
    ensures Find(s, "==", 0).None? && Find(s, "!=", 0).None? && Find(s, "~", 0).None?
    ensures Find(s, " in ", 0) == Some(|FieldText(f)|)
  {
    assert Find(s, "==", 0).None? by {
      assert "==" == ['=', '='];
      MemberNoPair(f, vs, s, '=');
    }
    assert Find(s, "!=", 0).None? by {
      assert "!=" == ['!', '='];
      MemberNoPair(f, vs, s, '!');
    }
    assert Find(s, "~", 0).None? by {
      MemberNoTilde(f, vs, s);
    }
    FindsIn(f, Listed(vs), s);
  }

  lemma ParsesList(f: Field, vs: seq<string>)
    requires FieldOk(f) && vs != [] && forall i :: 0 <= i < |vs| ==> MemberOk(vs[i])
    ensures ParseListTest(false, FieldText(f), Listed(vs)) == Parsed(In(Folded(f), vs))
  {
    assert FieldText(f) == FieldText(f) + "" && Listed(vs) == "" + Listed(vs);
    ParsesField(f, "");
    SolidListed(vs);
    TrimSolid(Listed(vs));
    SplitsListed(vs, "");
  }

  lemma ParsesMember(compiles: string -> bool, f: Field, vs: seq<string>)
    requires FieldOk(f) && vs != [] && forall i :: 0 <= i < |vs| ==> MemberOk(vs[i])
    ensures ParseComparison(compiles, Text(Member(f, vs))) == Parsed(In(Folded(f), vs))
  {
    var s, p := Text(Member(f, vs)), |FieldText(f)|;
    SolidText(compiles, Member(f, vs));
    TrimSolid(s);
    FindsMember(f, vs, s);
    PicksMember(compiles, s, p);
    CutsMember(FieldText(f), Listed(vs), s);
    ParsesList(f, vs);
  }

  lemma CutsMember(t: string, list: string, s: string)
    requires s == t + " in " + list
    ensures s[..|t|] == t && s[|t| + 4..] == list
  {
  }

  // ---------------------------------------------------------------- sentences

  lemma NoConnective(compiles: string -> bool, x: Syntax, op: string)
    requires Operator(op) && IsAtom(x) && Sentence(compiles, x)
    ensures FindOp(Text(x), op, 0, 0, false) == Absent
  {
    SkipsAtom(compiles, Text(x), op, 0, x);
  }

  lemma FindsAnd(compiles: string -> bool, l: Syntax, r: Syntax, s: string)
    requires Sentence(compiles, Conj(l, r)) && s == Text(Conj(l, r))
    ensures FindOp(s, "||", 0, 0, false) == Absent
    ensures FindOp(s, "&&", 0, 0, false) == Found(|Text(l)| + 1)
  {
    SkipsConj(compiles, s, 0, Conj(l, r), |s|);
    FindsAndBehind(compiles, l, Text(l), Text(r), s);
  }

  lemma FindsAndBehind(compiles: string -> bool, l: Syntax, t: string, rest: string, s: string)
    requires IsAtom(l) && Sentence(compiles, l) && t == Text(l) && s == t + " && " + rest
    ensures FindOp(s, "&&", 0, 0, false) == Found(|t| + 1)
  {
    StartsWith(s, t, " && ", rest);
    SkipsAtom(compiles, s, "&&", 0, l);
    FindsConnective(s, "&&", " && ", |t|);
  }

  lemma FindsOr(compiles: string -> bool, l: Syntax, r: Syntax, s: string)
    requires Sentence(compiles, Disj(l, r)) && s == Text(Disj(l, r))
    ensures FindOp(s, "||", 0, 0, false) == Found(|Text(l)| + 1)
  {
    StartsWith(s, Text(l), " || ", Text(r));
    FindsOrBehind(compiles, l, Text(l), s);
  }

  lemma FindsOrBehind(compiles: string -> bool, l: Syntax, t: string, s: string)
    requires (IsAtom(l) || l.Conj?) && Sentence(compiles, l) && t == Text(l)
    requires StartsAt(s, 0, t) && StartsAt(s, |t|, " || ")
    ensures FindOp(s, "||", 0, 0, false) == Found(|t| + 1)
  {
    SkipsConj(compiles, s, 0, l, |t|);
    FindsConnective(s, "||", " || ", |t|);
  }

  lemma StartsWith(s: string, t: string, mid: string, rest: string)
    requires s == t + mid + rest
    ensures StartsAt(s, 0, t) && StartsAt(s, |t|, mid)
  {
    AtSplit(s, 0, t + mid, rest);
    AtSplit(s, 0, t, mid);
  }

  /** The two operands of a connective, as the parser cuts them out. */
  lemma CutsOperands(s: string, a: string, mid: string, b: string)
    requires s == a + mid + b && Solid(a) && Solid(b) && |mid| == 4 && mid[0] == ' ' && mid[3] == ' '
    ensures |a| + 3 <= |s| && Trim(s[..|a| + 1]) == a && Trim(s[|a| + 3..]) == b
  {
    assert s[..|a| + 1] == a + " " && s[|a| + 3..] == " " + b;
    TrimAfter(a);
    TrimBefore(b);
  }

  // One step of the parser, by what the scan of the trimmed text finds.

  lemma StepsOr(compiles: string -> bool, input: string, s: string, p: nat)
    requires Trim(input) == s && s != [] && FindOp(s, "||", 0, 0, false) == Found(p)
    ensures p + 2 <= |s|
    ensures ParseExpression(compiles, input) ==
            Join2(false, ParseExpression(compiles, s[..p]), ParseExpression(compiles, s[p + 2..]))
  {
  }

  lemma StepsAnd(compiles: string -> bool, input: string, s: string, p: nat)
    requires Trim(input) == s && s != [] && FindOp(s, "||", 0, 0, false) == Absent && FindOp(s, "&&", 0, 0, false) == Found(p)
    ensures p + 2 <= |s|
    ensures ParseExpression(compiles, input) ==
            Join2(true, ParseExpression(compiles, s[..p]), ParseExpression(compiles, s[p + 2..]))
  {
  }

  lemma StepsAtom(compiles: string -> bool, input: string, s: string)
    requires Trim(input) == s && s != [] && FindOp(s, "||", 0, 0, false) == Absent && FindOp(s, "&&", 0, 0, false) == Absent
    ensures ParseExpression(compiles, input) ==
            if s[0] == '(' && s[|s| - 1] == ')' then ParseExpression(compiles, s[1..|s| - 1])
            else ParseComparison(compiles, s)
  {
  }

  lemma ParsesLeaf(compiles: string -> bool, x: Syntax, input: string)
    requires (x.Test? || x.Member?) && Sentence(compiles, x) && Trim(input) == Text(x)
    ensures ParseExpression(compiles, input) == Parsed(Meaning(x))
  {
    SolidText(compiles, x);
    NoConnective(compiles, x, "||");
    NoConnective(compiles, x, "&&");
    StepsAtom(compiles, input, Text(x));
    if x.Test? {
      ParsesTest(compiles, x.field, x.op, x.value);
    } else {
      ParsesMember(compiles, x.field, x.values);
    }
  }

  lemma StepsParen(compiles: string -> bool, y: Syntax, input: string)
    requires Sentence(compiles, y) && Trim(input) == Text(Paren(y))
    ensures ParseExpression(compiles, input) == ParseExpression(compiles, Text(y)) && Trim(Text(y)) == Text(y)
  {
    NoConnective(compiles, Paren(y), "||");
    NoConnective(compiles, Paren(y), "&&");
    StepsAtom(compiles, input, Text(Paren(y)));
    assert Text(Paren(y))[1..|Text(Paren(y))| - 1] == Text(y);
    if !y.Empty? {
      SolidText(compiles, y);
    }
    TrimSolid(Text(y));
  }

  lemma StepsConj(compiles: string -> bool, l: Syntax, r: Syntax, input: string) returns (a: string, b: string)
    requires Sentence(compiles, Conj(l, r)) && Trim(input) == Text(Conj(l, r))
    ensures Trim(a) == Text(l) && Trim(b) == Text(r)
    ensures ParseExpression(compiles, input) == Join2(true, ParseExpression(compiles, a), ParseExpression(compiles, b))
  {
    SolidText(compiles, l);
    SolidText(compiles, r);
    var s, p := Text(Conj(l, r)), |Text(l)| + 1;
    FindsAnd(compiles, l, r, s);
    CutsOperands(s, Text(l), " && ", Text(r));
    StepsAnd(compiles, input, s, p);
    a, b := s[..p], s[p + 2..];
  }

  lemma StepsDisj(compiles: string -> bool, l: Syntax, r: Syntax, input: string) returns (a: string, b: string)
    requires Sentence(compiles, Disj(l, r)) && Trim(input) == Text(Disj(l, r))
    ensures Trim(a) == Text(l) && Trim(b) == Text(r)
    ensures ParseExpression(compiles, input) == Join2(false, ParseExpression(compiles, a), ParseExpression(compiles, b))
  {
    SolidText(compiles, l);
    SolidText(compiles, r);
    var s, p := Text(Disj(l, r)), |Text(l)| + 1;
    FindsOr(compiles, l, r, s);
    CutsOperands(s, Text(l), " || ", Text(r));
    StepsOr(compiles, input, s, p);
    a, b := s[..p], s[p + 2..];
  }

  /** The parser reads every sentence of the grammar, surrounded by any blanks, as what it means. */
  lemma {:induction false} ParsesEverySentence(compiles: string -> bool, x: Syntax, input: string)
    requires Sentence(compiles, x) && Trim(input) == Text(x)
    ensures ParseExpression(compiles, input) == Parsed(Meaning(x))
    decreases x
  {
    match x
    case Empty =>
    case Test(_, _, _) =>
      ParsesLeaf(compiles, x, input);
    case Member(_, _) =>
      ParsesLeaf(compiles, x, input);
    case Paren(y) =>
      StepsParen(compiles, y, input);
      ParsesEverySentence(compiles, y, Text(y));
    case Conj(l, r) =>
      var a, b := StepsConj(compiles, l, r, input);
      ParsesEverySentence(compiles, l, a);
      ParsesEverySentence(compiles, r, b);
    case Disj(l, r) =>
      var a, b := StepsDisj(compiles, l, r, input);
      ParsesEverySentence(compiles, l, a);
      ParsesEverySentence(compiles, r, b);
  }

  // ---------------------------------------------------------------- consequences

  /** Every connective in parentheses. */
  function FullyParenthesised(e: Expression): Syntax {
    match e
    case And(a, b) => Conj(Paren(FullyParenthesised(a)), Paren(FullyParenthesised(b)))
    case Or(a, b) => Disj(Paren(FullyParenthesised(a)), Paren(FullyParenthesised(b)))
    case Eq(f, v) => Test(f, Equal, v)
    case Ne(f, v) => Test(f, NotEqual, v)
    case Regex(f, v) => Test(f, Matches, v)
    case In(f, vs) => Member(f, vs)
    case NotIn(_, _) => Empty
    case True => Empty
  }

  /** The parser yields header names in lower case only. */
  ghost predicate IsFolded(f: Field) {
    f.HttpHeader? ==> forall i :: 0 <= i < |f.name| ==> !('A' <= f.name[i] <= 'Z')
  }

  ghost predicate Renderable(compiles: string -> bool, e: Expression) {
    match e
    case And(a, b) => Renderable(compiles, a) && Renderable(compiles, b)
    case Or(a, b) => Renderable(compiles, a) && Renderable(compiles, b)
    case Eq(f, v) => FieldOk(f) && IsFolded(f) && TestOk(compiles, Equal, v)
    case Ne(f, v) => FieldOk(f) && IsFolded(f) && TestOk(compiles, NotEqual, v)
    case Regex(f, v) => FieldOk(f) && IsFolded(f) && TestOk(compiles, Matches, v)
    case In(f, vs) => FieldOk(f) && IsFolded(f) && vs != [] && forall i :: 0 <= i < |vs| ==> MemberOk(vs[i])
    case NotIn(_, _) => false
    case True => true
  }

  lemma {:induction false} LowerOfLower(s: string)
    requires forall i :: 0 <= i < |s| ==> !('A' <= s[i] <= 'Z')
    ensures Lower(s) == s
  {
    if s != [] {
      LowerOfLower(s[1..]);
    }
  }

  lemma FoldsAlready(f: Field)
    requires IsFolded(f)
    ensures Folded(f) == f
  {
    if f.HttpHeader? {
      LowerOfLower(f.name);
    }
  }

  lemma {:induction false} RenderedIsSentence(compiles: string -> bool, e: Expression)
    requires Renderable(compiles, e)
    ensures Sentence(compiles, FullyParenthesised(e)) && Meaning(FullyParenthesised(e)) == e
  {
    match e
    case And(a, b) =>
      RenderedIsSentence(compiles, a);
      RenderedIsSentence(compiles, b);
    case Or(a, b) =>
      RenderedIsSentence(compiles, a);
      RenderedIsSentence(compiles, b);
    case Eq(f, _) => FoldsAlready(f);
    case Ne(f, _) => FoldsAlready(f);
    case Regex(f, _) => FoldsAlready(f);
    case In(f, _) => FoldsAlready(f);
    case _ =>
  }

  /** Rendering a tree and parsing the text gives the tree back. */
  lemma RoundTrip(compiles: string -> bool, e: Expression)
    requires Renderable(compiles, e)
    ensures ParseExpression(compiles, Text(FullyParenthesised(e))) == Parsed(e)
  {
    var x := FullyParenthesised(e);
    RenderedIsSentence(compiles, e);
    if !x.Empty? {
      SolidText(compiles, x);
    }
    TrimSolid(Text(x));
    ParsesEverySentence(compiles, x, Text(x));
  }

  /** a || b && c is a || (b && c). */
  lemma AndBindsTighterRight(compiles: string -> bool, a: Syntax, b: Syntax, c: Syntax)
    requires IsAtom(a) && IsAtom(b) && IsAtom(c)
    requires Sentence(compiles, a) && Sentence(compiles, b) && Sentence(compiles, c)
    ensures ParseExpression(compiles, Text(a) + " || " + (Text(b) + " && " + Text(c))) ==
            Parsed(Or(Meaning(a), And(Meaning(b), Meaning(c))))
  {
    ParsesText(compiles, Disj(a, Conj(b, c)), Text(a) + " || " + (Text(b) + " && " + Text(c)));
  }

  /** a && b || c is (a && b) || c. */
  lemma AndBindsTighterLeft(compiles: string -> bool, a: Syntax, b: Syntax, c: Syntax)
    requires IsAtom(a) && IsAtom(b) && IsAtom(c)
    requires Sentence(compiles, a) && Sentence(compiles, b) && Sentence(compiles, c)
    ensures ParseExpression(compiles, Text(a) + " && " + Text(b) + " || " + Text(c)) ==
            Parsed(Or(And(Meaning(a), Meaning(b)), Meaning(c)))
  {
    ParsesText(compiles, Disj(Conj(a, b), c), Text(a) + " && " + Text(b) + " || " + Text(c));
  }

  lemma ParsesText(compiles: string -> bool, x: Syntax, s: string)
    requires Sentence(compiles, x) && !x.Empty? && s == Text(x)
    ensures ParseExpression(compiles, s) == Parsed(Meaning(x))
  {
    SolidText(compiles, x);
    TrimSolid(s);
    ParsesEverySentence(compiles, x, s);
  }

  // ---------------------------------------------------------------- what the documentation promises and the code does not do

  predicate HasNotIn(e: Expression) {
    match e
    case And(a, b) => HasNotIn(a) || HasNotIn(b)
    case Or(a, b) => HasNotIn(a) || HasNotIn(b)
    case NotIn(_, _) => true
    case _ => false
  }

  /** The documented "not in" operator is never recognised, on any input: every " not in "
      contains an " in ", which is searched for first. */
  lemma {:induction false} NotInIsNeverParsed(compiles: string -> bool, input: string)
    ensures ParseExpression(compiles, input).Parsed? ==> !HasNotIn(ParseExpression(compiles, input).expr)
    decreases |input|
  {
    var s := Trim(input);
    if s != [] {
      var or, and := FindOp(s, "||", 0, 0, false), FindOp(s, "&&", 0, 0, false);
      if or.Found? {
        StepsOr(compiles, input, s, or.pos);
        NotInIsNeverParsed(compiles, s[..or.pos]);
        NotInIsNeverParsed(compiles, s[or.pos + 2..]);
      } else if or.Absent? && and.Found? {
        StepsAnd(compiles, input, s, and.pos);
        NotInIsNeverParsed(compiles, s[..and.pos]);
        NotInIsNeverParsed(compiles, s[and.pos + 2..]);
      } else if or.Absent? && and.Absent? {
        StepsAtom(compiles, input, s);
        if s[0] == '(' && s[|s| - 1] == ')' {
          NotInIsNeverParsed(compiles, s[1..|s| - 1]);
        } else {
          ComparisonIsNotNegated(compiles, s);
        }
      }
    }
  }

  lemma NotInContainsIn(s: string, p: nat)
    requires StartsAt(s, p, " not in ")
    ensures StartsAt(s, p + 4, " in ")
  {
    var t := " not in ";
    assert s[p + 4] == t[4] && s[p + 5] == t[5] && s[p + 6] == t[6] && s[p + 7] == t[7];
  }

  lemma NotInNeedsIn(s: string)
    ensures Find(s, " not in ", 0).Some? ==> Find(s, " in ", 0).Some?
  {
    var r := Find(s, " not in ", 0);
    if r.Some? {
      NotInContainsIn(s, r.value);
      FindIsFirst(s, " in ", 0);
    }
  }

  lemma ComparisonIsNotNegated(compiles: string -> bool, input: string)
    ensures ParseComparison(compiles, input).Parsed? ==> !HasNotIn(ParseComparison(compiles, input).expr)
  {
    var s := Trim(input);
    NotInNeedsIn(s);
  }
}
