/** The expression router's parser and evaluator.

    The parser finds operators by scanning for them, tracking quotes and parentheses; it has
    no tokenizer and no grammar. ExpressionGrammar states the grammar its documentation describes
    and proves that the scanner implements it; ExpressionPanics says when it panics. Text is a
    sequence of Unicode characters; the code slices it by bytes. */
module Expressions {
  import opened Wrappers

  datatype Field = HttpMethod | HttpHost | HttpPath | HttpHeader(name: string) | NetProtocol | TlsSni

  datatype Expression =
    | And(left: Expression, right: Expression)
    | Or(left: Expression, right: Expression)
    | Eq(field: Field, value: string)
    | Ne(field: Field, value: string)
    | Regex(field: Field, value: string)
    | In(field: Field, values: seq<string>)
    | NotIn(field: Field, values: seq<string>)
    | True

  /** Panicked stands for a slice out of range in strip_quotes, or inside a character in find_operator. */
  datatype Outcome = Parsed(expr: Expression) | Rejected | Panicked

  datatype Request = Request(method_: string, host: string, uri: string, scheme: string,
                             headers: map<string, string>, sni: Option<string>)

  // ---------------------------------------------------------------- text

  predicate IsAscii(c: char) {
    c as int < 128
  }

  /** What str::trim removes: characters with the Unicode property White_Space. */
  predicate IsSpace(c: char) {
    c == ' ' || 9 <= c as int <= 13 || (!IsAscii(c) && IsWideSpace(c as int))
  }

  predicate IsWideSpace(n: int) {
    || n == 0x85 || n == 0xA0 || n == 0x1680 || 0x2000 <= n <= 0x200A || n == 0x2028 || n == 0x2029
    || n == 0x202F || n == 0x205F || n == 0x3000
  }

  function TrimStart(s: string): (r: string)
    ensures |r| <= |s|
  {
    if s != [] && IsSpace(s[0]) then TrimStart(s[1..]) else s
  }

  function TrimEnd(s: string): (r: string)
    ensures |r| <= |s|
  {
    if s != [] && IsSpace(s[|s| - 1]) then TrimEnd(s[..|s| - 1]) else s
  }

  function Trim(s: string): (r: string)
    ensures |r| <= |s|
  {
    TrimEnd(TrimStart(s))
  }

  predicate StartsAt(s: string, i: nat, t: string) {
    i + |t| <= |s| && forall j :: 0 <= j < |t| ==> s[i + j] == t[j]
  }

  /** str::find: the first occurrence at or after from. */
  function Find(s: string, needle: string, from: nat): (r: Option<nat>)
    ensures r.Some? ==> from <= r.value && StartsAt(s, r.value, needle)
    decreases |s| - from
  {
    if |s| < from + |needle| then None
    else if StartsAt(s, from, needle) then Some(from)
    else Find(s, needle, from + 1)
  }

  /** Nothing is found before the first occurrence, and nothing at all if there is none. */
  lemma {:induction false} FindIsFirst(s: string, needle: string, from: nat)
    ensures forall j :: from <= j && (Find(s, needle, from).None? || j < Find(s, needle, from).value) ==> !StartsAt(s, j, needle)
    decreases |s| - from
  {
    if |s| >= from + |needle| && !StartsAt(s, from, needle) {
      FindIsFirst(s, needle, from + 1);
    }
  }

  function Split(s: string, sep: char): (r: seq<string>)
    ensures r != []
  {
    if s == [] then [[]]
    else
      var rest := Split(s[1..], sep);
      if s[0] == sep then [[]] + rest else [[s[0]] + rest[0]] + rest[1..]
  }

  function LowerChar(c: char): char {
    if 'A' <= c <= 'Z' then (c as int + 32) as char else c
  }

  function Lower(s: string): string {
    if s == [] then [] else [LowerChar(s[0])] + Lower(s[1..])
  }

  // ---------------------------------------------------------------- the parser

  /** A hit of op at i: op itself, with a space or the end of the text on either side. */
  predicate Hit(input: string, op: string, i: nat)
    requires i < |input|
  {
    && StartsAt(input, i, op)
    && (i == 0 || input[i - 1] == ' ')
    && (i + |op| >= |input| || input[i + |op|] == ' ')
  }

  /** BadSlice stands for a slice of the text that starts inside a character, which panics. */
  datatype Scan = Found(pos: nat) | Absent | BadSlice

  /** The operator scan from position i on, in the given scanner state. Outside quotes and parentheses
      it slices the text at every byte, and so inside every character beyond ASCII. */
  function FindOp(input: string, op: string, i: nat, depth: int, inQuote: bool): (r: Scan)
    requires i <= |input|
    ensures r.Found? ==> r.pos < |input| && r.pos + |op| <= |input|
    decreases |input| - i
  {
    if i == |input| then Absent
    else
      var c := input[i];
      if c == '"' && depth == 0 then FindOp(input, op, i + 1, depth, !inQuote)
      else if c == '(' && !inQuote then FindOp(input, op, i + 1, depth + 1, inQuote)
      else if c == ')' && !inQuote then FindOp(input, op, i + 1, depth - 1, inQuote)
      else if !inQuote && depth == 0 && Hit(input, op, i) then Found(i)
      else if !inQuote && depth == 0 && !IsAscii(c) then BadSlice
      else FindOp(input, op, i + 1, depth, inQuote)
  }

  method FindOperator(input: string, op: string) returns (r: Scan)
    ensures r == FindOp(input, op, 0, 0, false)
  {
    var depth := 0;
    var inQuote := false;
    for i := 0 to |input|
      invariant FindOp(input, op, 0, 0, false) == FindOp(input, op, i, depth, inQuote)
    {
      var c := input[i];
      if c == '"' && depth == 0 {
        inQuote := !inQuote;
      } else if c == '(' && !inQuote {
        depth := depth + 1;
      } else if c == ')' && !inQuote {
        depth := depth - 1;
      } else if !inQuote && depth == 0 {
        if StartsAt(input, i, op) {
          var beforeOk := i == 0 || input[i - 1] == ' ';
          var afterOk := i + |op| >= |input| || input[i + |op|] == ' ';
          if beforeOk && afterOk {
            return Found(i);
          }
        }
        if !IsAscii(c) {
          return BadSlice;
        }
      }
    }
    return Absent;
  }

  const HEADER_PREFIX := "http.headers."

  function ParseField(text: string): Option<Field> {
    var name := Trim(text);
    if name == "http.method" then Some(HttpMethod)
    else if name == "http.host" then Some(HttpHost)
    else if name == "http.path" then Some(HttpPath)
    else if name == "net.protocol" then Some(NetProtocol)
    else if name == "tls.sni" then Some(TlsSni)
    else if StartsAt(name, 0, HEADER_PREFIX) then Some(HttpHeader(Lower(name[|HEADER_PREFIX|..])))
    else None
  }

  /** None where the slice s[1..len - 1] is out of range: s is a single quote character. */
  function StripQuotes(text: string): Option<string> {
    var s := Trim(text);
    if s != [] && s[0] == s[|s| - 1] && (s[0] == '"' || s[0] == '\'') then
      if |s| == 1 then None else Some(s[1..|s| - 1])
    else Some(s)
  }

  function StripAll(parts: seq<string>): Option<seq<string>> {
    if parts == [] then Some([])
    else
      var first := StripQuotes(Trim(parts[0]));
      if first.None? then None
      else
        var rest := StripAll(parts[1..]);
        if rest.None? then None else Some([first.value] + rest.value)
  }

  datatype Comparison = Equal | NotEqual | Matches

  /** The three value comparisons, once the operator has been found. */
  function ParseValueTest(compiles: string -> bool, op: Comparison, field: string, value: string): Outcome {
    var f := ParseField(field);
    if f.None? then Rejected
    else
      var v := StripQuotes(Trim(value));
      if v.None? then Panicked
      else match op
        case Equal => Parsed(Eq(f.value, v.value))
        case NotEqual => Parsed(Ne(f.value, v.value))
        case Matches => if compiles(v.value) then Parsed(Regex(f.value, v.value)) else Rejected
  }

  function ParseListTest(negated: bool, field: string, values: string): Outcome {
    var f := ParseField(field);
    if f.None? then Rejected
    else
      var vs := StripAll(Split(Trim(values), ','));
      if vs.None? then Panicked
      else if negated then Parsed(NotIn(f.value, vs.value)) else Parsed(In(f.value, vs.value))
  }

  predicate PartOfOther(s: string, pos: nat)
    requires pos < |s|
  {
    (pos > 0 && s[pos - 1] == '!') || (pos + 1 < |s| && s[pos + 1] == '=')
  }

  function ParseComparison(compiles: string -> bool, input: string): Outcome {
    var s := Trim(input);
    var eq := Find(s, "==", 0);
    if eq.Some? then ParseValueTest(compiles, Equal, s[..eq.value], s[eq.value + 2..])
    else
      var ne := Find(s, "!=", 0);
      if ne.Some? then ParseValueTest(compiles, NotEqual, s[..ne.value], s[ne.value + 2..])
      else
        var tilde := Find(s, "~", 0);
        if tilde.Some? && !PartOfOther(s, tilde.value) then
          ParseValueTest(compiles, Matches, s[..tilde.value], s[tilde.value + 1..])
        else
          var member := Find(s, " in ", 0);
          if member.Some? then ParseListTest(false, s[..member.value], s[member.value + 4..])
          else
            var nonMember := Find(s, " not in ", 0);
            if nonMember.Some? then ParseListTest(true, s[..nonMember.value], s[nonMember.value + 8..])
            else Rejected
  }

  /** The ? operator: the left failure wins, the right side is then not looked at. */
  function Join2(conjunction: bool, left: Outcome, right: Outcome): Outcome {
    if !left.Parsed? then left
    else if !right.Parsed? then right
    else Parsed(if conjunction then And(left.expr, right.expr) else Or(left.expr, right.expr))
  }

  function ParseExpression(compiles: string -> bool, input: string): Outcome
    decreases |input|
  {
    var s := Trim(input);
    if s == [] then Parsed(True)
    else
      match FindOp(s, "||", 0, 0, false)
      case BadSlice => Panicked
      case Found(p) => Join2(false, ParseExpression(compiles, s[..p]), ParseExpression(compiles, s[p + 2..]))
      case Absent =>
        match FindOp(s, "&&", 0, 0, false)
        case BadSlice => Panicked
        case Found(p) => Join2(true, ParseExpression(compiles, s[..p]), ParseExpression(compiles, s[p + 2..]))
        case Absent =>
          if s[0] == '(' && s[|s| - 1] == ')' then ParseExpression(compiles, s[1..|s| - 1])
          else ParseComparison(compiles, s)
  }

  // ---------------------------------------------------------------- the evaluator

  function FieldValue(field: Field, req: Request): Option<string> {
    match field
    case HttpMethod => Some(req.method_)
    case HttpHost => Some(req.host)
    case HttpPath => Some(req.uri)
    case HttpHeader(name) => if name in req.headers then Some(req.headers[name]) else None
    case NetProtocol => Some(req.scheme)
    case TlsSni => req.sni
  }

  predicate Evaluate(isMatch: (string, string) -> bool, e: Expression, req: Request) {
    match e
    case True => true
    case And(a, b) => Evaluate(isMatch, a, req) && Evaluate(isMatch, b, req)
    case Or(a, b) => Evaluate(isMatch, a, req) || Evaluate(isMatch, b, req)
    case Eq(f, v) => FieldValue(f, req) == Some(v)
    case Ne(f, v) => FieldValue(f, req) != Some(v)
    case Regex(f, p) => FieldValue(f, req).Some? && isMatch(p, FieldValue(f, req).value)
    case In(f, vs) => FieldValue(f, req).Some? && FieldValue(f, req).value in vs
    case NotIn(f, vs) => FieldValue(f, req).Some? ==> FieldValue(f, req).value !in vs
  }
}
