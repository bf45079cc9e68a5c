/** When the expression parser panics. Two slices go out of range: taking the quotes off a value that
    is a single quotation mark, and slicing the text inside a character beyond ASCII, outside quotes
    and parentheses. PanicsOnlyAt says, for every input, that nothing else does; the other theorems
    say exactly which comparisons and lists do. */
module ExpressionPanics {
  import opened Wrappers
  import opened Expressions
  import opened ExpressionGrammar

  predicate IsQuote(c: char) {
    c == '"' || c == '\''
  }

  /** A value or list item that is one quotation mark, blanks aside. */
  predicate Lone(text: string) {
    var s := Trim(text);
    |s| == 1 && IsQuote(s[0])
  }

  ghost predicate Blanks(text: string, from: nat, to: nat) {
    from <= to <= |text| && forall i :: from <= i < to ==> IsSpace(text[i])
  }

  /** An operator or a comma ends at p. */
  ghost predicate Mark(text: string, p: nat) {
    && p <= |text|
    && (|| (p >= 1 && (text[p - 1] == ',' || text[p - 1] == '~'))
        || (p >= 2 && (StartsAt(text, p - 2, "==") || StartsAt(text, p - 2, "!=")))
        || (p >= 4 && StartsAt(text, p - 4, " in ")))
  }

  /** A comma, a closing parenthesis, a connective or the end of the text is at p. */
  ghost predicate Stop(text: string, p: nat) {
    p == |text| || (p < |text| && (text[p] == ',' || text[p] == ')')) || StartsAt(text, p, "||") || StartsAt(text, p, "&&")
  }

  ghost predicate Opens(text: string, at: nat) {
    exists p: nat :: Mark(text, p) && Blanks(text, p, at)
  }

  ghost predicate Ends(text: string, at: nat) {
    exists p: nat :: Blanks(text, at, p) && Stop(text, p)
  }

  /** Some quotation mark stands alone: an operator or a comma before it, and a comma, a closing
      parenthesis, a connective or the end of the text behind it, with nothing but blanks between. */
  ghost predicate LoneQuote(text: string) {
    exists q: nat :: q < |text| && IsQuote(text[q]) && Opens(text, q) && Ends(text, q + 1)
  }

  // ---------------------------------------------------------------- positions in the whole text

  lemma BlanksJoin(text: string, a: nat, b: nat, c: nat)
    requires Blanks(text, a, b) && Blanks(text, b, c)
    ensures Blanks(text, a, c)
  {
  }

  lemma OpensLater(text: string, at: nat, later: nat)
    requires Opens(text, at) && Blanks(text, at, later)
    ensures Opens(text, later)
  {
    var p: nat :| Mark(text, p) && Blanks(text, p, at);
    BlanksJoin(text, p, at, later);
  }

  lemma EndsEarlier(text: string, at: nat, earlier: nat)
    requires Ends(text, at) && Blanks(text, earlier, at)
    ensures Ends(text, earlier)
  {
    var p: nat :| Blanks(text, at, p) && Stop(text, p);
    BlanksJoin(text, earlier, at, p);
  }

  lemma EndsHere(text: string, at: nat)
    requires Stop(text, at) && at <= |text|
    ensures Ends(text, at)
  {
    assert Blanks(text, at, at);
  }

  lemma OpensHere(text: string, at: nat)
    requires Mark(text, at)
    ensures Opens(text, at)
  {
    assert Blanks(text, at, at);
  }

  lemma {:induction false} TrimStartIs(s: string) returns (a: nat)
    ensures a <= |s| && TrimStart(s) == s[a..] && Blanks(s, 0, a)
  {
    a := 0;
    if s != [] && IsSpace(s[0]) {
      var b := TrimStartIs(s[1..]);
      a := b + 1;
      forall i | 0 <= i < a
        ensures IsSpace(s[i])
      {
        assert i > 0 ==> s[i] == s[1..][i - 1];
      }
    }
  }

  lemma {:induction false} TrimEndIs(s: string) returns (b: nat)
    ensures b <= |s| && TrimEnd(s) == s[..b] && Blanks(s, b, |s|)
  {
    b := |s|;
    if s != [] && IsSpace(s[|s| - 1]) {
      var front := s[..|s| - 1];
      b := TrimEndIs(front);
      forall i | b <= i < |s|
        ensures IsSpace(s[i])
      {
        assert i < |front| ==> s[i] == front[i];
      }
    }
  }

  /** A piece of the text, trimmed, is a piece of the text with only blanks cut off. */
  lemma TrimWithin(text: string, lo: nat, s: string) returns (a: nat)
    requires StartsAt(text, lo, s)
    ensures lo <= a && StartsAt(text, a, Trim(s)) && a + |Trim(s)| <= lo + |s|
    ensures Blanks(text, lo, a) && Blanks(text, a + |Trim(s)|, lo + |s|)
  {
    var i := TrimStartIs(s);
    var t := s[i..];
    var j := TrimEndIs(t);
    a := lo + i;
    forall k | lo <= k < a
      ensures IsSpace(text[k])
    {
      assert text[lo + (k - lo)] == s[k - lo];
    }
    forall k | a + j <= k < lo + |s|
      ensures IsSpace(text[k])
    {
      assert text[lo + (k - lo)] == s[k - lo] && s[k - lo] == t[k - a];
    }
    forall k | 0 <= k < j
      ensures text[a + k] == t[..j][k]
    {
      assert text[lo + (i + k)] == s[i + k];
    }
  }

  lemma PieceOf(text: string, lo: nat, s: string, i: nat, j: nat, at: nat)
    requires StartsAt(text, lo, s) && i <= j <= |s| && at == lo + i
    ensures StartsAt(text, at, s[i..j])
  {
    forall k | 0 <= k < j - i
      ensures text[at + k] == s[i..j][k]
    {
      assert text[lo + (i + k)] == s[i + k];
    }
  }

  /** What starts somewhere in a piece starts there in the text. */
  lemma LiftStart(text: string, lo: nat, s: string, i: nat, t: string, at: nat)
    requires StartsAt(text, lo, s) && StartsAt(s, i, t) && at == lo + i
    ensures StartsAt(text, at, t)
  {
    forall k | 0 <= k < |t|
      ensures text[at + k] == t[k]
    {
      assert text[lo + (i + k)] == s[i + k];
    }
  }

  // ---------------------------------------------------------------- every panic has its quotation mark

  lemma StripQuotesFailsOnlyOn(s: string)
    ensures StripQuotes(Trim(s)).None? <==> Lone(Trim(s))
  {
  }

  lemma StrayValue(text: string, lo: nat, v: string)
    requires StartsAt(text, lo, v) && Opens(text, lo) && Ends(text, lo + |v|)
    requires StripQuotes(Trim(v)).None?
    ensures LoneQuote(text)
  {
    var t := Trim(v);
    var a := TrimWithin(text, lo, v);
    var b := TrimWithin(text, a, t);
    OpensLater(text, lo, a);
    OpensLater(text, a, b);
    EndsEarlier(text, lo + |v|, a + |t|);
    EndsEarlier(text, a + |t|, b + 1);
    assert text[b + 0] == Trim(t)[0];
  }

  lemma {:induction false} StrayItem(text: string, lo: nat, list: string)
    requires StartsAt(text, lo, list) && Opens(text, lo) && Ends(text, lo + |list|)
    requires StripAll(Split(list, ',')).None?
    ensures LoneQuote(text)
    decreases |list|
  {
    if ',' in list {
      var k := FirstComma(list);
      CutsItem(text, lo, list, k, lo + k + 1);
      StripsOneOrRest(list[..k], list[k + 1..], list);
      if StripQuotes(Trim(list[..k])).None? {
        StrayValue(text, lo, list[..k]);
      } else {
        StrayItem(text, lo + k + 1, list[k + 1..]);
      }
    } else {
      SplitsNot(list);
      assert [list][1..] == [];
      StrayValue(text, lo, list);
    }
  }

  /** The item before a comma and the list behind it, as pieces of the text. */
  lemma CutsItem(text: string, lo: nat, list: string, k: nat, at: nat)
    requires StartsAt(text, lo, list) && k < |list| && list[k] == ',' && at == lo + k + 1
    requires Ends(text, lo + |list|)
    ensures StartsAt(text, lo, list[..k]) && Ends(text, lo + k)
    ensures StartsAt(text, at, list[k + 1..]) && Opens(text, at) && Ends(text, at + |list[k + 1..]|)
  {
    assert text[lo + k] == list[k];
    PieceOf(text, lo, list, 0, k, lo);
    PieceOf(text, lo, list, k + 1, |list|, at);
    EndsHere(text, lo + k);
    OpensHere(text, at);
    assert at + |list[k + 1..]| == lo + |list|;
  }

  lemma StripsOneOrRest(q: string, rest: string, list: string)
    requires list == q + "," + rest && ',' !in q && StripAll(Split(list, ',')).None?
    ensures StripQuotes(Trim(q)).None? || StripAll(Split(rest, ',')).None?
  {
    SplitsAt(q, rest);
    assert ([q] + Split(rest, ','))[1..] == Split(rest, ',');
  }

  lemma {:induction false} FirstComma(s: string) returns (k: nat)
    requires ',' in s
    ensures k < |s| && s[k] == ',' && ',' !in s[..k] && s == s[..k] + "," + s[k + 1..]
  {
    k := 0;
    if s[0] != ',' {
      var i := FirstComma(s[1..]);
      k := i + 1;
      assert s[..k] == [s[0]] + s[1..][..i];
    }
  }

  lemma StrayList(text: string, lo: nat, list: string)
    requires StartsAt(text, lo, list) && Opens(text, lo) && Ends(text, lo + |list|)
    requires StripAll(Split(Trim(list), ',')).None?
    ensures LoneQuote(text)
  {
    var a := TrimWithin(text, lo, list);
    OpensLater(text, lo, a);
    EndsEarlier(text, lo + |list|, a + |Trim(list)|);
    StrayItem(text, a, Trim(list));
  }

  /** The part of a trimmed comparison behind the operator found in it. */
  lemma BehindOperator(text: string, lo: nat, s: string, p: nat, op: string)
    requires StartsAt(text, lo, s) && Ends(text, lo + |s|) && StartsAt(s, p, op)
    requires op == "==" || op == "!=" || op == "~" || op == " in "
    ensures StartsAt(text, lo + p + |op|, s[p + |op|..]) && Opens(text, lo + p + |op|)
    ensures Ends(text, lo + p + |op| + |s[p + |op|..]|)
  {
    var at := lo + p + |op|;
    LiftStart(text, lo, s, p, op, lo + p);
    PieceOf(text, lo, s, p + |op|, |s|, at);
    assert at - |op| == lo + p;
    assert op == "~" ==> text[lo + p + 0] == op[0];
    assert Mark(text, at);
    OpensHere(text, at);
    assert at + |s[p + |op|..]| == lo + |s|;
  }

  lemma ComparisonPanics(compiles: string -> bool, text: string, lo: nat, s: string)
    requires StartsAt(text, lo, s) && Ends(text, lo + |s|)
    requires ParseComparison(compiles, s).Panicked?
    ensures LoneQuote(text)
  {
    var t := Trim(s);
    var a := TrimWithin(text, lo, s);
    EndsEarlier(text, lo + |s|, a + |t|);
    TrimmedComparisonPanics(compiles, text, a, s, t);
  }

  function Sign(op: Comparison): string {
    match op
    case Equal => "=="
    case NotEqual => "!="
    case Matches => "~"
  }

  /** The value behind the operator at p is what panics; without an operator, the list behind "in". */
  ghost predicate Fails(t: string, op: Option<Comparison>, p: nat) {
    if op.Some? then StartsAt(t, p, Sign(op.value)) && StripQuotes(Trim(t[p + |Sign(op.value)|..])).None?
    else StartsAt(t, p, " in ") && StripAll(Split(Trim(t[p + 4..]), ',')).None?
  }

  // What each branch of ParseComparison needs in order to panic.

  lemma EqualBranch(compiles: string -> bool, s: string, t: string, p: nat)
    requires t == Trim(s) && ParseComparison(compiles, s).Panicked? && Find(t, "==", 0) == Some(p)
    ensures Fails(t, Some(Equal), p)
  {
  }

  lemma NotEqualBranch(compiles: string -> bool, s: string, t: string, p: nat)
    requires t == Trim(s) && ParseComparison(compiles, s).Panicked?
    requires Find(t, "==", 0).None? && Find(t, "!=", 0) == Some(p)
    ensures Fails(t, Some(NotEqual), p)
  {
  }

  lemma MatchesBranch(compiles: string -> bool, s: string, t: string, p: nat)
    requires t == Trim(s) && ParseComparison(compiles, s).Panicked?
    requires Find(t, "==", 0).None? && Find(t, "!=", 0).None? && Find(t, "~", 0) == Some(p) && p < |t| && !PartOfOther(t, p)
    ensures Fails(t, Some(Matches), p)
  {
    TakesMatches(compiles, s, t, p);
    MatchFails(compiles, t, p);
  }

  lemma MatchFails(compiles: string -> bool, t: string, p: nat)
    requires p < |t| && StartsAt(t, p, "~") && ParseValueTest(compiles, Matches, t[..p], t[p + 1..]).Panicked?
    ensures Fails(t, Some(Matches), p)
  {
    ValuePanics(compiles, Matches, t[..p], t[p + 1..]);
    assert Sign(Matches) == "~";
  }

  lemma TakesMatches(compiles: string -> bool, s: string, t: string, p: nat)
    requires t == Trim(s) && Find(t, "==", 0).None? && Find(t, "!=", 0).None? && Find(t, "~", 0) == Some(p)
    requires p < |t| && !PartOfOther(t, p)
    ensures ParseComparison(compiles, s) == ParseValueTest(compiles, Matches, t[..p], t[p + 1..])
  {
  }

  lemma ValuePanics(compiles: string -> bool, op: Comparison, field: string, value: string)
    ensures ParseValueTest(compiles, op, field, value).Panicked? ==> StripQuotes(Trim(value)).None?
  {
  }

  lemma ListBranch(compiles: string -> bool, s: string, t: string) returns (p: nat)
    requires t == Trim(s) && ParseComparison(compiles, s).Panicked?
    requires Find(t, "==", 0).None? && Find(t, "!=", 0).None?
    requires Find(t, "~", 0).None? || PartOfOther(t, Find(t, "~", 0).value)
    ensures Fails(t, None, p)
  {
    NotInNeedsIn(t);
    p := Find(t, " in ", 0).value;
  }

  lemma PanicBranch(compiles: string -> bool, s: string, t: string) returns (op: Option<Comparison>, p: nat)
    requires t == Trim(s) && ParseComparison(compiles, s).Panicked?
    ensures Fails(t, op, p)
  {
    var eq, ne, tilde := Find(t, "==", 0), Find(t, "!=", 0), Find(t, "~", 0);
    if eq.Some? {
      EqualBranch(compiles, s, t, eq.value);
      op, p := Some(Equal), eq.value;
    } else if ne.Some? {
      NotEqualBranch(compiles, s, t, ne.value);
      op, p := Some(NotEqual), ne.value;
    } else if tilde.Some? && !PartOfOther(t, tilde.value) {
      MatchesBranch(compiles, s, t, tilde.value);
      op, p := Some(Matches), tilde.value;
    } else {
      p := ListBranch(compiles, s, t);
      op := None;
    }
  }

  lemma TrimmedComparisonPanics(compiles: string -> bool, text: string, a: nat, s: string, t: string)
    requires t == Trim(s) && StartsAt(text, a, t) && Ends(text, a + |t|)
    requires ParseComparison(compiles, s).Panicked?
    ensures LoneQuote(text)
  {
    var op, p := PanicBranch(compiles, s, t);
    if op.Some? {
      StrayBehind(text, a, t, p, op.value);
    } else {
      StrayBehindIn(text, a, t, p);
    }
  }

  lemma StrayBehind(text: string, a: nat, t: string, p: nat, op: Comparison)
    requires StartsAt(text, a, t) && Ends(text, a + |t|) && StartsAt(t, p, Sign(op))
    requires StripQuotes(Trim(t[p + |Sign(op)|..])).None?
    ensures LoneQuote(text)
  {
    BehindOperator(text, a, t, p, Sign(op));
    StrayValue(text, a + p + |Sign(op)|, t[p + |Sign(op)|..]);
  }

  lemma StrayBehindIn(text: string, a: nat, t: string, p: nat)
    requires StartsAt(text, a, t) && Ends(text, a + |t|) && StartsAt(t, p, " in ")
    requires StripAll(Split(Trim(t[p + 4..]), ',')).None?
    ensures LoneQuote(text)
  {
    BehindOperator(text, a, t, p, " in ");
    StrayList(text, a + p + 4, t[p + 4..]);
  }

  /** The scanner's state before position i: parenthesis depth, and whether inside double quotes. */
  function StateAt(s: string, i: nat): (int, bool)
    requires i <= |s|
  {
    if i == 0 then (0, false)
    else
      var (depth, inQuote) := StateAt(s, i - 1);
      var c := s[i - 1];
      if c == '"' && depth == 0 then (depth, !inQuote)
      else if c == '(' && !inQuote then (depth + 1, inQuote)
      else if c == ')' && !inQuote then (depth - 1, inQuote)
      else (depth, inQuote)
  }

  /** The character at i is looked at: it is outside quotes and parentheses, and neither itself. */
  predicate Looked(s: string, i: nat) {
    i < |s| && StateAt(s, i) == (0, false) && s[i] != '"' && s[i] != '(' && s[i] != ')'
  }

  /** A character beyond ASCII outside double quotes and parentheses. */
  ghost predicate Exposed(s: string) {
    exists i: nat :: Looked(s, i) && !IsAscii(s[i])
  }

  /** A connective with blanks around it outside double quotes and parentheses. */
  ghost predicate Connected(s: string) {
    exists i: nat, op: string :: Operator(op) && Looked(s, i) && Hit(s, op, i)
  }

  /** The scan finds a hit it looked at, or stops inside a character it looked at, or neither is there. */
  lemma {:induction false} ScanIs(s: string, op: string, i: nat, depth: int, inQuote: bool)
    requires i <= |s| && StateAt(s, i) == (depth, inQuote)
    ensures match FindOp(s, op, i, depth, inQuote)
            case Found(p) => Looked(s, p) && Hit(s, op, p)
            case BadSlice => Exposed(s)
            case Absent => forall j: nat :: i <= j && Looked(s, j) ==> IsAscii(s[j])
    decreases |s| - i
  {
    if i < |s| {
      var c := s[i];
      if c == '"' && depth == 0 {
        ScanIs(s, op, i + 1, depth, !inQuote);
      } else if c == '(' && !inQuote {
        ScanIs(s, op, i + 1, depth + 1, inQuote);
      } else if c == ')' && !inQuote {
        ScanIs(s, op, i + 1, depth - 1, inQuote);
      } else if !inQuote && depth == 0 && (Hit(s, op, i) || !IsAscii(c)) {
        assert Looked(s, i);
      } else {
        ScanIs(s, op, i + 1, depth, inQuote);
      }
    }
  }

  /** Without connectives, every scan goes through exactly when no character is exposed. */
  lemma ScanWithoutConnective(s: string, op: string)
    requires Operator(op) && !Connected(s)
    ensures FindOp(s, op, 0, 0, false) == if Exposed(s) then BadSlice else Absent
  {
    ScanIs(s, op, 0, 0, false);
  }

  // Where in the whole text a character is looked at.

  /** The text begins here, or an opening parenthesis or a connective ends here. */
  ghost predicate Begin(text: string, p: nat) {
    && p <= |text|
    && (p == 0 || text[p - 1] == '(' || (p >= 2 && (StartsAt(text, p - 2, "||") || StartsAt(text, p - 2, "&&"))))
  }

  ghost predicate Begins(text: string, at: nat) {
    exists p: nat :: Begin(text, p) && Blanks(text, p, at)
  }

  /** Counted from some beginning, a character beyond ASCII is outside double quotes and parentheses. */
  ghost predicate WideCharacter(text: string) {
    exists a: nat :: Begins(text, a) && Exposed(text[a..])
  }

  lemma BeginsLater(text: string, at: nat, later: nat)
    requires Begins(text, at) && Blanks(text, at, later)
    ensures Begins(text, later)
  {
    var p: nat :| Begin(text, p) && Blanks(text, p, at);
    BlanksJoin(text, p, at, later);
  }

  lemma BeginsHere(text: string, at: nat)
    requires Begin(text, at)
    ensures Begins(text, at)
  {
    assert Blanks(text, at, at);
  }

  lemma {:induction false} SameState(s: string, t: string, i: nat)
    requires i <= |s| && i <= |t| && forall j :: 0 <= j < i ==> s[j] == t[j]
    ensures StateAt(s, i) == StateAt(t, i)
  {
    if i > 0 {
      SameState(s, t, i - 1);
    }
  }

  /** What a piece exposes, the text exposes from where the piece begins. */
  lemma PieceExposes(text: string, a: nat, t: string)
    requires StartsAt(text, a, t) && Begins(text, a) && Exposed(t)
    ensures WideCharacter(text)
  {
    var i: nat :| Looked(t, i) && !IsAscii(t[i]);
    var tail := text[a..];
    forall j | 0 <= j < |t|
      ensures tail[j] == t[j]
    {
      assert text[a + j] == t[j];
    }
    SameState(tail, t, i);
    assert Looked(tail, i);
  }

  lemma NoBadSlice(text: string, a: nat, t: string, op: string)
    requires StartsAt(text, a, t) && Begins(text, a) && !WideCharacter(text)
    ensures !FindOp(t, op, 0, 0, false).BadSlice?
  {
    ScanIs(t, op, 0, 0, false);
    if Exposed(t) {
      PieceExposes(text, a, t);
    }
  }

  /** Both operands of a connective that was found end properly. */
  lemma OperandsEnd(text: string, lo: nat, s: string, op: string, k: nat)
    requires StartsAt(text, lo, s) && Ends(text, lo + |s|) && Operator(op)
    requires FindOp(s, op, 0, 0, false) == Found(k)
    ensures StartsAt(text, lo, s[..k]) && Ends(text, lo + k)
    ensures StartsAt(text, lo + k + 2, s[k + 2..]) && Ends(text, lo + k + 2 + |s[k + 2..]|)
  {
    ScanIs(s, op, 0, 0, false);
    LiftStart(text, lo, s, k, op, lo + k);
    EndsHere(text, lo + k);
    PieceOf(text, lo, s, 0, k, lo);
    PieceOf(text, lo, s, k + 2, |s|, lo + k + 2);
    assert lo + k + 2 + |s[k + 2..]| == lo + |s|;
  }

  /** The second operand begins behind the connective. */
  lemma OperandBegins(text: string, lo: nat, s: string, op: string, k: nat, at: nat)
    requires StartsAt(text, lo, s) && Operator(op) && FindOp(s, op, 0, 0, false) == Found(k) && at == lo + k + 2
    ensures Begins(text, at)
  {
    ScanIs(s, op, 0, 0, false);
    LiftStart(text, lo, s, k, op, at - 2);
    BeginsHere(text, at);
  }

  lemma {:induction false} OperandPanics(compiles: string -> bool, text: string, a: nat, t: string, op: string, k: nat)
    requires !WideCharacter(text) && Begins(text, a) && StartsAt(text, a, t) && Ends(text, a + |t|) && Operator(op)
    requires FindOp(t, op, 0, 0, false) == Found(k)
    requires ParseExpression(compiles, t[..k]).Panicked? || ParseExpression(compiles, t[k + 2..]).Panicked?
    ensures LoneQuote(text)
    decreases |t|, 0
  {
    OperandsEnd(text, a, t, op, k);
    if ParseExpression(compiles, t[..k]).Panicked? {
      PiecePanics(compiles, text, a, t[..k]);
    } else {
      OperandBegins(text, a, t, op, k, a + k + 2);
      PiecePanics(compiles, text, a + k + 2, t[k + 2..]);
    }
  }

  lemma InnerEnds(text: string, a: nat, t: string, inner: string, at: nat)
    requires StartsAt(text, a, t) && |t| >= 2 && t[0] == '(' && t[|t| - 1] == ')' && inner == t[1..|t| - 1] && at == a + 1
    ensures StartsAt(text, at, inner) && Begins(text, at) && Ends(text, at + |inner|)
  {
    assert text[a + (|t| - 1)] == ')' && text[a + 0] == '(';
    PieceOf(text, a, t, 1, |t| - 1, at);
    BeginsHere(text, at);
    EndsHere(text, at + |inner|);
  }

  lemma {:induction false} InnerPanics(compiles: string -> bool, text: string, a: nat, t: string, inner: string)
    requires !WideCharacter(text) && StartsAt(text, a, t)
    requires |t| >= 2 && t[0] == '(' && t[|t| - 1] == ')' && inner == t[1..|t| - 1]
    requires ParseExpression(compiles, inner).Panicked?
    ensures LoneQuote(text)
    decreases |t|, 0
  {
    InnerEnds(text, a, t, inner, a + 1);
    PiecePanics(compiles, text, a + 1, inner);
  }

  lemma {:induction false} PiecePanics(compiles: string -> bool, text: string, lo: nat, s: string)
    requires !WideCharacter(text) && Begins(text, lo) && StartsAt(text, lo, s) && Ends(text, lo + |s|)
    requires ParseExpression(compiles, s).Panicked?
    ensures LoneQuote(text)
    decreases |s|, 2
  {
    var t := Trim(s);
    var a := TrimWithin(text, lo, s);
    EndsEarlier(text, lo + |s|, a + |t|);
    BeginsLater(text, lo, a);
    NoBadSlice(text, a, t, "||");
    NoBadSlice(text, a, t, "&&");
    PanicHasPart(compiles, s, t);
    TrimmedPanics(compiles, text, a, t);
  }

  /** The part of a trimmed text that panics: an operand of the connective found, what is inside the
      parentheses, or the comparison. */
  ghost predicate PartPanics(compiles: string -> bool, t: string) {
    match FindOp(t, "||", 0, 0, false)
    case BadSlice => false
    case Found(p) => OperandFails(compiles, t, p)
    case Absent =>
      match FindOp(t, "&&", 0, 0, false)
      case BadSlice => false
      case Found(p) => OperandFails(compiles, t, p)
      case Absent =>
        if |t| >= 2 && t[0] == '(' && t[|t| - 1] == ')' then ParseExpression(compiles, t[1..|t| - 1]).Panicked?
        else ParseComparison(compiles, t).Panicked?
  }

  ghost predicate OperandFails(compiles: string -> bool, t: string, p: nat) {
    p + 2 <= |t| && (ParseExpression(compiles, t[..p]).Panicked? || ParseExpression(compiles, t[p + 2..]).Panicked?)
  }

  lemma PanicHasPart(compiles: string -> bool, s: string, t: string)
    requires t == Trim(s) && ParseExpression(compiles, s).Panicked?
    requires !FindOp(t, "||", 0, 0, false).BadSlice? && !FindOp(t, "&&", 0, 0, false).BadSlice?
    ensures PartPanics(compiles, t)
  {
    var or, and := FindOp(t, "||", 0, 0, false), FindOp(t, "&&", 0, 0, false);
    if or.Found? {
      StepsOr(compiles, s, t, or.pos);
    } else if and.Found? {
      StepsAnd(compiles, s, t, and.pos);
    } else {
      StepsAtom(compiles, s, t);
    }
  }

  lemma {:induction false} TrimmedPanics(compiles: string -> bool, text: string, a: nat, t: string)
    requires !WideCharacter(text) && Begins(text, a) && StartsAt(text, a, t) && Ends(text, a + |t|)
    requires PartPanics(compiles, t)
    ensures LoneQuote(text)
    decreases |t|, 1
  {
    var or, and := FindOp(t, "||", 0, 0, false), FindOp(t, "&&", 0, 0, false);
    if or.Found? {
      OperandPanics(compiles, text, a, t, "||", or.pos);
    } else if and.Found? {
      OperandPanics(compiles, text, a, t, "&&", and.pos);
    } else if |t| >= 2 && t[0] == '(' && t[|t| - 1] == ')' {
      InnerPanics(compiles, text, a, t, t[1..|t| - 1]);
    } else {
      ComparisonPanics(compiles, text, a, t);
    }
  }

  /** Whatever the input, the parser panics only if a quotation mark stands alone in it, or a character
      beyond ASCII is outside double quotes and parentheses, counted from the beginning of the text, an
      opening parenthesis or a connective. */
  lemma PanicsOnlyAt(compiles: string -> bool, input: string)
    requires ParseExpression(compiles, input).Panicked?
    ensures LoneQuote(input) || WideCharacter(input)
  {
    if !WideCharacter(input) {
      EndsHere(input, |input|);
      BeginsHere(input, 0);
      PiecePanics(compiles, input, 0, input);
    }
  }

  ghost predicate AsciiText(s: string) {
    forall i :: 0 <= i < |s| ==> IsAscii(s[i])
  }

  /** On ASCII text only the quotation mark remains. */
  lemma PanicsOnlyAtLoneQuote(compiles: string -> bool, input: string)
    requires ParseExpression(compiles, input).Panicked? && AsciiText(input)
    ensures LoneQuote(input)
  {
    PanicsOnlyAt(compiles, input);
    forall a: nat | Begins(input, a)
      ensures !Exposed(input[a..])
    {
      assert forall i :: 0 <= i < |input[a..]| ==> input[a..][i] == input[a + i];
    }
  }

  // ---------------------------------------------------------------- which comparisons panic

  lemma {:induction false} TrimEndSolid(s: string)
    ensures TrimEnd(s) == [] || !IsSpace(TrimEnd(s)[|TrimEnd(s)| - 1])
    ensures s != [] && !IsSpace(s[0]) ==> TrimEnd(s) != [] && TrimEnd(s)[0] == s[0]
  {
    if s != [] && IsSpace(s[|s| - 1]) {
      TrimEndSolid(s[..|s| - 1]);
    }
  }

  lemma {:induction false} TrimStartSolid(s: string)
    ensures TrimStart(s) == [] || !IsSpace(TrimStart(s)[0])
  {
    if s != [] && IsSpace(s[0]) {
      TrimStartSolid(s[1..]);
    }
  }

  /** Trimming leaves nothing to trim. */
  lemma TrimTrim(s: string)
    ensures Trim(s) == [] || Solid(Trim(s))
    ensures Trim(Trim(s)) == Trim(s)
  {
    TrimStartSolid(s);
    TrimEndSolid(TrimStart(s));
    TrimSolid(Trim(s));
  }

  lemma StripsUnlessLone(padding: string, v: string)
    requires padding == "" || padding == " "
    ensures StripQuotes(Trim(padding + v)).None? <==> Lone(v)
  {
    TrimTrim(v);
    if padding == " " {
      assert (" " + v)[1..] == v;
    } else {
      assert padding + v == v;
    }
    StripQuotesFailsOnlyOn(v);
  }

  /** A text with a field in front and no connective is parsed as one comparison, if at all. */
  lemma IsOneComparison(compiles: string -> bool, f: Field, t: string, rest: string, s: string, input: string)
    requires FieldOk(f) && t == FieldText(f) && s == t + rest && Trim(input) == s && !Connected(s)
    ensures ParseExpression(compiles, input) == if Exposed(s) then Panicked else ParseComparison(compiles, s)
    ensures Trim(s) == s
  {
    FieldTextChars(f);
    ScanWithoutConnective(s, "||");
    ScanWithoutConnective(s, "&&");
    TrimTrim(input);
    assert s[0] == t[0];
  }

  lemma ValueTestPanics(compiles: string -> bool, f: Field, op: Comparison, field: string, value: string, v: string)
    requires FieldOk(f) && field == FieldText(f) + " " && value == " " + v
    ensures ParseValueTest(compiles, op, field, value).Panicked? <==> Lone(v)
  {
    ParsesField(f, " ");
    StripsUnlessLone(" ", v);
  }

  lemma EqualPanics(compiles: string -> bool, f: Field, t: string, v: string, s: string)
    requires FieldOk(f) && t == FieldText(f) && s == t + " == " + v && Trim(s) == s
    ensures ParseComparison(compiles, s).Panicked? <==> Lone(v)
  {
    FindsInTest(f, " == ", v, s, "==", 1, |t| + 1);
    PicksEqual(compiles, s, |t| + 1);
    CutsText(t, " == ", v, s);
    ValueTestPanics(compiles, f, Equal, s[..|t| + 1], s[|t| + 1 + 2..], v);
  }

  lemma NotEqualPanics(compiles: string -> bool, f: Field, t: string, v: string, s: string)
    requires FieldOk(f) && t == FieldText(f) && s == t + " != " + v && Trim(s) == s && !HasPair(v, '=', '=')
    ensures ParseComparison(compiles, s).Panicked? <==> Lone(v)
  {
    assert "==" == ['=', '='];
    NoPairInTest(f, t, " != ", v, s, '=');
    FindsInTest(f, " != ", v, s, "!=", 1, |t| + 1);
    PicksNotEqual(compiles, s, |t| + 1);
    CutsText(t, " != ", v, s);
    ValueTestPanics(compiles, f, NotEqual, s[..|t| + 1], s[|t| + 1 + 2..], v);
  }

  lemma MatchesFinds(f: Field, t: string, v: string, s: string)
    requires FieldOk(f) && t == FieldText(f) && s == t + " ~ " + v
    requires !HasPair(v, '=', '=') && !HasPair(v, '!', '=')
    ensures Find(s, "==", 0).None? && Find(s, "!=", 0).None? && Find(s, "~", 0) == Some(|t| + 1)
  {
    assert "==" == ['=', '='] && "!=" == ['!', '='];
    NoPairInTest(f, t, " ~ ", v, s, '=');
    NoPairInTest(f, t, " ~ ", v, s, '!');
    FindsInTest(f, " ~ ", v, s, "~", 1, |t| + 1);
  }

  lemma MatchesPanics(compiles: string -> bool, f: Field, t: string, v: string, s: string)
    requires FieldOk(f) && t == FieldText(f) && s == t + " ~ " + v && Trim(s) == s
    requires !HasPair(v, '=', '=') && !HasPair(v, '!', '=')
    ensures ParseComparison(compiles, s).Panicked? <==> Lone(v)
  {
    var p := |t| + 1;
    MatchesFinds(f, t, v, s);
    CutsText(t, " ~ ", v, s);
    assert s[p - 1] == ' ' && s[p + 1] == ' ';
    PicksMatches(compiles, s, p);
    ValueTestPanics(compiles, f, Matches, s[..p], s[p + 1..], v);
  }

  /** A single comparison, with any of the three operators, panics exactly when its value is one
      quotation mark, blanks aside, or a character beyond ASCII is outside quotes and parentheses. */
  lemma ComparisonPanicsExactlyWhen(compiles: string -> bool, f: Field, op: Comparison, v: string, s: string, input: string)
    requires FieldOk(f) && s == FieldText(f) + OpText(op) + v && Trim(input) == s && !Connected(s)
    requires op != Equal ==> !HasPair(v, '=', '=')
    requires op == Matches ==> !HasPair(v, '!', '=')
    ensures ParseExpression(compiles, input).Panicked? <==> Exposed(s) || Lone(v)
  {
    var t := FieldText(f);
    assert s == t + (OpText(op) + v);
    IsOneComparison(compiles, f, t, OpText(op) + v, s, input);
    match op
    case Equal => EqualPanics(compiles, f, t, v, s);
    case NotEqual => NotEqualPanics(compiles, f, t, v, s);
    case Matches => MatchesPanics(compiles, f, t, v, s);
  }

  lemma {:induction false} StripAllFails(parts: seq<string>)
    ensures StripAll(parts).None? <==> exists i :: 0 <= i < |parts| && Lone(parts[i])
  {
    if parts != [] {
      var rest := parts[1..];
      assert "" + parts[0] == parts[0];
      StripsUnlessLone("", parts[0]);
      StripAllFails(rest);
      assert forall i :: 0 <= i < |rest| ==> rest[i] == parts[i + 1];
      if i :| 0 <= i < |parts| && Lone(parts[i]) {
        assert i > 0 ==> rest[i - 1] == parts[i];
      }
    }
  }

  lemma MembershipFinds(f: Field, t: string, list: string, s: string)
    requires FieldOk(f) && t == FieldText(f) && s == t + " in " + list && !HasPair(list, '=', '=') && !HasPair(list, '!', '=')
    ensures Find(s, "==", 0).None? && Find(s, "!=", 0).None? && Find(s, " in ", 0) == Some(|t|)
  {
    assert "==" == ['=', '='] && "!=" == ['!', '='];
    NoPairInTest(f, t, " in ", list, s, '=');
    NoPairInTest(f, t, " in ", list, s, '!');
    FindsIn(f, list, s);
  }

  /** No ~ makes it a match test: there is none, or the first is part of !~ or ~=. */
  predicate NoMatchTest(s: string) {
    Find(s, "~", 0).None? || PartOfOther(s, Find(s, "~", 0).value)
  }

  /** The items of the list behind "in", as the parser cuts them. */
  function Items(list: string): seq<string> {
    Split(Trim(list), ',')
  }

  lemma MembershipPanics(compiles: string -> bool, f: Field, t: string, list: string, s: string)
    requires FieldOk(f) && t == FieldText(f) && s == t + " in " + list && Trim(s) == s && NoMatchTest(s)
    requires !HasPair(list, '=', '=') && !HasPair(list, '!', '=')
    ensures ParseComparison(compiles, s).Panicked? <==> exists i :: 0 <= i < |Items(list)| && Lone(Items(list)[i])
  {
    MembershipFinds(f, t, list, s);
    PicksMember(compiles, s, |t|);
    CutsMember(t, list, s);
    assert t + "" == t;
    ParsesField(f, "");
    StripAllFails(Items(list));
  }

  /** A membership test panics exactly when one of its items, cut at every comma whether quoted or
      not, is one quotation mark, blanks aside, or a character beyond ASCII is outside quotes and
      parentheses. */
  lemma MembershipPanicsExactlyWhen(compiles: string -> bool, f: Field, list: string, s: string, input: string)
    requires FieldOk(f) && s == FieldText(f) + " in " + list && Trim(input) == s && !Connected(s)
    requires !HasPair(list, '=', '=') && !HasPair(list, '!', '=') && NoMatchTest(s)
    ensures ParseExpression(compiles, input).Panicked? <==>
              Exposed(s) || exists i :: 0 <= i < |Items(list)| && Lone(Items(list)[i])
  {
    var rest := " in " + list;
    assert s == FieldText(f) + rest;
    IsOneComparison(compiles, f, FieldText(f), rest, s, input);
    MembershipPanics(compiles, f, FieldText(f), list, s);
  }

  // ---------------------------------------------------------------- inputs

  /** A lone quotation mark of either kind panics for every operator and field. */
  lemma LoneQuotePanics(compiles: string -> bool, f: Field, op: Comparison, c: char, input: string)
    requires FieldOk(f) && IsQuote(c) && Trim(input) == FieldText(f) + OpText(op) + [c]
    ensures ParseExpression(compiles, input).Panicked?
  {
    TrimSolid([c]);
    var s := FieldText(f) + OpText(op) + [c];
    NoConnectiveBehindField(f, FieldText(f), OpText(op) + [c], s);
    ComparisonPanicsExactlyWhen(compiles, f, op, [c], s, input);
  }

  lemma NoConnectiveBehindField(f: Field, t: string, rest: string, s: string)
    requires FieldOk(f) && t == FieldText(f) && s == t + rest && '|' !in rest && '&' !in rest
    ensures !Connected(s)
  {
    FieldTextChars(f);
    forall i: nat, op: string | Operator(op) && Looked(s, i)
      ensures !Hit(s, op, i)
    {
      if i < |t| {
        NoHitInField(t, s, op, i);
      } else {
        assert s[i] == rest[i - |t|] && s[i] in rest;
        NoHitWithout(s, op, i);
      }
    }
  }

  lemma NoHitInField(t: string, s: string, op: string, k: nat)
    requires t <= s && k < |t| && Operator(op) && t[0] in "hnt" && forall i :: 0 <= i < |t| ==> NameChar(t[i])
    ensures !Hit(s, op, k)
  {
    if k == 0 {
      NoHitWithout(s, op, k);
    } else {
      assert NameChar(t[k - 1]) && s[k - 1] == t[k - 1];
    }
  }

  /** A comma in quotes, the only item of a list, panics: the list is cut at it. */
  lemma QuotedCommaPanics(compiles: string -> bool, f: Field)
    requires FieldOk(f)
    ensures ParseExpression(compiles, FieldText(f) + " in " + "\",\"").Panicked?
  {
    var list, q := "\",\"", "\"";
    var s := FieldText(f) + " in " + list;
    FieldTextChars(f);
    TrimSolid(s);
    TrimSolid(list);
    TrimSolid(q);
    assert list == q + "," + q;
    SplitsAt(q, q);
    SplitsNot(q);
    assert Items(list)[0] == q;
    assert s == FieldText(f) + (" in " + list);
    NoConnectiveBehindField(f, FieldText(f), " in " + list, s);
    NoTildeInList(f, list, s);
    MembershipPanicsExactlyWhen(compiles, f, list, s, s);
  }

  lemma NoTildeInList(f: Field, list: string, s: string)
    requires FieldOk(f) && s == FieldText(f) + " in " + list && '~' !in list
    ensures NoMatchTest(s)
  {
    FieldTextChars(f);
    NoTilde(s);
  }

  lemma {:induction false} PlainState(s: string, i: nat)
    requires i <= |s| && forall j :: 0 <= j < i ==> s[j] != '"' && s[j] != '(' && s[j] != ')'
    ensures StateAt(s, i) == (0, false)
  {
    if i > 0 {
      PlainState(s, i - 1);
    }
  }

  /** Every text without double quotes and parentheses exposes its characters. */
  lemma ExposesAll(s: string, i: nat)
    requires i < |s| && !IsAscii(s[i]) && '"' !in s && '(' !in s && ')' !in s
    ensures Exposed(s)
  {
    assert forall j :: 0 <= j < |s| ==> s[j] in s;
    PlainState(s, i);
    assert Looked(s, i);
  }

  /** A value with a character beyond ASCII, without quotes or in single quotes, panics although no
      quotation mark stands alone. */
  lemma WideValuePanics(compiles: string -> bool)
    ensures ParseExpression(compiles, "http.host == \U{E9}").Panicked? && !LoneQuote("http.host == \U{E9}")
    ensures ParseExpression(compiles, "http.host == '\U{E9}'").Panicked? && !LoneQuote("http.host == '\U{E9}'")
  {
    var t, c := "http.host == ", '\U{E9}';
    assert t + [c] == "http.host == \U{E9}" && t + "'" + [c] + "'" == "http.host == '\U{E9}'";
    WideValuePanicsAs(compiles, t, [c], t + [c], |t|);
    WideValuePanicsAs(compiles, t, "'" + [c] + "'", t + "'" + [c] + "'", |t| + 1);
    NoQuoteAtAll(t, c, t + [c]);
    QuotesHold(t, c, t + "'" + [c] + "'");
  }

  predicate Inner(c: char) {
    !IsSpace(c) && !IsQuote(c) && c !in ",)|&~="
  }

  lemma NoQuoteAtAll(t: string, c: char, s: string)
    requires s == t + [c] && Inner(c) && '"' !in t && '\'' !in t
    ensures !LoneQuote(s)
  {
    forall q: nat | q < |s|
      ensures !IsQuote(s[q])
    {
      assert q < |t| ==> s[q] in t;
    }
  }

  /** A character in single quotes keeps both from standing alone. */
  lemma QuotesHold(t: string, c: char, s: string)
    requires s == t + "'" + [c] + "'" && Inner(c) && '"' !in t && '\'' !in t
    ensures !LoneQuote(s)
  {
    var n := |t|;
    assert s[n] == '\'' && s[n + 1] == c && s[n + 2] == '\'' && |s| == n + 3;
    InnerIsNoStop(s, n + 1);
    NotEndedAt(s, n + 1);
    InnerIsNoMark(s, n + 2);
    NotOpenedAt(s, n + 2);
    forall q: nat | q < |s| && IsQuote(s[q])
      ensures q == n || q == n + 2
    {
      assert q < n ==> s[q] == t[q] && t[q] in t;
    }
  }

  lemma InnerIsNoStop(s: string, p: nat)
    requires p < |s| && Inner(s[p])
    ensures !Stop(s, p)
  {
    assert StartsAt(s, p, "||") ==> s[p + 0] == "||"[0];
    assert StartsAt(s, p, "&&") ==> s[p + 0] == "&&"[0];
  }

  lemma InnerIsNoMark(s: string, p: nat)
    requires 0 < p <= |s| && Inner(s[p - 1])
    ensures !Mark(s, p)
  {
    assert p >= 2 && StartsAt(s, p - 2, "==") ==> s[p - 2 + 1] == "=="[1];
    assert p >= 2 && StartsAt(s, p - 2, "!=") ==> s[p - 2 + 1] == "!="[1];
    assert p >= 4 && StartsAt(s, p - 4, " in ") ==> s[p - 4 + 3] == " in "[3];
  }

  lemma WideValuePanicsAs(compiles: string -> bool, t: string, v: string, s: string, i: nat)
    requires t == FieldText(HttpHost) + OpText(Equal) && s == t + v && |v| > 0 && !IsSpace(v[|v| - 1])
    requires i < |s| && !IsAscii(s[i]) && '"' !in v && '(' !in v && ')' !in v && '|' !in v && '&' !in v
    ensures ParseExpression(compiles, s).Panicked?
  {
    TrimSolid(s);
    assert s == "http.host" + (" == " + v);
    NoConnectiveBehindField(HttpHost, "http.host", " == " + v, s);
    ExposesAll(s, i);
    ComparisonPanicsExactlyWhen(compiles, HttpHost, Equal, v, s, s);
  }

  lemma NotEndedAt(s: string, at: nat)
    requires at < |s| && !IsSpace(s[at]) && !Stop(s, at)
    ensures !Ends(s, at)
  {
    forall p: nat | Blanks(s, at, p)
      ensures !Stop(s, p)
    {
      assert p > at ==> IsSpace(s[at]);
    }
  }

  lemma NotOpenedAt(s: string, at: nat)
    requires 0 < at <= |s| && !IsSpace(s[at - 1]) && !Mark(s, at)
    ensures !Opens(s, at)
  {
    forall p: nat | Blanks(s, p, at)
      ensures !Mark(s, p)
    {
      assert p < at ==> IsSpace(s[at - 1]);
    }
  }
}
