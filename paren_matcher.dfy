/**
 * Checking that the grouping symbols `()`, `[]` and `{}` of an expression
 * match, with a stack of the opening symbols not yet closed. Every other
 * character is ignored.
 */
module ParenMatching {
  import opened Wrappers
  import opened ArrayStacks

  /** `(`, `[` and `{` open a group; none of them closes one. */
  predicate IsOpening(c: char): (b: bool)
    ensures b ==> c != ')' && c != ']' && c != '}'
  {
    c == '(' || c == '[' || c == '{'
  }

  /** `)`, `]` and `}` close a group; none of them opens one. */
  predicate IsClosing(c: char): (b: bool)
    ensures b ==> !IsOpening(c)
  {
    c == ')' || c == ']' || c == '}'
  }

  /** `close` is the partner of `open`: partners pair an opening symbol with a closing one. */
  predicate Matches(open: char, close: char): (b: bool)
    ensures b ==> IsOpening(open) && IsClosing(close)
  {
    || (open == '(' && close == ')')
    || (open == '[' && close == ']')
    || (open == '{' && close == '}')
  }

  // ---------------------------------------------------------------------
  // The scan, as a function of the stack
  // ---------------------------------------------------------------------

  /**
   * One character of the scan on the stack `st` (bottom first): an opening
   * symbol is pushed, a closing symbol must pop its partner, anything else
   * leaves the stack alone. `None` is the scan turning invalid.
   */
  function Step(st: seq<char>, c: char): Option<seq<char>> {
    if IsOpening(c) then Some(st + [c])
    else if IsClosing(c) then
      if st == [] then None
      else if Matches(st[|st| - 1], c) then Some(st[..|st| - 1])
      else None
    else Some(st)
  }

  /** The stack after scanning all of `s` from `st`, or `None` once a closing symbol has no partner. */
  function Run(st: seq<char>, s: string): Option<seq<char>>
    decreases |s|
  {
    if s == [] then Some(st)
    else
      match Step(st, s[0])
      case None => None
      case Some(st') => Run(st', s[1..])
  }

  /** The answer the matcher gives: the scan stays valid and ends with an empty stack. */
  predicate Matched(s: string) {
    Run([], s) == Some([])
  }

  /** Scanning `s + [c]` is scanning `s` and then taking one more step. */
  lemma {:induction false} RunSnoc(st: seq<char>, s: string, c: char)
    ensures Run(st, s + [c]) == (match Run(st, s) case None => None case Some(x) => Step(x, c))
    decreases |s|
  {
    if s == [] {
      assert s + [c] == [c];
      assert Run(st, [c]) == (match Step(st, c) case None => None case Some(x) => Run(x, []));
    } else {
      assert (s + [c])[0] == s[0] && (s + [c])[1..] == s[1..] + [c];
      match Step(st, s[0])
      case None =>
      case Some(st') => RunSnoc(st', s[1..], c);
    }
  }

  /** Scanning `a + b` is scanning `a` and then scanning `b` from where `a` left the stack. */
  lemma {:induction false} RunAppend(st: seq<char>, a: string, b: string)
    ensures Run(st, a + b) == (match Run(st, a) case None => None case Some(x) => Run(x, b))
    decreases |a|
  {
    if a == [] {
      assert a + b == b;
    } else {
      assert (a + b)[0] == a[0] && (a + b)[1..] == a[1..] + b;
      match Step(st, a[0])
      case None =>
      case Some(st') => RunAppend(st', a[1..], b);
    }
  }

  /** An invalid scan stays invalid, whatever follows. */
  lemma InvalidStaysInvalid(st: seq<char>, a: string, b: string)
    requires Run(st, a) == None
    ensures Run(st, a + b) == None
  {
    RunAppend(st, a, b);
  }

  /** Scanning `[c] + s` is one step on `c` and then scanning `s`. */
  lemma RunCons(st: seq<char>, c: char, s: string)
    ensures Run(st, [c] + s) == (match Step(st, c) case None => None case Some(x) => Run(x, s))
  {
    assert ([c] + s)[0] == c && ([c] + s)[1..] == s;
  }

  // ---------------------------------------------------------------------
  // What "all grouping symbols match" means
  // ---------------------------------------------------------------------

  /**
   * A derivation of an expression in which every grouping symbol is
   * matched: nothing; a character that is no grouping symbol, then the
   * rest; or an opening symbol, a matched inside, its partner, then the
   * rest.
   */
  datatype Parse = End | Skip(c: char, rest: Parse) | Group(open: char, inside: Parse, close: char, rest: Parse)

  predicate ValidParse(p: Parse) {
    match p
    case End => true
    case Skip(c, rest) => !IsOpening(c) && !IsClosing(c) && ValidParse(rest)
    case Group(o, inside, c, rest) => IsOpening(o) && Matches(o, c) && ValidParse(inside) && ValidParse(rest)
  }

  /** The expression a derivation spells out. */
  function Text(p: Parse): string {
    match p
    case End => []
    case Skip(c, rest) => [c] + Text(rest)
    case Group(o, inside, c, rest) => [o] + Text(inside) + [c] + Text(rest)
  }

  /** All grouping symbols of `s` match: `s` has a derivation. */
  ghost predicate Balanced(s: string) {
    exists p :: ValidParse(p) && Text(p) == s
  }

  /** A closing symbol is never an opening symbol, so a matched pair pops what its opening pushed. */
  lemma PairPops(st: seq<char>, o: char, c: char)
    requires Matches(o, c)
    ensures Step(st + [o], c) == Some(st)
  {
    assert (st + [o])[|st|] == o && (st + [o])[..|st|] == st;
  }

  /** A derived expression leaves any stack as it found it. */
  lemma {:induction false} ParsedKeepsStack(p: Parse, st: seq<char>)
    requires ValidParse(p)
    ensures Run(st, Text(p)) == Some(st)
    decreases p
  {
    match p
    case End =>
    case Skip(c, rest) =>
      ParsedKeepsStack(rest, st);
      RunCons(st, c, Text(rest));
    case Group(o, inside, c, rest) =>
      ParsedKeepsStack(inside, st + [o]);
      ParsedKeepsStack(rest, st);
      var tail := [c] + Text(rest);
      assert Text(p) == [o] + (Text(inside) + tail);
      RunCons(st, o, Text(inside) + tail);
      RunAppend(st + [o], Text(inside), tail);
      RunCons(st + [o], c, Text(rest));
      PairPops(st, o, c);
  }

  /** The text of `first`, then each closing symbol of `cs` followed by the text of the matching entry of `qs`. */
  function Interleave(first: Parse, qs: seq<Parse>, cs: string): string
    requires |qs| == |cs|
  {
    Text(first) + Tail(qs, cs)
  }

  function Tail(qs: seq<Parse>, cs: string): string
    requires |qs| == |cs|
    decreases |cs|
  {
    if cs == [] then [] else [cs[0]] + Text(qs[0]) + Tail(qs[1..], cs[1..])
  }

  /** `cs` holds the partners of the symbols on `st`, top of the stack first. */
  ghost predicate ClosesStack(st: seq<char>, cs: string) {
    |cs| == |st| && forall j :: 0 <= j < |st| ==> Matches(st[|st| - 1 - j], cs[j])
  }

  lemma ClosesStackPush(st: seq<char>, o: char, cs: string)
    requires ClosesStack(st + [o], cs)
    ensures Matches(o, cs[0]) && ClosesStack(st, cs[1..])
  {
    var st' := st + [o];
    assert st'[|st'| - 1 - 0] == o;
    forall j | 0 <= j < |st| ensures Matches(st[|st| - 1 - j], cs[1..][j]) {
      assert st'[|st'| - 1 - (j + 1)] == st[|st| - 1 - j];
    }
  }

  lemma ClosesStackPop(st: seq<char>, c: char, cs: string)
    requires st != [] && Matches(st[|st| - 1], c) && ClosesStack(st[..|st| - 1], cs)
    ensures ClosesStack(st, [c] + cs)
  {
    var front := st[..|st| - 1];
    forall j | 0 <= j < |st| ensures Matches(st[|st| - 1 - j], ([c] + cs)[j]) {
      if j > 0 {
        assert st[|st| - 1 - j] == front[|front| - 1 - (j - 1)];
      }
    }
  }

  /** What a parse of the scan's remainder means. */
  ghost predicate ParsesScan(st: seq<char>, first: Parse, qs: seq<Parse>, cs: string) {
    && ValidParse(first) && (forall j :: 0 <= j < |qs| ==> ValidParse(qs[j]))
    && |qs| == |cs| && ClosesStack(st, cs)
  }

  /** An opening symbol in front: it starts a group that its partner, the first closing symbol of `cs'`, ends. */
  lemma ParseOpening(st: seq<char>, o: char, f': Parse, qs': seq<Parse>, cs': string) returns (first: Parse, qs: seq<Parse>, cs: string)
    requires IsOpening(o) && ParsesScan(st + [o], f', qs', cs')
    ensures ParsesScan(st, first, qs, cs)
    ensures Interleave(first, qs, cs) == [o] + Interleave(f', qs', cs')
  {
    ClosesStackPush(st, o, cs');
    first, qs, cs := Group(o, f', cs'[0], qs'[0]), qs'[1..], cs'[1..];
    AllValidTail(qs');
    assert Tail(qs', cs') == [cs'[0]] + Text(qs'[0]) + Tail(qs, cs);
    GroupThenTail(o, f', cs'[0], qs'[0], Tail(qs, cs));
  }

  lemma AllValidTail(qs: seq<Parse>)
    requires qs != [] && forall j :: 0 <= j < |qs| ==> ValidParse(qs[j])
    ensures forall j :: 0 <= j < |qs| - 1 ==> ValidParse(qs[1..][j])
  {
    forall j | 0 <= j < |qs| - 1 ensures ValidParse(qs[1..][j]) {
      assert qs[1..][j] == qs[j + 1];
    }
  }

  /** The text of a group followed by `t`, regrouped from the right. */
  lemma GroupThenTail(o: char, f: Parse, c: char, q: Parse, t: string)
    ensures Text(Group(o, f, c, q)) + t == [o] + (Text(f) + ([c] + Text(q) + t))
  {
    var a, b := Text(f), Text(q);
    assert Text(Group(o, f, c, q)) == [o] + a + [c] + b;
    assert ([o] + a + [c] + b) + t == [o] + (a + ([c] + b + t));
  }

  /** A closing symbol in front: an empty derivation, then the partner of the top symbol of `st`. */
  lemma ParseClosing(st: seq<char>, c: char, f': Parse, qs': seq<Parse>, cs': string) returns (first: Parse, qs: seq<Parse>, cs: string)
    requires st != [] && Matches(st[|st| - 1], c) && ParsesScan(st[..|st| - 1], f', qs', cs')
    ensures ParsesScan(st, first, qs, cs)
    ensures Interleave(first, qs, cs) == [c] + Interleave(f', qs', cs')
  {
    ClosesStackPop(st, c, cs');
    first, qs, cs := End, [f'] + qs', [c] + cs';
    assert qs[0] == f' && qs[1..] == qs' && cs[0] == c && cs[1..] == cs';
  }

  /** Any other character in front is skipped by the first derivation. */
  lemma ParseOther(st: seq<char>, c: char, f': Parse, qs': seq<Parse>, cs': string) returns (first: Parse, qs: seq<Parse>, cs: string)
    requires !IsOpening(c) && !IsClosing(c) && ParsesScan(st, f', qs', cs')
    ensures ParsesScan(st, first, qs, cs)
    ensures Interleave(first, qs, cs) == [c] + Interleave(f', qs', cs')
  {
    first, qs, cs := Skip(c, f'), qs', cs';
  }

  /**
   * A scan from `st` that ends with an empty stack reads a derivation,
   * then a partner of the top symbol of `st` and a derivation, and so on
   * down the stack: the parse is returned.
   */
  lemma {:induction false} ParseScan(st: seq<char>, s: string) returns (first: Parse, qs: seq<Parse>, cs: string)
    requires Run(st, s) == Some([])
    ensures ParsesScan(st, first, qs, cs) && Interleave(first, qs, cs) == s
    decreases |s|
  {
    if s == [] {
      first, qs, cs := End, [], [];
    } else {
      var c, rest := s[0], s[1..];
      assert s == [c] + rest;
      RunCons(st, c, rest);
      if IsOpening(c) {
        var f', qs', cs' := ParseScan(st + [c], rest);
        first, qs, cs := ParseOpening(st, c, f', qs', cs');
      } else if IsClosing(c) {
        var f', qs', cs' := ParseScan(st[..|st| - 1], rest);
        first, qs, cs := ParseClosing(st, c, f', qs', cs');
      } else {
        var f', qs', cs' := ParseScan(st, rest);
        first, qs, cs := ParseOther(st, c, f', qs', cs');
      }
    }
  }

  /** The matcher's answer is exactly "the expression is balanced". */
  lemma MatchedIffBalanced(s: string)
    ensures Matched(s) <==> Balanced(s)
  {
    if Balanced(s) {
      var p :| ValidParse(p) && Text(p) == s;
      ParsedKeepsStack(p, []);
    }
    if Matched(s) {
      var p, qs, cs := ParseScan([], s);
      assert Text(p) == Interleave(p, qs, cs);
    }
  }

  // ---------------------------------------------------------------------
  // The matcher
  // ---------------------------------------------------------------------

  /**
   * Scans `expr` left to right with a stack as large as `expr`, stopping at
   * the first closing symbol that has no partner on top of the stack;
   * answers whether the scan got through and left the stack empty.
   */
  method ParenMatch(expr: string) returns (r: bool)
    ensures r == Matched(expr)
    ensures r <==> Balanced(expr)
  {
    var n := |expr|;
    var S := new ArrayStack<char>(n);
    var valid := true;
    var i := 0;
    while i < n && valid
      invariant 0 <= i <= n
      invariant fresh(S) && fresh(S.S) && S.Valid() && S.S.Length == n
      invariant |S.Contents| <= i
      invariant valid ==> Run([], expr[..i]) == Some(S.Contents)
      invariant !valid ==> Run([], expr[..i]) == None
      decreases n - i
    {
      var c := expr[i];
      assert expr[..i + 1] == expr[..i] + [c];
      RunSnoc([], expr[..i], c);
      if IsOpening(c) {
        var pushed := S.Push(c);
        assert pushed.Pass?;  // the stack is as large as the expression
      } else if IsClosing(c) {
        if S.IsEmpty() {
          valid := false;
        } else {
          var popped := S.Pop();
          if !Matches(popped.value, c) {
            valid := false;
          }
        }
      }
      i := i + 1;
    }
    r := valid && S.IsEmpty();
    if !valid {
      assert expr == expr[..i] + expr[i..];
      InvalidStaysInvalid([], expr[..i], expr[i..]);
    } else {
      assert expr[..i] == expr;
    }
    MatchedIffBalanced(expr);
  }

  // The sample expressions of the matcher's test driver, with the outcome of
  // the scan for each.

  /** Operands between groups are skipped. */
  lemma SampleOperandsAndGroups()
    ensures Matched("(a+b)*[c]")
  {
    var p := Group('(', Skip('a', Skip('+', Skip('b', End))), ')', Skip('*', Group('[', Skip('c', End), ']', End)));
    assert Text(p) == "(a+b)*[c]";
    ParsedKeepsStack(p, []);
  }

  lemma SampleNestedPair()
    ensures Matched("([])")
  {
    var p := Group('(', Group('[', End, ']', End), ')', End);
    assert Text(p) == "([])";
    ParsedKeepsStack(p, []);
  }

  /** Wrong nesting: `)` arrives while `[` is on top. */
  lemma SampleWrongNesting()
    ensures Run([], "([)]") == None && !Matched("([)]")
  {
  }

  /** A closing symbol with nothing open. */
  lemma SampleClosingTooEarly()
    ensures Run([], ")a+b") == None && !Matched(")a+b")
  {
  }

  /** An opening symbol left over at the end. */
  lemma SampleLeftoverOpening()
    ensures Run([], "(()") == Some("(") && !Matched("(()")
  {
    var r := Run([], "(()");
    assert r.Some? && |r.value| == 1 && r.value[0] == '(';
    assert r.value == "(";
  }

  lemma SampleSiblingsInside()
    ensures Matched("{[()()]}")
  {
    var p := Group('{', Group('[', Group('(', End, ')', Group('(', End, ')', End)), ']', End), '}', End);
    assert Text(p) == "{[()()]}";
    ParsedKeepsStack(p, []);
  }

  lemma SampleEmpty()
    ensures Matched("")
  {
  }

  /** No grouping symbols at all. */
  lemma SampleNoSymbols()
    ensures Matched("abc + 123")
  {
    var p := Skip('a', Skip('b', Skip('c', Skip(' ', Skip('+', Skip(' ', Skip('1', Skip('2', Skip('3', End)))))))));
    assert Text(p) == "abc + 123";
    ParsedKeepsStack(p, []);
  }

  lemma SampleThreeKinds()
    ensures Matched("([{}])")
  {
    var p := Group('(', Group('[', Group('{', End, '}', End), ']', End), ')', End);
    assert Text(p) == "([{}])";
    ParsedKeepsStack(p, []);
  }

  /** `]` arrives while `(` is on top. */
  lemma SampleMismatchedClosing()
    ensures Run([], "((2+3)*5])") == None && !Matched("((2+3)*5])")
  {
  }
}
