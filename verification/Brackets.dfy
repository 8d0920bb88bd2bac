/** CppInterpreter::evalBrackets<int> on expressions whose brackets are not nested: each bracket is
    reduced as soon as it closes, and its result takes its place in the expression around it. */
module Brackets {
  import opened Text
  import opened Decimal
  import opened Interpreter

  /** A token outside brackets, or a bracket and what is in it. */
  datatype Item = Tok(t: string) | Group(g: seq<string>)

  predicate Operand(item: Item) {
    match item
    case Tok(t) => Literal(t)
    case Group(g) => WellFormed(g)
  }

  /** operand (operator operand)*, an operand being a literal or a bracketed expression. */
  predicate Shaped(items: seq<Item>) {
    items != [] && Operand(items[0])
    && (|items| > 1 ==> |items| > 2 && items[1].Tok? && IsOperator(items[1].t) && Shaped(items[2..]))
  }

  function Tokens(item: Item): seq<string> {
    match item
    case Tok(t) => [t]
    case Group(g) => ["("] + g + [")"]
  }

  function Flatten(items: seq<Item>): seq<string> {
    if items == [] then [] else Tokens(items[0]) + Flatten(items[1..])
  }

  predicate CleanItem(item: Item) {
    match item
    case Tok(t) => t != "(" && t != ")"
    case Group(g) => WellFormed(g)
  }

  predicate Clean(items: seq<Item>) { items == [] || (CleanItem(items[0]) && Clean(items[1..])) }

  /** The token an item turns into. */
  function Plugged(item: Item): Result<string>
    requires CleanItem(item)
  {
    match item
    case Tok(t) => Ok(t)
    case Group(g) => Reduced(g)
  }

  function PlugAll(items: seq<Item>): Result<seq<string>>
    requires Clean(items)
  {
    if items == [] then Ok([])
    else
      var x :- Plugged(items[0]);
      var rest :- PlugAll(items[1..]);
      Ok([x] + rest)
  }

  // ---------------------------------------------------------------- what a bracketed expression means

  ghost function Worth(item: Item): int
    requires Operand(item)
  {
    match item
    case Tok(t) => Value(t)
    case Group(g) => ValueOf(g)
  }

  ghost function ReadItems(st: Reading, op: string, items: seq<Item>): Reading
    requires Shaped(items)
    decreases |items|
  {
    var next := Read(st, op, Worth(items[0]));
    if |items| == 1 then next else ReadItems(next, items[1].t, items[2..])
  }

  /** The value, brackets first and then the code's own precedence. */
  ghost function BracketValue(items: seq<Item>): int
    requires Shaped(items)
  {
    ReadItems(START, "+", items).Total()
  }

  ghost predicate ZeroIn(items: seq<Item>)
    requires Shaped(items)
  {
    |items| > 1 && (Shaped(items[2..]) && ((items[1].t == "/" && Worth(items[2..][0]) == 0) || ZeroIn(items[2..])))
  }

  /** What goes wrong inside a bracket; "" if nothing does. */
  ghost function Fault(item: Item): string
    requires CleanItem(item)
  {
    match item
    case Tok(_) => ""
    case Group(g) => if ZeroDivisor(g) then SIGFPE else if !Subtractable(g) then BAD_INT else ""
  }

  ghost function FirstFault(items: seq<Item>): string
    requires Clean(items)
  {
    if items == [] then "" else if Fault(items[0]) != "" then Fault(items[0]) else FirstFault(items[1..])
  }

  lemma LiteralIsClean(t: string)
    requires Literal(t) || IsOperator(t)
    ensures t != "(" && t != ")"
  {
    assert t[0] == '-' || t[0] == '/' || t[0] == '*' || t[0] == '+' || IsDigit(t[0]);
    assert "("[0] == '(' && ")"[0] == ')';
  }

  lemma {:induction false} ShapedIsClean(items: seq<Item>)
    requires Shaped(items)
    ensures Clean(items)
    decreases |items|
  {
    if items[0].Tok? { LiteralIsClean(items[0].t); }
    if |items| > 1 {
      LiteralIsClean(items[1].t);
      ShapedIsClean(items[2..]);
      assert items[1..][1..] == items[2..];
    }
  }

  /** A bracket that does not fail turns into a literal of its value. */
  lemma PluggedIsWorth(item: Item)
    requires CleanItem(item)
    ensures Plugged(item).Ok? <==> Fault(item) == ""
    ensures Plugged(item).Throw? ==> Plugged(item).message == Fault(item)
    ensures Operand(item) && Plugged(item).Ok? ==> Literal(Plugged(item).value) && Value(Plugged(item).value) == Worth(item)
  {
    match item
    case Tok(_) =>
    case Group(g) =>
      ReducedIsValue(g);
      PrintedIsLiteral(ValueOf(g));
      if |g| == 1 { SingleMeaning(g); }
  }

  lemma {:induction false} PlugAllFaults(items: seq<Item>)
    requires Clean(items)
    ensures PlugAll(items).Ok? <==> FirstFault(items) == ""
    ensures PlugAll(items).Throw? ==> PlugAll(items).message == FirstFault(items)
  {
    if items != [] {
      PluggedIsWorth(items[0]);
      PlugAllFaults(items[1..]);
    }
  }

  lemma PlugOne(items: seq<Item>)
    requires Clean(items) && items != [] && PlugAll(items).Ok?
    ensures Plugged(items[0]).Ok? && PlugAll(items[1..]).Ok?
    ensures PlugAll(items).value == [Plugged(items[0]).value] + PlugAll(items[1..]).value
  {}

  lemma PlugTwo(items: seq<Item>)
    requires Shaped(items) && Clean(items) && |items| > 1 && PlugAll(items).Ok?
    ensures Clean(items[2..]) && PlugAll(items[2..]).Ok? && Plugged(items[0]).Ok?
    ensures PlugAll(items).value == [Plugged(items[0]).value, items[1].t] + PlugAll(items[2..]).value
  {
    assert items[1..][1..] == items[2..];
    PlugOne(items);
    PlugOne(items[1..]);
    TwoInFront(PlugAll(items).value, PlugAll(items[1..]).value, Plugged(items[0]).value, items[1].t, PlugAll(items[2..]).value);
  }

  lemma TwoInFront(a: seq<string>, b: seq<string>, x: string, y: string, rest: seq<string>)
    requires a == [x] + b && b == [y] + rest
    ensures a == [x, y] + rest
  {}

  /** With its brackets replaced by their results an expression reads the same. */
  lemma {:induction false} PlugMeaning(items: seq<Item>, st: Reading, op: string)
    requires Shaped(items) && Clean(items) && PlugAll(items).Ok?
    ensures WellFormed(PlugAll(items).value) && ReadAll(st, op, PlugAll(items).value) == ReadItems(st, op, items)
    decreases |items|
  {
    var o := PlugAll(items).value;
    PluggedIsWorth(items[0]);
    if |items| > 1 {
      PlugTwo(items);
      PlugMeaning(items[2..], Read(st, op, Worth(items[0])), items[1].t);
      assert o[2..] == PlugAll(items[2..]).value;
    }
  }

  lemma {:induction false} PlugZero(items: seq<Item>)
    requires Shaped(items) && Clean(items) && PlugAll(items).Ok? && WellFormed(PlugAll(items).value)
    ensures ZeroDivisor(PlugAll(items).value) == ZeroIn(items)
    decreases |items|
  {
    var o := PlugAll(items).value;
    if |items| > 1 {
      PlugTwo(items);
      var rest := PlugAll(items[2..]).value;
      assert o[2..] == rest && WellFormed(rest);
      PluggedIsWorth(items[2..][0]);
      assert Second(o) == rest[0];
      PlugZero(items[2..]);
    }
  }

  /** evalBrackets: the brackets from left to right, then what is around them. */
  function Bracketed(items: seq<Item>): Result<string>
    requires Shaped(items)
  {
    ShapedIsClean(items);
    var o :- PlugAll(items);
    PlugMeaning(items, START, "+");
    Reduced(o)
  }

  /** The result is the value of the expression. Otherwise the leftmost bracket that fails decides the
      exception, or, if none does, what is around the brackets divides by zero or subtracts a term
      below zero. */
  lemma BracketedIsValue(items: seq<Item>)
    requires Shaped(items)
    ensures Clean(items)
    ensures var fault := FirstFault(items); var fine := ReadItems(START, "+", items).Fine();
      match Bracketed(items)
      case Ok(v) => fault == "" && !ZeroIn(items) && fine && Literal(v) && Value(v) == BracketValue(items)
      case Throw(e) =>
        && (fault != "" || ZeroIn(items) || !fine)
        && e == if fault != "" then fault else if ZeroIn(items) then SIGFPE else BAD_INT
  {
    ShapedIsClean(items);
    PlugAllFaults(items);
    if PlugAll(items).Ok? {
      PlugMeaning(items, START, "+");
      PlugZero(items);
      var o := PlugAll(items).value;
      ReducedIsValue(o);
      PrintedIsLiteral(ValueOf(o));
      if |o| == 1 { SingleMeaning(o); }
    }
  }

  // ---------------------------------------------------------------- the loop of evalBrackets

  lemma {:induction false} NoBracketInside(g: seq<string>, k: nat)
    requires WellFormed(g) && k < |g|
    ensures g[k] != "(" && g[k] != ")"
    decreases |g|
  {
    if k == 0 {
      LiteralIsClean(g[0]);
    } else if k == 1 {
      LiteralIsClean(g[1]);
    } else {
      NoBracketInside(g[2..], k - 2);
    }
  }

  /** What is still to be read: the rest of an open bracket, then the items behind it. */
  function Unread(st: bool, open: seq<string>, left: seq<Item>): seq<string> {
    if st && left != [] then open + ([")"] + Flatten(left[1..])) else Flatten(left)
  }

  /** The loop stands in front of an item, or inside a bracket with `going` read and `open` to come. */
  ghost predicate Standing(st: bool, going: seq<string>, open: seq<string>, left: seq<Item>) {
    && Clean(left)
    && (if st then left != [] && left[0] == Group(going + open) else going == [])
  }

  /** The tokens collected so far, in front of what is to come. */
  function Prepended(curr: seq<string>, r: Result<seq<string>>): Result<seq<string>> {
    match r
    case Ok(o) => Ok(curr + o)
    case Throw(e) => Throw(e)
  }

  /** Inside a bracket the next token closes it just when nothing of it is left. */
  lemma NextInside(going: seq<string>, open: seq<string>, left: seq<Item>)
    requires Standing(true, going, open, left)
    ensures var u := Unread(true, open, left);
      && u != [] && u[0] != "(" && (u[0] == ")" <==> open == [])
      && (open == [] ==> u[1..] == Flatten(left[1..]))
      && (open != [] ==> u[0] == open[0] && u[1..] == Unread(true, open[1..], left))
  {
    var close := [")"] + Flatten(left[1..]);
    if open != [] {
      assert (going + open)[|going|] == open[0];
      NoBracketInside(going + open, |going|);
      TailOf(open, close);
    } else {
      assert [] + close == close;
    }
  }

  lemma TailOf(a: seq<string>, b: seq<string>)
    requires a != []
    ensures (a + b)[0] == a[0] && (a + b)[1..] == a[1..] + b
  {}

  /** Between brackets the next token opens one just when the next item is one. */
  lemma NextOutside(left: seq<Item>)
    requires Clean(left) && left != []
    ensures var u := Flatten(left);
      && u != [] && u[0] != ")" && (u[0] == "(" <==> left[0].Group?)
      && (left[0].Group? ==> u[1..] == Unread(true, left[0].g, left))
      && (left[0].Tok? ==> u[0] == left[0].t && u[1..] == Flatten(left[1..]))
  {
    var rest := Flatten(left[1..]);
    match left[0]
    case Tok(t) => TailOf([t], rest);
    case Group(g) => Opening(g, rest);
  }

  lemma Opening(g: seq<string>, rest: seq<string>)
    ensures var u := (["("] + g + [")"]) + rest; u[0] == "(" && u[1..] == g + ([")"] + rest)
  {}

  /** A finished item moves from what is to come to what is collected. */
  lemma Collected(curr: seq<string>, left: seq<Item>, x: string)
    requires Clean(left) && left != [] && Plugged(left[0]) == Ok(x)
    ensures Prepended(curr, PlugAll(left)) == Prepended(curr + [x], PlugAll(left[1..]))
  {
    if PlugAll(left[1..]).Ok? { ConcatAssoc(curr, [x], PlugAll(left[1..]).value); }
  }

  /** The loop invariant of evalBrackets. */
  ghost predicate At(items: seq<Item>, unread: seq<string>, curr: seq<string>, going: seq<string>, st: bool,
                     open: seq<string>, left: seq<Item>)
    requires Clean(items)
  {
    Standing(st, going, open, left) && unread == Unread(st, open, left) && Prepended(curr, PlugAll(left)) == PlugAll(items)
  }

  lemma AtStart(items: seq<Item>)
    requires Clean(items)
    ensures At(items, Flatten(items), [], [], false, [], items)
  {
    if PlugAll(items).Ok? { assert [] + PlugAll(items).value == PlugAll(items).value; }
  }

  lemma AtEnd(items: seq<Item>, curr: seq<string>, going: seq<string>, st: bool, open: seq<string>, left: seq<Item>)
    requires Clean(items) && At(items, [], curr, going, st, open, left)
    ensures PlugAll(items) == Ok(curr)
  {
    if st { NextInside(going, open, left); } else if left != [] { NextOutside(left); }
    assert curr + [] == curr;
  }

  lemma AtOpening(items: seq<Item>, unread: seq<string>, curr: seq<string>, going: seq<string>, st: bool,
                  open: seq<string>, left: seq<Item>)
    requires Clean(items) && At(items, unread, curr, going, st, open, left) && unread != [] && unread[0] == "("
    ensures left != [] && left[0].Group? && At(items, unread[1..], curr, going, true, left[0].g, left)
  {
    if st { NextInside(going, open, left); } else { NextOutside(left); }
    assert [] + left[0].g == left[0].g;
  }

  lemma AtClosing(items: seq<Item>, unread: seq<string>, curr: seq<string>, going: seq<string>, st: bool,
                  open: seq<string>, left: seq<Item>)
    requires Clean(items) && At(items, unread, curr, going, st, open, left) && unread != [] && unread[0] == ")"
    ensures left != [] && WellFormed(going)
    ensures Reduced(going).Ok? ==> At(items, unread[1..], curr + [Reduced(going).value], [], false, [], left[1..])
    ensures Reduced(going).Throw? ==> PlugAll(items) == Throw(Reduced(going).message)
  {
    if st { NextInside(going, open, left); } else { NextOutside(left); }
    assert going + [] == going;
    if Reduced(going).Ok? { Collected(curr, left, Reduced(going).value); }
  }

  lemma AtInside(items: seq<Item>, unread: seq<string>, curr: seq<string>, going: seq<string>, open: seq<string>, left: seq<Item>)
    requires Clean(items) && At(items, unread, curr, going, true, open, left)
    requires unread != [] && unread[0] != ")"
    ensures open != [] && At(items, unread[1..], curr, going + [unread[0]], true, open[1..], left)
  {
    NextInside(going, open, left);
    MoveOne(going, open, unread[0]);
  }

  lemma MoveOne(going: seq<string>, open: seq<string>, t: string)
    requires open != [] && open[0] == t
    ensures going + open == (going + [t]) + open[1..]
  {}

  lemma AtOutside(items: seq<Item>, unread: seq<string>, curr: seq<string>, going: seq<string>, open: seq<string>, left: seq<Item>)
    requires Clean(items) && At(items, unread, curr, going, false, open, left)
    requires unread != [] && unread[0] != "("
    ensures left != [] && At(items, unread[1..], curr + [unread[0]], going, false, open, left[1..])
  {
    NextOutside(left);
    Collected(curr, left, unread[0]);
  }

  method EvalBrackets(tokens: seq<string>, ghost items: seq<Item>) returns (r: Result<string>)
    requires Shaped(items) && tokens == Flatten(items)
    ensures r == Bracketed(items)
  {
    ShapedIsClean(items);
    var curr: seq<string>, going: seq<string>, st := [], [], false;
    ghost var left, open: seq<string> := items, [];
    AtStart(items);
    assert tokens[0..] == tokens;
    for i := 0 to |tokens|
      invariant At(items, tokens[i..], curr, going, st, open, left)
    {
      var token := tokens[i];
      assert tokens[i..][0] == token && tokens[i..][1..] == tokens[i + 1..];
      if token == "(" {
        AtOpening(items, tokens[i..], curr, going, st, open, left);
        st, open := true, left[0].g;
      } else if token == ")" {
        AtClosing(items, tokens[i..], curr, going, st, open, left);
        var reduced := HandleAssignment(going);
        var value :- reduced;
        curr, going, st := curr + [value], [], false;
        left, open := left[1..], [];
      } else if st {
        AtInside(items, tokens[i..], curr, going, open, left);
        going, open := going + [token], open[1..];
      } else {
        AtOutside(items, tokens[i..], curr, going, open, left);
        curr, left := curr + [token], left[1..];
      }
    }
    assert tokens[|tokens|..] == [];
    AtEnd(items, curr, going, st, open, left);
    PlugMeaning(items, START, "+");
    r := HandleAssignment(curr);
  }
}
