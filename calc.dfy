/** The per-session calculator store of the servlet: an optional expression
    under the attribute `expression` and integer variables under the
    attributes `a` to `z`. A request handler becomes a method of `Store`; the
    status it sends becomes a `Status` value. */
module Calc {
  import opened Wrappers
  import opened JavaText
  import opened WordSubst

  const MIN_VALUE: int := -10000
  const MAX_VALUE: int := 10000

  /** The values a variable may hold. */
  predicate InRange(v: int) {
    MIN_VALUE <= v <= MAX_VALUE
  }

  /** The path `/[a-z]` names a variable. */
  predicate IsVarName(c: char) {
    'a' <= c <= 'z'
  }

  /** A session attribute: the expression or one variable. */
  datatype Key = ExpressionKey | VariableKey(name: char)

  /** What a handler answers, with the HTTP status and message it sets.
      An engine result is a Java `int`, as `Number.intValue` gives. */
  datatype Status =
    | Created              // 201, the key was absent
    | Updated              // 200, the key was present
    | Evaluated(value: Int32)  // 200, the result in the body
    | Deleted              // 204
    | EmptyBody            // 400 "Request body cannot be empty."
    | NotAnInteger         // 400 "Invalid variable value. It must be an integer."
    | InvalidExpression    // 400 "Invalid expression."
    | OutOfRange           // 403 "Variable value must be between -10000 and 10000."
    | ExpressionNotSet     // 409 "Expression is not set."
    | VariablesNotSet      // 409 "Not all variables are set."

  /** Every variable has a one-letter name. */
  predicate NamedVars(vars: map<char, int>) {
    forall c :: c in vars ==> IsVarName(c)
  }

  /** Every variable has a one-letter name and an admissible value. */
  predicate ValidVars(vars: map<char, int>) {
    NamedVars(vars) && forall c :: c in vars ==> InRange(vars[c])
  }

  /** `session.getAttributeNames()`: every attribute once, every variable
      among them. The order is whatever the container chooses. */
  predicate Enumerates(names: seq<Key>, vars: map<char, int>) {
    && (forall i, j :: 0 <= i < j < |names| ==> names[i] != names[j])
    && (forall c :: VariableKey(c) in names <==> c in vars)
  }

  /** The variables among the first attributes enumerated. */
  function Bound(names: seq<Key>, vars: map<char, int>): map<char, int> {
    map c | c in vars && VariableKey(c) in names :: vars[c]
  }

  /** What `evaluateExpression` and its caller answer for a stored
      expression: every bound name substituted as a whole word; a letter left
      over stops evaluation; otherwise the script engine `eval` decides, where
      `None` stands for a `ScriptException`, an `ArithmeticException` or a
      result that is not a number. Evaluation stops exactly when some letter
      of the expression is not a whole-word occurrence of a bound name. */
  function EvaluationOutcome(expression: string, vars: map<char, int>, eval: string -> Option<Int32>): (r: Status)
    ensures r == VariablesNotSet <==> exists j :: 0 <= j < |expression| && Unresolved(expression, j, vars)
  {
    UnresolvedIff(expression, vars);
    var text := ReplaceWholeWords(expression, vars);
    if HasLetter(text) then VariablesNotSet
    else match eval(text)
      case Some(v) => Evaluated(v)
      case None => InvalidExpression
  }

  /** One step of the substitution loop: skipping the expression attribute
      leaves the bound variables as they were, and substituting one more
      variable gives the text of substituting all of them at once. */
  lemma BoundStep(expression: string, names: seq<Key>, vars: map<char, int>, k: nat)
    requires NamedVars(vars) && Enumerates(names, vars) && k < |names|
    ensures names[k] == ExpressionKey ==> Bound(names[..k + 1], vars) == Bound(names[..k], vars)
    ensures names[k].VariableKey? ==>
      && names[k].name in vars
      && Substitute(ReplaceWholeWords(expression, Bound(names[..k], vars)), names[k].name, vars[names[k].name])
         == ReplaceWholeWords(expression, Bound(names[..k + 1], vars))
  {
    var done := Bound(names[..k], vars);
    assert names[..k + 1] == names[..k] + [names[k]];
    if names[k].VariableKey? {
      var c := names[k].name;
      assert c in vars;
      assert c !in done;
      ReplaceOneMore(false, expression, done, c, vars[c]);
      assert Bound(names[..k + 1], vars) == done[c := vars[c]];
    } else {
      assert Bound(names[..k + 1], vars) == done;
    }
  }

  /** `evaluateExpression`: substitutes the variables one attribute at a
      time in enumeration order, then checks for a letter, then calls the
      engine. Whatever the order, the text is that of substituting all
      variables at once, and the engine is reached exactly when every letter
      of the expression is a whole-word occurrence of a bound variable. */
  method EvaluateExpression(expression: string, names: seq<Key>, vars: map<char, int>, eval: string -> Option<Int32>)
    returns (st: Status)
    requires NamedVars(vars)
    requires Enumerates(names, vars)
    ensures st == EvaluationOutcome(expression, vars, eval)
    ensures st == VariablesNotSet <==> exists j :: 0 <= j < |expression| && Unresolved(expression, j, vars)
  {
    var text := expression;
    assert Bound(names[..0], vars) == map[];
    var k := 0;
    while k < |names|
      invariant 0 <= k <= |names|
      invariant text == ReplaceWholeWords(expression, Bound(names[..k], vars))
    {
      BoundStep(expression, names, vars, k);
      match names[k] {
        case ExpressionKey =>
        case VariableKey(c) =>
          text := Substitute(text, c, vars[c]);
      }
      k := k + 1;
    }
    assert names[..k] == names;
    assert Bound(names, vars) == vars;
    UnresolvedIff(expression, vars);
    if HasLetter(text) {
      st := VariablesNotSet;
    } else {
      var result := eval(text);
      if result.Some? {
        st := Evaluated(result.value);
      } else {
        st := InvalidExpression;
      }
    }
  }

  /** With only `a` set, a letter is left. */
  lemma ExampleOneSet(eval: string -> Option<Int32>)
    ensures EvaluationOutcome("a+b", map['a' := 5], eval) == VariablesNotSet
  {
    var one := map['a' := 5];
    assert ReplaceFrom(false, "b", one) == "b";
    assert ReplaceFrom(false, "+b", one) == "+b";
    assert ReplaceWholeWords("a+b", one) == "5+b";
    assert HasLetter("5+b") by {
      assert IsAsciiLetter("5+b"[2]);
    }
  }

  /** With `a` and `b` set, the engine receives `5+10`. */
  lemma ExampleBothSet(eval: string -> Option<Int32>)
    ensures EvaluationOutcome("a+b", map['a' := 5, 'b' := 10], eval)
         == (if eval("5+10").Some? then Evaluated(eval("5+10").value) else InvalidExpression)
  {
    var both := map['a' := 5, 'b' := 10];
    assert IntToString(10) == "10" by {
      assert NatToString(10) == NatToString(1) + [DigitChar(0)];
    }
    assert ReplaceFrom(false, "b", both) == "10";
    assert ReplaceFrom(false, "+b", both) == "+10";
    assert ReplaceWholeWords("a+b", both) == "5+10";
    assert !HasLetter("5+10");
  }

  /** `a` inside the word `ab` is not replaced. */
  lemma ExampleInsideWord()
    ensures ReplaceWholeWords("ab+a", map['a' := 5]) == "ab+5"
  {
    var one := map['a' := 5];
    assert ReplaceFrom(false, "a", one) == "5";
    assert ReplaceFrom(true, "+a", one) == "+5";
    assert ReplaceFrom(true, "b+a", one) == "b+5";
  }

  /** `evaluateExpression` as written: the letter check is
      `expression.matches(".*[a-zA-Z].*")`, which fails on any text that holds
      a line terminator, so such a text goes to the engine with its letters:
      an expression holding a line terminator is never refused with 409. */
  function OutcomeAsWritten(expression: string, vars: map<char, int>, eval: string -> Option<Int32>): (r: Status)
    ensures NamedVars(vars) && !NoLineTerminator(expression) ==> r != VariablesNotSet
  {
    ReplaceKeepsTerminators(false, expression, vars);
    var text := ReplaceWholeWords(expression, vars);
    if MatchesLetterPattern(text) then VariablesNotSet
    else match eval(text)
      case Some(v) => Evaluated(v)
      case None => InvalidExpression
  }

  /** The expression `a` followed by U+2028 (LINE SEPARATOR), which neither
      `trim` nor the line splitting of the request body removes, with no
      variable set: the check as written lets it through to the script
      engine, while the intended check answers "Not all variables are set". */
  lemma LineSeparatorSkipsLetterCheck(eval: string -> Option<Int32>)
    ensures Trim("a\U{2028}") == "a\U{2028}"
    ensures EvaluationOutcome("a\U{2028}", map[], eval) == VariablesNotSet
    ensures OutcomeAsWritten("a\U{2028}", map[], eval) != VariablesNotSet
  {
    var e := "a\U{2028}";
    assert IsAsciiLetter(e[0]);
    assert IsLineTerminator(e[1]);
    assert LeadingBlanks(e) == 0;
  }

  /** The check as written and the intended check give different answers
      exactly when the expression holds a line terminator and a letter that
      substitution does not resolve; on every expression without a line
      terminator they agree. */
  lemma AsWrittenDiffersIff(expression: string, vars: map<char, int>, eval: string -> Option<Int32>)
    requires NamedVars(vars)
    ensures OutcomeAsWritten(expression, vars, eval) != EvaluationOutcome(expression, vars, eval)
        <==> !NoLineTerminator(expression) && exists j :: 0 <= j < |expression| && Unresolved(expression, j, vars)
  {
    assert WordKeys(vars);
    ReplaceKeepsTerminators(false, expression, vars);
    UnresolvedIff(expression, vars);
  }

  /** The store of one session. */
  class Store {
    var expression: Option<string>
    var vars: map<char, int>

    ghost predicate Valid()
      reads this
    {
      ValidVars(vars)
    }

    /** Whether the attribute `key` is set. */
    function Stored(key: Key): bool
      reads this
    {
      match key
      case ExpressionKey => expression.Some?
      case VariableKey(c) => c in vars
    }

    /** A new session holds no attribute. */
    constructor ()
      ensures Valid()
      ensures expression == None && vars == map[]
    {
      expression := None;
      vars := map[];
    }

    /** `doPut`: the body, its lines joined, is trimmed; an empty body is
        refused before the store is touched. */
    method Put(key: Key, body: string) returns (st: Status)
      requires Valid()
      requires key.VariableKey? ==> IsVarName(key.name)
      modifies this
      ensures Valid()
      ensures Trim(body) == [] ==> st == EmptyBody && expression == old(expression) && vars == old(vars)
      ensures Trim(body) != [] && key == ExpressionKey ==>
        && expression == Some(Trim(body)) && vars == old(vars)
        && st == (if old(expression) == None then Created else Updated)
      ensures Trim(body) != [] && key.VariableKey? ==>
        var n := ParseInt(Trim(body));
        && expression == old(expression)
        && (n == None ==> st == NotAnInteger && vars == old(vars))
        && (n.Some? && !InRange(n.value) ==> st == OutOfRange && vars == old(vars))
        && (n.Some? && InRange(n.value) ==>
              vars == old(vars)[key.name := n.value]
              && st == (if key.name in old(vars) then Updated else Created))
    {
      var trimmed := Trim(body);
      if trimmed == [] {
        return EmptyBody;
      }
      match key
      case ExpressionKey =>
        st := PutExpression(trimmed);
      case VariableKey(name) =>
        st := PutVariable(name, trimmed);
    }

    /** `handleExpressionPut`: stores the text; 201 when there was no
        expression before, 200 otherwise. */
    method PutExpression(text: string) returns (st: Status)
      modifies this
      ensures expression == Some(text) && vars == old(vars)
      ensures st == (if old(expression) == None then Created else Updated)
    {
      var isNew := expression == None;
      expression := Some(text);
      st := if isNew then Created else Updated;
    }

    /** `handleVariablePut`: a body that `Integer.parseInt` rejects is a
        400, a value outside [-10000, 10000] a 403, both leaving the store as
        it was; otherwise the variable is set, 201 when it was unbound and 200
        when it was bound. */
    method PutVariable(name: char, body: string) returns (st: Status)
      requires Valid() && IsVarName(name)
      modifies this
      ensures Valid()
      ensures expression == old(expression)
      ensures ParseInt(body) == None ==> st == NotAnInteger && vars == old(vars)
      ensures ParseInt(body).Some? && !InRange(ParseInt(body).value) ==> st == OutOfRange && vars == old(vars)
      ensures ParseInt(body).Some? && InRange(ParseInt(body).value) ==>
        && vars == old(vars)[name := ParseInt(body).value]
        && st == (if name in old(vars) then Updated else Created)
    {
      var parsed := ParseInt(body);
      if parsed.None? {
        return NotAnInteger;
      }
      var value := parsed.value;
      if value < MIN_VALUE || value > MAX_VALUE {
        return OutOfRange;
      }
      var isNew := name !in vars;
      vars := vars[name := value];
      st := if isNew then Created else Updated;
    }

    /** `doDelete`: the attribute is removed if present, and the answer is
        always 204. Deleting an absent key changes nothing, so a second
        delete of the same key has no effect. */
    method Delete(key: Key) returns (st: Status)
      requires Valid()
      requires key.VariableKey? ==> IsVarName(key.name)
      modifies this
      ensures Valid()
      ensures st == Deleted
      ensures !Stored(key)
      ensures key == ExpressionKey ==> expression == None && vars == old(vars)
      ensures key.VariableKey? ==> vars == old(vars) - {key.name} && expression == old(expression)
      ensures !old(Stored(key)) ==> expression == old(expression) && vars == old(vars)
    {
      match key {
        case ExpressionKey =>
          if expression != None {
            expression := None;
          }
        case VariableKey(name) =>
          if name in vars {
            vars := vars - {name};
          }
      }
      st := Deleted;
    }

    /** `doGet` on `/result`: 409 when no expression is stored, otherwise
        the outcome of `evaluateExpression`. It changes nothing: substitution
        rewrites a local copy of the text. */
    method Get(names: seq<Key>, eval: string -> Option<Int32>) returns (st: Status)
      requires Valid()
      requires Enumerates(names, vars)
      ensures expression == None ==> st == ExpressionNotSet
      ensures expression.Some? ==> st == EvaluationOutcome(expression.value, vars, eval)
    {
      if expression == None {
        return ExpressionNotSet;
      }
      st := EvaluateExpression(expression.value, names, vars, eval);
    }
  }
}
