# Stateful expression calculator: the session store

This project models, in Dafny, the calculator servlet of the stateful
expression calculator. Each HTTP session holds one store. The store has two
parts:

- an optional expression text, kept under the attribute `expression`;
- integer variables named `a` to `z`.

`PUT /expression` stores the expression. `PUT /<letter>` stores a variable,
which must be an integer in [-10000, 10000]. `DELETE` removes either one and
always answers 204. `GET /result` evaluates the expression. It first replaces
every bound variable where it stands as a whole word. It then refuses any text
that still holds an ASCII letter. Only after that does it hand the text to a
JavaScript engine.

The servlet writes that letter check as `matches(".*[a-zA-Z].*")`, and the
pattern never matches a text that holds a line terminator (see
"## Findings"). `EvaluationOutcome`, and with it `EvaluateExpression` and
`Store.Get`, use the intended check: any letter left is refused.
`OutcomeAsWritten` is the check as written, and `AsWrittenDiffersIff` says
exactly where the two disagree.

Modules:

- `Wrappers` (`wrappers.dfy`): `Option`.
- `JavaText` (`java_text.dfy`): the Java library behaviour the servlet relies
  on. This covers `String.trim`, `Integer.parseInt`, `Integer.toString` and
  the character classes of its two regular expressions (`\w` for `\b`, and
  `[a-zA-Z]`).
- `WordSubst` (`word_subst.dfy`): `replaceAll("\\b" + name + "\\b", value)`
  for one-letter names. The central lemma says that substituting variables
  one at a time gives the same text as substituting all of them at once. So
  the order in which the session enumerates its attributes never matters.
- `Calc` (`calc.dfy`): the store as the class `Store`, one method per
  handler, and `EvaluateExpression`, the loop of `evaluateExpression`.
  `Status` names each answer the handlers send; the comment on each
  constructor gives its HTTP status and message.

`GET` never changes the store: `Store.Get` and `EvaluateExpression` have no
`modifies` clause.

The script engine is an unknown function. It is passed in as
`eval: string -> Option<Int32>`. `None` stands for a `ScriptException`, an
`ArithmeticException`, or a result that is not a number; a number is
truncated to a Java `int` by `Number.intValue`. The attribute enumeration
order is up to the servlet container, so it is passed in as a sequence of
keys. That sequence must list every variable exactly once; the `expression`
attribute may appear anywhere in it or not at all, since the loop skips it.

## Model

| member | source | states |
|---|---|---|
| `JavaText.Trim` | src/main/java/CalcServlet.java:25 | the body is the input minus its leading blanks and trailing blanks (characters at most U+0020). It is a contiguous slice whose first and last characters are not blanks. It is empty exactly when every character of the input is a blank. |
| `JavaText.TrimIdempotent` | src/main/java/CalcServlet.java:25 | trimming an already trimmed body changes nothing |
| `JavaText.ParseInt` | src/main/java/CalcServlet.java:61 | an accepted body is an optional sign followed by at least one digit and nothing else. Its value fits a 32-bit `int`, and a negative value comes from a leading `-`. |
| `JavaText.ParseIntSpells` | src/main/java/CalcServlet.java:61 | `parseInt` accepts a body with value `v` if and only if `v` is an `int` and the body is an optional sign, any leading zeros, and the digits `toString` writes for the magnitude of `v`, with `-` exactly for a negative value or before zero. Everything else, an out-of-`int` literal included, is refused. |
| `JavaText.IntToString` | src/main/java/CalcServlet.java:151 | the text put in place of a variable is not empty, ends in a digit, and holds only digits after an optional leading `-`. It has no letter, and starts with `-` exactly for a negative value. |
| `JavaText.ParseIntToString` | src/main/java/CalcServlet.java:61 | `parseInt` reads back every `int` that `toString` writes |
| `JavaText.MatchesLetterPattern` | src/main/java/CalcServlet.java:156 | the pattern `.*[a-zA-Z].*` as written never matches a text holding a line terminator |
| `JavaText.HasLetter` | src/main/java/CalcServlet.java:155-156 | the intended letter check says yes wherever the pattern matches, and agrees with the pattern on every text without a line terminator |
| `WordSubst.ReplaceFrom` | src/main/java/CalcServlet.java:151 | the left-to-right walk of `replaceAll` over the original text; with no name bound it copies the text unchanged |
| `WordSubst.ReplaceWholeWords` | src/main/java/CalcServlet.java:146-153 | substituting all variables yields, position by position, the value's text for each bound name standing as a whole word (`\b` on both sides) and the character itself everywhere else |
| `WordSubst.Substitute` | src/main/java/CalcServlet.java:151 | one `replaceAll` replaces each whole-word occurrence of the name by the value's text and copies everything else; with no such occurrence the text comes back unchanged |
| `WordSubst.ReplaceOneMore` | src/main/java/CalcServlet.java:151 | one more `replaceAll` for a new name, applied after the other names were substituted, equals substituting all names at once |
| `WordSubst.SubstitutionsCommute` | src/main/java/CalcServlet.java:146-153 | two substitutions of different names give the same text in either order |
| `WordSubst.UnresolvedIff` | src/main/java/CalcServlet.java:151-158 | a letter is left after substitution if and only if the expression holds a letter that is not a whole-word occurrence of a bound name |
| `WordSubst.ReplaceKeepsTerminators` | src/main/java/CalcServlet.java:151-156 | substitution adds no line terminator, and with one-letter names removes none, so the text tested at line 156 holds one exactly when the stored expression does |
| `Calc.InRange` | src/main/java/CalcServlet.java:17-18 | the admissible variable values are -10000 through 10000, both bounds included |
| `Calc.EvaluationOutcome` | src/main/java/CalcServlet.java:145-171 | the intended outcome of `evaluateExpression`: substitution of all variables, 409 if a letter is left, else the engine's number or 400. It answers 409 exactly when some letter of the expression is not a whole-word bound name. |
| `Calc.BoundStep` | src/main/java/CalcServlet.java:147-153 | one loop step: the `expression` attribute is skipped, and substituting the next variable gives the text for all variables enumerated so far |
| `Calc.EvaluateExpression` | src/main/java/CalcServlet.java:145-172 | for any enumeration order, the loop ends with the text of substituting all variables at once, and the answer is `EvaluationOutcome`, which applies the intended letter check (see "## Findings"). It answers 409 exactly when some letter of the expression is not a whole-word bound name. |
| `Calc.ExampleOneSet` | src/main/java/CalcServlet.java:151-158 | for `a+b` with only `a=5` bound, the answer is "Not all variables are set" |
| `Calc.ExampleBothSet` | src/main/java/CalcServlet.java:151-162 | for `a+b` with `a=5` and `b=10` bound, the engine receives `5+10` and its answer is returned |
| `Calc.ExampleInsideWord` | src/main/java/CalcServlet.java:151 | the `a` inside the word `ab` is not replaced: `ab+a` becomes `ab+5` |
| `Calc.OutcomeAsWritten` | src/main/java/CalcServlet.java:156-171 | the outcome with the check as written: an expression holding a line terminator is never refused with 409, whatever letters it holds |
| `Calc.AsWrittenDiffersIff` | src/main/java/CalcServlet.java:156 | the check as written and the intended check give different answers exactly when the expression holds a line terminator and an unresolved letter. Without a line terminator they always agree. |
| `Calc.LineSeparatorSkipsLetterCheck` | src/main/java/CalcServlet.java:156 | the text `a` followed by U+2028 survives `trim`. The intended check refuses it, but the check as written passes it to the engine. |
| `Calc.Store.constructor` | src/main/java/CalcServlet.java:23 | a new session holds no expression and no variable |
| `Calc.Store.Put` | src/main/java/CalcServlet.java:22-46 | an all-blank body answers 400 and changes nothing. Otherwise the trimmed body goes to the expression or variable handler, with the effects below. The store invariant (one-letter names, values in range) is kept. |
| `Calc.Store.PutExpression` | src/main/java/CalcServlet.java:48-57 | answers 201 if no expression was stored and 200 if one was. Afterwards the expression is the body and no variable has changed. |
| `Calc.Store.PutVariable` | src/main/java/CalcServlet.java:59-79 | a body `parseInt` refuses answers 400. A value outside [-10000, 10000] answers 403; both bounds are accepted. Both refusals leave the store unchanged. Otherwise `vars[name]` is the value, every other variable and the expression are unchanged, and the answer is 201 if the name was unbound and 200 if it was bound. |
| `Calc.Store.Delete` | src/main/java/CalcServlet.java:123-142 | always answers 204. Afterwards the key is absent and nothing else has changed. Deleting an absent key changes nothing, so a second delete has no effect. |
| `Calc.Store.Get` | src/main/java/CalcServlet.java:91-115 | with no expression, answers 409 "Expression is not set." without evaluating. Otherwise it answers `EvaluationOutcome` of the stored expression and variables, so the intended letter check (see "## Findings"). It changes nothing. |

## Left out

- Reading the request body (`getReader().lines().reduce`): `Put` receives the body with its lines already joined.
- Response messages, writers and the `Location` header: each message is a distinct `Status` constructor.
- Routing: `CalcFilter` and the servlet's invalid-path branches (400 "Invalid URI.", 404 "Resource not found."). `Key` stands for the valid paths, and a variable key is required to be one letter `a` to `z`.
- The `ReentrantLock` and every question of concurrency, including `doGet` reading the expression before it takes the lock.
- Session creation and expiry by the container, and attributes stored under other names by code outside the servlet.
- The JavaScript engine: its arithmetic, its floating-point numbers and the truncation of `Number.intValue`. These are the parameter `eval`, which yields an `int` or a script failure.
- A missing JavaScript engine: `getEngineByName` then returns `null`, line 162 throws a `NullPointerException` that `doGet` does not catch, and the container answers 500. `eval` cannot express this outcome, because it always yields a number or a script failure.
- `JavaText.ParseInt`: does not accept non-ASCII Unicode digits, which `Integer.parseInt` accepts.
- `WordSubst.ReplaceFrom`: treats only `[A-Za-z0-9_]` as word characters for `\b` and ignores every non-ASCII rule of Java's `\b`. Java versions before 19 also count other Unicode letters and digits. Java also counts a non-spacing combining mark (category Mn) that follows a letter or digit as part of the word. So where a bound name is followed by such a mark (`a` then U+0301), the model replaces the name but Java leaves it, and the letter check then answers 409.

## Findings

| source | as written | input that shows it | evidently intended | confidence | as-written member | corrected member |
|---|---|---|---|---|---|---|
| src/main/java/CalcServlet.java:156 | The unresolved-variable check is `expression.matches(".*[a-zA-Z].*")`. Its `.` does not match a line terminator (U+0085, U+2028, U+2029). So a text holding one never matches, however many letters it has. | The expression `a` followed by U+2028, with no variable set. Neither `trim` nor the body's line splitting removes U+2028. The text reaches the script engine with its letters, so any script can run (`Calc.LineSeparatorSkipsLetterCheck`). | Any letter left after substitution is refused with 409 "Not all variables are set." before the engine is called. | not executed; follows the documented line-terminator rule of `java.util.regex.Pattern` | `Calc.OutcomeAsWritten` | `Calc.EvaluateExpression` |
