# code-assert issue filtering, in Dafny

This project models two pieces of code-assert.

The first is the issue-filtering engine of `BaseCollector`. A collector holds ordered rule
groups (`CollectorConfig`s) of actions, a fixed policy flag `allAccept`, and a parent. For one
issue, `accept` asks the issue for the decision of each action, group after group and action
after action:

- with `allAccept`, the first rejection returns `false`;
- without it, the first acceptance returns `true`;
- if no action decides, the parent decides.

`unused` lists the actions whose usage count is zero, followed by the parent's list.
`unusedActions` turns that list into lines, with the `null` action printed as
`"    Base filtering"`. `unusedNullAction` reports that `null` action. `printUnusedWarning`
builds a warning that names the first caller frame.

The second is the test helper `RegexMatcher`. It turns a multi-line format into one pattern
per line, where `%d` stands for one or more decimal digits. It then matches a text line by
line (`matchesSafely`) and explains a failure (`describeMismatchSafely`).

Files:

- `wrappers.dfy`: `Option`, with `None` for Java's `null`.
- `text.dfy`: `startsWith`/`endsWith` and `String.split` with a literal separator, as Java
  defines it. A string in which the separator never occurs comes back whole, so `""` gives
  `[""]`. Otherwise trailing empty pieces are dropped. It also has the join helper.
- `collector.dfy`: module `BaseCollector`.
- `regex_matcher.dfy`: module `RegexMatcher`.

Modelling choices:

- A collector chain is a datatype. `Level(allAccept, configs, parent)` is a collector whose
  `accept(issue)`/`unused(counter)` go through `accept(issue, parent, configs)` and
  `unused(counter, parent, configs)`. `Base(hasDefaultConfig)` is the collector the chain ends
  in. Its `accept(issue)` is the inherited one, a single decision on the `null` action. Its
  `unused(counter)` is `unusedNullAction(counter, hasDefaultConfig)`.
- `Issue.accept(collector, action)` is not part of this model. For the one issue under
  evaluation it is a decision function `Option<ActionId> -> bool`. `None` is the base
  filtering path.
- Actions are compared by identity, so an action is a number (`ActionId`). Its `toString` is
  a parameter `describe`.
- The `RejectCounter` is a map from `Option<ActionId>` to `nat`, where a missing key counts 0.
  It is a value, so `unused` cannot change it. The counter increments happen inside
  `Issue.accept`, which is not part of this model. Instead, `Accept` returns the actions it
  asked, in order (`evaluated`), and the properties are stated about that sequence.
- The line separator (`System.lineSeparator()`) is a non-empty parameter `sep`.
- A compiled format line is a sequence of segments: a literal character, or a digit run. The
  Java regex engine is not modelled.

Facts about the code that the model keeps:

- `accept(issue, parent, configs)` (`BaseCollector.java:54-67`) hands each action in turn to
  `issue.accept` until one decides. Any scope test happens inside `issue.accept`. When no
  action decides, the fall-through is always `parent.accept(issue)`. The collector the
  chain ends in decides through the inherited `accept(issue)`, which asks
  `issue.accept(this, null)` (`BaseCollector.java:44-46`); that is the `Base` case here.

## Model

| member | source | states |
|---|---|---|
| `BaseCollector.Accept` | code-assert/src/main/java/guru/nidi/codeassert/config/BaseCollector.java:54-67 | The nested loop returns the chain's decision `Accepts` and asks exactly the actions of `Evaluated`, in order. The `Base` case is the inherited `accept(issue)`, which asks only the `null` action. |
| `BaseCollector.FirstDecisive` | code-assert/src/main/java/guru/nidi/codeassert/config/BaseCollector.java:55-63 | The stopping index is at most the number of actions. The action at it, if any, goes against the policy: it rejects under `allAccept` and accepts otherwise. |
| `BaseCollector.FirstDecisivePrefix` | code-assert/src/main/java/guru/nidi/codeassert/config/BaseCollector.java:55-63 | Every action before the stopping index agrees with the policy, so the loop does not return at it. |
| `BaseCollector.AcceptsClosedForm` | code-assert/src/main/java/guru/nidi/codeassert/config/BaseCollector.java:54-67 | With `allAccept`, the issue is accepted iff every action accepts and the parent accepts. Without it, iff some action accepts or the parent accepts. |
| `BaseCollector.ShortCircuit` | code-assert/src/main/java/guru/nidi/codeassert/config/BaseCollector.java:55-63 | If some action goes against the policy, `accept` returns `!allAccept` (false under `allAccept`, true otherwise). The actions asked are exactly those up to the first such action; no later action and not the parent is asked. |
| `BaseCollector.FallThrough` | code-assert/src/main/java/guru/nidi/codeassert/config/BaseCollector.java:55-66 | If no action short-circuits, the result is exactly the parent's decision. The actions asked are all actions, in order, followed by the parent's. |
| `BaseCollector.NoActionsDelegates` | code-assert/src/main/java/guru/nidi/codeassert/config/BaseCollector.java:55-66 | With no rule groups, or only empty ones, both the decision and the actions asked are the parent's. |
| `BaseCollector.EvaluatedIsPrefix` | code-assert/src/main/java/guru/nidi/codeassert/config/BaseCollector.java:55-57 | The actions asked form a non-empty prefix of the chain's decision points. Those are the flattened actions of each collector in config order, then action order, ending with the base's `null` action. |
| `BaseCollector.ResultIsLastDecision` | code-assert/src/main/java/guru/nidi/codeassert/config/BaseCollector.java:44-66 | The value `accept` returns is the decision of the last action it asked. |
| `BaseCollector.ReorderKeepsDecision` | code-assert/src/main/java/guru/nidi/codeassert/config/BaseCollector.java:55-66 | Two orderings of the same actions give the same decision. |
| `BaseCollector.RejectingFirstActionExample` | code-assert/src/main/java/guru/nidi/codeassert/config/BaseCollector.java:55-60 | With `allAccept` and group `[X rejects, Y accepts]`, the issue is rejected and only X is asked. |
| `BaseCollector.UnusedNullAction` | code-assert/src/main/java/guru/nidi/codeassert/config/BaseCollector.java:108-112 | Returns `[null]` iff the `null` count is 0 and a default config exists, and `[]` otherwise. |
| `BaseCollector.UnvisitedMembers` | code-assert/src/main/java/guru/nidi/codeassert/config/BaseCollector.java:71-77 | The filter keeps exactly the slots whose count is zero. |
| `BaseCollector.UnvisitedAppend` | code-assert/src/main/java/guru/nidi/codeassert/config/BaseCollector.java:71-78 | The filter keeps declaration order: it distributes over concatenation. |
| `BaseCollector.UnusedIsUnvisitedConfigured` | code-assert/src/main/java/guru/nidi/codeassert/config/BaseCollector.java:69-80 | The unused list of a chain is its configured actions with count zero, in order, this collector's before its ancestors'. The base's `null` action counts as configured only with a default config. An element is in the list iff it is configured and its count is zero. |
| `BaseCollector.Unused` | code-assert/src/main/java/guru/nidi/codeassert/config/BaseCollector.java:69-80 | The loops build the zero-count actions in declaration order, followed by the parent's list. This equals the filtered configured actions of the whole chain. |
| `BaseCollector.EvaluatedNotUnused` | code-assert/src/main/java/guru/nidi/codeassert/config/BaseCollector.java:57-75 | No action with a positive count is reported as unused. So when every action `accept` asked was counted, none of them is reported. |
| `BaseCollector.UnusedExample` | code-assert/src/main/java/guru/nidi/codeassert/config/BaseCollector.java:69-80 | In a group of three actions where only the second was used, the unused list is exactly the first and the third, in that order. |
| `BaseCollector.Label` | code-assert/src/main/java/guru/nidi/codeassert/config/BaseCollector.java:85 | The line for one unused action: `"    Base filtering"` for the `null` action, the action's own text otherwise. It has no contract of its own; `UnusedActions` states what its lines are. |
| `BaseCollector.UnusedActions` | code-assert/src/main/java/guru/nidi/codeassert/config/BaseCollector.java:82-88 | One line per unused action, same length and order. A line is `"    Base filtering"` exactly where the action is `null`, given that no action's text is that label. |
| `BaseCollector.IsCallerFrame` | code-assert/src/main/java/guru/nidi/codeassert/config/BaseCollector.java:97-98 | The frame test: a class outside `guru.nidi.codeassert`, `org.hamcrest` and `org.junit`, or any class whose name ends or starts with `Test`. It has no contract of its own; `FindCaller` and `UnusedWarning` state where the search stops. |
| `BaseCollector.FindCaller` | code-assert/src/main/java/guru/nidi/codeassert/config/BaseCollector.java:94-101 | Returns the first frame outside the library and the test frameworks, or a test class. Returns the trace length when there is no such frame. |
| `BaseCollector.WarningHeader` | code-assert/src/main/java/guru/nidi/codeassert/config/BaseCollector.java:102-103 | The header begins with `WARN: ` and ends with `These collector actions have not been used:`. |
| `BaseCollector.UnusedWarning` | code-assert/src/main/java/guru/nidi/codeassert/config/BaseCollector.java:90-105 | No output when the joined unused lines are empty. Otherwise a header naming the first caller frame (or no location when there is none), followed by the joined lines. |
| `Text.Split` | code-assert/src/test/java/guru/nidi/codeassert/pmd/RegexMatcher.java:35 | `String.split` with the line separator. It has no contract of its own; `SplitIsPrefixOfPieces` and `SplitPiecesHaveNoSeparator` state what it returns. |
| `Text.DropTrailingEmpty` | code-assert/src/test/java/guru/nidi/codeassert/pmd/RegexMatcher.java:43 | The result is a prefix of the pieces that does not end in an empty string. Every piece dropped is empty. |
| `Text.JoinSplitAll` | code-assert/src/test/java/guru/nidi/codeassert/pmd/RegexMatcher.java:43 | Joining the split pieces with the separator gives back the input. |
| `Text.SplitIsPrefixOfPieces` | code-assert/src/test/java/guru/nidi/codeassert/pmd/RegexMatcher.java:35 | `split` returns the input whole when the separator never occurs. Otherwise it returns a prefix of the pieces that rejoin to the input, dropping only empty ones. |
| `Text.SplitAllPiecesHaveNoSeparator` | code-assert/src/test/java/guru/nidi/codeassert/pmd/RegexMatcher.java:43 | The cut is made at every occurrence of the separator: no piece holds it. |
| `Text.SplitPiecesHaveNoSeparator` | code-assert/src/test/java/guru/nidi/codeassert/pmd/RegexMatcher.java:66 | No line that `split` returns holds the separator, also when the separator never occurs. |
| `RegexMatcher.Compile` | code-assert/src/test/java/guru/nidi/codeassert/pmd/RegexMatcher.java:36 | Each `%d` of the line, taken left to right, becomes a digit run and every other character a literal. It has no contract of its own; `RenderCompile`, `CompileCanonical` and `CompileRender` state its meaning. |
| `RegexMatcher.RenderCompile` | code-assert/src/test/java/guru/nidi/codeassert/pmd/RegexMatcher.java:36 | Writing each digit run of a compiled line back as `%d` gives the format line back. |
| `RegexMatcher.CompileCanonical` | code-assert/src/test/java/guru/nidi/codeassert/pmd/RegexMatcher.java:36 | No `%d` survives compilation: a compiled line never holds a literal `%` directly followed by a literal `d`, also in a mixed line such as `At %d: x`. |
| `RegexMatcher.CompileRender` | code-assert/src/test/java/guru/nidi/codeassert/pmd/RegexMatcher.java:36 | Compiling the format text of such a canonical pattern gives the pattern back. With `RenderCompile`, `Compile` is the only canonical pattern whose format text is the line. |
| `RegexMatcher.Matches` | code-assert/src/test/java/guru/nidi/codeassert/pmd/RegexMatcher.java:48 | The full match `matcher(line).matches()`, trying every length of each digit run. It has no contract of its own; `MatchesIffInstance` states its meaning. |
| `RegexMatcher.MatchesAfterDigit` | code-assert/src/test/java/guru/nidi/codeassert/pmd/RegexMatcher.java:69 | The full match after the first digit of a run: the run ends here or takes one more digit. It has no contract of its own; `MatchesIffInstance` states its meaning through `Matches`. |
| `RegexMatcher.MatchesIffInstance` | code-assert/src/test/java/guru/nidi/codeassert/pmd/RegexMatcher.java:36 | A line fully matches a pattern iff it is the pattern with every `%d` replaced by a non-empty run of decimal digits (both directions). |
| `RegexMatcher.PlaceholderMatchesDigitRuns` | code-assert/src/test/java/guru/nidi/codeassert/pmd/RegexMatcher.java:36 | The format `%d` matches exactly the non-empty runs of digits. |
| `RegexMatcher.LiteralLineMatchesItself` | code-assert/src/test/java/guru/nidi/codeassert/pmd/RegexMatcher.java:36 | A format line without `%d` matches exactly its own text. |
| `RegexMatcher.MatchingPrefix` | code-assert/src/test/java/guru/nidi/codeassert/pmd/RegexMatcher.java:68-74 | Among the compared positions, the lines before the index match their patterns, and the line at the index, if any, does not. |
| `RegexMatcher.MismatchOf` | code-assert/src/test/java/guru/nidi/codeassert/pmd/RegexMatcher.java:64-80 | Reports the 1-based number of the smallest failing line among the first min(lines, patterns) lines. If all of those match, it reports the extra lines when the text is longer and the missing lines otherwise. |
| `RegexMatcher.MismatchIffNotMatching` | code-assert/src/test/java/guru/nidi/codeassert/pmd/RegexMatcher.java:42-53 | The explanation is "0 more lines" exactly when `matchesSafely` would accept the text. |
| `RegexMatcher.LiteralFormatMatchesItself` | code-assert/src/test/java/guru/nidi/codeassert/pmd/RegexMatcher.java:33-53 | A format none of whose lines holds `%d` matches its own text. |
| `RegexMatcher.MatchesFormat` | code-assert/src/test/java/guru/nidi/codeassert/pmd/RegexMatcher.java:33-39 | There is exactly one pattern per line of the split format, compiled from that line. Rendering a pattern gives its line back. |
| `RegexMatcher.MatchesSafely` | code-assert/src/test/java/guru/nidi/codeassert/pmd/RegexMatcher.java:42-53 | Returns false when the line counts differ. Otherwise returns true iff every line fully matches its pattern. |
| `RegexMatcher.DescribeMismatch` | code-assert/src/test/java/guru/nidi/codeassert/pmd/RegexMatcher.java:64-80 | The loop's report equals `MismatchOf`: first failing line, else extra or missing line count. |

## Left out

- `Issue.accept`, `RejectCounter`, `CollectorConfig`, `doAccept` and the `config` hook are not part of this model. The decision is a function parameter, and the counter is a map that the model only reads.
- `because`/`just`: they only wrap their actions in a `CollectorConfig` and hand it to the abstract `config` hook. Neither of those is part of this model.
- `BaseCollector.Accept`: the usage-counter increments are not modelled, because they happen inside `Issue.accept`. The method returns the sequence of actions asked instead.
- Idempotence of `accept` (two calls with the same issue give the same decision and double the counts): not stated, because it needs the counter increments, which are not modelled. In this value model the decision is fixed by the decision function alone.
- `UnusedWarning`: the stack trace is a parameter, not the real `new Exception().getStackTrace()`. The two lines are returned instead of printed with `System.out.println`.
- `Text.Split`: models Java's regex `split` only for a separator without regex metacharacters, which holds for the platform line separator.
- `RegexMatcher.DescribeMismatch`: the Hamcrest `Description` text is not produced: the `was ...` echo of the text, the expected pattern and the offending line. Only which report applies and its number are modelled. `describeTo` is left out for the same reason.
- `Pattern.quote`'s handling of a line that holds `\E`, and the escaping undone by `pattern()`, are not modelled. Quoting makes every character literal, and that is what the model states. `Render` is the inverse at the level of segments.
- Matchers (`In.classes`, glob patterns) and the rule-group data of `PmdConfigs` are not part of this model.
- The asking collector: `Issue.accept(this, action)` (`BaseCollector.java:57`) is told which collector asks, but the decision function here depends on the action alone. So one action object configured on two levels of a chain gets the same decision on both.
- The generic issue and action types `S`/`A`: actions are numbers compared by identity, and the issue is fixed by the decision function.
