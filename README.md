# Context-free grammar analysis, modelled in Dafny

`cgf.py` reads a context-free grammar written one rule per line as
`LHS -> RHS1 | RHS2 | ...` and analyses it in four steps:

- it loads the rules into a dictionary from each left side to its list of
  alternatives, together with the set of left sides (the nonterminals);
- it builds a greedy tokenizer that cuts a string into nonterminal names,
  longest name first, and otherwise into single characters;
- it computes the productive nonterminals. Passes over the dictionary repeat
  until a pass adds nothing. A nonterminal is added when one of its
  expansions tokenizes into lower-case terminals and known productive names.
- it computes the nonterminals reachable from a start symbol. This is a
  depth-first search with an explicit stack.

The model follows that structure, one module per step:

- `Text` (text.dfy): the string operations the tool relies on, on ASCII.
  These are `str.strip`, the substring test, `split` on one character and
  `str.islower`. `Concat`, the concatenation of a token list, is not used
  by the tool; it states the tokenizer's round trip.
- `Rules` (rules.dfy): `parse_rules` on a sequence of lines. The dictionary
  is a `Grammar` value: its keys in insertion order and the map itself.
  `ParseRules` is the imperative loop. It is proved equal to the function
  `Parse`, and lemmas state what `Parse` returns.
- `Tokenizer` (tokenizer.dfy): `make_splitter` builds a `Splitter` value,
  holding the names and their distinct lengths longest first. `Split` is
  the cursor loop. It is proved equal to the function `Tokens`, whose
  round trip, token shape and greedy choice are lemmas.
- `Productivity` (productivity.dfy): `ComputeProductive` has the
  `while matched` passes. It is proved to return the least set of keys
  that is closed under "some expansion is all terminals or members". It
  is also proved to take at most one pass per key plus one.
- `Reachability` (reachability.dfy): `ComputeReachable` has the stack loop.
  It is proved to return exactly the keys joined to the start symbol by a
  chain of expansion tokens.

## Model

| member | source | states |
|---|---|---|
| Text.TrimLeft | cgf.py:14 | the result is a suffix of the input, everything dropped is whitespace, and it does not start with whitespace |
| Text.TrimRight | cgf.py:15 | the result is a prefix of the input, everything dropped is whitespace, and it does not end with whitespace |
| Text.TrimmedSlice | cgf.py:14-15 | trimming the front and then the back leaves a slice of the input with only whitespace around it |
| Text.Strip | cgf.py:15 | `str.strip()`: the result is the slice of the input that starts at some index, and everything before and after that slice is whitespace. Neither end of a non-empty result is whitespace. |
| Text.IsLower | cgf.py:60 | `str.islower()`: at least one of a-z and none of A-Z. It is never true of `""`, and a single character is lower-case exactly when it is one of a-z. |
| Text.IndexOf | cgf.py:12 | the first index where the pattern occurs, or None exactly when it occurs nowhere (Python's `in`) |
| Text.StripKeepsOccurrence | cgf.py:12-14 | an arrow found in the raw line is still present after `line.strip()`, so the split on line 14 always finds one |
| Text.SplitOn | cgf.py:17 | `split("|")` always yields at least one piece |
| Text.SplitOnJoin | cgf.py:17 | joining the pieces of `split` with the separator gives the string back |
| Text.SplitOnPieces | cgf.py:17 | no piece of `split` contains the separator |
| Text.SplitOnTrailing | cgf.py:17 | a trailing separator adds exactly one empty piece at the end |
| Rules.CutAtFirstArrow | cgf.py:14 | the text before the first arrow holds no arrow, and the string is that text, the arrow, and the rest |
| Rules.SplitRule | cgf.py:12-15 | a line yields a rule exactly when it contains `->`; otherwise it is skipped |
| Rules.SplitRuleAtFirstArrow | cgf.py:14-15 | only the first arrow splits: the stripped line is an arrow-free part that strips to the left side, then the arrow, then the right side, which may hold further arrows |
| Rules.LeadingArrowNamesEmpty | cgf.py:14-16 | a line whose stripped text starts with `->` adds the empty string as a nonterminal |
| Rules.Alternatives | cgf.py:17 | there are as many alternatives as pieces of `split("|")`, so at least one |
| Rules.TrailingBarKeepsEmpty | cgf.py:17-18 | a trailing bar gives one more alternative, the empty one, which is kept rather than dropped |
| Rules.ExtendOneMore | cgf.py:17-18 | appending a list of alternatives equals one `setdefault(...).append` per alternative, in order |
| Rules.ExtendValid | cgf.py:18 | appending a non-empty list keeps the dictionary well formed and adds the left side to its keys |
| Rules.AppendRules | cgf.py:17-18 | the `for rule` loop leaves the dictionary as `Extend` describes: the key's list extended, or a new key last in order |
| Rules.SetDefaultAppend | cgf.py:18 | `setdefault(key, []).append(rule)`: the key is added to the keys. Its list gains the rule at the end, or becomes `[rule]` when the key is new. Every other key keeps its list, and a well-formed dictionary stays well formed. |
| Rules.Parse | cgf.py:1-19 | `parse_rules` as a function of the lines: the dictionary is well formed and its keys are exactly the returned nonterminal set |
| Rules.ParseRules | cgf.py:1-19 | the loop over lines returns what `Parse` describes, and the dictionary's keys are exactly the nonterminal set |
| Rules.CollectShape | cgf.py:16-18 | after any lines, the dictionary is well formed and its keys equal the nonterminal set |
| Rules.CollectNonterminals | cgf.py:12-16 | a name is a nonterminal if and only if some line with an arrow has it as left side |
| Rules.AlternativesForUndefined | cgf.py:16-18 | a name that is not a key collects no alternatives |
| Rules.CollectAlternatives | cgf.py:16-18 | each key's list is the concatenation, in line order, of the stripped pieces of every line with that left side: repeated left sides accumulate and never overwrite |
| Rules.CollectSkipsNone | cgf.py:12-13 | a line without a rule can be removed anywhere without changing the result |
| Rules.SplitLinesAppend | cgf.py:11-14 | each line is split independently of the others |
| Rules.ParseSkipsPlainLine | cgf.py:12-13 | a line without `->` anywhere in the input does not change the dictionary or the set |
| Tokenizer.SortedDescending | cgf.py:22 | `sorted(..., reverse=True)` of a set of lengths: strictly decreasing and the same members |
| Tokenizer.MakeSplitter | cgf.py:21-22 | the splitter keeps the names and lists every name length exactly once, longest first |
| Tokenizer.Match | cgf.py:30-40 | a length found by the inner loop names a nonterminal at the cursor and fits in the string |
| Tokenizer.MatchIsFirstFit | cgf.py:30-40 | the found length is the first in the list that names a nonterminal; none found means none does |
| Tokenizer.MatchIsLongest | cgf.py:22 | a found name is at least as long as every nonterminal occurring at the cursor |
| Tokenizer.NoMatchNoName | cgf.py:41-44 | when the inner loop finds nothing, no nonterminal occurs at the cursor |
| Tokenizer.Step | cgf.py:29-44 | one pass of the cursor loop: the token is the input slice from the cursor to the new cursor, which stays within the string, and the token is a name or a single character |
| Tokenizer.StepIsGreedy | cgf.py:28-44 | one step emits the input slice at the cursor, advances by its length, and emits the longest name there or else a single character where no name occurs |
| Tokenizer.EmptyNameStalls | cgf.py:30-38 | with `""` among the names and no longer name at the cursor, a step emits `""` and does not move the cursor |
| Tokenizer.StepAdvances | cgf.py:33-44 | without the empty name, every step moves the cursor forward and stays within the string |
| Tokenizer.Tokens | cgf.py:26-45 | `splitter` as a function of the input and the cursor: there are never more tokens than characters left |
| Tokenizer.TokensCover | cgf.py:26-45 | the tokens concatenate back to the input, each is non-empty and either a name or one character, and there are no more tokens than characters |
| Tokenizer.TokensAreGreedySteps | cgf.py:28-44 | token k is the greedy step taken at the cursor reached after tokens 0..k-1 |
| Tokenizer.TokensAreGreedy | cgf.py:22-44 | token k of the whole input, emitted at position p, spells `s[p..]` up to its length, and no longer name occurs at p. A token that is not a name is one character emitted where no name occurs. |
| Tokenizer.MatchAt | cgf.py:30-40 | the `for length` loop with `break` finds the length `Match` describes |
| Tokenizer.Split | cgf.py:23-45 | `splitter` returns the tokens `Tokens` describes; their concatenation is the input, and there are at most as many tokens as characters |
| Productivity.AllProductive | cgf.py:60 | the `all(...)` test: true exactly when every token is lower-case or a known productive name, so an empty token list passes |
| Productivity.AllProductiveMonotone | cgf.py:60 | a token list that passes the `all(...)` test still passes when more names are known productive |
| Productivity.QualifiesMonotone | cgf.py:58-60 | a nonterminal with a passing expansion keeps one when more names are known productive |
| Productivity.AddQualifying | cgf.py:60-63 | adding a qualifying nonterminal keeps every member supported by its own expansions, and keeps the set inside every closed set |
| Productivity.HasProductiveExpansion | cgf.py:58-65 | the `for expansion` loop with `break` reports true if and only if some expansion passes the `all(...)` test |
| Productivity.ComputeProductive | cgf.py:48-69 | the result is a set of keys, each with an expansion made of lower-case tokens and members; it is closed (no further pass would add anything) and inside every closed set; at most one pass per key plus a final one |
| Productivity.CardinalityGrows | cgf.py:50-64 | a pass that adds something makes the set strictly larger, never larger than the key set |
| Productivity.LeastClosedUnique | cgf.py:53-65 | there is only one least closed set, so the order in which keys are visited cannot change the result |
| Productivity.EmptyExpansionQualifies | cgf.py:60 | an empty alternative has no tokens, so `all(...)` holds and its left side qualifies whatever is known |
| Reachability.LinkedStart | cgf.py:73 | the start symbol, when it is a key, is joined to itself |
| Reachability.LinkedStep | cgf.py:92-94 | a name pushed while exploring a joined name is itself joined to the start symbol |
| Reachability.ChainStaysIn | cgf.py:86-94 | a set that holds the start of a chain and is closed under expansion tokens holds the end of the chain |
| Reachability.PushTokens | cgf.py:90-94 | the `for token` loop keeps the stack and pushes only keys that are tokens of the expansion. Afterwards every key token is marked or on the stack. |
| Reachability.PushSuccessors | cgf.py:86-94 | the `for expansion` loop pushes only names joined to the start. Afterwards every key token of every expansion of the current name is marked or on the stack. |
| Reachability.ComputeReachable | cgf.py:71-98 | empty when the start symbol is not a key, otherwise it holds it. The result is a subset of the keys and is closed under expansion tokens that are keys. A name is in it if and only if a chain of such tokens joins it to the start symbol. |

## Left out

- Reading the file (cgf.py:8, 11): the input is a sequence of lines. A line
  read from a file keeps its newline; `strip()` treats it as whitespace, and
  so does the model.
- Every `print`, including the live ones in the reachability search
  (cgf.py:74-96). They never change a returned value.
- The driver at cgf.py:100-104, which works on a fixed file name.
- Unicode: `str.strip`, `str.isspace` and `str.islower` are modelled on
  ASCII. Whitespace is 0x09-0x0D, 0x1C-0x20. Lower-case means at least one
  of a-z and none of A-Z.
- Tokenizer.Split: requires that `""` is not a nonterminal. With `""` among
  the names, cgf.py:38 adds 0 to the cursor and the source loop never ends
  on input where no longer name matches. `Rules.LeadingArrowNamesEmpty`
  shows how a line such as `-> a` makes `""` a name, and
  `Tokenizer.EmptyNameStalls` shows the step that repeats forever.
  Productivity.ComputeProductive and Reachability.ComputeReachable call the
  splitter and carry the same requirement.
- The splitter is a closure in the source. Here it is the `Splitter` value
  that `make_splitter` builds, and the analyses take such a value rather
  than an arbitrary function.
- Inner loops as methods: these loops are written inline in the source and
  are separate methods here:
  - the `for length` loop (`MatchAt`);
  - the `for rule` loop (`AppendRules`);
  - the `for expansion` loop of the productivity pass
    (`HasProductiveExpansion`), after which the caller adds the nonterminal
    and sets `matched`, which has the same effect;
  - the `for expansion` and `for token` loops of the search
    (`PushSuccessors`, `PushTokens`).
  The order of the steps and their effects are unchanged.
- Productivity.ComputeProductive: the pass count is a ghost out-parameter.
  The source does not count passes.
- Empty alternatives are kept, as cgf.py:17-18 do (`TrailingBarKeepsEmpty`).
  Dropping alternatives that strip to `""` at load time is described for
  the tool but is not in the code, so it is not modelled.
- The expand/merge rewriting variant of productivity and the final
  emptiness decision are not implemented in cgf.py and are not modelled.
- `dict(grammar)` at cgf.py:19 returns a copy; values are immutable here,
  so the model returns the dictionary itself.
