/** compute_reachable_nonterminals of cgf.py: a depth-first search with an
    explicit stack from the start symbol, following every token of every
    expansion that is itself a key of the grammar. The result is exactly
    the set of keys linked to the start symbol by such tokens. */
module Reachability {
  import opened Rules
  import opened Tokenizer

  /** `b` is a key and a token of some expansion of the key `a`. */
  ghost predicate Edge(g: Grammar, sp: Splitter, a: string, b: string)
    requires "" !in sp.nonterminals
  {
    && a in g.rules && b in g.rules
    && exists j :: 0 <= j < |g.rules[a]| && b in Tokens(sp, g.rules[a][j], 0)
  }

  /** Consecutive names of `path` are joined by edges. */
  ghost predicate IsChain(g: Grammar, sp: Splitter, path: seq<string>)
    requires "" !in sp.nonterminals
  {
    forall i :: 0 < i < |path| ==> Edge(g, sp, path[i - 1], path[i])
  }

  /** `r` is reached from the key `start` by a chain of edges. */
  ghost predicate Linked(g: Grammar, sp: Splitter, start: string, r: string)
    requires "" !in sp.nonterminals
  {
    start in g.rules
    && exists path :: |path| > 0 && path[0] == start && path[|path| - 1] == r && IsChain(g, sp, path)
  }

  /** The start symbol, when it is a key, is linked to itself. */
  lemma LinkedStart(g: Grammar, sp: Splitter, start: string)
    requires "" !in sp.nonterminals && start in g.rules
    ensures Linked(g, sp, start, start)
  {
    assert IsChain(g, sp, [start]);
  }

  /** A chain to `a` extends along an edge from `a`. */
  lemma LinkedStep(g: Grammar, sp: Splitter, start: string, a: string, b: string)
    requires "" !in sp.nonterminals
    requires Linked(g, sp, start, a) && Edge(g, sp, a, b)
    ensures Linked(g, sp, start, b)
  {
    var path :| |path| > 0 && path[0] == start && path[|path| - 1] == a && IsChain(g, sp, path);
    var longer := path + [b];
    assert IsChain(g, sp, longer) by {
      forall i | 0 < i < |longer|
        ensures Edge(g, sp, longer[i - 1], longer[i])
      {
        if i < |path| {
          assert longer[i - 1] == path[i - 1] && longer[i] == path[i];
        }
      }
    }
  }

  /** A set holding the first name of a chain and closed under edges holds
      the whole chain. */
  lemma {:induction false} ChainStaysIn(g: Grammar, sp: Splitter, s: set<string>, path: seq<string>)
    requires "" !in sp.nonterminals
    requires |path| > 0 && path[0] in s && IsChain(g, sp, path)
    requires forall a, b :: a in s && Edge(g, sp, a, b) ==> b in s
    ensures path[|path| - 1] in s
  {
    if |path| > 1 {
      var init := path[..|path| - 1];
      assert IsChain(g, sp, init) by {
        forall i | 0 < i < |init|
          ensures Edge(g, sp, init[i - 1], init[i])
        {
          assert init[i - 1] == path[i - 1] && init[i] == path[i];
        }
      }
      ChainStaysIn(g, sp, s, init);
      assert Edge(g, sp, path[|path| - 2], path[|path| - 1]);
    }
  }

  /** The tokens of one expansion that are keys not yet marked go on the
      stack, in order. */
  method PushTokens(g: Grammar, sp: Splitter, reachable: set<string>, expansion: string, stack: seq<string>)
    returns (pushed: seq<string>)
    requires "" !in sp.nonterminals
    ensures forall x :: x in stack ==> x in pushed
    ensures forall x :: x in pushed ==> x in stack || (x in g.rules && x in Tokens(sp, expansion, 0))
    ensures forall b :: b in Tokens(sp, expansion, 0) && b in g.rules ==> b in reachable || b in pushed
  {
    var tokens := Split(sp, expansion);
    pushed := stack;
    for k := 0 to |tokens|
      invariant forall x :: x in stack ==> x in pushed
      invariant forall x :: x in pushed ==> x in stack || (x in g.rules && x in tokens)
      invariant forall i :: 0 <= i < k && tokens[i] in g.rules ==> tokens[i] in reachable || tokens[i] in pushed
    {
      ghost var prev := pushed;
      var token := tokens[k];
      if token in g.rules && token !in reachable {
        pushed := pushed + [token];
      }
      assert forall x :: x in prev ==> x in pushed;
      assert token in g.rules ==> token in reachable || token in pushed;
    }
  }

  /** The `for expansion in grammar.get(current)` loop: the tokens of every
      expansion of `current` that are keys not yet marked go on the stack. */
  method PushSuccessors(g: Grammar, sp: Splitter, start: string, reachable: set<string>, current: string,
                        stack: seq<string>)
    returns (pushed: seq<string>)
    requires "" !in sp.nonterminals
    requires Linked(g, sp, start, current) && current in g.rules
    requires forall x :: x in stack ==> x in g.rules && Linked(g, sp, start, x)
    ensures forall x :: x in stack ==> x in pushed
    ensures forall x :: x in pushed ==> x in g.rules && Linked(g, sp, start, x)
    ensures forall b :: Edge(g, sp, current, b) ==> b in reachable || b in pushed
  {
    var expansions := g.rules[current];
    pushed := stack;
    for j := 0 to |expansions|
      invariant forall x :: x in stack ==> x in pushed
      invariant forall x :: x in pushed ==> x in g.rules && Linked(g, sp, start, x)
      invariant forall i, b :: 0 <= i < j && b in Tokens(sp, expansions[i], 0) && b in g.rules ==> b in reachable || b in pushed
    {
      ghost var prev := pushed;
      pushed := PushTokens(g, sp, reachable, expansions[j], pushed);
      forall x | x in pushed
        ensures x in g.rules && Linked(g, sp, start, x)
      {
        if x !in prev {
          assert Edge(g, sp, current, x);
          LinkedStep(g, sp, start, current, x);
        }
      }
    }
  }

  /** compute_reachable_nonterminals: the keys linked to `start`; empty when
      `start` is not a key, and closed under edges. */
  method ComputeReachable(g: Grammar, sp: Splitter, start: string) returns (reachable: set<string>)
    requires "" !in sp.nonterminals
    ensures start !in g.rules ==> reachable == {}
    ensures start in g.rules ==> start in reachable
    ensures reachable <= g.rules.Keys
    ensures forall a, b :: a in reachable && Edge(g, sp, a, b) ==> b in reachable
    ensures forall r :: r in reachable <==> Linked(g, sp, start, r)
  {
    reachable := {};
    var stack := if start in g.rules then [start] else [];
    if start in g.rules {
      LinkedStart(g, sp, start);
    }
    while stack != []
      invariant forall x :: x in stack ==> x in g.rules && Linked(g, sp, start, x)
      invariant forall r :: r in reachable ==> r in g.rules && Linked(g, sp, start, r)
      invariant start in g.rules ==> start in reachable || start in stack
      invariant forall a, b :: a in reachable && Edge(g, sp, a, b) ==> b in reachable || b in stack
      decreases g.rules.Keys - reachable, |stack|
    {
      ghost var before := stack;
      var current := stack[|stack| - 1];
      stack := stack[..|stack| - 1];
      assert before == stack + [current];
      if current in reachable {
        continue;
      }
      reachable := reachable + {current};
      if current in g.rules {
        stack := PushSuccessors(g, sp, start, reachable, current, stack);
      }
    }
    forall r | Linked(g, sp, start, r)
      ensures r in reachable
    {
      var path :| |path| > 0 && path[0] == start && path[|path| - 1] == r && IsChain(g, sp, path);
      ChainStaysIn(g, sp, reachable, path);
    }
  }
}
