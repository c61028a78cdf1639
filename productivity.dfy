/** compute_productive_nonterminals of cgf.py: passes over the grammar add
    every nonterminal with an expansion whose tokens are all terminals
    (lower-case) or nonterminals already known to be productive, until a
    whole pass adds nothing. The result is the least set closed under that
    rule, so the order of the keys does not matter. */
module Productivity {
  import opened Text
  import opened Rules
  import opened Tokenizer

  /** The `all(...)` test: every token is lower-case or already productive.
      An empty token list passes. */
  predicate AllProductive(tokens: seq<string>, productive: set<string>): (r: bool)
    ensures tokens == [] ==> r
    ensures r <==> forall t :: t in tokens ==> IsLower(t) || t in productive
  {
    forall i :: 0 <= i < |tokens| ==> IsLower(tokens[i]) || tokens[i] in productive
  }

  /** The expansion, as the splitter cuts it, passes the `all(...)` test. */
  ghost predicate ExpansionProductive(sp: Splitter, expansion: string, productive: set<string>)
    requires "" !in sp.nonterminals
  {
    AllProductive(Tokens(sp, expansion, 0), productive)
  }

  /** Nonterminal `n` has an expansion passing the test against `productive`. */
  ghost predicate Qualifies(g: Grammar, sp: Splitter, n: string, productive: set<string>)
    requires "" !in sp.nonterminals && n in g.rules
  {
    exists j :: 0 <= j < |g.rules[n]| && ExpansionProductive(sp, g.rules[n][j], productive)
  }

  /** Every key that qualifies against `s` is already in `s`: one more pass
      would add nothing. */
  ghost predicate Closed(g: Grammar, sp: Splitter, s: set<string>)
    requires "" !in sp.nonterminals
  {
    forall n :: n in g.rules && Qualifies(g, sp, n, s) ==> n in s
  }

  /** Every member is a key with an expansion passing the test against `s`. */
  ghost predicate Supported(g: Grammar, sp: Splitter, s: set<string>)
    requires "" !in sp.nonterminals
  {
    forall n :: n in s ==> n in g.rules && Qualifies(g, sp, n, s)
  }

  /** `s` lies inside every closed set. */
  ghost predicate Least(g: Grammar, sp: Splitter, s: set<string>)
    requires "" !in sp.nonterminals
  {
    forall t :: Closed(g, sp, t) ==> s <= t
  }

  /** Knowing more productive nonterminals never makes a token list fail. */
  lemma AllProductiveMonotone(tokens: seq<string>, p: set<string>, q: set<string>)
    requires p <= q && AllProductive(tokens, p)
    ensures AllProductive(tokens, q)
  {
  }

  /** Qualifying is monotone in the productive set. */
  lemma QualifiesMonotone(g: Grammar, sp: Splitter, n: string, p: set<string>, q: set<string>)
    requires "" !in sp.nonterminals && n in g.rules
    requires p <= q && Qualifies(g, sp, n, p)
    ensures Qualifies(g, sp, n, q)
  {
    var j :| 0 <= j < |g.rules[n]| && ExpansionProductive(sp, g.rules[n][j], p);
    AllProductiveMonotone(Tokens(sp, g.rules[n][j], 0), p, q);
  }

  /** Adding a key that qualifies keeps the set supported and inside every
      closed set. */
  lemma AddQualifying(g: Grammar, sp: Splitter, s: set<string>, n: string)
    requires "" !in sp.nonterminals && n in g.rules
    requires Supported(g, sp, s) && Least(g, sp, s) && Qualifies(g, sp, n, s)
    ensures Supported(g, sp, s + {n}) && Least(g, sp, s + {n})
  {
    forall m | m in s + {n}
      ensures m in g.rules && Qualifies(g, sp, m, s + {n})
    {
      QualifiesMonotone(g, sp, m, s, s + {n});
    }
    forall t | Closed(g, sp, t)
      ensures s + {n} <= t
    {
      QualifiesMonotone(g, sp, n, s, t);
    }
  }

  /** The `for expansion in expansions` loop: whether some expansion passes
      the test, stopping at the first one that does. */
  method HasProductiveExpansion(sp: Splitter, expansions: seq<string>, productive: set<string>)
    returns (found: bool)
    requires "" !in sp.nonterminals
    ensures found <==> exists j :: 0 <= j < |expansions| && ExpansionProductive(sp, expansions[j], productive)
  {
    found := false;
    for j := 0 to |expansions|
      invariant !found
      invariant forall i :: 0 <= i < j ==> !ExpansionProductive(sp, expansions[i], productive)
    {
      var tokens := Split(sp, expansions[j]);
      if AllProductive(tokens, productive) {
        found := true;
        return;
      }
    }
  }

  /** compute_productive_nonterminals: the least closed set of keys, every
      member with an expansion made of terminals and members, found in at
      most one pass per key plus a final pass that adds nothing. */
  method ComputeProductive(g: Grammar, sp: Splitter) returns (productive: set<string>, ghost passes: nat)
    requires g.Valid() && "" !in sp.nonterminals
    ensures productive <= g.rules.Keys
    ensures Supported(g, sp, productive)
    ensures Closed(g, sp, productive)
    ensures Least(g, sp, productive)
    ensures passes <= |g.rules.Keys| + 1
  {
    productive := {};
    passes := 0;
    var matched := true;
    while matched
      invariant productive <= g.rules.Keys
      invariant Supported(g, sp, productive) && Least(g, sp, productive)
      invariant !matched ==> Closed(g, sp, productive)
      invariant |productive| <= |g.rules.Keys|
      invariant passes <= |productive| + (if matched then 0 else 1)
      decreases g.rules.Keys - productive, if matched then 1 else 0
    {
      ghost var start := productive;
      matched := false;
      for t := 0 to |g.keys|
        invariant start <= productive <= g.rules.Keys
        invariant Supported(g, sp, productive) && Least(g, sp, productive)
        invariant matched <==> start < productive
        invariant !matched ==> forall u :: 0 <= u < t ==> g.keys[u] in productive || !Qualifies(g, sp, g.keys[u], productive)
      {
        var nonterminal := g.keys[t];
        if nonterminal in productive {
          continue;
        }
        var found := HasProductiveExpansion(sp, g.rules[nonterminal], productive);
        if found {
          AddQualifying(g, sp, productive, nonterminal);
          productive := productive + {nonterminal};
          matched := true;
        }
      }
      passes := passes + 1;
      CardinalityGrows(start, productive, g.rules.Keys);
    }
  }

  /** A proper subset is smaller, and a subset of the keys is no larger than
      the keys. */
  lemma CardinalityGrows(s: set<string>, t: set<string>, keys: set<string>)
    requires s <= t <= keys
    ensures |s| <= |t| <= |keys|
    ensures s < t ==> |s| < |t|
  {
    SubsetCardinality(s, t);
    SubsetCardinality(t, keys);
  }

  lemma {:induction false} SubsetCardinality(s: set<string>, t: set<string>)
    requires s <= t
    ensures |s| <= |t|
    ensures s < t ==> |s| < |t|
    decreases |s|
  {
    if s != {} {
      var y :| y in s;
      SubsetCardinality(s - {y}, t - {y});
      assert s == (s - {y}) + {y};
      assert t == (t - {y}) + {y};
    }
  }

  /** The result does not depend on the order of the keys: there is one
      least closed set. */
  lemma LeastClosedUnique(g: Grammar, sp: Splitter, p: set<string>, q: set<string>)
    requires "" !in sp.nonterminals
    requires Closed(g, sp, p) && Least(g, sp, p)
    requires Closed(g, sp, q) && Least(g, sp, q)
    ensures p == q
  {
  }

  /** An empty alternative has no tokens, so its left side is productive
      whatever else is known. */
  lemma EmptyExpansionQualifies(g: Grammar, sp: Splitter, n: string, productive: set<string>)
    requires "" !in sp.nonterminals && n in g.rules && "" in g.rules[n]
    ensures Qualifies(g, sp, n, productive)
  {
    var j :| 0 <= j < |g.rules[n]| && g.rules[n][j] == "";
    assert Tokens(sp, g.rules[n][j], 0) == [];
  }
}
