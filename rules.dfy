/** parse_rules of cgf.py without the file: the lines of a grammar of the
    form `LHS -> RHS1 | RHS2 | ...` become a dictionary from each left side
    to the list of its alternatives, and the set of left sides. */
module Rules {
  import opened Text

  /** A Python dict from left sides to alternatives: its keys in insertion
      order, and the mapping itself. */
  datatype Grammar = Grammar(keys: seq<string>, rules: map<string, seq<string>>)
  {
    /** The keys are listed once each, and they are exactly the map's keys. */
    ghost predicate Valid()
    {
      && (forall i, j :: 0 <= i < j < |keys| ==> keys[i] != keys[j])
      && (forall k :: k in rules <==> k in keys)
    }
  }

  const ARROW: string := "->"

  /** Cutting a string at the first arrow: what comes before it holds no
      arrow. */
  lemma CutAtFirstArrow(t: string, j: nat)
    requires IndexOf(t, ARROW) == Some(j)
    ensures t == t[..j] + ARROW + t[j + 2..]
    ensures IndexOf(t[..j], ARROW).None?
  {
    assert t[j..j + 2] == ARROW;
    forall i | OccursAt(t[..j], ARROW, i)
      ensures false
    {
      assert t[..j][i..i + 2] == t[i..i + 2];
      assert OccursAt(t, ARROW, i);
    }
  }

  /** The left and right side of a rule line, split at the first arrow of the
      stripped line, the left side stripped; None for a line without an
      arrow, which the loader skips. */
  function SplitRule(line: string): (r: Option<(string, string)>)
    ensures r.None? <==> IndexOf(line, ARROW).None?
  {
    match IndexOf(line, ARROW)
    case None => None
    case Some(at) =>
      StripKeepsOccurrence(line, ARROW, at);
      var t := Strip(line);
      var j := IndexOf(t, ARROW).value;
      Some((Strip(t[..j]), t[j + 2..]))
  }

  /** Only the first arrow splits: the stripped line is the part before it,
      which holds no arrow and strips to the left side, then the arrow, then
      the right side, which may hold further arrows. */
  lemma SplitRuleAtFirstArrow(line: string)
    requires SplitRule(line).Some?
    ensures exists u :: Strip(line) == u + ARROW + SplitRule(line).value.1
                        && SplitRule(line).value.0 == Strip(u)
                        && IndexOf(u, ARROW).None?
  {
    var t := Strip(line);
    StripKeepsOccurrence(line, ARROW, IndexOf(line, ARROW).value);
    var j := IndexOf(t, ARROW).value;
    CutAtFirstArrow(t, j);
    assert Strip(line) == t[..j] + ARROW + SplitRule(line).value.1;
  }

  /** A line whose stripped text starts with the arrow has the empty string
      as its left side. */
  lemma LeadingArrowNamesEmpty(line: string)
    requires IndexOf(Strip(line), ARROW) == Some(0)
    ensures SplitRule(line).Some? && SplitRule(line).value.0 == ""
  {
    var t := Strip(line);
    var left := TrimLeft(line);
    var a := |line| - |left|;
    assert t[..2] == left[..2] == line[a..a + 2];
    assert OccursAt(line, ARROW, a);
    assert t[..0] == "";
    assert Strip("") == "";
  }

  /** `[item.strip() for item in right_hand_side.split("|")]`. */
  function Alternatives(rhs: string): (r: seq<string>)
    ensures |r| == |SplitOn(rhs, '|')| >= 1
  {
    var pieces := SplitOn(rhs, '|');
    seq(|pieces|, i requires 0 <= i < |pieces| => Strip(pieces[i]))
  }

  /** A trailing bar gives one more alternative, the empty one: empty
      alternatives are kept, not dropped. */
  lemma TrailingBarKeepsEmpty(rhs: string)
    ensures Alternatives(rhs + "|") == Alternatives(rhs) + [""]
  {
    SplitOnTrailing(rhs, '|');
    assert Strip("") == "";
  }

  /** `grammar.setdefault(key, []).append(rule)`. */
  function SetDefaultAppend(g: Grammar, key: string, rule: string): (r: Grammar)
    ensures r.rules.Keys == g.rules.Keys + {key}
    ensures r.rules[key] == (if key in g.rules then g.rules[key] else []) + [rule]
    ensures forall k :: k in g.rules && k != key ==> r.rules[k] == g.rules[k]
    ensures g.Valid() ==> r.Valid()
  {
    if key in g.rules then Grammar(g.keys, g.rules[key := g.rules[key] + [rule]])
    else Grammar(g.keys + [key], g.rules[key := [rule]])
  }

  /** The dictionary after appending `rules`, in order, to the list of
      `key`; a new key goes to the end of the key order. */
  function Extend(g: Grammar, key: string, rules: seq<string>): Grammar
  {
    if rules == [] then g
    else if key in g.rules then Grammar(g.keys, g.rules[key := g.rules[key] + rules])
    else Grammar(g.keys + [key], g.rules[key := rules])
  }

  /** Extending by one more rule is one more setdefault-append. */
  lemma ExtendOneMore(g: Grammar, key: string, rules: seq<string>, rule: string)
    ensures Extend(g, key, rules + [rule]) == SetDefaultAppend(Extend(g, key, rules), key, rule)
  {
    if rules == [] {
      assert rules + [rule] == [rule];
    } else if key in g.rules {
      assert (g.rules[key] + rules) + [rule] == g.rules[key] + (rules + [rule]);
    }
  }

  /** Extending keeps the dictionary well formed and adds `key` to its keys
      when there is something to append. */
  lemma ExtendValid(g: Grammar, key: string, rules: seq<string>)
    requires g.Valid() && rules != []
    ensures Extend(g, key, rules).Valid()
    ensures Extend(g, key, rules).rules.Keys == g.rules.Keys + {key}
  {
  }

  /** The `for rule in ...` loop: setdefault-append of each rule in turn. */
  method AppendRules(g: Grammar, key: string, rules: seq<string>) returns (grammar: Grammar)
    ensures grammar == Extend(g, key, rules)
  {
    grammar := g;
    for j := 0 to |rules|
      invariant grammar == Extend(g, key, rules[..j])
    {
      ExtendOneMore(g, key, rules[..j], rules[j]);
      assert rules[..j + 1] == rules[..j] + [rules[j]];
      grammar := SetDefaultAppend(grammar, key, rules[j]);
    }
    WholePrefix(rules);
  }

  lemma WholePrefix<T>(s: seq<T>)
    ensures s[..|s|] == s
  {
  }

  /** What the loader makes of one line: None for a line without an arrow,
      otherwise its left side and right side as SplitRule cuts them. */
  type RuleLine = Option<(string, string)>

  /** The lines as the loader sees them, one split per line. */
  function SplitLines(lines: seq<string>): (r: seq<RuleLine>)
    ensures |r| == |lines|
  {
    seq(|lines|, i requires 0 <= i < |lines| => SplitRule(lines[i]))
  }

  /** One iteration of the `for line` loop on the dictionary and the set. */
  function AddRule(state: (Grammar, set<string>), split: RuleLine): (Grammar, set<string>)
  {
    match split
    case None => state
    case Some((lhs, rhs)) => (Extend(state.0, lhs, Alternatives(rhs)), state.1 + {lhs})
  }

  /** The dictionary and the set after the given lines. */
  function Collect(splits: seq<RuleLine>): (Grammar, set<string>)
  {
    if splits == [] then (Grammar([], map[]), {})
    else AddRule(Collect(splits[..|splits| - 1]), splits[|splits| - 1])
  }

  /** What parse_rules returns for `lines`. */
  function Parse(lines: seq<string>): (r: (Grammar, set<string>))
    ensures r.0.Valid() && r.0.rules.Keys == r.1
  {
    CollectShape(SplitLines(lines));
    Collect(SplitLines(lines))
  }

  lemma CollectNext(splits: seq<RuleLine>, i: nat)
    requires i < |splits|
    ensures Collect(splits[..i + 1]) == AddRule(Collect(splits[..i]), splits[i])
  {
    assert splits[..i + 1][..i] == splits[..i];
  }

  /** parse_rules: each line with an arrow adds its left side to the set and
      appends its alternatives to the left side's list. */
  method ParseRules(lines: seq<string>) returns (grammar: Grammar, nonterminals: set<string>)
    ensures (grammar, nonterminals) == Parse(lines)
    ensures grammar.Valid() && grammar.rules.Keys == nonterminals
  {
    ghost var splits := SplitLines(lines);
    grammar := Grammar([], map[]);
    nonterminals := {};
    for i := 0 to |lines|
      invariant (grammar, nonterminals) == Collect(splits[..i])
    {
      CollectNext(splits, i);
      var split := SplitRule(lines[i]);
      assert split == splits[i];
      if split.Some? {
        var lhs, rhs := split.value.0, split.value.1;
        nonterminals := nonterminals + {lhs};
        grammar := AppendRules(grammar, lhs, Alternatives(rhs));
      }
    }
    WholePrefix(splits);
  }

  /** The dictionary is well formed and its keys are exactly the collected
      nonterminals: every line with an arrow yields at least one alternative. */
  lemma {:induction false} CollectShape(splits: seq<RuleLine>)
    ensures Collect(splits).0.Valid() && Collect(splits).0.rules.Keys == Collect(splits).1
  {
    if splits != [] {
      var init := splits[..|splits| - 1];
      CollectShape(init);
      match splits[|splits| - 1]
      case None =>
      case Some((lhs, rhs)) =>
        ExtendValid(Collect(init).0, lhs, Alternatives(rhs));
    }
  }

  /** The split defines `key` when it has `key` as its left side. */
  predicate Defines(split: RuleLine, key: string)
  {
    split.Some? && split.value.0 == key
  }

  /** A name is a nonterminal exactly when some line has it as left side. */
  lemma {:induction false} CollectNonterminals(splits: seq<RuleLine>, key: string)
    ensures key in Collect(splits).1 <==> exists i :: 0 <= i < |splits| && Defines(splits[i], key)
  {
    if splits != [] {
      var init := splits[..|splits| - 1];
      CollectNonterminals(init, key);
      if exists i :: 0 <= i < |splits| && Defines(splits[i], key) {
        var i :| 0 <= i < |splits| && Defines(splits[i], key);
        if i < |init| {
          assert Defines(init[i], key);
        }
      }
      if exists i :: 0 <= i < |init| && Defines(init[i], key) {
        var i :| 0 <= i < |init| && Defines(init[i], key);
        assert Defines(splits[i], key);
      }
    }
  }

  /** The alternatives every line gives `key`, concatenated in line order. */
  function AlternativesFor(splits: seq<RuleLine>, key: string): seq<string>
  {
    if splits == [] then []
    else
      var last := splits[|splits| - 1];
      AlternativesFor(splits[..|splits| - 1], key) + (if Defines(last, key) then Alternatives(last.value.1) else [])
  }

  /** Without a line defining `key`, no alternative is collected for it. */
  lemma {:induction false} AlternativesForUndefined(splits: seq<RuleLine>, key: string)
    requires key !in Collect(splits).0.rules
    ensures AlternativesFor(splits, key) == []
  {
    if splits != [] {
      var init := splits[..|splits| - 1];
      CollectShape(init);
      CollectShape(splits);
      match splits[|splits| - 1]
      case None =>
        AlternativesForUndefined(init, key);
      case Some((lhs, rhs)) =>
        ExtendValid(Collect(init).0, lhs, Alternatives(rhs));
        AlternativesForUndefined(init, key);
    }
  }

  /** The list of each key is the concatenation, in line order, of the
      alternatives of every line with that left side: alternatives of a
      repeated left side accumulate and are never overwritten. */
  lemma {:induction false} CollectAlternatives(splits: seq<RuleLine>, key: string)
    requires key in Collect(splits).0.rules
    ensures Collect(splits).0.rules[key] == AlternativesFor(splits, key)
  {
    var init := splits[..|splits| - 1];
    var state := Collect(init);
    CollectShape(init);
    match splits[|splits| - 1]
    case None =>
      CollectAlternatives(init, key);
    case Some((lhs, rhs)) =>
      if key != lhs {
        CollectAlternatives(init, key);
      } else if key in state.0.rules {
        CollectAlternatives(init, key);
      } else {
        AlternativesForUndefined(init, key);
      }
  }

  /** Dropping a line without an arrow anywhere leaves the result unchanged. */
  lemma {:induction false} CollectSkipsNone(before: seq<RuleLine>, after: seq<RuleLine>)
    ensures Collect(before + [None] + after) == Collect(before + after)
  {
    if after == [] {
      assert (before + [None] + after)[..|before|] == before;
      assert before + after == before;
    } else {
      var init := after[..|after| - 1];
      CollectSkipsNone(before, init);
      assert (before + [None] + after)[..|before + [None] + after| - 1] == before + [None] + init;
      assert (before + after)[..|before + after| - 1] == before + init;
    }
  }

  /** The loader splits each line on its own. */
  lemma SplitLinesAppend(a: seq<string>, b: seq<string>)
    ensures SplitLines(a + b) == SplitLines(a) + SplitLines(b)
  {
    var whole, parts := SplitLines(a + b), SplitLines(a) + SplitLines(b);
    forall i | 0 <= i < |whole|
      ensures whole[i] == parts[i]
    {
      if i < |a| {
        assert (a + b)[i] == a[i];
      } else {
        assert (a + b)[i] == b[i - |a|];
      }
    }
  }

  /** Lines without an arrow contribute nothing: one can be dropped from
      anywhere in the input without changing what parse_rules returns. */
  lemma ParseSkipsPlainLine(before: seq<string>, line: string, after: seq<string>)
    requires IndexOf(line, ARROW).None?
    ensures Parse(before + [line] + after) == Parse(before + after)
  {
    SplitLinesAppend(before + [line], after);
    SplitLinesAppend(before, [line]);
    SplitLinesAppend(before, after);
    assert SplitLines([line]) == [None];
    CollectSkipsNone(SplitLines(before), SplitLines(after));
  }
}
