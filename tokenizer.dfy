/** The greedy tokenizer of cgf.py: `make_splitter` captures the set of
    nonterminal names and their distinct lengths, longest first, and the
    returned `splitter` cuts a string into tokens, preferring at each
    position the longest nonterminal name that occurs there and falling
    back to a single character. */
module Tokenizer {
  import opened Text

  /** The closure returned by make_splitter: the names it matches and the
      distinct name lengths it tries, in that order. */
  datatype Splitter = Splitter(nonterminals: set<string>, lengths: seq<nat>)
  {
    /** `lengths` lists every name length once, in strictly decreasing order. */
    ghost predicate Valid()
    {
      && (forall i, j :: 0 <= i < j < |lengths| ==> lengths[i] > lengths[j])
      && (forall len :: len in lengths ==> exists n :: n in nonterminals && |n| == len)
      && (forall n :: n in nonterminals ==> |n| in lengths)
    }
  }

  lemma {:induction false} HasMaximum(s: set<nat>)
    requires s != {}
    ensures exists m :: m in s && forall x :: x in s ==> x <= m
  {
    var y :| y in s;
    if s != {y} {
      HasMaximum(s - {y});
      var m :| m in s - {y} && forall x :: x in s - {y} ==> x <= m;
      var top := if m < y then y else m;
      forall x | x in s
        ensures x <= top
      {
        if x != y {
          assert x in s - {y};
        }
      }
    }
  }

  /** sorted(s, reverse=True) for a set of lengths. */
  function SortedDescending(s: set<nat>): (r: seq<nat>)
    ensures forall i, j :: 0 <= i < j < |r| ==> r[i] > r[j]
    ensures forall x :: x in r <==> x in s
    decreases |s|
  {
    if s == {} then []
    else
      HasMaximum(s);
      var m :| m in s && forall x :: x in s ==> x <= m;
      [m] + SortedDescending(s - {m})
  }

  /** Every member of the length set is the length of some name. */
  lemma LengthsHaveNames(nonterminals: set<string>, lengths: set<nat>)
    requires lengths == set n | n in nonterminals :: |n|
    ensures forall len :: len in lengths ==> exists n :: n in nonterminals && |n| == len
  {
  }

  /** make_splitter: the distinct lengths of the names, longest first. */
  function MakeSplitter(nonterminals: set<string>): (sp: Splitter)
    ensures sp.nonterminals == nonterminals && sp.Valid()
  {
    var distinct := set n | n in nonterminals :: |n|;
    LengthsHaveNames(nonterminals, distinct);
    Splitter(nonterminals, SortedDescending(distinct))
  }

  /** A nonterminal name of length `length` occurs in `s` at `index`. */
  predicate NameAt(sp: Splitter, s: string, index: nat, length: nat)
  {
    index + length <= |s| && s[index..index + length] in sp.nonterminals
  }

  /** The inner `for length in nonterminal_length` loop: the first of the
      lengths from position `k` on at which a name occurs at `index`. */
  function Match(sp: Splitter, s: string, index: nat, k: nat): (r: Option<nat>)
    requires k <= |sp.lengths|
    decreases |sp.lengths| - k
    ensures r.Some? ==> NameAt(sp, s, index, r.value)
  {
    if k == |sp.lengths| then None
    else if NameAt(sp, s, index, sp.lengths[k]) then Some(sp.lengths[k])
    else Match(sp, s, index, k + 1)
  }

  /** The match is the first fitting length from position `k` on: every
      length tried before it fits no name, and no match means none fits. */
  lemma {:induction false} MatchIsFirstFit(sp: Splitter, s: string, index: nat, k: nat)
    requires k <= |sp.lengths|
    decreases |sp.lengths| - k
    ensures var r := Match(sp, s, index, k);
      && (r.Some? ==> exists j :: k <= j < |sp.lengths| && sp.lengths[j] == r.value
                                  && forall i :: k <= i < j ==> !NameAt(sp, s, index, sp.lengths[i]))
      && (r.None? ==> forall i :: k <= i < |sp.lengths| ==> !NameAt(sp, s, index, sp.lengths[i]))
  {
    if k < |sp.lengths| && !NameAt(sp, s, index, sp.lengths[k]) {
      MatchIsFirstFit(sp, s, index, k + 1);
    }
  }

  /** One pass of the outer `while` loop: the token emitted at `index` and
      the new cursor. */
  function Step(sp: Splitter, s: string, index: nat): (r: (string, nat))
    requires index < |s|
    ensures index <= r.1 <= |s| && s[index..r.1] == r.0
    ensures r.0 in sp.nonterminals || |r.0| == 1
  {
    match Match(sp, s, index, 0)
    case Some(length) => (s[index..index + length], index + length)
    case None => ([s[index]], index + 1)
  }

  /** A match is the longest name occurring at `index`: the lengths are
      tried longest first and every name's length is among them. */
  lemma MatchIsLongest(sp: Splitter, s: string, index: nat)
    requires sp.Valid() && Match(sp, s, index, 0).Some?
    ensures forall n :: n in sp.nonterminals && OccursAt(s, n, index) ==> |n| <= Match(sp, s, index, 0).value
  {
    MatchIsFirstFit(sp, s, index, 0);
    var length := Match(sp, s, index, 0).value;
    var j :| 0 <= j < |sp.lengths| && sp.lengths[j] == length
             && forall i :: 0 <= i < j ==> !NameAt(sp, s, index, sp.lengths[i]);
    forall n | n in sp.nonterminals && OccursAt(s, n, index)
      ensures |n| <= length
    {
      var i :| 0 <= i < |sp.lengths| && sp.lengths[i] == |n|;
      assert NameAt(sp, s, index, sp.lengths[i]);
    }
  }

  /** No match means no name occurs at `index` at all. */
  lemma NoMatchNoName(sp: Splitter, s: string, index: nat)
    requires sp.Valid() && Match(sp, s, index, 0).None?
    ensures forall n :: n in sp.nonterminals ==> !OccursAt(s, n, index)
  {
    MatchIsFirstFit(sp, s, index, 0);
    forall n | n in sp.nonterminals
      ensures !OccursAt(s, n, index)
    {
      var i :| 0 <= i < |sp.lengths| && sp.lengths[i] == |n|;
      assert !NameAt(sp, s, index, sp.lengths[i]);
    }
  }

  /** The step is greedy: the token is the longest name occurring at `index`,
      and when it is not a name at all, no name occurs there. */
  lemma StepIsGreedy(sp: Splitter, s: string, index: nat)
    requires sp.Valid() && index < |s|
    ensures var (token, next) := Step(sp, s, index);
      && next == index + |token| <= |s|
      && s[index..next] == token
      && (token in sp.nonterminals || |token| == 1)
      && (forall n :: n in sp.nonterminals && OccursAt(s, n, index) ==> |n| <= |token|)
      && (token !in sp.nonterminals ==> forall n :: n in sp.nonterminals ==> !OccursAt(s, n, index))
  {
    var (token, next) := Step(sp, s, index);
    match Match(sp, s, index, 0)
    case Some(length) =>
      MatchIsLongest(sp, s, index);
    case None =>
      NoMatchNoName(sp, s, index);
      if token in sp.nonterminals {
        assert OccursAt(s, token, index);
      }
  }

  /** With the empty string among the names, a position where no non-empty
      name occurs matches the empty name: the step emits "" and leaves the
      cursor where it was, so the source's loop repeats it forever. */
  lemma EmptyNameStalls(sp: Splitter, s: string, index: nat)
    requires sp.Valid() && "" in sp.nonterminals && index < |s|
    requires forall n :: n in sp.nonterminals && n != "" ==> !OccursAt(s, n, index)
    ensures Step(sp, s, index) == ("", index)
  {
    var zero :| 0 <= zero < |sp.lengths| && sp.lengths[zero] == |""|;
    assert NameAt(sp, s, index, sp.lengths[zero]) by {
      assert s[index..index] == "";
    }
    MatchIsFirstFit(sp, s, index, 0);
    var length := Match(sp, s, index, 0).value;
    assert OccursAt(s, s[index..index + length], index);
  }

  /** Without the empty name every step moves the cursor forward. */
  lemma StepAdvances(sp: Splitter, s: string, index: nat)
    requires "" !in sp.nonterminals && index < |s|
    ensures index < Step(sp, s, index).1 <= |s|
    ensures s[index..Step(sp, s, index).1] == Step(sp, s, index).0
  {
    match Match(sp, s, index, 0)
    case Some(length) =>
      assert s[index..index + length] != "";
    case None =>
  }

  /** The tokens the splitter emits from `index` to the end of `s`. */
  function Tokens(sp: Splitter, s: string, index: nat): (r: seq<string>)
    requires "" !in sp.nonterminals && index <= |s|
    decreases |s| - index
    ensures |r| <= |s| - index
  {
    if index == |s| then []
    else
      var (token, next) := Step(sp, s, index);
      StepAdvances(sp, s, index);
      [token] + Tokens(sp, s, next)
  }

  /** Concatenating the tokens gives back the input from `index` on; every
      token is non-empty, a name or a single character, and there are no
      more tokens than characters. */
  lemma {:induction false} TokensCover(sp: Splitter, s: string, index: nat)
    requires "" !in sp.nonterminals && index <= |s|
    decreases |s| - index
    ensures Concat(Tokens(sp, s, index)) == s[index..]
    ensures |Tokens(sp, s, index)| <= |s| - index
    ensures forall k :: 0 <= k < |Tokens(sp, s, index)| ==>
              Tokens(sp, s, index)[k] != [] && (Tokens(sp, s, index)[k] in sp.nonterminals || |Tokens(sp, s, index)[k]| == 1)
  {
    if index < |s| {
      var (token, next) := Step(sp, s, index);
      TokensCover(sp, s, next);
      assert s[index..] == s[index..next] + s[next..];
      var ts := Tokens(sp, s, index);
      assert ts[1..] == Tokens(sp, s, next);
      forall k | 0 <= k < |ts|
        ensures ts[k] != [] && (ts[k] in sp.nonterminals || |ts[k]| == 1)
      {
        if k > 0 {
          assert ts[k] == Tokens(sp, s, next)[k - 1];
        }
      }
    }
  }

  /** Token `k` starts at the cursor `index + |Concat(tokens[..k])|` and is
      what a greedy step emits there. */
  lemma {:induction false} TokensAreGreedySteps(sp: Splitter, s: string, index: nat, k: nat)
    requires "" !in sp.nonterminals && index <= |s|
    requires k < |Tokens(sp, s, index)|
    decreases k
    ensures index + |Concat(Tokens(sp, s, index)[..k])| < |s|
    ensures Step(sp, s, index + |Concat(Tokens(sp, s, index)[..k])|).0 == Tokens(sp, s, index)[k]
  {
    var ts := Tokens(sp, s, index);
    var (token, next) := Step(sp, s, index);
    if k == 0 {
      assert ts[..0] == [];
    } else {
      var rest := Tokens(sp, s, next);
      assert ts[..k] == [token] + rest[..k - 1];
      assert ts[k] == rest[k - 1];
      TokensAreGreedySteps(sp, s, next, k - 1);
      assert s[index..next] == token;
    }
  }

  /** Greedy longest match over the whole input: token `k`, emitted at cursor
      `p`, spells `s[p..]` up to its length, no name occurring at `p` is
      longer than it, and a token that is not a name is a single character
      emitted only where no name occurs. */
  lemma TokensAreGreedy(sp: Splitter, s: string, k: nat)
    requires sp.Valid() && "" !in sp.nonterminals
    requires k < |Tokens(sp, s, 0)|
    ensures var ts := Tokens(sp, s, 0);
            var p := |Concat(ts[..k])|;
      && p + |ts[k]| <= |s|
      && s[p..p + |ts[k]|] == ts[k]
      && (forall n :: n in sp.nonterminals && OccursAt(s, n, p) ==> |n| <= |ts[k]|)
      && (ts[k] !in sp.nonterminals ==> |ts[k]| == 1 && forall n :: n in sp.nonterminals ==> !OccursAt(s, n, p))
  {
    var ts := Tokens(sp, s, 0);
    var p := |Concat(ts[..k])|;
    TokensAreGreedySteps(sp, s, 0, k);
    assert p < |s| && Step(sp, s, p).0 == ts[k];
    StepIsGreedy(sp, s, p);
  }

  lemma TokensStep(sp: Splitter, s: string, index: nat)
    requires "" !in sp.nonterminals && index < |s|
    ensures Tokens(sp, s, index) == [Step(sp, s, index).0] + Tokens(sp, s, Step(sp, s, index).1)
  {
  }

  /** The inner loop of the splitter: tries the name lengths longest first
      and stops at the first one naming a nonterminal at `index`. */
  method MatchAt(sp: Splitter, s: string, index: nat) returns (found: Option<nat>)
    ensures found == Match(sp, s, index, 0)
  {
    found := None;
    var k := 0;
    while k < |sp.lengths|
      invariant k <= |sp.lengths|
      invariant Match(sp, s, index, k) == Match(sp, s, index, 0)
    {
      var length := sp.lengths[k];
      if index + length <= |s| {
        var substring := s[index..index + length];
        if substring in sp.nonterminals {
          found := Some(length);
          return;
        }
      }
      k := k + 1;
    }
  }

  /** The splitter: scans `s` with a cursor, emitting at each position the
      longest name found there, or else the single character. */
  method Split(sp: Splitter, s: string) returns (tokenList: seq<string>)
    requires "" !in sp.nonterminals
    ensures tokenList == Tokens(sp, s, 0)
    ensures Concat(tokenList) == s
    ensures |tokenList| <= |s|
  {
    var index := 0;
    tokenList := [];
    while index < |s|
      invariant index <= |s|
      invariant tokenList + Tokens(sp, s, index) == Tokens(sp, s, 0)
      decreases |s| - index
    {
      ghost var before, start := tokenList, index;
      var found := MatchAt(sp, s, index);
      match found {
        case Some(length) =>
          tokenList := tokenList + [s[index..index + length]];
          index := index + length;
        case None =>
          tokenList := tokenList + [[s[index]]];
          index := index + 1;
      }
      TokensStep(sp, s, start);
      AppendStep(before, Step(sp, s, start).0, Tokens(sp, s, index));
    }
    TokensCover(sp, s, 0);
  }

  lemma AppendStep<T>(before: seq<T>, x: T, rest: seq<T>)
    ensures (before + [x]) + rest == before + ([x] + rest)
  {
  }
}
