/** The string primitives the grammar tool is built on, restricted to ASCII:
    Python's str.strip(), the substring test `p in s`, s.split(sep) with a
    one-character separator, str.islower(), and the concatenation that
    reassembles a token list. */
module Text {

  datatype Option<T> = None | Some(value: T)

  /** Python's str.isspace() on ASCII: tab, line feed, vertical tab, form
      feed, carriage return, the separators 0x1C-0x1F and the space. */
  predicate IsSpace(c: char)
  {
    9 <= c as int <= 13 || 28 <= c as int <= 32
  }

  /** Drops the leading whitespace of `s`. */
  function TrimLeft(s: string): (r: string)
    ensures |r| <= |s| && r == s[|s| - |r|..]
    ensures forall i :: 0 <= i < |s| - |r| ==> IsSpace(s[i])
    ensures r != [] ==> !IsSpace(r[0])
  {
    if s != [] && IsSpace(s[0]) then TrimLeft(s[1..]) else s
  }

  /** Drops the trailing whitespace of `s`. */
  function TrimRight(s: string): (r: string)
    ensures |r| <= |s| && r == s[..|r|]
    ensures forall i :: |r| <= i < |s| ==> IsSpace(s[i])
    ensures r != [] ==> !IsSpace(r[|r| - 1])
  {
    if s != [] && IsSpace(s[|s| - 1]) then TrimRight(s[..|s| - 1]) else s
  }

  /** `r` is the slice of `s` starting at `a`, and everything of `s` around
      it is whitespace. */
  predicate TrimmedAt(s: string, r: string, a: int)
  {
    && 0 <= a <= |s| - |r| && r == s[a..a + |r|]
    && (forall i :: 0 <= i < a ==> IsSpace(s[i]))
    && (forall i :: a + |r| <= i < |s| ==> IsSpace(s[i]))
  }

  /** Dropping whitespace from the front of `s`, giving `l`, and then from
      the back of `l`, giving `r`, leaves `r` as a slice of `s` with only
      whitespace around it. */
  lemma TrimmedSlice(s: string, l: string, r: string)
    requires |l| <= |s| && l == s[|s| - |l|..]
    requires forall i :: 0 <= i < |s| - |l| ==> IsSpace(s[i])
    requires |r| <= |l| && r == l[..|r|]
    requires forall i :: |r| <= i < |l| ==> IsSpace(l[i])
    ensures TrimmedAt(s, r, |s| - |l|)
  {
    var a := |s| - |l|;
    assert s[a..a + |r|] == l[..|r|];
    forall i | a + |r| <= i < |s|
      ensures IsSpace(s[i])
    {
      assert s[i] == l[i - a];
    }
  }

  /** Python's str.strip() without arguments: the middle of `s` with only
      whitespace dropped on either side, neither end being whitespace. */
  function Strip(s: string): (r: string)
    ensures |r| <= |s|
    ensures r != [] ==> !IsSpace(r[0]) && !IsSpace(r[|r| - 1])
    ensures exists a :: TrimmedAt(s, r, a)
  {
    TrimmedSlice(s, TrimLeft(s), TrimRight(TrimLeft(s)));
    TrimRight(TrimLeft(s))
  }

  /** `p` occurs in `s` starting at index `j`. */
  predicate OccursAt(s: string, p: string, j: int)
  {
    0 <= j && j + |p| <= |s| && s[j..j + |p|] == p
  }

  /** The first index at or after `from` where `p` occurs in `s`. */
  function IndexFrom(s: string, p: string, from: nat): (r: Option<nat>)
    decreases |s| - from
    ensures r.Some? ==> from <= r.value && OccursAt(s, p, r.value)
    ensures r.Some? ==> forall j :: from <= j < r.value ==> !OccursAt(s, p, j)
    ensures r.None? ==> forall j :: from <= j ==> !OccursAt(s, p, j)
  {
    if from + |p| > |s| then None
    else if s[from..from + |p|] == p then Some(from)
    else IndexFrom(s, p, from + 1)
  }

  /** The first index where `p` occurs in `s`, if any; `p in s` in Python is
      `IndexOf(s, p).Some?`. */
  function IndexOf(s: string, p: string): (r: Option<nat>)
    ensures r.Some? ==> OccursAt(s, p, r.value) && forall j :: 0 <= j < r.value ==> !OccursAt(s, p, j)
    ensures r.None? ==> forall j :: !OccursAt(s, p, j)
  {
    IndexFrom(s, p, 0)
  }

  /** An occurrence of a pattern that neither starts nor ends with whitespace
      survives stripping, shifted left by the whitespace dropped in front. */
  lemma StripKeepsOccurrence(s: string, p: string, j: nat)
    requires OccursAt(s, p, j) && p != []
    requires !IsSpace(p[0]) && !IsSpace(p[|p| - 1])
    ensures exists k :: OccursAt(Strip(s), p, k)
  {
    var left := TrimLeft(s);
    var a := |s| - |left|;
    assert s[j] == p[0];
    assert a <= j;
    assert OccursAt(left, p, j - a) by {
      assert left[j - a..j - a + |p|] == s[j..j + |p|];
    }
    var right := TrimRight(left);
    assert left[j - a + |p| - 1] == p[|p| - 1];
    assert j - a + |p| <= |right|;
    assert right[j - a..j - a + |p|] == left[j - a..j - a + |p|];
    assert OccursAt(Strip(s), p, j - a);
  }

  /** Python's s.split(sep) for a one-character separator: the pieces between
      separators, empty pieces included, and always at least one piece. */
  function SplitOn(s: string, sep: char): (r: seq<string>)
    ensures |r| >= 1
  {
    if s == [] then [[]]
    else
      var rest := SplitOn(s[1..], sep);
      if s[0] == sep then [[]] + rest else [[s[0]] + rest[0]] + rest[1..]
  }

  /** Python's [sep].join(parts). */
  function Join(parts: seq<string>, sep: char): string
    requires |parts| >= 1
  {
    if |parts| == 1 then parts[0] else parts[0] + [sep] + Join(parts[1..], sep)
  }

  /** Splitting loses nothing: joining the pieces back with the separator
      gives the original string. */
  lemma {:induction false} SplitOnJoin(s: string, sep: char)
    ensures Join(SplitOn(s, sep), sep) == s
  {
    if s != [] {
      var rest := SplitOn(s[1..], sep);
      SplitOnJoin(s[1..], sep);
      if s[0] == sep {
        assert SplitOn(s, sep)[1..] == rest;
        assert s == [sep] + s[1..];
      } else {
        var parts := SplitOn(s, sep);
        assert parts[1..] == rest[1..];
        if |rest| == 1 {
          assert s == [s[0]] + s[1..];
        } else {
          assert Join(parts, sep) == [s[0]] + (rest[0] + [sep] + Join(rest[1..], sep));
        }
      }
    }
  }

  /** No piece of a split contains the separator. */
  lemma {:induction false} SplitOnPieces(s: string, sep: char)
    ensures forall i :: 0 <= i < |SplitOn(s, sep)| ==> sep !in SplitOn(s, sep)[i]
  {
    if s != [] {
      var rest := SplitOn(s[1..], sep);
      SplitOnPieces(s[1..], sep);
      var parts := SplitOn(s, sep);
      forall i | 0 <= i < |parts|
        ensures sep !in parts[i]
      {
        if s[0] == sep {
          if i > 0 {
            assert parts[i] == rest[i - 1];
          }
        } else if i == 0 {
          assert parts[0] == [s[0]] + rest[0];
        } else {
          assert parts[i] == rest[i];
        }
      }
    }
  }

  /** A trailing separator adds one empty piece at the end. */
  lemma {:induction false} SplitOnTrailing(s: string, sep: char)
    ensures SplitOn(s + [sep], sep) == SplitOn(s, sep) + [[]]
  {
    if s == [] {
      assert s + [sep] == [sep];
    } else {
      assert (s + [sep])[1..] == s[1..] + [sep];
      SplitOnTrailing(s[1..], sep);
      var rest := SplitOn(s[1..], sep);
      if s[0] != sep {
        assert (rest + [[]])[1..] == rest[1..] + [[]];
      }
    }
  }

  /** Python's str.islower() on ASCII: at least one cased letter and no
      upper-case letter. */
  predicate IsLower(s: string): (r: bool)
    ensures r ==> s != []
    ensures |s| == 1 ==> (r <==> 'a' <= s[0] <= 'z')
  {
    && (exists i :: 0 <= i < |s| && 'a' <= s[i] <= 'z')
    && (forall i :: 0 <= i < |s| ==> !('A' <= s[i] <= 'Z'))
  }

  /** Python's "".join(parts). */
  function Concat(parts: seq<string>): string
  {
    if parts == [] then [] else parts[0] + Concat(parts[1..])
  }

  lemma {:induction false} ConcatAppend(a: seq<string>, b: seq<string>)
    ensures Concat(a + b) == Concat(a) + Concat(b)
  {
    if a != [] {
      assert (a + b)[1..] == a[1..] + b;
      ConcatAppend(a[1..], b);
    } else {
      assert a + b == b;
    }
  }
}
