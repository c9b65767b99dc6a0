/** Generic facts about sequences used by the catalogue tools and the table filters. */
module Seqs {

  /** The set of elements of a sequence (Python's `set(xs)`). */
  function Elems<T>(s: seq<T>): set<T>
  {
    set x | x in s
  }

  lemma ElemsEmpty<T>(s: seq<T>)
    ensures Elems(s) == {} <==> s == []
  {
    if s != [] {
      assert s[0] in Elems(s);
    }
  }

  /** `sub` is `s` with zero or more elements deleted, the rest kept in order. */
  predicate IsSubsequence<T(==)>(sub: seq<T>, s: seq<T>)
    decreases |s|
  {
    sub == [] || (s != [] && ((sub[0] == s[0] && IsSubsequence(sub[1..], s[1..])) || IsSubsequence(sub, s[1..])))
  }

  lemma {:induction false} SubsequenceLength<T>(sub: seq<T>, s: seq<T>)
    requires IsSubsequence(sub, s)
    ensures |sub| <= |s|
    decreases |s|
  {
    if sub != [] {
      if sub[0] == s[0] && IsSubsequence(sub[1..], s[1..]) {
        SubsequenceLength(sub[1..], s[1..]);
      } else {
        SubsequenceLength(sub, s[1..]);
      }
    }
  }

  lemma {:induction false} SubsequenceRefl<T>(s: seq<T>)
    ensures IsSubsequence(s, s)
    decreases |s|
  {
    if s != [] {
      SubsequenceRefl(s[1..]);
    }
  }

  /** Appending one element to the longer sequence keeps a subsequence. */
  lemma {:induction false} SubsequenceExtend<T>(sub: seq<T>, s: seq<T>, x: T)
    requires IsSubsequence(sub, s)
    ensures IsSubsequence(sub, s + [x])
    decreases |s|
  {
    if sub != [] {
      assert (s + [x])[1..] == s[1..] + [x];
      if sub[0] == s[0] && IsSubsequence(sub[1..], s[1..]) {
        SubsequenceExtend(sub[1..], s[1..], x);
      } else {
        SubsequenceExtend(sub, s[1..], x);
      }
    }
  }

  /** Appending the same element to both sides keeps a subsequence. */
  lemma {:induction false} SubsequenceSnoc<T>(sub: seq<T>, s: seq<T>, x: T)
    requires IsSubsequence(sub, s)
    ensures IsSubsequence(sub + [x], s + [x])
    decreases |s|
  {
    if s == [] {
      assert sub == [];
      assert sub + [x] == [x] && s + [x] == [x];
      assert IsSubsequence([x][1..], [x][1..]);
    } else {
      assert (s + [x])[1..] == s[1..] + [x];
      if sub == [] {
        SubsequenceSnoc(sub, s[1..], x);
        assert sub + [x] == [x];
      } else {
        assert (sub + [x])[1..] == sub[1..] + [x];
        if sub[0] == s[0] && IsSubsequence(sub[1..], s[1..]) {
          SubsequenceSnoc(sub[1..], s[1..], x);
        } else {
          SubsequenceSnoc(sub, s[1..], x);
        }
      }
    }
  }
}
