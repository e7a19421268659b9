/** Facts about sequences that the summariser's proofs share: mapping a
    function over a sequence, and how concatenation, splitting and
    multisets interact. */
module Sequences {

  /** `f` applied to every element, in order. */
  function MapSeq<A, B>(f: A -> B, s: seq<A>): (r: seq<B>)
    ensures |r| == |s|
    ensures forall i :: 0 <= i < |s| ==> r[i] == f(s[i])
  {
    seq(|s|, i requires 0 <= i < |s| => f(s[i]))
  }

  lemma MapSeqConcat<A, B>(f: A -> B, xs: seq<A>, ys: seq<A>)
    ensures MapSeq(f, xs + ys) == MapSeq(f, xs) + MapSeq(f, ys)
  {
    var l, r := MapSeq(f, xs + ys), MapSeq(f, xs) + MapSeq(f, ys);
    forall i | 0 <= i < |l|
      ensures l[i] == r[i]
    {
      if i < |xs| {
        assert (xs + ys)[i] == xs[i];
      } else {
        assert (xs + ys)[i] == ys[i - |xs|];
      }
    }
  }

  /** Mapping two arrangements of the same elements gives two arrangements
      of the same images. */
  lemma {:induction false} MapSeqMultiset<A, B>(f: A -> B, s1: seq<A>, s2: seq<A>)
    requires multiset(s1) == multiset(s2)
    ensures multiset(MapSeq(f, s1)) == multiset(MapSeq(f, s2))
    decreases |s1|
  {
    if |s1| == 0 {
      assert |s2| == |multiset(s2)| == 0;
    } else {
      var x := s1[0];
      assert x in multiset(s2);
      var j :| 0 <= j < |s2| && s2[j] == x;
      var rest2 := s2[..j] + s2[j + 1..];
      RemoveMatchingElement(s1, s2, j);
      MapSeqMultiset(f, s1[1..], rest2);
      var a, b, c := MapSeq(f, s2[..j]), MapSeq(f, [x]), MapSeq(f, s2[j + 1..]);
      assert s1 == [x] + s1[1..];
      MapSeqConcat(f, [x], s1[1..]);
      SplitAround(s2, j);
      MapSeqConcat(f, s2[..j] + [x], s2[j + 1..]);
      MapSeqConcat(f, s2[..j], [x]);
      MapSeqConcat(f, s2[..j], s2[j + 1..]);
      calc {
        multiset(MapSeq(f, s2));
        multiset((a + b) + c);
        { MultisetOfThree(a, b, c); }
        multiset(b) + multiset(a + c);
        multiset(b) + multiset(MapSeq(f, rest2));
        multiset(b) + multiset(MapSeq(f, s1[1..]));
        multiset(b + MapSeq(f, s1[1..]));
        multiset(MapSeq(f, s1));
      }
    }
  }

  /** Taking the same element out of two arrangements leaves arrangements
      of the same elements. */
  lemma RemoveMatchingElement<T>(s1: seq<T>, s2: seq<T>, j: nat)
    requires multiset(s1) == multiset(s2) && |s1| > 0 && j < |s2| && s2[j] == s1[0]
    ensures multiset(s1[1..]) == multiset(s2[..j] + s2[j + 1..])
  {
    var x := s1[0];
    assert s1 == [x] + s1[1..];
    assert s2 == s2[..j] + [x] + s2[j + 1..];
    calc {
      multiset(s1[1..]);
      multiset(s1) - multiset{x};
      multiset(s2) - multiset{x};
      multiset(s2[..j] + s2[j + 1..]);
    }
  }

  lemma SplitAround<T>(s: seq<T>, j: nat)
    requires j < |s|
    ensures s == (s[..j] + [s[j]]) + s[j + 1..]
  {
  }

  lemma MultisetOfThree<T>(a: seq<T>, b: seq<T>, c: seq<T>)
    ensures multiset((a + b) + c) == multiset(b) + multiset(a + c)
  {
  }

  /** Stated separately so that proofs about folds can regroup a
      concatenation without unfolding the fold's contracts. */
  lemma AppendAssociative<T>(a: seq<T>, b: seq<T>, c: seq<T>)
    ensures a + (b + c) == (a + b) + c
  {
  }

  lemma DropFirstOfAppend<T>(xs: seq<T>, ys: seq<T>)
    requires |xs| > 0
    ensures (xs + ys)[0] == xs[0] && (xs + ys)[1..] == xs[1..] + ys
  {
  }
}
