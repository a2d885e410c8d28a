/** Sequence helpers shared by the extraction loops. */
module Seqs {
  import opened Outcome

  /** The forgiving decode loop: the values `f` yields for the elements of `s`, in
      enumeration order, with the elements on which `f` yields nothing left out. */
  function FilterMap<A, B>(s: seq<A>, f: A -> Option<B>): (r: seq<B>)
    ensures |r| <= |s|
    ensures forall i :: 0 <= i < |r| ==> exists k :: 0 <= k < |s| && f(s[k]) == Some(r[i])
    ensures forall k :: 0 <= k < |s| && f(s[k]).Some? ==> f(s[k]).value in r
    ensures |r| == 0 <==> forall k :: 0 <= k < |s| ==> f(s[k]).None?
  {
    if |s| == 0 then []
    else
      var rest := FilterMap(s[1..], f);
      assert forall k :: 1 <= k < |s| ==> s[k] == s[1..][k - 1];
      match f(s[0])
      case Some(b) => [b] + rest
      case None => rest
  }

  /** FilterMap is a homomorphism on concatenation: this, with the one-element case,
      pins down that the result keeps enumeration order. */
  lemma {:induction false} FilterMapAppend<A, B>(a: seq<A>, b: seq<A>, f: A -> Option<B>)
    ensures FilterMap(a + b, f) == FilterMap(a, f) + FilterMap(b, f)
  {
    if |a| == 0 {
      assert a + b == b;
    } else {
      assert (a + b)[1..] == a[1..] + b;
      FilterMapAppend(a[1..], b, f);
    }
  }

  /** On one element, FilterMap keeps the decoded value or drops the element. */
  lemma FilterMapSingle<A, B>(x: A, f: A -> Option<B>)
    ensures FilterMap([x], f) == (if f(x).Some? then [f(x).value] else [])
  {
  }

  lemma Cons<A>(s: seq<A>)
    requires |s| > 0
    ensures s == [s[0]] + s[1..]
    ensures multiset(s) == multiset{s[0]} + multiset(s[1..])
  {
    assert s == [s[0]] + s[1..];
  }
}
