/** Generic facts about sequences: prefixes, concatenation, and the two
    maps the model folds its per-element behaviour through. */
module Seqs {

  /** A prefix one longer is the prefix followed by the next element. */
  lemma PrefixSnoc<T>(s: seq<T>, k: nat)
    requires k < |s|
    ensures s[..k + 1] == s[..k] + [s[k]]
  {
  }

  /** A prefix of `front + back` that covers `front` is `front` followed by a prefix of `back`. */
  lemma ConcatPrefix<T>(front: seq<T>, back: seq<T>, n: nat)
    requires n <= |back|
    ensures (front + back)[..|front| + n] == front + back[..n]
  {
  }

  /** Concatenation is associative. */
  lemma ConcatAssoc<T>(a: seq<T>, b: seq<T>, c: seq<T>)
    ensures (a + b) + c == a + (b + c)
  {
  }

  /** `f` applied to every element of `xs`, in order. */
  function MapSeq<A, B>(f: A -> B, xs: seq<A>): (ys: seq<B>)
    ensures |ys| == |xs|
    ensures forall k :: 0 <= k < |xs| ==> ys[k] == f(xs[k])
  {
    seq(|xs|, k requires 0 <= k < |xs| => f(xs[k]))
  }

  /** Mapping distributes over concatenation. */
  lemma MapSeqConcat<A, B>(f: A -> B, xs: seq<A>, ys: seq<A>)
    ensures MapSeq(f, xs + ys) == MapSeq(f, xs) + MapSeq(f, ys)
  {
  }

  /** A prefix one longer maps to the mapped prefix followed by the next image. */
  lemma MapSeqPrefix<A, B>(f: A -> B, xs: seq<A>, i: nat)
    requires i < |xs|
    ensures MapSeq(f, xs[..i + 1]) == MapSeq(f, xs[..i]) + [f(xs[i])]
  {
  }

  /** The output of `f` on each element of `xs`, one after another. */
  function FlatMap<T, U>(f: T -> seq<U>, xs: seq<T>): seq<U>
  {
    if xs == [] then [] else FlatMap(f, xs[..|xs| - 1]) + f(xs[|xs| - 1])
  }

  /** One more element adds its output at the end. */
  lemma FlatMapSnoc<T, U>(f: T -> seq<U>, xs: seq<T>, x: T)
    ensures FlatMap(f, xs + [x]) == FlatMap(f, xs) + f(x)
  {
    assert (xs + [x])[..|xs|] == xs;
  }

  /** The output of a concatenation is the output of its parts, one after the other. */
  lemma {:induction false} FlatMapConcat<T, U>(f: T -> seq<U>, front: seq<T>, back: seq<T>)
    ensures FlatMap(f, front + back) == FlatMap(f, front) + FlatMap(f, back)
    decreases |back|
  {
    if back == [] {
      assert front + back == front;
    } else {
      var n := |back| - 1;
      ConcatPrefix(front, back, n);
      FlatMapConcat(f, front, back[..n]);
      var all := front + back;
      assert all[|all| - 1] == back[n];
      ConcatAssoc(FlatMap(f, front), FlatMap(f, back[..n]), f(back[n]));
    }
  }
}
