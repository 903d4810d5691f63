/** `Util::isAny` (src/util.hh): membership of a value in a list of arguments. */
module Util {

  /** One argument of `isAny`: either something string-like, searched with
      `find`, or a plain value compared with `==`. */
  datatype Arg<T> = Span(items: seq<T>) | Value(v: T)

  /** The per-argument test of the fold. */
  predicate Matches<T(==)>(x: T, arg: Arg<T>) {
    match arg
    case Span(items) => x in items
    case Value(v) => x == v
  }

  /** `(compare(x, args) || ...)`: a right fold of `||`, which is `false`
      for an empty pack. */
  predicate IsAny<T(==)>(x: T, args: seq<Arg<T>>) {
    if args == [] then false else Matches(x, args[0]) || IsAny(x, args[1..])
  }

  /** The fold is true exactly when some argument matches. */
  lemma {:induction false} IsAnyIff<T>(x: T, args: seq<Arg<T>>)
    ensures IsAny(x, args) <==> exists i :: 0 <= i < |args| && Matches(x, args[i])
    decreases |args|
  {
    if args != [] {
      IsAnyIff(x, args[1..]);
      if IsAny(x, args[1..]) {
        var i :| 0 <= i < |args[1..]| && Matches(x, args[1..][i]);
        assert Matches(x, args[i + 1]);
      }
      if exists i :: 0 <= i < |args| && Matches(x, args[i]) {
        var i :| 0 <= i < |args| && Matches(x, args[i]);
        if i > 0 {
          assert Matches(x, args[1..][i - 1]);
        }
      }
    }
  }

  /** With a single string-like argument, `isAny` is membership in it. */
  lemma IsAnyOneSpan<T>(x: T, items: seq<T>)
    ensures IsAny(x, [Span(items)]) <==> x in items
  {
    assert [Span(items)][1..] == [];
  }

  /** Splitting the argument pack splits the disjunction. */
  lemma {:induction false} IsAnyAppend<T>(x: T, a: seq<Arg<T>>, b: seq<Arg<T>>)
    ensures IsAny(x, a + b) <==> IsAny(x, a) || IsAny(x, b)
    decreases |a|
  {
    if a != [] {
      assert (a + b)[1..] == a[1..] + b;
      IsAnyAppend(x, a[1..], b);
    } else {
      assert a + b == b;
    }
  }

  /** Concatenation regroups; stated once so that callers can name the
      instance they need. */
  lemma AppendAssoc<T>(a: seq<T>, b: seq<T>, c: seq<T>)
    ensures (a + b) + c == a + (b + c)
  {
  }

  /** A concatenation splits back into its two parts. */
  lemma SplitAppend<T>(a: seq<T>, b: seq<T>)
    ensures (a + b)[..|a|] == a && (a + b)[|a|..] == b
  {
  }

  /** A prefix grows by the next element. */
  lemma TakeSnoc<T>(xs: seq<T>, i: nat)
    requires i < |xs|
    ensures xs[..i + 1] == xs[..i] + [xs[i]]
  {
  }

  /** The prefix of full length is the sequence. */
  lemma TakeAll<T>(xs: seq<T>)
    ensures xs[..|xs|] == xs
  {
  }
}
