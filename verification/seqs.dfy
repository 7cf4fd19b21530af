/** Generic facts about sequences: prefixes, duplicates and PHP's `array_unique`. */
module Seqs {

  predicate IsPrefix<T(==,!new)>(s: seq<T>, prefix: seq<T>) {
    |prefix| <= |s| && s[..|prefix|] == prefix
  }

  predicate NoDuplicates<T(==,!new)>(s: seq<T>) {
    forall i, j :: 0 <= i < j < |s| ==> s[i] != s[j]
  }

  /** `array_unique` on values: keeps the first occurrence of each, in order. */
  function Unique<T(==,!new)>(s: seq<T>): (r: seq<T>)
    ensures NoDuplicates(r)
    ensures forall x :: x in r <==> x in s
  {
    if s == [] then []
    else
      var u := Unique(s[..|s| - 1]);
      if s[|s| - 1] in s[..|s| - 1] then u else u + [s[|s| - 1]]
  }

  /** Deduplicating a longer list extends the deduplication of its prefix. */
  lemma {:induction false} UniqueExtends<T(!new)>(a: seq<T>, b: seq<T>)
    ensures IsPrefix(Unique(a + b), Unique(a))
    decreases |b|
  {
    if b != [] {
      var init := b[..|b| - 1];
      assert (a + b)[..|a + b| - 1] == a + init;
      UniqueExtends(a, init);
    } else {
      assert a + b == a;
    }
  }

  /** A list without duplicates is its own deduplication. */
  lemma {:induction false} UniqueOfDistinct<T(!new)>(s: seq<T>)
    requires NoDuplicates(s)
    ensures Unique(s) == s
  {
    if s != [] {
      var init := s[..|s| - 1];
      UniqueOfDistinct(init);
      assert s == init + [s[|s| - 1]];
    }
  }

  /** The three parts of a concatenation can be read back from it. */
  lemma ConcatParts<T>(a: seq<T>, b: seq<T>, c: seq<T>)
    ensures (a + b + c)[..|a|] == a
    ensures (a + b + c)[|a|..|a| + |b|] == b
    ensures (a + b + c)[|a| + |b|..] == c
  {
  }

  /** The list without any occurrence of `x`, in order. */
  function Without<T(==,!new)>(s: seq<T>, x: T): (r: seq<T>)
    ensures forall y :: y in r <==> y in s && y != x
  {
    if s == [] then []
    else
      var init := Without(s[..|s| - 1], x);
      assert s == s[..|s| - 1] + [s[|s| - 1]];
      if s[|s| - 1] == x then init else init + [s[|s| - 1]]
  }

  /** Removing a value that does not occur changes nothing. */
  lemma {:induction false} WithoutAbsent<T(!new)>(s: seq<T>, x: T)
    requires x !in s
    ensures Without(s, x) == s
  {
    if s != [] {
      WithoutAbsent(s[..|s| - 1], x);
      assert s == s[..|s| - 1] + [s[|s| - 1]];
    }
  }
}
