/** Small facts about sequence concatenation and slicing, stated once for any element type. */
module Seqs {

  lemma EmptyNeutral<T>(x: seq<T>)
    ensures x + [] == x && [] + x == x
  {
  }

  lemma Assoc<T>(x: seq<T>, y: seq<T>, z: seq<T>)
    ensures (x + y) + z == x + (y + z)
  {
  }

  /** A non-empty b is its front followed by its last element, also after a prefix a. */
  lemma SplitLast<T>(a: seq<T>, b: seq<T>)
    requires b != []
    ensures b == b[..|b| - 1] + [b[|b| - 1]]
    ensures a + b == (a + b[..|b| - 1]) + [b[|b| - 1]]
  {
  }

  /** Dropping the element just appended gives back the original. */
  lemma DropSnoc<T>(x: seq<T>, c: T)
    ensures (x + [c])[..|x|] == x && (x + [c])[|x|] == c && |x + [c]| == |x| + 1
  {
  }

  /** The prefix of length j + 1 is the prefix of length j followed by element j. */
  lemma PrefixSnoc<T>(x: seq<T>, j: nat)
    requires j < |x|
    ensures x[..j + 1] == x[..j] + [x[j]]
  {
  }

  lemma WholePrefix<T>(x: seq<T>)
    ensures x[..|x|] == x
  {
  }

  /** A prefix of a longer prefix is the shorter prefix. */
  lemma PrefixOfPrefix<T>(x: seq<T>, n: nat, j: nat)
    requires j <= n <= |x|
    ensures x[..n][..j] == x[..j]
    ensures j < n ==> x[..n][j] == x[j]
  {
  }

  lemma TwoSnocs<T>(x: T, y: T)
    ensures [] + [x] == [x] && [x] + [y] == [x, y] && [] + [x] + [y] == [x, y]
  {
  }

  lemma ThreeSnocs<T>(x: T, y: T, z: T)
    ensures [] + [x] + [y] + [z] == [x, y, z]
  {
  }

  /** Cutting a + m + b inside a, at position k. */
  lemma CutFirst<T>(a: seq<T>, m: seq<T>, b: seq<T>, k: nat)
    requires k <= |a|
    ensures a + m + b == a + (m + b)
    ensures (a + m + b)[..k] == a[..k] && (a + m + b)[k..] == a[k..] + m + b
  {
  }

  /** Taking the first element off a + b, and putting it back in front of a[1..] + x. */
  lemma Uncons<T>(a: seq<T>, b: seq<T>, x: seq<T>)
    requires a != []
    ensures (a + b)[0] == a[0] && (a + b)[1..] == a[1..] + b
    ensures [a[0]] + (a[1..] + x) == a + x
  {
  }

  /** s cut at i, i + 1, j and k, and put back together. */
  lemma FiveParts<T>(s: seq<T>, i: nat, j: nat, k: nat)
    requires i < j <= k <= |s|
    ensures s == s[..i] + [s[i]] + s[i + 1..j] + s[j..k] + s[k..]
  {
  }

  /** A sequence of two elements is its first element followed by its second. */
  lemma Pair<T>(t: seq<T>)
    requires |t| == 2
    ensures t == [t[0]] + [t[1]] && [t[0]][..0] == []
  {
  }

  /** What is in a + b is what is in a or in b. */
  lemma InAppend<T>(a: seq<T>, b: seq<T>, x: T)
    ensures x in a + b <==> x in a || x in b
  {
  }

  /** What is in a prefix of b is in b. */
  lemma InPrefix<T>(a: seq<T>, b: seq<T>, x: T)
    requires a <= b && x in a
    ensures x in b
  {
  }

  /** a is a prefix of a + c, so of anything a + c is a prefix of. */
  lemma PrefixChain<T>(a: seq<T>, c: seq<T>, b: seq<T>, d: seq<T>)
    requires b == a + c && b <= d
    ensures a <= d
  {
    assert a <= b;
  }
}
