/** Facts about sequences shared by the filters and the worklist. */
module Sequences {

  /** `sub` is obtained from `s` by deleting elements, keeping the order of the rest. */
  ghost predicate IsSubsequence<T>(sub: seq<T>, s: seq<T>)
    decreases |s|
  {
    if sub == [] then true
    else if s == [] then false
    else (sub[0] == s[0] && IsSubsequence(sub[1..], s[1..])) || IsSubsequence(sub, s[1..])
  }

  /** No element occurs twice: the head is not repeated in the tail, and so on. */
  ghost predicate NoDuplicates<T>(s: seq<T>)
  {
    s == [] || (s[0] !in s[1..] && NoDuplicates(s[1..]))
  }

  /** Appending an element not yet present keeps the elements distinct. */
  lemma {:induction false} NoDuplicatesAppend<T>(s: seq<T>, x: T)
    requires NoDuplicates(s) && x !in s
    ensures NoDuplicates(s + [x])
  {
    if s == [] {
      assert [x][1..] == [];
    } else {
      assert (s + [x])[1..] == s[1..] + [x];
      NoDuplicatesAppend(s[1..], x);
    }
  }

  /** The set of images of the elements of a sequence, built over its prefixes. */
  ghost function Image<T, U>(xs: seq<T>, f: T -> U): set<U>
  {
    if xs == [] then {} else Image(xs[..|xs| - 1], f) + {f(xs[|xs| - 1])}
  }

  lemma {:induction false} ImageMember<T, U>(xs: seq<T>, f: T -> U, i: nat)
    requires i < |xs|
    ensures f(xs[i]) in Image(xs, f)
  {
    var init := xs[..|xs| - 1];
    if i < |init| {
      ImageMember(init, f, i);
      assert init[i] == xs[i];
    }
  }

  lemma {:induction false} SubsequenceElements<T>(sub: seq<T>, s: seq<T>)
    requires IsSubsequence(sub, s)
    ensures |sub| <= |s|
    ensures forall x :: x in sub ==> x in s
    decreases |s|
  {
    if sub != [] {
      assert s != [];
      if sub[0] == s[0] && IsSubsequence(sub[1..], s[1..]) {
        SubsequenceElements(sub[1..], s[1..]);
        forall x | x in sub ensures x in s {
          if x != sub[0] { assert x in sub[1..]; }
        }
      } else {
        SubsequenceElements(sub, s[1..]);
      }
    }
  }

  lemma {:induction false} SubsequenceTransitive<T>(a: seq<T>, b: seq<T>, c: seq<T>)
    requires IsSubsequence(a, b) && IsSubsequence(b, c)
    ensures IsSubsequence(a, c)
    decreases |c|
  {
    if a == [] {
    } else if b[0] == c[0] && IsSubsequence(b[1..], c[1..]) {
      if a[0] == b[0] && IsSubsequence(a[1..], b[1..]) {
        SubsequenceTransitive(a[1..], b[1..], c[1..]);
      } else {
        SubsequenceTransitive(a, b[1..], c[1..]);
      }
    } else {
      SubsequenceTransitive(a, b, c[1..]);
    }
  }

  /** The set of elements of a sequence. */
  ghost function Elems<T>(s: seq<T>): set<T>
  {
    set x | x in s
  }

  /**
   * The key order of a dict after assigning the keys `ids` in turn: `o`
   * followed by each id not yet present, in order of first assignment.
   */
  ghost function AppendNew<T>(o: seq<T>, ids: seq<T>): seq<T>
    decreases |ids|
  {
    if ids == [] then o
    else
      var p := AppendNew(o, ids[..|ids| - 1]);
      if ids[|ids| - 1] in p then p else p + [ids[|ids| - 1]]
  }

  /** Assigning `a` and then `b` gives the same order as assigning `a + b`. */
  lemma {:induction false} AppendNewConcat<T>(o: seq<T>, a: seq<T>, b: seq<T>)
    ensures AppendNew(o, a + b) == AppendNew(AppendNew(o, a), b)
    decreases |b|
  {
    if b == [] {
      assert a + b == a;
    } else {
      var init := b[..|b| - 1];
      AppendNewConcat(o, a, init);
      assert (a + b)[..|a + b| - 1] == a + init;
      assert (a + b)[|a + b| - 1] == b[|b| - 1];
    }
  }

  /** Assigning keys that are all present already leaves the order as it is. */
  lemma {:induction false} AppendNewPresent<T>(o: seq<T>, ids: seq<T>)
    requires forall x :: x in ids ==> x in o
    ensures AppendNew(o, ids) == o
    decreases |ids|
  {
    if ids != [] {
      var init := ids[..|ids| - 1];
      assert forall x :: x in init ==> x in ids;
      AppendNewPresent(o, init);
      assert ids[|ids| - 1] in ids;
    }
  }
}
