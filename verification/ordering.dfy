/** The run order of `DoProcess`: files sorted by name ascending. Go compares strings
    byte by byte; on UTF-8 text that is the same order as comparing code points, which is
    what `Less` does on Dafny strings. */
module Ordering {
  import opened Types

  /** Go's `<` on strings: strict lexicographic order. */
  predicate Less(a: string, b: string)
    decreases |a|
  {
    if |a| == 0 then |b| > 0
    else if |b| == 0 then false
    else if a[0] != b[0] then a[0] < b[0]
    else Less(a[1..], b[1..])
  }

  /** `a` sorts no later than `b`. */
  predicate LessEq(a: string, b: string)
  {
    !Less(b, a)
  }

  lemma {:induction false} LessIrreflexive(a: string)
    ensures !Less(a, a)
    decreases |a|
  {
    if |a| > 0 {
      LessIrreflexive(a[1..]);
    }
  }

  lemma {:induction false} LessTransitive(a: string, b: string, c: string)
    requires Less(a, b) && Less(b, c)
    ensures Less(a, c)
    decreases |a|
  {
    if |a| > 0 && |b| > 0 && |c| > 0 && a[0] == b[0] && b[0] == c[0] {
      LessTransitive(a[1..], b[1..], c[1..]);
    }
  }

  lemma LessAsymmetric(a: string, b: string)
    requires Less(a, b)
    ensures !Less(b, a)
  {
    if Less(b, a) {
      LessTransitive(a, b, a);
      LessIrreflexive(a);
    }
  }

  /** Any two distinct strings are ordered one way or the other. */
  lemma {:induction false} LessTotal(a: string, b: string)
    ensures a == b || Less(a, b) || Less(b, a)
    decreases |a|
  {
    if |a| > 0 && |b| > 0 && a[0] == b[0] {
      LessTotal(a[1..], b[1..]);
      if a[1..] == b[1..] {
        assert a == [a[0]] + a[1..] && b == [b[0]] + b[1..];
      }
    }
  }

  lemma LessEqTransitive(a: string, b: string, c: string)
    requires LessEq(a, b) && LessEq(b, c)
    ensures LessEq(a, c)
  {
    if Less(c, a) {
      LessTotal(a, b);
      if a == b {
      } else if Less(a, b) {
        LessTotal(b, c);
        if b != c && Less(b, c) {
          LessTransitive(a, b, c);
          LessTransitive(a, c, a);
          LessIrreflexive(a);
        }
      }
    }
  }

  /** The files are in ascending name order. */
  predicate SortedByName(s: seq<MediaFile>)
  {
    forall i, j :: 0 <= i < j < |s| ==> LessEq(s[i].name, s[j].name)
  }

  /** Places `x` before the first entry that does not sort before it. */
  function Insert(x: MediaFile, s: seq<MediaFile>): (r: seq<MediaFile>)
    requires SortedByName(s)
    ensures SortedByName(r)
    ensures multiset(r) == multiset(s) + multiset{x}
    decreases |s|
  {
    if |s| == 0 then [x]
    else if !Less(s[0].name, x.name) then
      LessTotal(x.name, s[0].name);
      LessIrreflexive(x.name);
      forall j | 0 <= j < |s|
        ensures LessEq(x.name, s[j].name)
      {
        if j > 0 {
          LessEqTransitive(x.name, s[0].name, s[j].name);
        }
      }
      [x] + s
    else
      var rest := Insert(x, s[1..]);
      assert s == [s[0]] + s[1..];
      forall y | y in rest
        ensures LessEq(s[0].name, y.name)
      {
        assert y in multiset(s[1..]) + multiset{x};
        if y == x {
          LessAsymmetric(s[0].name, x.name);
        } else {
          assert y in s[1..];
        }
      }
      [s[0]] + rest
  }

  /** The `sort.Slice` call of `DoProcess`: a permutation of the files in ascending name
      order. With distinct names, as a directory listing has, this order is unique. */
  function SortByName(s: seq<MediaFile>): (r: seq<MediaFile>)
    ensures SortedByName(r)
    ensures multiset(r) == multiset(s)
    decreases |s|
  {
    if |s| == 0 then []
    else
      assert s == [s[0]] + s[1..];
      Insert(s[0], SortByName(s[1..]))
  }
}
