/** The statistics fold of process.go (`accumelate` / `AccumelateStats`). */
module Stats {
  import opened Wrappers
  import opened Types
  import Ordering

  /** A file counts as shrunk when it has an output size and no recorded error. */
  predicate Counted(f: MediaFile)
  {
    f.shrunkSize > 0 && f.error == None
  }

  /** The contribution of one file on its own. */
  function Single(f: MediaFile): ShrunkStats
  {
    if !Counted(f) then ZeroStats
    else if f.deleted then ShrunkStats(1, f.size, f.shrunkSize, 1, f.size, f.shrunkSize)
    else ShrunkStats(1, f.size, f.shrunkSize, 0, 0, 0)
  }

  /** Counter-wise sum. */
  function Plus(a: ShrunkStats, b: ShrunkStats): ShrunkStats
  {
    ShrunkStats(
      a.count + b.count, a.sizeBefore + b.sizeBefore, a.sizeAfter + b.sizeAfter,
      a.deletedCount + b.deletedCount, a.deletedSize + b.deletedSize,
      a.deletedShrunkSize + b.deletedShrunkSize)
  }

  /** `accumelate`: fold one file into the counters. Files with no output size or with an
      error leave them untouched; deleted files also feed the three deleted counters. */
  function Accumulate(stats: ShrunkStats, f: MediaFile): (r: ShrunkStats)
    ensures !Counted(f) ==> r == stats
    ensures Counted(f) ==> r.count == stats.count + 1 && r.sizeAfter > stats.sizeAfter
    ensures r.deletedCount - stats.deletedCount == (if Counted(f) && f.deleted then 1 else 0)
  {
    if f.shrunkSize > 0 && f.error == None then
      var s1 := stats.(count := stats.count + 1,
                       sizeBefore := stats.sizeBefore + f.size,
                       sizeAfter := stats.sizeAfter + f.shrunkSize);
      if f.deleted then
        s1.(deletedCount := s1.deletedCount + 1,
            deletedSize := s1.deletedSize + f.size,
            deletedShrunkSize := s1.deletedShrunkSize + f.shrunkSize)
      else s1
    else stats
  }

  /** The deleted counters cover a subset of the counted files. */
  predicate WellFormed(s: ShrunkStats)
  {
    && s.deletedCount <= s.count
    && s.deletedSize <= s.sizeBefore
    && s.deletedShrunkSize <= s.sizeAfter
    && s.count <= s.sizeAfter
  }

  /** `AccumelateStats`: the fold over the file list, first file first. */
  function AccumulateStats(files: seq<MediaFile>): (r: ShrunkStats)
    ensures WellFormed(r)
    ensures r.count <= |files|
    decreases |files|
  {
    if |files| == 0 then ZeroStats
    else Accumulate(AccumulateStats(files[..|files| - 1]), files[|files| - 1])
  }

  /** Nothing is counted exactly when no file has an output size without an error. */
  lemma {:induction false} CountZeroIff(files: seq<MediaFile>)
    ensures AccumulateStats(files).count == 0 <==>
              forall i :: 0 <= i < |files| ==> !Counted(files[i])
    decreases |files|
  {
    if |files| > 0 {
      CountZeroIff(files[..|files| - 1]);
      assert forall i :: 0 <= i < |files| - 1 ==> files[..|files| - 1][i] == files[i];
    }
  }

  /** Folding one file is adding its own contribution. */
  lemma AccumulateIsPlus(stats: ShrunkStats, f: MediaFile)
    ensures Accumulate(stats, f) == Plus(stats, Single(f))
  {
  }

  /** The fold distributes over concatenation. */
  lemma {:induction false} AccumulateAppend(a: seq<MediaFile>, b: seq<MediaFile>)
    ensures AccumulateStats(a + b) == Plus(AccumulateStats(a), AccumulateStats(b))
    decreases |b|
  {
    if |b| == 0 {
      assert a + b == a;
    } else {
      var b' := b[..|b| - 1];
      var x := b[|b| - 1];
      assert (a + b)[..|a + b| - 1] == a + b';
      assert (a + b)[|a + b| - 1] == x;
      AccumulateAppend(a, b');
      AccumulateIsPlus(AccumulateStats(a + b'), x);
      AccumulateIsPlus(AccumulateStats(b'), x);
    }
  }

  lemma SingletonStats(f: MediaFile)
    ensures AccumulateStats([f]) == Single(f)
  {
    assert [f][..0] == [];
  }

  lemma PlusAssociative(a: ShrunkStats, b: ShrunkStats, c: ShrunkStats)
    ensures Plus(Plus(a, b), c) == Plus(a, Plus(b, c))
  {
  }

  lemma PlusCommutative(a: ShrunkStats, b: ShrunkStats)
    ensures Plus(a, b) == Plus(b, a)
  {
  }

  lemma PlusZero(a: ShrunkStats)
    ensures Plus(ZeroStats, a) == a
  {
  }

  /** The fold of a list with a first element split off. */
  lemma ConsStats(h: MediaFile, t: seq<MediaFile>)
    ensures AccumulateStats([h] + t) == Plus(Single(h), AccumulateStats(t))
  {
    AccumulateAppend([h], t);
    SingletonStats(h);
  }

  /** The step of `InsertStats` where `x` goes further down the list. */
  lemma InsertStatsStep(h: MediaFile, t: seq<MediaFile>, x: MediaFile, rest: seq<MediaFile>)
    requires AccumulateStats(rest) == Plus(AccumulateStats(t), Single(x))
    ensures AccumulateStats([h] + rest) == Plus(AccumulateStats([h] + t), Single(x))
  {
    ConsStats(h, rest);
    ConsStats(h, t);
    PlusAssociative(Single(h), AccumulateStats(t), Single(x));
  }

  /** Inserting a file into a sorted list adds exactly its contribution. */
  lemma {:induction false} InsertStats(x: MediaFile, s: seq<MediaFile>)
    requires Ordering.SortedByName(s)
    ensures AccumulateStats(Ordering.Insert(x, s)) == Plus(AccumulateStats(s), Single(x))
    decreases |s|
  {
    var r := Ordering.Insert(x, s);
    if |s| == 0 {
      assert r == [x];
      SingletonStats(x);
      PlusZero(Single(x));
    } else if !Ordering.Less(s[0].name, x.name) {
      assert r == [x] + s;
      ConsStats(x, s);
      PlusCommutative(Single(x), AccumulateStats(s));
    } else {
      assert r == [s[0]] + Ordering.Insert(x, s[1..]);
      InsertStats(x, s[1..]);
      InsertStatsStep(s[0], s[1..], x, Ordering.Insert(x, s[1..]));
      assert [s[0]] + s[1..] == s;
    }
  }

  /** The step of `SortPreservesStats`: inserting the head into the sorted tail. */
  lemma SortStatsStep(s: seq<MediaFile>, r: seq<MediaFile>)
    requires |s| > 0 && AccumulateStats(r) == Plus(AccumulateStats(s[1..]), Single(s[0]))
    ensures AccumulateStats(r) == AccumulateStats(s)
  {
    assert [s[0]] + s[1..] == s;
    ConsStats(s[0], s[1..]);
    PlusCommutative(Single(s[0]), AccumulateStats(s[1..]));
  }

  /** Sorting the run does not change its statistics. */
  lemma {:induction false} SortPreservesStats(s: seq<MediaFile>)
    ensures AccumulateStats(Ordering.SortByName(s)) == AccumulateStats(s)
    decreases |s|
  {
    if |s| > 0 {
      var sorted := Ordering.SortByName(s[1..]);
      assert Ordering.SortByName(s) == Ordering.Insert(s[0], sorted);
      SortPreservesStats(s[1..]);
      InsertStats(s[0], sorted);
      SortStatsStep(s, Ordering.Insert(s[0], sorted));
    }
  }
}
