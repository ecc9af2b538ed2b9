/** The admin dashboard figures (`getKPIs`): counts of live users and files, the
    download total over live downloaded files, and the ten most downloaded. */
module Kpis {
  import opened Common
  import opened Records

  /** The `where` of the download aggregate and the top list: live and downloaded. */
  predicate Eligible(f: FileRecord)
  {
    !f.isDeleted && f.downloads > 0
  }

  function EligibleFiles(files: seq<FileRecord>): (r: seq<FileRecord>)
    ensures forall f :: f in r <==> f in files && Eligible(f)
  {
    Filter(files, Eligible)
  }

  function SumDownloads(files: seq<FileRecord>): int
    decreases |files|
  {
    if files == [] then 0 else files[0].downloads + SumDownloads(files[1..])
  }

  /** `aggregate({ _sum: { downloads } })` over the eligible files: `null` when no
      row qualifies, otherwise their total, which is at least one per file. */
  function DownloadsTotal(files: seq<FileRecord>): (r: Option<int>)
    ensures r.None? <==> forall f :: f in files ==> !Eligible(f)
    ensures r.Some? ==> r.value == SumDownloads(EligibleFiles(files)) && r.value >= |EligibleFiles(files)|
  {
    var eligible := EligibleFiles(files);
    if eligible == [] then None
    else
      assert eligible[0] in eligible;
      SumAtLeastCount(eligible);
      Some(SumDownloads(eligible))
  }

  lemma {:induction false} SumAtLeastCount(files: seq<FileRecord>)
    requires forall f :: f in files ==> f.downloads > 0
    ensures SumDownloads(files) >= |files|
    decreases |files|
  {
    if files != [] {
      assert files[0] in files;
      assert forall f :: f in files[1..] ==> f in files;
      SumAtLeastCount(files[1..]);
    }
  }

  /** Sum over a concatenation. */
  lemma {:induction false} SumConcat(a: seq<FileRecord>, b: seq<FileRecord>)
    ensures SumDownloads(a + b) == SumDownloads(a) + SumDownloads(b)
    decreases |a|
  {
    if a == [] {
      assert a + b == b;
    } else {
      assert (a + b)[1..] == a[1..] + b;
      SumConcat(a[1..], b);
    }
  }

  /** A soft-deleted or never-downloaded file does not move the total. */
  lemma AppendIneligibleKeepsTotal(files: seq<FileRecord>, f: FileRecord)
    requires !Eligible(f)
    ensures DownloadsTotal(files + [f]) == DownloadsTotal(files)
  {
    FilterConcat(files, [f], Eligible);
    assert Filter([f], Eligible) == [];
    assert EligibleFiles(files) + [] == EligibleFiles(files);
  }

  predicate NonIncreasing(s: seq<FileRecord>)
  {
    forall i, j :: 0 <= i < j < |s| ==> s[i].downloads >= s[j].downloads
  }

  /** `x` has at least the downloads of every element of `s`. */
  predicate Dominates(x: FileRecord, s: seq<FileRecord>)
  {
    forall y :: y in s ==> x.downloads >= y.downloads
  }

  lemma HeadDominates(x: FileRecord, s: seq<FileRecord>)
    requires NonIncreasing(s) && (s == [] || x.downloads >= s[0].downloads)
    ensures Dominates(x, s)
  {
    forall y | y in s ensures x.downloads >= y.downloads {
      var k :| 0 <= k < |s| && s[k] == y;
      if k > 0 { assert s[0].downloads >= s[k].downloads; }
    }
  }

  lemma ConsNonIncreasing(x: FileRecord, s: seq<FileRecord>)
    requires NonIncreasing(s) && Dominates(x, s)
    ensures NonIncreasing([x] + s)
  {
    var r := [x] + s;
    forall i, j | 0 <= i < j < |r| ensures r[i].downloads >= r[j].downloads {
      if i == 0 { assert r[j] == s[j - 1] && s[j - 1] in s; } else { assert r[i] == s[i - 1] && r[j] == s[j - 1]; }
    }
  }

  lemma DominatesPermutation(h: FileRecord, x: FileRecord, tail: seq<FileRecord>, rest: seq<FileRecord>)
    requires multiset(rest) == multiset(tail) + multiset{x}
    requires Dominates(h, tail) && h.downloads >= x.downloads
    ensures Dominates(h, rest)
  {
    forall y | y in rest ensures h.downloads >= y.downloads {
      assert y in multiset(rest);
      if y != x {
        assert y in multiset(tail);
      }
    }
  }

  /** Inserts `x` before the first element with fewer downloads. */
  function Insert(x: FileRecord, s: seq<FileRecord>): (r: seq<FileRecord>)
    requires NonIncreasing(s)
    ensures multiset(r) == multiset(s) + multiset{x}
    ensures NonIncreasing(r)
    decreases |s|
  {
    if s == [] then [x]
    else if x.downloads >= s[0].downloads then
      HeadDominates(x, s);
      ConsNonIncreasing(x, s);
      [x] + s
    else
      var rest := Insert(x, s[1..]);
      InsertBehindHead(x, s, rest);
      [s[0]] + rest
  }

  /** The head of a sorted list stays in front of the tail with `x` inserted. */
  lemma InsertBehindHead(x: FileRecord, s: seq<FileRecord>, rest: seq<FileRecord>)
    requires NonIncreasing(s) && s != [] && x.downloads < s[0].downloads
    requires multiset(rest) == multiset(s[1..]) + multiset{x} && NonIncreasing(rest)
    ensures multiset([s[0]] + rest) == multiset(s) + multiset{x}
    ensures NonIncreasing([s[0]] + rest)
  {
    var tail := s[1..];
    assert s == [s[0]] + tail;
    HeadDominates(s[0], tail);
    DominatesPermutation(s[0], x, tail, rest);
    ConsNonIncreasing(s[0], rest);
  }

  /** `orderBy: { downloads: "desc" }`: a permutation in non-increasing download
      order. */
  function SortByDownloads(s: seq<FileRecord>): (r: seq<FileRecord>)
    ensures multiset(r) == multiset(s)
    ensures NonIncreasing(r)
    decreases |s|
  {
    if s == [] then []
    else
      assert s == [s[0]] + s[1..];
      Insert(s[0], SortByDownloads(s[1..]))
  }

  const TopCount: nat := 10

  /** `findMany({ where, orderBy: { downloads: "desc" }, take: 10 })`. */
  function TopDownloads(files: seq<FileRecord>): (r: seq<FileRecord>)
    ensures |r| <= TopCount && NonIncreasing(r)
    ensures forall f :: f in r ==> f in files && Eligible(f)
    ensures r == [] <==> forall f :: f in files ==> !Eligible(f)
  {
    var sorted := SortByDownloads(EligibleFiles(files));
    var n := if |sorted| <= TopCount then |sorted| else TopCount;
    TopPrefix(files, sorted, n);
    sorted[..n]
  }

  /** The first `n` of the sorted eligible files: sorted, eligible, and empty only
      when nothing is eligible. */
  lemma TopPrefix(files: seq<FileRecord>, sorted: seq<FileRecord>, n: nat)
    requires NonIncreasing(sorted) && multiset(sorted) == multiset(EligibleFiles(files))
    requires n == if |sorted| <= TopCount then |sorted| else TopCount
    ensures NonIncreasing(sorted[..n])
    ensures forall f :: f in sorted[..n] ==> f in files && Eligible(f)
    ensures sorted[..n] == [] <==> forall f :: f in files ==> !Eligible(f)
  {
    var eligible := EligibleFiles(files);
    assert |sorted| == |eligible| by {
      assert |multiset(sorted)| == |multiset(eligible)|;
    }
    TakeSorted(sorted, n);
    forall f | f in sorted[..n] ensures f in files && Eligible(f) {
      assert f in multiset(sorted[..n]);
    }
    if eligible != [] {
      assert eligible[0] in multiset(sorted);
    }
  }

  /** The top list holds at most ten eligible files, as many as there are up to
      ten, in non-increasing order, each taken from the table once; and no
      eligible file left out has more downloads than any file listed. */
  lemma TopDownloadsSpec(files: seq<FileRecord>)
    ensures var top := TopDownloads(files);
            && |top| == (if |EligibleFiles(files)| <= TopCount then |EligibleFiles(files)| else TopCount)
            && NonIncreasing(top)
            && multiset(top) <= multiset(EligibleFiles(files))
            && (forall f :: f in top ==> f in files && Eligible(f))
            && (forall f, g :: f in multiset(EligibleFiles(files)) - multiset(top) && g in top ==>
                  g.downloads >= f.downloads)
  {
    var eligible := EligibleFiles(files);
    var sorted := SortByDownloads(eligible);
    assert |sorted| == |eligible| by {
      assert |multiset(sorted)| == |multiset(eligible)|;
    }
    var n := if |sorted| <= TopCount then |sorted| else TopCount;
    assert TopDownloads(files) == sorted[..n];
    TakeSorted(sorted, n);
  }

  /** A prefix of a sorted list is sorted, is a sub-multiset, and dominates the rest. */
  lemma TakeSorted(sorted: seq<FileRecord>, n: nat)
    requires NonIncreasing(sorted) && n <= |sorted|
    ensures NonIncreasing(sorted[..n])
    ensures multiset(sorted[..n]) <= multiset(sorted)
    ensures forall f, g :: f in multiset(sorted) - multiset(sorted[..n]) && g in sorted[..n] ==>
              g.downloads >= f.downloads
  {
    var top, rest := sorted[..n], sorted[n..];
    assert sorted == top + rest;
    assert multiset(sorted) == multiset(top) + multiset(rest);
    PrefixDominates(sorted, n);
    forall f, g | f in multiset(sorted) - multiset(top) && g in top
      ensures g.downloads >= f.downloads
    {
      assert f in multiset(rest);
      assert f in rest;
    }
  }

  lemma PrefixDominates(sorted: seq<FileRecord>, n: nat)
    requires NonIncreasing(sorted) && n <= |sorted|
    ensures forall g :: g in sorted[..n] ==> Dominates(g, sorted[n..])
  {
    forall g | g in sorted[..n] ensures Dominates(g, sorted[n..]) {
      var i :| 0 <= i < n && sorted[..n][i] == g;
      forall f | f in sorted[n..] ensures g.downloads >= f.downloads {
        var j :| 0 <= j < |sorted| - n && sorted[n..][j] == f;
        assert sorted[i] == g && sorted[n + j] == f;
      }
    }
  }

  /** The dashboard figures. */
  datatype Kpis = Kpis(users: nat, files: nat, downloads: Option<int>, topDownloads: seq<FileRecord>)

  /** `getKPIs`: the four queries of one transaction over the same tables. */
  function GetKpis(users: seq<UserRecord>, files: seq<FileRecord>): (r: Kpis)
    ensures r.downloads.None? <==> r.topDownloads == []
    ensures |r.topDownloads| <= r.files && |r.topDownloads| <= TopCount
  {
    TopDownloadsSpec(files);
    EligibleWithinLive(files);
    Kpis(|Filter(users, (u: UserRecord) => !u.isDeleted)|, |Filter(files, (f: FileRecord) => !f.isDeleted)|,
         DownloadsTotal(files), TopDownloads(files))
  }

  /** Live counts never exceed the table sizes, and the eligible files are among the live ones. */
  lemma KpiBounds(users: seq<UserRecord>, files: seq<FileRecord>)
    ensures GetKpis(users, files).users <= |users| && GetKpis(users, files).files <= |files|
    ensures |EligibleFiles(files)| <= GetKpis(users, files).files
  {
    EligibleWithinLive(files);
  }

  /** The figures of empty tables are zeros, a null total and an empty list. */
  lemma EmptyKpis()
    ensures GetKpis([], []) == Kpis(0, 0, None, [])
  {
    assert SortByDownloads([]) == [];
  }

  /** The user count goes up by one for each live user added and stays put for a
      deleted one: it counts exactly the users not marked deleted. */
  lemma UserCountStep(users: seq<UserRecord>, files: seq<FileRecord>, u: UserRecord)
    ensures GetKpis(users + [u], files).users == GetKpis(users, files).users + (if u.isDeleted then 0 else 1)
  {
    var live := (x: UserRecord) => !x.isDeleted;
    FilterConcat(users, [u], live);
    assert Filter([u], live) == if live(u) then [u] else [];
  }

  /** Likewise the file count, over the files not marked deleted. */
  lemma FileCountStep(users: seq<UserRecord>, files: seq<FileRecord>, f: FileRecord)
    ensures GetKpis(users, files + [f]).files == GetKpis(users, files).files + (if f.isDeleted then 0 else 1)
  {
    var live := (x: FileRecord) => !x.isDeleted;
    FilterConcat(files, [f], live);
    assert Filter([f], live) == if live(f) then [f] else [];
  }

  /** An added eligible file adds its downloads to the total, starting from 0
      when the total was null (an ineligible one changes nothing:
      AppendIneligibleKeepsTotal). */
  lemma AppendEligibleAddsDownloads(files: seq<FileRecord>, f: FileRecord)
    requires Eligible(f)
    ensures DownloadsTotal(files + [f]).Some?
    ensures DownloadsTotal(files + [f]).value ==
              (if DownloadsTotal(files).Some? then DownloadsTotal(files).value else 0) + f.downloads
  {
    FilterConcat(files, [f], Eligible);
    assert Filter([f], Eligible) == [f];
    SumSnoc(EligibleFiles(files), f);
    DownloadsTotalIsSum(files);
    DownloadsTotalIsSum(files + [f]);
  }

  lemma SumSnoc(s: seq<FileRecord>, f: FileRecord)
    ensures SumDownloads(s + [f]) == SumDownloads(s) + f.downloads
  {
    SumConcat(s, [f]);
    assert SumDownloads([f]) == f.downloads + SumDownloads([]);
  }

  lemma DownloadsTotalIsSum(files: seq<FileRecord>)
    ensures DownloadsTotal(files) ==
              if EligibleFiles(files) == [] then None else Some(SumDownloads(EligibleFiles(files)))
  {
  }

  lemma {:induction false} EligibleWithinLive(files: seq<FileRecord>)
    ensures |Filter(files, Eligible)| <= |Filter(files, (f: FileRecord) => !f.isDeleted)|
    decreases |files|
  {
    if files != [] {
      EligibleWithinLive(files[1..]);
    }
  }

  /** `getAllFiles`: every live file, in table order. */
  function AllFiles(files: seq<FileRecord>): (r: seq<FileRecord>)
    ensures forall f :: f in r <==> f in files && !f.isDeleted
    ensures |r| == GetKpis([], files).files
  {
    Filter(files, (f: FileRecord) => !f.isDeleted)
  }
}
