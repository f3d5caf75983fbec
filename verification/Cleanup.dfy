/** cleanup.c: a cache directory is brought below its thresholds, oldest files first. */
module Cleanup {
  import opened CleanupOrder

  // ---------- what is promised, in terms of no particular order ----------

  function Size(s: seq<File>): nat {
    if s == [] then 0 else s[0].size + Size(s[1..])
  }

  /** How many files are newer than `time`. */
  function Newer(s: seq<File>, time: int): (n: nat)
    ensures n <= |s|
  {
    if s == [] then 0 else (if s[0].mtime > time then 1 else 0) + Newer(s[1..], time)
  }

  /** `f` is one of the `minfiles` newest, or as old as one of them. */
  predicate Protected(s: seq<File>, minfiles: nat, f: File) {
    Newer(s, f.mtime) < minfiles
  }

  /** Below both thresholds; a threshold of zero is no limit. */
  predicate Under(sizeThreshold: nat, filesThreshold: nat, size: int, count: nat) {
    (sizeThreshold == 0 || size < sizeThreshold) && (filesThreshold == 0 || count < filesThreshold)
  }

  /** Those of the first `k` files whose unlink fails (for another reason than that they are gone already). */
  function Stuck(s: seq<File>, stuck: set<string>, k: nat): seq<File>
    requires k <= |s|
  {
    if k == 0 then []
    else if s[k - 1].fname in stuck then Stuck(s, stuck, k - 1) + [s[k - 1]]
    else Stuck(s, stuck, k - 1)
  }

  /** The names of the others. */
  function Removed(s: seq<File>, stuck: set<string>, k: nat): seq<string>
    requires k <= |s|
  {
    if k == 0 then []
    else if s[k - 1].fname in stuck then Removed(s, stuck, k - 1)
    else Removed(s, stuck, k - 1) + [s[k - 1].fname]
  }

  /** What is left after the first `k` unlinks. */
  function Left(s: seq<File>, stuck: set<string>, k: nat): seq<File>
    requires k <= |s|
  {
    Stuck(s, stuck, k) + s[k..]
  }

  /** The size of what is left, step by step. */
  function SizeLeft(s: seq<File>, stuck: set<string>, k: nat): int
    requires k <= |s|
  {
    if k == 0 then Size(s)
    else SizeLeft(s, stuck, k - 1) - if s[k - 1].fname in stuck then 0 else s[k - 1].size
  }

  /** When its turn comes, file `j` of the sorted files has to go: the directory is over a threshold, and the file is
      not protected. */
  predicate Goes(all: seq<File>, sorted: seq<File>, minfiles: nat, stuck: set<string>, st: nat, ft: nat, j: nat)
    requires j < |sorted|
  {
    !Under(st, ft, SizeLeft(sorted, stuck, j), |sorted| - j) && !Protected(all, minfiles, sorted[j])
  }

  /** The first `k` files have to go, and the next one does not. */
  ghost predicate Goers(all: seq<File>, sorted: seq<File>, minfiles: nat, stuck: set<string>, st: nat, ft: nat, k: nat)
    requires k <= |sorted|
  {
    && (forall j :: 0 <= j < k ==> Goes(all, sorted, minfiles, stuck, st, ft, j))
    && (k < |sorted| ==> !Goes(all, sorted, minfiles, stuck, st, ft, k))
  }

  ghost predicate Cleaned(all: seq<File>, sorted: seq<File>, minfiles: nat, stuck: set<string>, st: nat, ft: nat,
                          k: nat) {
    && Sorted(sorted) && multiset(sorted) == multiset(all) && k <= |sorted|
    && Goers(all, sorted, minfiles, stuck, st, ft, k)
  }

  /** What lstat says of an entry of the directory. */
  datatype Entry = Entry(fname: string, regular: bool, mtime: int, blocks: nat, bytes: nat)

  function Basename(s: string): string {
    if s == "" then "" else if '/' in s[1..] then Basename(s[1..]) else if s[0] == '/' then s[1..] else s
  }

  function FileSize(e: Entry): nat {
    if e.bytes > e.blocks * 512 then (e.bytes + 1023) / 1024 * 1024 else e.blocks * 512
  }

  /** The files that take part: the regular ones that do not hold the statistics. */
  function Listed(entries: seq<Entry>): seq<File> {
    if entries == [] then []
    else
      var n := |entries| - 1;
      var e := entries[n];
      if e.regular && Basename(e.fname) != "stats" then
        Listed(entries[..n]) + [File(e.fname, e.mtime, FileSize(e) / 1024)]
      else Listed(entries[..n])
  }

  /** A limit times LIMIT_MULTIPLE, cut to an integer. */
  function Threshold(limit: nat): nat {
    limit * 4 / 5
  }

  /** A limit of one is no limit: its threshold is cut to zero. */
  lemma LimitOfOne(limit: nat, size: nat, count: nat)
    ensures Under(0, Threshold(limit), size, count) <==> limit <= 1 || 5 * count + 5 <= 4 * limit
    ensures Under(Threshold(limit), 0, size, count) <==> limit <= 1 || 5 * size + 5 <= 4 * limit
  {
  }

  // ---------- counting ----------

  lemma {:induction false} NewerAppend(a: seq<File>, b: seq<File>, time: int)
    ensures Newer(a + b, time) == Newer(a, time) + Newer(b, time)
    decreases |a|
  {
    if a == [] {
      assert a + b == b;
    } else {
      assert (a + b)[1..] == a[1..] + b;
      NewerAppend(a[1..], b, time);
    }
  }

  lemma {:induction false} NewerAll(s: seq<File>, time: int)
    requires forall i :: 0 <= i < |s| ==> s[i].mtime > time
    ensures Newer(s, time) == |s|
  {
    if s != [] { NewerAll(s[1..], time); }
  }

  lemma {:induction false} NewerNone(s: seq<File>, time: int)
    requires forall i :: 0 <= i < |s| ==> s[i].mtime <= time
    ensures Newer(s, time) == 0
  {
    if s != [] { NewerNone(s[1..], time); }
  }

  lemma {:induction false} SizeAppend(a: seq<File>, b: seq<File>)
    ensures Size(a + b) == Size(a) + Size(b)
    decreases |a|
  {
    if a == [] {
      assert a + b == b;
    } else {
      assert (a + b)[1..] == a[1..] + b;
      SizeAppend(a[1..], b);
    }
  }

  lemma NewerPull(s: seq<File>, i: nat, time: int)
    requires i < |s|
    ensures Newer(s, time) == Newer(Without(s, i), time) + if s[i].mtime > time then 1 else 0
  {
    assert s == s[..i] + ([s[i]] + s[i + 1..]) && ([s[i]] + s[i + 1..])[1..] == s[i + 1..];
    NewerAppend(s[..i], [s[i]] + s[i + 1..], time);
    NewerAppend(s[..i], s[i + 1..], time);
  }

  lemma SizePull(s: seq<File>, i: nat)
    requires i < |s|
    ensures Size(s) == Size(Without(s, i)) + s[i].size
  {
    assert s == s[..i] + ([s[i]] + s[i + 1..]) && ([s[i]] + s[i + 1..])[1..] == s[i + 1..];
    SizeAppend(s[..i], [s[i]] + s[i + 1..]);
    SizeAppend(s[..i], s[i + 1..]);
  }

  lemma {:induction false} OrderFree(a: seq<File>, b: seq<File>, time: int)
    requires multiset(a) == multiset(b)
    ensures Newer(a, time) == Newer(b, time) && Size(a) == Size(b)
    decreases |a|
  {
    SameMembers(a, b);
    if a != [] {
      var i := PullOut(a, b);
      OrderFree(a[1..], Without(b, i), time);
      NewerPull(b, i, time);
      SizePull(b, i);
    }
  }

  // ---------- the guard ----------

  lemma Ages(s: seq<File>, i: nat, j: nat)
    requires Sorted(s) && i <= j < |s|
    ensures s[i].mtime <= s[j].mtime
  {
    if i < j { assert FilesCompare(s[i], s[j]) <= 0; }
  }

  lemma NewerFrom(s: seq<File>, m: nat, time: int)
    requires Sorted(s) && m <= |s|
    ensures m < |s| && s[m].mtime > time ==> Newer(s, time) >= |s| - m
    ensures m > 0 && s[m - 1].mtime <= time ==> Newer(s, time) <= |s| - m
  {
    assert s == s[..m] + s[m..];
    NewerAppend(s[..m], s[m..], time);
    if m < |s| && s[m].mtime > time {
      forall i | m <= i < |s| ensures s[i].mtime > time { Ages(s, m, i); }
      NewerAll(s[m..], time);
    }
    if m > 0 && s[m - 1].mtime <= time {
      forall i | 0 <= i < m ensures s[i].mtime <= time { Ages(s, i, m - 1); }
      NewerNone(s[..m], time);
    }
  }

  /** The last `adjusted` of the sorted files, which are the `minfiles` newest and those as old as the oldest of
      them, are the protected ones. */
  lemma GuardProtects(s: seq<File>, minfiles: nat, adjusted: nat, i: nat)
    requires Sorted(s) && 0 < minfiles < |s| && minfiles <= adjusted <= |s| && i < |s|
    requires forall j :: |s| - adjusted <= j < |s| - minfiles ==> s[j].mtime == s[|s| - minfiles].mtime
    requires adjusted < |s| ==> s[|s| - adjusted - 1].mtime != s[|s| - minfiles].mtime
    ensures |s| - i <= adjusted <==> Protected(s, minfiles, s[i])
  {
    var m := |s| - minfiles;
    if |s| - i <= adjusted {
      if i < m { assert s[i].mtime == s[m].mtime; } else { Ages(s, m, i); }
      NewerFrom(s, m + 1, s[i].mtime);
    } else {
      Ages(s, i, |s| - adjusted - 1);
      Ages(s, |s| - adjusted - 1, m);
      NewerFrom(s, m, s[i].mtime);
    }
  }

  lemma AllProtected(s: seq<File>, minfiles: nat, i: nat)
    requires Sorted(s) && minfiles >= |s| && i < |s|
    ensures Protected(s, minfiles, s[i])
  {
    NewerFrom(s, i + 1, s[i].mtime);
  }

  /** Of the sorted files exactly the last `adjusted` are protected, here seen at file `i`. */
  predicate GuardedAt(all: seq<File>, s: seq<File>, minfiles: nat, adjusted: nat, i: nat)
    requires i < |s|
  {
    adjusted != 0 && |s| - i <= adjusted <==> Protected(all, minfiles, s[i])
  }

  class Cleaner {
    var files: seq<File>
    var totalSize: nat
    var totalFiles: nat
    var sizeThreshold: nat
    var filesThreshold: nat
    var unlinked: seq<string>  // the names that unlink has removed

    constructor ()
      ensures files == [] && totalSize == 0 && unlinked == []
    {
      files, totalSize, totalFiles, sizeThreshold, filesThreshold, unlinked := [], 0, 0, 0, 0, [];
    }

    /** How many of the newest files are kept: `minfiles` and those of the time of the oldest of them. */
    method AdjustedMinfiles(minfiles: nat, ghost all: seq<File>) returns (adjusted: nat)
      requires Sorted(files) && multiset(files) == multiset(all)
      ensures forall i :: 0 <= i < |files| ==> GuardedAt(all, files, minfiles, adjusted, i)
    {
      adjusted := minfiles;
      if minfiles != 0 && minfiles < |files| {
        var minfilesIndex := |files| - minfiles;
        var minfilesTime := files[minfilesIndex].mtime;
        var i := 1;
        while i <= minfilesIndex
          invariant 1 <= i <= minfilesIndex + 1 && adjusted == minfiles + i - 1
          invariant forall j :: minfilesIndex - i < j < minfilesIndex ==> files[j].mtime == minfilesTime
        {
          if files[minfilesIndex - i].mtime == minfilesTime {
            adjusted := adjusted + 1;
          } else {
            break;
          }
          i := i + 1;
        }
        forall i | 0 <= i < |files| ensures GuardedAt(all, files, minfiles, adjusted, i) {
          GuardProtects(files, minfiles, adjusted, i);
          OrderFree(files, all, files[i].mtime);
        }
      } else if minfiles != 0 {
        forall i | 0 <= i < |files| ensures GuardedAt(all, files, minfiles, adjusted, i) {
          AllProtected(files, minfiles, i);
          OrderFree(files, all, files[i].mtime);
        }
      }
    }

    /** The first `i` files were tried: what is left has the size counted, and the names are those that went. */
    ghost predicate Tried(stuck: set<string>, before: seq<string>, i: nat)
      requires i <= |files|
      reads this
    {
      totalSize == SizeLeft(files, stuck, i) && unlinked == before + Removed(files, stuck, i)
    }

    /** The loop of sort_and_clean that deletes. */
    method DeleteOldest(minfiles: nat, adjusted: nat, stuck: set<string>, ghost all: seq<File>) returns (i: nat)
      requires totalSize == Size(files)
      requires forall j :: 0 <= j < |files| ==> GuardedAt(all, files, minfiles, adjusted, j)
      modifies `totalSize, `unlinked
      ensures i <= |files| && Tried(stuck, old(unlinked), i)
      ensures Goers(all, files, minfiles, stuck, sizeThreshold, filesThreshold, i)
    {
      i := 0;
      while i < |files|
        invariant i <= |files| && Tried(stuck, old(unlinked), i)
        invariant forall j :: 0 <= j < i ==> Goes(all, files, minfiles, stuck, sizeThreshold, filesThreshold, j)
      {
        var goes := Turn(i, minfiles, adjusted, stuck, all, old(unlinked));
        if !goes { break; }
        i := i + 1;
      }
    }

    /** One round of that loop: the file is tried if it has to go. */
    method Turn(i: nat, minfiles: nat, adjusted: nat, stuck: set<string>, ghost all: seq<File>,
                ghost before: seq<string>)
      returns (goes: bool)
      requires i < |files| && GuardedAt(all, files, minfiles, adjusted, i) && Tried(stuck, before, i)
      modifies `totalSize, `unlinked
      ensures goes == Goes(all, files, minfiles, stuck, sizeThreshold, filesThreshold, i)
      ensures goes ==> Tried(stuck, before, i + 1)
      ensures !goes ==> Tried(stuck, before, i)
    {
      if (sizeThreshold == 0 || totalSize < sizeThreshold) && (filesThreshold == 0 || |files| - i < filesThreshold) {
        return false;
      }
      if adjusted != 0 && |files| - i <= adjusted {
        return false;
      }
      goes := true;
      SizeLeftIs(files, stuck, i + 1);
      if files[i].fname !in stuck {
        unlinked := unlinked + [files[i].fname];
        totalSize := totalSize - files[i].size;
      }
    }

    /** sort_and_clean. */
    method SortAndClean(minfiles: nat, stuck: set<string>) returns (ghost k: nat)
      requires totalSize == Size(files)
      modifies `files, `totalSize, `totalFiles, `unlinked
      ensures k <= |files| && totalFiles == |files| - k
      ensures Cleaned(old(files), files, minfiles, stuck, sizeThreshold, filesThreshold, k)
      ensures Tried(stuck, old(unlinked), k)
    {
      ghost var all := files;
      if |files| > 1 {
        files := Qsort(files);
      }
      OrderFree(all, files, 0);
      var adjusted := AdjustedMinfiles(minfiles, all);
      var i := DeleteOldest(minfiles, adjusted, stuck, all);
      totalFiles := |files| - i;
      k := i;
    }

    /** traverse_fn. */
    method TraverseFn(e: Entry)
      requires totalSize == Size(files)
      modifies `files, `totalSize
      ensures totalSize == Size(files)
      ensures files == old(files) +
              if e.regular && Basename(e.fname) != "stats" then [File(e.fname, e.mtime, FileSize(e) / 1024)] else []
    {
      if !e.regular { return; }
      if Basename(e.fname) == "stats" { return; }
      var f := File(e.fname, e.mtime, FileSize(e) / 1024);
      SizeAppend(files, [f]);
      assert [f][1..] == [];
      files := files + [f];
      totalSize := totalSize + f.size;
    }

    /** cleanup_dir: the numbers it reports, and what it has done to reach them. */
    method CleanupDir(entries: seq<Entry>, maxfiles: nat, maxsize: nat, minfiles: nat, stuck: set<string>)
      returns (numFiles: nat, size: nat, ghost sorted: seq<File>, ghost k: nat)
      modifies this
      ensures Cleaned(Listed(entries), sorted, minfiles, stuck, Threshold(maxsize), Threshold(maxfiles), k)
      ensures numFiles == |sorted| - k && size == Size(Left(sorted, stuck, k))
      ensures unlinked == old(unlinked) + Removed(sorted, stuck, k)
    {
      sizeThreshold, filesThreshold := Threshold(maxsize), Threshold(maxfiles);
      files, totalSize := [], 0;
      for i := 0 to |entries|
        invariant totalSize == Size(files) && files == Listed(entries[..i]) && unlinked == old(unlinked)
        invariant sizeThreshold == Threshold(maxsize) && filesThreshold == Threshold(maxfiles)
      {
        assert entries[..i + 1][..i] == entries[..i];
        TraverseFn(entries[i]);
      }
      assert entries[..|entries|] == entries;
      k := SortAndClean(minfiles, stuck);
      sorted := files;
      SizeLeftIs(sorted, stuck, k);
      numFiles, size := totalFiles, totalSize;
      files, totalSize := [], 0;
    }
  }

  lemma {:induction false} SizeLeftIs(s: seq<File>, stuck: set<string>, k: nat)
    requires k <= |s|
    ensures SizeLeft(s, stuck, k) == Size(Left(s, stuck, k))
  {
    if k == 0 {
      assert Left(s, stuck, 0) == s;
    } else {
      SizeLeftIs(s, stuck, k - 1);
      var f, front := s[k - 1], Stuck(s, stuck, k - 1);
      assert s[k - 1..] == [f] + s[k..];
      SizeNext(front, f, s[k..]);
    }
  }

  lemma SizeNext(a: seq<File>, f: File, b: seq<File>)
    ensures Size(a + ([f] + b)) == Size(a + b) + f.size
    ensures a + [f] + b == a + ([f] + b)
  {
    SizeAppend(a, [f] + b);
    SizeAppend(a, b);
    assert ([f] + b)[1..] == b;
  }

  // ---------- what a cleaning amounts to ----------

  /** A directory is left over a threshold only when every file that was not tried is protected. */
  lemma OverOnlyIfProtected(all: seq<File>, s: seq<File>, minfiles: nat, stuck: set<string>, st: nat, ft: nat, k: nat,
                            j: nat)
    requires Cleaned(all, s, minfiles, stuck, st, ft, k) && k <= j < |s|
    requires !Under(st, ft, SizeLeft(s, stuck, k), |s| - k)
    ensures Protected(all, minfiles, s[j])
  {
    Ages(s, k, j);
    NewerMonotone(all, s[k].mtime, s[j].mtime);
  }

  lemma {:induction false} NewerMonotone(s: seq<File>, a: int, b: int)
    requires a <= b
    ensures Newer(s, b) <= Newer(s, a)
  {
    if s != [] { NewerMonotone(s[1..], a, b); }
  }

  /** The file count is that of the files left exactly when no unlink failed; the size is right in any case. */
  lemma CountExact(s: seq<File>, stuck: set<string>, k: nat)
    requires k <= |s|
    ensures |s| - k == |Left(s, stuck, k)| <==> (forall j :: 0 <= j < k ==> s[j].fname !in stuck)
    ensures (forall j :: 0 <= j < k ==> s[j].fname !in stuck) ==> Left(s, stuck, k) == s[k..]
  {
    NoneStuck(s, stuck, k);
  }

  lemma {:induction false} NoneStuck(s: seq<File>, stuck: set<string>, k: nat)
    requires k <= |s|
    ensures Stuck(s, stuck, k) == [] <==> forall j :: 0 <= j < k ==> s[j].fname !in stuck
  {
    if k > 0 { NoneStuck(s, stuck, k - 1); }
  }

  lemma GoesOrderFree(a: seq<File>, b: seq<File>, s: seq<File>, minfiles: nat, stuck: set<string>, st: nat, ft: nat,
                      j: nat)
    requires multiset(a) == multiset(b) && j < |s|
    ensures Goes(a, s, minfiles, stuck, st, ft, j) == Goes(b, s, minfiles, stuck, st, ft, j)
  {
    OrderFree(a, b, s[j].mtime);
  }

  /** The files of a directory and the limits decide which files go: neither the order in which the directory lists
      them nor qsort does. */
  lemma CleaningIsUnique(all: seq<File>, all': seq<File>, s: seq<File>, s': seq<File>, minfiles: nat,
                         stuck: set<string>, st: nat, ft: nat, k: nat, k': nat)
    requires multiset(all) == multiset(all') && DistinctNames(s)
    requires Cleaned(all, s, minfiles, stuck, st, ft, k) && Cleaned(all', s', minfiles, stuck, st, ft, k')
    ensures s == s' && k == k'
  {
    SortUnique(s, s');
    if k < k' { GoesOrderFree(all, all', s, minfiles, stuck, st, ft, k); }
    if k' < k { GoesOrderFree(all, all', s, minfiles, stuck, st, ft, k'); }
  }
}
