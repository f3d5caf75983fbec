/** What a cleaning comes to, in the plain terms of its limits, files and names. */
module CleanupLaws {
  import opened Cleanup
  import opened CleanupOrder

  // ---------- the two thresholds ----------

  /** Where cleaning stops at a file that is not protected, the size of what is left is below the size threshold and the
      number of files is below the file threshold, each unless that threshold is zero. */
  lemma StopsBelow(all: seq<File>, s: seq<File>, minfiles: nat, stuck: set<string>, st: nat, ft: nat, k: nat)
    requires Cleaned(all, s, minfiles, stuck, st, ft, k) && k < |s| && !Protected(all, minfiles, s[k])
    ensures (st == 0 || Size(Left(s, stuck, k)) < st) && (ft == 0 || |s| - k < ft)
  {
    SizeLeftIs(s, stuck, k);
  }

  /** Each file that is tried is not protected, and at its turn the size of what is left reaches the size threshold, or
      the number of files the file threshold. */
  lemma TriedAbove(all: seq<File>, s: seq<File>, minfiles: nat, stuck: set<string>, st: nat, ft: nat, k: nat, j: nat)
    requires Cleaned(all, s, minfiles, stuck, st, ft, k) && j < k
    ensures !Protected(all, minfiles, s[j])
    ensures (st != 0 && Size(Left(s, stuck, j)) >= st) || (ft != 0 && |s| - j >= ft)
  {
    SizeLeftIs(s, stuck, j);
    assert Goes(all, s, minfiles, stuck, st, ft, j);
  }

  /** A file is protected if and only if less than `minfiles` files are newer. */
  lemma ProtectedIs(s: seq<File>, minfiles: nat, f: File)
    ensures Protected(s, minfiles, f) <==> |set i | 0 <= i < |s| && s[i].mtime > f.mtime| < minfiles
  {
    NewerIs(s, f.mtime);
  }

  lemma {:induction false} NewerIs(s: seq<File>, time: int)
    ensures Newer(s, time) == |set i | 0 <= i < |s| && s[i].mtime > time|
    decreases |s|
  {
    if s != [] {
      var n := |s| - 1;
      NewerIs(s[..n], time);
      assert s == s[..n] + [s[n]] && [s[n]][1..] == [];
      NewerAppend(s[..n], [s[n]], time);
      NewerSet(s, n, time);
    }
  }

  lemma NewerSet(s: seq<File>, n: nat, time: int)
    requires |s| == n + 1
    ensures |set i | 0 <= i < |s| && s[i].mtime > time| ==
            |set i | 0 <= i < |s[..n]| && s[..n][i].mtime > time| + if s[n].mtime > time then 1 else 0
  {
    var t, u := set i | 0 <= i < |s| && s[i].mtime > time, set i | 0 <= i < |s[..n]| && s[..n][i].mtime > time;
    assert t == u + if s[n].mtime > time then {n} else {};
  }

  // ---------- the order ----------

  /** `a` stands before `b` in a dictionary. */
  ghost predicate NameBefore(a: string, b: string) {
    exists k :: 0 <= k <= |a| && k < |b| && a[..k] == b[..k] && (k == |a| || a[k] < b[k])
  }

  lemma {:induction false} StrcmpIs(a: string, b: string)
    ensures Strcmp(a, b) < 0 <==> NameBefore(a, b)
    decreases |a|
  {
    if a == "" {
      if b != "" { assert a[..0] == b[..0]; }
    } else if b != "" {
      if a[0] != b[0] {
        DifferAtOnce(a, b);
      } else {
        StrcmpIs(a[1..], b[1..]);
        BehindOne(a, b);
      }
    }
  }

  lemma DifferAtOnce(a: string, b: string)
    requires a != "" && b != "" && a[0] != b[0]
    ensures NameBefore(a, b) <==> a[0] < b[0]
  {
    if a[0] < b[0] { assert a[..0] == b[..0]; }
    if NameBefore(a, b) {
      var k :| 0 <= k <= |a| && k < |b| && a[..k] == b[..k] && (k == |a| || a[k] < b[k]);
      if k > 0 { assert a[..k][0] == b[..k][0]; }
    }
  }

  lemma BehindOne(a: string, b: string)
    requires a != "" && b != "" && a[0] == b[0]
    ensures NameBefore(a, b) <==> NameBefore(a[1..], b[1..])
  {
    if NameBefore(a, b) { Shorter(a, b); }
    if NameBefore(a[1..], b[1..]) { Longer(a, b); }
  }

  lemma Shorter(a: string, b: string)
    requires a != "" && b != "" && a[0] == b[0] && NameBefore(a, b)
    ensures NameBefore(a[1..], b[1..])
  {
    var k :| 0 <= k <= |a| && k < |b| && a[..k] == b[..k] && (k == |a| || a[k] < b[k]);
    assert a[1..][..k - 1] == a[..k][1..] && b[1..][..k - 1] == b[..k][1..];
  }

  lemma Longer(a: string, b: string)
    requires a != "" && b != "" && a[0] == b[0] && NameBefore(a[1..], b[1..])
    ensures NameBefore(a, b)
  {
    var s, t := a[1..], b[1..];
    var k :| 0 <= k <= |s| && k < |t| && s[..k] == t[..k] && (k == |s| || s[k] < t[k]);
    assert a[..k + 1] == [a[0]] + s[..k] && b[..k + 1] == [b[0]] + t[..k];
  }

  /** An older file comes first, and of two files of one time the one whose name stands behind in a dictionary. */
  lemma OrderIs(f: File, g: File)
    ensures FilesCompare(f, g) < 0 <==> f.mtime < g.mtime || (f.mtime == g.mtime && NameBefore(g.fname, f.fname))
  {
    StrcmpIs(g.fname, f.fname);
  }

  // ---------- what goes and what is left ----------

  /** The names that go are those of the files that were tried, but for the stuck ones. */
  lemma {:induction false} RemovedIs(s: seq<File>, stuck: set<string>, k: nat, name: string)
    requires k <= |s|
    ensures name in Removed(s, stuck, k) <==> name !in stuck && exists j :: 0 <= j < k && s[j].fname == name
  {
    if k > 0 { RemovedIs(s, stuck, k - 1, name); }
  }

  /** They go in the order of the sort: each behind those that went before it. */
  lemma {:induction false} RemovedAt(s: seq<File>, stuck: set<string>, k: nat, j: nat)
    requires j < k <= |s| && s[j].fname !in stuck
    ensures var n := |Removed(s, stuck, j)|;
            n + |Stuck(s, stuck, j)| == j && n < |Removed(s, stuck, k)| && Removed(s, stuck, k)[n] == s[j].fname
  {
    RemovedCount(s, stuck, j);
    if j < k - 1 { RemovedAt(s, stuck, k - 1, j); }
  }

  lemma {:induction false} RemovedCount(s: seq<File>, stuck: set<string>, k: nat)
    requires k <= |s|
    ensures |Removed(s, stuck, k)| + |Stuck(s, stuck, k)| == k
  {
    if k > 0 { RemovedCount(s, stuck, k - 1); }
  }

  /** What is left: the files that were not tried, and those that are stuck. */
  lemma LeftIs(s: seq<File>, stuck: set<string>, k: nat, f: File)
    requires k <= |s|
    ensures f in Left(s, stuck, k) <==> exists j :: 0 <= j < |s| && s[j] == f && (j >= k || f.fname in stuck)
  {
    StuckIs(s, stuck, k, f);
    assert f in s[k..] <==> exists j :: k <= j < |s| && s[j] == f by {
      if j :| k <= j < |s| && s[j] == f { assert s[k..][j - k] == f; }
    }
  }

  lemma {:induction false} StuckIs(s: seq<File>, stuck: set<string>, k: nat, f: File)
    requires k <= |s|
    ensures f in Stuck(s, stuck, k) <==> f.fname in stuck && exists j :: 0 <= j < k && s[j] == f
  {
    if k > 0 { StuckIs(s, stuck, k - 1, f); }
  }

  // ---------- which files take part, and with which size ----------

  /** `s` ends with "/" and `t`. */
  predicate Below(s: string, t: string) {
    |s| > |t| && s[|s| - |t| - 1..] == "/" + t
  }

  lemma {:induction false} BasenameIs(s: string)
    ensures '/' !in Basename(s) && (s == Basename(s) || Below(s, Basename(s)))
  {
    if s != "" && '/' in s[1..] {
      BasenameIs(s[1..]);
      BelowMore(s, Basename(s));
    }
  }

  lemma BelowMore(s: string, t: string)
    requires s != ""
    ensures Below(s[1..], t) ==> Below(s, t)
  {
    if Below(s[1..], t) { assert s[|s| - |t| - 1..] == s[1..][|s[1..]| - |t| - 1..]; }
  }

  lemma {:induction false} EndsIn(s: string, t: string)
    requires '/' !in t && Below(s, t)
    ensures Basename(s) == t
    decreases |s|
  {
    var k := |s| - |t| - 1;
    if k == 0 {
      assert s == "/" + t && s[1..] == t;
    } else {
      assert s[k..][0] == '/' && s[1..][k - 1] == '/';
      assert s[1..][k - 1..] == s[k..];
      EndsIn(s[1..], t);
    }
  }

  /** The name of a file in its directory is `t` if and only if its path is `t`, or ends with "/" and `t`. */
  lemma NamedIs(s: string, t: string)
    requires '/' !in t
    ensures Basename(s) == t <==> s == t || Below(s, t)
  {
    BasenameIs(s);
    if Below(s, t) { EndsIn(s, t); }
    if s == t && Below(s, Basename(s)) { SlashIn(s, Basename(s)); }
  }

  lemma SlashIn(s: string, t: string)
    requires Below(s, t)
    ensures '/' in s
  {
    assert s[|s| - |t| - 1..][0] == '/';
  }

  /** The statistics are in the files of the name "stats", in whatever directory. */
  predicate IsStats(path: string) {
    path == "stats" || Below(path, "stats")
  }

  lemma StatsIs(path: string)
    ensures Basename(path) == "stats" <==> IsStats(path)
  {
    var t := "stats";
    NamedIs(path, t);
  }

  /** The size of a file is that of its blocks of 512 bytes, or when these cannot hold its bytes, the next multiple of
      1024. */
  lemma FileSizeIs(e: Entry)
    ensures e.bytes <= FileSize(e) && 512 * e.blocks <= FileSize(e)
    ensures e.bytes <= 512 * e.blocks ==> FileSize(e) == 512 * e.blocks
    ensures e.bytes > 512 * e.blocks ==> FileSize(e) % 1024 == 0 && FileSize(e) < e.bytes + 1024
  {
  }

  /** The files that take part are the regular ones that are not the statistics; their sizes are counted in whole
      kilobytes. */
  lemma {:induction false} ListedIs(entries: seq<Entry>, f: File)
    ensures f in Listed(entries) <==>
            exists e | e in entries :: e.regular && !IsStats(e.fname) && f == File(e.fname, e.mtime, FileSize(e) / 1024)
    decreases |entries|
  {
    if entries != [] {
      var n := |entries| - 1;
      ListedIs(entries[..n], f);
      StatsIs(entries[n].fname);
      assert entries == entries[..n] + [entries[n]];
    }
  }
}
