/** The order in which cleanup.c sorts the files of a cache directory. */
module CleanupOrder {
  datatype File = File(fname: string, mtime: int, size: nat)

  /** strcmp, as -1, 0 or 1. */
  function Strcmp(a: string, b: string): (c: int)
    ensures c == 0 <==> a == b
    ensures -1 <= c <= 1
    decreases |a|
  {
    if a == "" then (if b == "" then 0 else -1)
    else if b == "" then 1
    else if a[0] != b[0] then (if a[0] < b[0] then -1 else 1)
    else
      assert a == [a[0]] + a[1..] && b == [b[0]] + b[1..];
      Strcmp(a[1..], b[1..])
  }

  lemma {:induction false} StrcmpFlip(a: string, b: string)
    ensures Strcmp(a, b) == -Strcmp(b, a)
    decreases |a|
  {
    if a != "" && b != "" { StrcmpFlip(a[1..], b[1..]); }
  }

  lemma {:induction false} StrcmpTrans(a: string, b: string, c: string)
    requires Strcmp(a, b) <= 0 && Strcmp(b, c) <= 0
    ensures Strcmp(a, c) <= 0
    decreases |a|
  {
    if a != "" && b != "" && c != "" && a[0] == b[0] && b[0] == c[0] { StrcmpTrans(a[1..], b[1..], c[1..]); }
  }

  /** Oldest first; of two files of one time the name that is greater comes first. */
  function FilesCompare(f1: File, f2: File): int {
    if f2.mtime == f1.mtime then Strcmp(f2.fname, f1.fname)
    else if f2.mtime > f1.mtime then -1
    else 1
  }

  /** What qsort demands of a comparison; only files of one name and one time are equal for it. */
  lemma CompareIsOrder(f: File, g: File, h: File)
    ensures FilesCompare(f, g) == -FilesCompare(g, f)
    ensures FilesCompare(f, g) == 0 <==> f.fname == g.fname && f.mtime == g.mtime
    ensures FilesCompare(f, g) <= 0 && FilesCompare(g, h) <= 0 ==> FilesCompare(f, h) <= 0
  {
    StrcmpFlip(f.fname, g.fname);
    if Strcmp(h.fname, g.fname) <= 0 && Strcmp(g.fname, f.fname) <= 0 { StrcmpTrans(h.fname, g.fname, f.fname); }
  }

  ghost predicate Sorted(s: seq<File>) {
    forall i, j :: 0 <= i < j < |s| ==> FilesCompare(s[i], s[j]) <= 0
  }

  function Insert(f: File, s: seq<File>): seq<File> {
    if s == [] then [f]
    else if FilesCompare(f, s[0]) <= 0 then [f] + s
    else [s[0]] + Insert(f, s[1..])
  }

  lemma {:induction false} InsertMembers(f: File, s: seq<File>)
    ensures multiset(Insert(f, s)) == multiset(s) + multiset{f} && |Insert(f, s)| == |s| + 1
  {
    if s != [] {
      assert s == [s[0]] + s[1..];
      InsertMembers(f, s[1..]);
    }
  }

  lemma SortedCons(x: File, s: seq<File>)
    requires Sorted(s) && forall g | g in s :: FilesCompare(x, g) <= 0
    ensures Sorted([x] + s)
  {
  }

  lemma LeastOf(f: File, s: seq<File>)
    requires Sorted(s) && s != [] && FilesCompare(f, s[0]) <= 0
    ensures forall g | g in s :: FilesCompare(f, g) <= 0
  {
    forall g | g in s ensures FilesCompare(f, g) <= 0 {
      LeastFirst(s, g);
      CompareIsOrder(f, s[0], g);
    }
  }

  lemma {:induction false} InsertSorted(f: File, s: seq<File>)
    requires Sorted(s)
    ensures Sorted(Insert(f, s))
  {
    if s == [] {
    } else if FilesCompare(f, s[0]) <= 0 {
      LeastOf(f, s);
      SortedCons(f, s);
    } else {
      var t := Insert(f, s[1..]);
      InsertSorted(f, s[1..]);
      InsertMembers(f, s[1..]);
      CompareIsOrder(s[0], f, f);
      forall g | g in t ensures FilesCompare(s[0], g) <= 0 {
        assert g in multiset(t);
        if g != f { LeastFirst(s, g); }
      }
      SortedCons(s[0], t);
    }
  }

  /** qsort with files_compare. */
  function Qsort(s: seq<File>): (r: seq<File>)
    ensures Sorted(r) && multiset(r) == multiset(s) && |r| == |s|
  {
    if s == [] then []
    else
      assert s == [s[0]] + s[1..];
      InsertSorted(s[0], Qsort(s[1..]));
      InsertMembers(s[0], Qsort(s[1..]));
      Insert(s[0], Qsort(s[1..]))
  }

  ghost predicate DistinctNames(s: seq<File>) {
    forall i, j :: 0 <= i < j < |s| ==> s[i].fname != s[j].fname
  }

  lemma LeastFirst(s: seq<File>, f: File)
    requires Sorted(s) && f in s
    ensures FilesCompare(s[0], f) <= 0
  {
    CompareIsOrder(f, f, f);
  }

  lemma SameHead(a: seq<File>, b: seq<File>)
    requires Sorted(a) && Sorted(b) && DistinctNames(a) && a != [] && b != []
    requires a[0] in b && b[0] in a
    ensures a[0] == b[0]
  {
    LeastFirst(a, b[0]);
    LeastFirst(b, a[0]);
    CompareIsOrder(a[0], b[0], a[0]);
    var i :| 0 <= i < |a| && a[i] == b[0];
    assert a[0].fname == a[i].fname;
  }

  lemma SameMembers(a: seq<File>, b: seq<File>)
    requires multiset(a) == multiset(b)
    ensures |a| == |b| && forall f :: f in a <==> f in b
  {
    assert |multiset(a)| == |a| && |multiset(b)| == |b|;
    forall f ensures f in a <==> f in b {
      assert f in a <==> f in multiset(a);
      assert f in b <==> f in multiset(b);
    }
  }

  lemma SameTails(x: File, s: seq<File>, t: seq<File>)
    requires multiset([x] + s) == multiset([x] + t)
    ensures multiset(s) == multiset(t)
  {
    assert multiset(s) == multiset([x] + s) - multiset{x};
    assert multiset(t) == multiset([x] + t) - multiset{x};
  }

  function Without(s: seq<File>, i: nat): seq<File>
    requires i < |s|
  {
    s[..i] + s[i + 1..]
  }

  lemma PullOut(a: seq<File>, b: seq<File>) returns (i: nat)
    requires a != [] && multiset(a) == multiset(b)
    ensures i < |b| && b[i] == a[0] && multiset(a[1..]) == multiset(Without(b, i))
  {
    SameMembers(a, b);
    assert a[0] in b;
    i :| 0 <= i < |b| && b[i] == a[0];
    assert a == [a[0]] + a[1..] && b == b[..i] + [a[0]] + b[i + 1..];
    assert multiset([a[0]] + Without(b, i)) == multiset(b);
    SameTails(a[0], a[1..], Without(b, i));
  }

  /** The files of a directory have one sorted order: neither the order in which they are found nor the choices of
      qsort matter. */
  lemma {:induction false} SortUnique(a: seq<File>, b: seq<File>)
    requires Sorted(a) && Sorted(b) && multiset(a) == multiset(b) && DistinctNames(a)
    ensures a == b
    decreases |a|
  {
    SameMembers(a, b);
    if a != [] {
      SameHead(a, b);
      assert a == [a[0]] + a[1..] && b == [a[0]] + b[1..];
      SameTails(a[0], a[1..], b[1..]);
      SortUnique(a[1..], b[1..]);
    }
  }
}
