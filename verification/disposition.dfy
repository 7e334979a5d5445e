/** The pure part of `dealWithDupFile` and `dealWithKeepFile`: the marker
    printed per mode, the action attempted on a duplicate, and the backup
    destination `backupPath + filepath.Base(path)`. The filesystem is
    modelled as the set of existing paths, so the effect of a whole group's
    dispatch can be stated. */
module Disposition {
  import opened Files
  import opened Flags
  import opened Selection

  const KeepMarker: string := "O"

  /** The marker of a duplicate's report line in each mode. */
  function DupMarker(m: Mode): (r: string)
    ensures |r| == 1 && r != KeepMarker
  {
    match m
    case Debug => "-"
    case Delete => "X"
    case Backup => "M"
  }

  function EventMarker(m: Mode, e: Event): (r: string)
    ensures r == KeepMarker <==> e.Keep?
  {
    match e
    case Dup(_) => DupMarker(m)
    case Keep(_) => KeepMarker
  }

  /** A report line tells the mode of a duplicate and never looks like the
      line of a kept file. */
  lemma MarkersDistinct(m1: Mode, m2: Mode)
    ensures DupMarker(m1) == DupMarker(m2) <==> m1 == m2
    ensures DupMarker(m1) != KeepMarker
  {
  }

  /** The path without its trailing '/' characters. */
  function StripTrailingSlashes(p: string): (r: string)
    ensures r <= p
    ensures r == [] || r[|r| - 1] != '/'
    ensures forall i :: |r| <= i < |p| ==> p[i] == '/'
    decreases |p|
  {
    if p != [] && p[|p| - 1] == '/' then StripTrailingSlashes(p[..|p| - 1]) else p
  }

  /** The text after the last '/' (all of `p` when it has none). */
  function LastElement(p: string): (r: string)
    ensures |r| <= |p| && r == p[|p| - |r|..]
    ensures forall i :: 0 <= i < |r| ==> r[i] != '/'
    ensures |r| < |p| ==> p[|p| - |r| - 1] == '/'
    decreases |p|
  {
    if p == [] || p[|p| - 1] == '/' then []
    else LastElement(p[..|p| - 1]) + [p[|p| - 1]]
  }

  /** `filepath.Base` on a Unix system: "." for the empty path, "/" for a
      path of slashes only, otherwise the last element after trailing
      slashes are dropped. */
  function Base(path: string): (b: string)
    ensures b != []
    ensures b == "/" || forall i :: 0 <= i < |b| ==> b[i] != '/'
    ensures path == [] ==> b == "."
    ensures path != [] && StripTrailingSlashes(path) == [] ==> b == "/"
    ensures var s := StripTrailingSlashes(path);
            s != [] ==> |b| <= |s| && b == s[|s| - |b|..] && (|b| < |s| ==> s[|s| - |b| - 1] == '/')
  {
    if path == [] then "."
    else
      var e := LastElement(StripTrailingSlashes(path));
      if e == [] then "/" else e
  }

  /** The backup destination of a duplicate: the backup directory (which
      `initFlag` made end in '/') followed by the file's base name. */
  function BackupDestination(backupPath: string, path: string): (r: string)
    ensures backupPath < r
    ensures Base(path) != "/" ==> forall i :: |backupPath| <= i < |r| ==> r[i] != '/'
  {
    backupPath + Base(path)
  }

  /** Moving keeps the file name: the destination's base name is the
      source's, unless the source consists of slashes only. */
  lemma {:induction false} BackupKeepsName(backupPath: string, path: string)
    requires EndsWithSlash(backupPath) && Base(path) != "/"
    ensures Base(BackupDestination(backupPath, path)) == Base(path)
  {
    var b := Base(path);
    var dest := backupPath + b;
    assert dest[|dest| - 1] == b[|b| - 1];
    assert StripTrailingSlashes(dest) == dest;
    LastElementAfterSlash(backupPath, b);
  }

  lemma {:induction false} LastElementAfterSlash(dir: string, name: string)
    requires EndsWithSlash(dir) && forall i :: 0 <= i < |name| ==> name[i] != '/'
    ensures LastElement(dir + name) == name
    decreases |name|
  {
    if name == [] {
      assert dir + name == dir;
    } else {
      var init := name[..|name| - 1];
      assert (dir + name)[..|dir + name| - 1] == dir + init;
      LastElementAfterSlash(dir, init);
      assert init + [name[|name| - 1]] == name;
    }
  }

  /** What `dealWithDupFile` attempts on the filesystem. */
  datatype Action = ReportOnly | Remove(target: string) | Rename(source: string, dest: string)

  function DupAction(c: Config, f: Img): (a: Action)
    ensures a.ReportOnly? <==> c.mode == Debug
    ensures a.Remove? <==> c.mode == Delete
    ensures a.Remove? ==> a.target == f.path
    ensures a.Rename? ==> a.source == f.path && a.dest == BackupDestination(c.backupPath, f.path)
  {
    match c.mode
    case Debug => ReportOnly
    case Delete => Remove(f.path)
    case Backup => Rename(f.path, BackupDestination(c.backupPath, f.path))
  }

  /** `dealWithKeepFile` only prints. */
  function EventAction(c: Config, e: Event): (a: Action)
    ensures e.Keep? ==> a == ReportOnly
    ensures e.Dup? ==> a == DupAction(c, e.rec)
  {
    match e
    case Dup(f) => DupAction(c, f)
    case Keep(_) => ReportOnly
  }

  /** The effect of one action on the set of existing paths. A failing
      remove or rename (the source is missing) changes nothing; a rename
      replaces whatever is at the destination. */
  function Apply(fs: set<string>, a: Action): (r: set<string>)
    ensures a.ReportOnly? ==> r == fs
    ensures a.Remove? ==> r == fs - {a.target}
    ensures a.Rename? && a.source !in fs ==> r == fs
    ensures a.Rename? && a.source in fs ==>
              a.dest in r && (a.source != a.dest ==> a.source !in r) &&
              forall p :: p != a.source && p != a.dest ==> (p in r <==> p in fs)
  {
    match a
    case ReportOnly => fs
    case Remove(p) => fs - {p}
    case Rename(src, dst) => if src in fs then fs - {src} + {dst} else fs
  }

  /** The effect of dispatching a trace of events, in order. */
  function Dispose(c: Config, fs: set<string>, t: seq<Event>): (r: set<string>)
    ensures fs - r <= DupPaths(t)
    ensures r - fs <= MovedTo(c, t)
    decreases |t|
  {
    if t == [] then fs
    else
      DupPathsSnoc(t);
      MovedToSnoc(c, t);
      Apply(Dispose(c, fs, t[..|t| - 1]), EventAction(c, t[|t| - 1]))
  }

  /** Backup destinations of the duplicates of a trace (none outside
      backup mode). */
  function MovedTo(c: Config, t: seq<Event>): set<string> {
    if c.mode == Backup then DupImage(t, DestOf(c.backupPath)) else {}
  }

  /** Where backup mode moves a file. */
  function DestOf(backupPath: string): Img -> string {
    (x: Img) => BackupDestination(backupPath, x.path)
  }

  /** Paths of the files a trace dispatches as duplicates. */
  function DupPaths(t: seq<Event>): set<string> {
    set i | 0 <= i < |t| && t[i].Dup? :: t[i].rec.path
  }

  /** `f` of every file a trace dispatches as a duplicate. */
  function DupImage(t: seq<Event>, f: Img -> string): set<string> {
    set i | 0 <= i < |t| && t[i].Dup? :: f(t[i].rec)
  }

  lemma MovedToSnoc(c: Config, t: seq<Event>)
    requires t != []
    ensures MovedTo(c, t) == MovedTo(c, t[..|t| - 1]) +
              (if t[|t| - 1].Dup? && c.mode == Backup then {BackupDestination(c.backupPath, t[|t| - 1].rec.path)} else {})
  {
    if c.mode == Backup {
      DupImageSnoc(t, DestOf(c.backupPath));
    }
  }

  lemma DupImageSnoc(t: seq<Event>, f: Img -> string)
    requires t != []
    ensures DupImage(t, f) == DupImage(t[..|t| - 1], f) + (if t[|t| - 1].Dup? then {f(t[|t| - 1].rec)} else {})
  {
    var init := t[..|t| - 1];
    forall p | p in DupImage(init, f) ensures p in DupImage(t, f) {
      var i :| 0 <= i < |init| && init[i].Dup? && f(init[i].rec) == p;
      assert t[i] == init[i];
    }
    forall p | p in DupImage(t, f)
      ensures p in DupImage(init, f) + (if t[|t| - 1].Dup? then {f(t[|t| - 1].rec)} else {})
    {
      var i :| 0 <= i < |t| && t[i].Dup? && f(t[i].rec) == p;
      if i < |init| { assert init[i] == t[i]; }
    }
  }

  /** Debug mode leaves the tree as it was. */
  lemma {:induction false} DebugChangesNothing(c: Config, fs: set<string>, t: seq<Event>)
    requires c.mode == Debug
    ensures Dispose(c, fs, t) == fs
    decreases |t|
  {
    if t != [] {
      DebugChangesNothing(c, fs, t[..|t| - 1]);
    }
  }

  /** Delete mode removes exactly the duplicates' paths. */
  lemma {:induction false} DeleteRemovesDups(c: Config, fs: set<string>, t: seq<Event>)
    requires c.mode == Delete
    ensures Dispose(c, fs, t) == fs - DupPaths(t)
    decreases |t|
  {
    if t != [] {
      var init := t[..|t| - 1];
      DeleteRemovesDups(c, fs, init);
      DupPathsSnoc(t);
    }
  }

  /** Distinct members of a group sit at distinct paths. */
  predicate DistinctPaths(g: seq<Img>) {
    forall i, j :: 0 <= i < j < |g| ==> g[i].path != g[j].path
  }

  lemma {:induction false} DistinctOnce(g: seq<Img>, x: Img)
    requires DistinctPaths(g)
    ensures multiset(g)[x] <= 1
    decreases |g|
  {
    if g != [] {
      var init := g[..|g| - 1];
      assert g == init + [g[|g| - 1]];
      DistinctOnce(init, x);
      if x == g[|g| - 1] {
        assert forall i :: 0 <= i < |init| ==> init[i].path != x.path;
      }
    }
  }

  /** Every member of a dispatched group other than the kept one is
      dispatched as a duplicate. */
  lemma OthersAreDups(g: seq<Img>, t: seq<Event>)
    requires ValidGroupTrace(g, t)
    ensures forall x :: x in g && x != Oldest(g) ==> x.path in DupPaths(t)
  {
    var dups := Subjects(t[..|t| - 1]);
    DupsAreTheOthers(g, t);
    forall x | x in g && x != Oldest(g) ensures x.path in DupPaths(t) {
      assert x in multiset(dups);
      var i :| 0 <= i < |dups| && dups[i] == x;
      assert t[i].Dup? && t[i].rec == x;
    }
  }

  /** A duplicate's event names a member of the group. */
  lemma DupIsMember(g: seq<Img>, t: seq<Event>, i: int)
    requires ValidGroupTrace(g, t) && 0 <= i < |t| - 1
    ensures t[i].rec in multiset(g) - multiset{Oldest(g)}
  {
    var dups := Subjects(t[..|t| - 1]);
    DupsAreTheOthers(g, t);
    assert dups[i] == t[i].rec;
    assert t[i].rec in multiset(dups);
  }

  /** When paths are distinct, the kept file is not dispatched as a
      duplicate. */
  lemma KeptIsNoDup(g: seq<Img>, t: seq<Event>)
    requires ValidGroupTrace(g, t) && DistinctPaths(g)
    ensures Oldest(g).path !in DupPaths(t)
  {
    DistinctOnce(g, Oldest(g));
    forall p | p in DupPaths(t) ensures p != Oldest(g).path {
      var i :| 0 <= i < |t| && t[i].Dup? && t[i].rec.path == p;
      DupIsMember(g, t, i);
      var y := t[i].rec;
      assert y != Oldest(g);
      assert y in g;
      var j :| 0 <= j < |g| && g[j] == y;
      var k := FirstOldest(g);
      assert j != k;
      assert g[j].path != g[k].path;
    }
  }

  /** Delete mode on a group whose members sit at distinct paths: of the
      group, only the kept file is left, and no other path changes. */
  lemma DeleteKeepsOnlyOldest(c: Config, fs: set<string>, g: seq<Img>, t: seq<Event>)
    requires c.mode == Delete && ValidGroupTrace(g, t) && DistinctPaths(g)
    ensures forall x :: x in g ==> (x.path in Dispose(c, fs, t) <==> x.path in fs && x == Oldest(g))
    ensures forall p :: (forall x :: x in g ==> x.path != p) ==> (p in Dispose(c, fs, t) <==> p in fs)
  {
    DeleteRemovesDups(c, fs, t);
    OthersAreDups(g, t);
    KeptIsNoDup(g, t);
    assert forall p :: p in DupPaths(t) ==> exists x :: x in g && x.path == p by {
      forall p | p in DupPaths(t) ensures exists x :: x in g && x.path == p {
        var i :| 0 <= i < |t| && t[i].Dup? && t[i].rec.path == p;
        assert Subjects(t)[i] == t[i].rec;
        assert t[i].rec in multiset(Subjects(t));
      }
    }
  }

  lemma TwiceCounted(s: seq<Img>, i: int, j: int)
    requires 0 <= i < j < |s|
    ensures s[i] == s[j] ==> multiset(s)[s[i]] >= 2
  {
    assert s == s[..j] + [s[j]] + s[j + 1..];
    assert s[..j][i] == s[i];
    assert s[i] in multiset(s[..j]);
  }

  lemma SamePathSameMember(g: seq<Img>, x: Img, y: Img)
    requires DistinctPaths(g) && x in g && y in g
    ensures x.path == y.path ==> x == y
  {
    var i :| 0 <= i < |g| && g[i] == x;
    var j :| 0 <= j < |g| && g[j] == y;
    assert i != j ==> g[i].path != g[j].path;
  }

  /** When paths are distinct, no path is dispatched twice. */
  lemma DupPathsDistinct(g: seq<Img>, t: seq<Event>)
    requires ValidGroupTrace(g, t) && DistinctPaths(g)
    ensures forall i, j :: 0 <= i < j < |t| && t[i].Dup? && t[j].Dup? ==> t[i].rec.path != t[j].rec.path
  {
    var dups := Subjects(t[..|t| - 1]);
    DupsAreTheOthers(g, t);
    forall i, j | 0 <= i < j < |t| && t[i].Dup? && t[j].Dup? ensures t[i].rec.path != t[j].rec.path {
      DupIsMember(g, t, i);
      DupIsMember(g, t, j);
      DistinctOnce(g, t[i].rec);
      assert dups[i] == t[i].rec && dups[j] == t[j].rec;
      TwiceCounted(dups, i, j);
      SamePathSameMember(g, t[i].rec, t[j].rec);
    }
  }

  /** Renaming the duplicates of a trace one after another, when the
      duplicates sit at distinct paths of `paths` and the destinations lie
      outside `paths`: no duplicate is left at its path, and every
      destination exists. */
  lemma {:induction false} BackupMoves(c: Config, fs: set<string>, t: seq<Event>, paths: set<string>)
    requires c.mode == Backup && paths <= fs
    requires DupPaths(t) <= paths && MovedTo(c, t) !! paths
    requires forall i, j :: 0 <= i < j < |t| && t[i].Dup? && t[j].Dup? ==> t[i].rec.path != t[j].rec.path
    ensures DupPaths(t) !! Dispose(c, fs, t)
    ensures MovedTo(c, t) <= Dispose(c, fs, t)
    decreases |t|
  {
    if t != [] {
      var init, e := t[..|t| - 1], t[|t| - 1];
      DupPathsSnoc(t);
      MovedToSnoc(c, t);
      DistinctDupsInit(t, init);
      BackupMoves(c, fs, init, paths);
      if e.Dup? {
        var src := e.rec.path;
        LastDupFresh(t);
        var prev := Dispose(c, fs, init);
        RenameStep(prev, src, BackupDestination(c.backupPath, src), DupPaths(init), MovedTo(c, init));
      }
    }
  }

  /** Duplicates at distinct paths stay so in a prefix of the trace. */
  lemma DistinctDupsInit(t: seq<Event>, init: seq<Event>)
    requires init <= t
    requires forall i, j :: 0 <= i < j < |t| && t[i].Dup? && t[j].Dup? ==> t[i].rec.path != t[j].rec.path
    ensures forall i, j :: 0 <= i < j < |init| && init[i].Dup? && init[j].Dup? ==> init[i].rec.path != init[j].rec.path
  {
    forall i, j | 0 <= i < j < |init| && init[i].Dup? && init[j].Dup?
      ensures init[i].rec.path != init[j].rec.path
    {
      assert init[i] == t[i] && init[j] == t[j];
    }
  }

  /** With duplicates at distinct paths, the last duplicate's path is not
      among the earlier ones. */
  lemma LastDupFresh(t: seq<Event>)
    requires t != [] && t[|t| - 1].Dup?
    requires forall i, j :: 0 <= i < j < |t| && t[i].Dup? && t[j].Dup? ==> t[i].rec.path != t[j].rec.path
    ensures t[|t| - 1].rec.path !in DupPaths(t[..|t| - 1])
  {
    var init := t[..|t| - 1];
    forall p | p in DupPaths(init) ensures p != t[|t| - 1].rec.path {
      var i :| 0 <= i < |init| && init[i].Dup? && init[i].rec.path == p;
      assert t[i] == init[i];
    }
  }

  /** One rename of a file that is there, to a new place: paths already
      gone stay gone unless they are the destination, and paths already
      there stay unless they are the source. */
  lemma RenameStep(prev: set<string>, src: string, dst: string, gone: set<string>, there: set<string>)
    requires src in prev && src != dst
    requires gone !! prev && dst !in gone
    requires there <= prev && src !in there
    ensures gone + {src} !! Apply(prev, Rename(src, dst))
    ensures there + {dst} <= Apply(prev, Rename(src, dst))
  {
  }

  /** Renaming never takes away a path that no duplicate sat at. */
  lemma BackupKeepsOthers(c: Config, fs: set<string>, t: seq<Event>, paths: set<string>)
    requires paths <= fs
    ensures forall p :: p in paths && p !in DupPaths(t) ==> p in Dispose(c, fs, t)
  {
  }

  lemma DupPathsSnoc(t: seq<Event>)
    requires t != []
    ensures DupPaths(t) == DupPaths(t[..|t| - 1]) + (if t[|t| - 1].Dup? then {t[|t| - 1].rec.path} else {})
  {
    var init := t[..|t| - 1];
    forall p | p in DupPaths(t) ensures p in DupPaths(init) + (if t[|t| - 1].Dup? then {t[|t| - 1].rec.path} else {}) {
      var i :| 0 <= i < |t| && t[i].Dup? && t[i].rec.path == p;
      if i < |init| { assert init[i] == t[i]; }
    }
    forall p | p in DupPaths(init) ensures p in DupPaths(t) {
      var i :| 0 <= i < |init| && init[i].Dup? && init[i].rec.path == p;
      assert t[i] == init[i];
    }
  }

  /** The paths of a group's members. */
  function GroupPaths(g: seq<Img>): set<string> {
    set x | x in g :: x.path
  }

  /** Every event of a valid dispatch names a member of the group. */
  lemma TraceInGroup(g: seq<Img>, t: seq<Event>)
    requires ValidGroupTrace(g, t)
    ensures forall i :: 0 <= i < |t| ==> t[i].rec in g
  {
    forall i | 0 <= i < |t| ensures t[i].rec in g {
      assert Subjects(t)[i] == t[i].rec;
      assert t[i].rec in multiset(Subjects(t));
    }
  }

  /** The duplicates of a valid dispatch sit at the group's paths, and in
      backup mode their destinations lie outside them when no member's
      destination is a member's path. */
  lemma BackupWithinGroup(c: Config, g: seq<Img>, t: seq<Event>)
    requires ValidGroupTrace(g, t)
    requires forall x, y :: x in g && y in g ==> BackupDestination(c.backupPath, x.path) != y.path
    ensures DupPaths(t) <= GroupPaths(g)
    ensures MovedTo(c, t) !! GroupPaths(g)
  {
    TraceInGroup(g, t);
    DupsInGroup(g, t);
    if c.mode == Backup {
      DestinationsOutside(c.backupPath, g, t);
    }
  }

  lemma DupsInGroup(g: seq<Img>, t: seq<Event>)
    requires forall i :: 0 <= i < |t| ==> t[i].rec in g
    ensures DupPaths(t) <= GroupPaths(g)
  {
    forall p | p in DupPaths(t) ensures p in GroupPaths(g) {
      var i :| 0 <= i < |t| && t[i].Dup? && t[i].rec.path == p;
    }
  }

  lemma DestinationsOutside(b: string, g: seq<Img>, t: seq<Event>)
    requires forall i :: 0 <= i < |t| ==> t[i].rec in g
    requires forall x, y :: x in g && y in g ==> BackupDestination(b, x.path) != y.path
    ensures DupImage(t, DestOf(b)) !! GroupPaths(g)
  {
    forall p | p in DupImage(t, DestOf(b)) ensures p !in GroupPaths(g) {
      var i :| 0 <= i < |t| && t[i].Dup? && DestOf(b)(t[i].rec) == p;
      assert t[i].rec in g;
    }
  }

  /** Backup mode on a group at distinct paths whose backup destinations
      are not paths of the group: the kept file stays where it is, and
      every other member has moved to the backup directory under its own
      name. */
  lemma BackupMovesDuplicates(c: Config, fs: set<string>, g: seq<Img>, t: seq<Event>)
    requires c.mode == Backup && ValidGroupTrace(g, t) && DistinctPaths(g)
    requires forall x :: x in g ==> x.path in fs
    requires forall x, y :: x in g && y in g ==> BackupDestination(c.backupPath, x.path) != y.path
    ensures Oldest(g).path in Dispose(c, fs, t)
    ensures forall x :: x in g && x != Oldest(g) ==>
              x.path !in Dispose(c, fs, t) && BackupDestination(c.backupPath, x.path) in Dispose(c, fs, t)
  {
    var paths := GroupPaths(g);
    assert paths <= fs;
    assert Oldest(g).path in paths;
    BackupWithinGroup(c, g, t);
    DupPathsDistinct(g, t);
    BackupMoves(c, fs, t, paths);
    BackupKeepsOthers(c, fs, t, paths);
    OthersAreDups(g, t);
    KeptIsNoDup(g, t);
    var r := Dispose(c, fs, t);
    forall x | x in g && x != Oldest(g)
      ensures x.path !in r && BackupDestination(c.backupPath, x.path) in r
    {
      DupMoved(c, t, r, x.path);
    }
  }

  /** In backup mode, a duplicate's path gone and all destinations present
      means that duplicate's own destination is present. */
  lemma DupMoved(c: Config, t: seq<Event>, r: set<string>, p: string)
    requires c.mode == Backup && p in DupPaths(t)
    requires DupPaths(t) !! r && MovedTo(c, t) <= r
    ensures p !in r && BackupDestination(c.backupPath, p) in r
  {
    var i :| 0 <= i < |t| && t[i].Dup? && t[i].rec.path == p;
    assert DestOf(c.backupPath)(t[i].rec) in MovedTo(c, t);
  }


}
