/** What the output of `walk` guarantees, for any visiting order of the
    two maps, and for the buckets `load` builds. */
module WalkProperties {
  import opened Wrappers
  import opened Files
  import opened ImgMaps
  import opened Selection
  import opened Walk
  import Load

  /** All disposition events of a report, section after section. */
  function Trace(report: seq<Section>): (t: seq<Event>)
    decreases |report|
  {
    if report == [] then [] else Trace(report[..|report| - 1]) + report[|report| - 1].events
  }

  lemma {:induction false} TraceMember(report: seq<Section>, e: Event)
    requires e in Trace(report)
    ensures exists i :: 0 <= i < |report| && e in report[i].events
    decreases |report|
  {
    if e !in report[|report| - 1].events {
      TraceMember(report[..|report| - 1], e);
      var i :| 0 <= i < |report| - 1 && e in report[..|report| - 1][i].events;
      assert report[..|report| - 1][i] == report[i];
    }
  }

  /** Every file an event of a section names is in that section's size
      bucket and has that section's digest. */
  lemma SectionMembers(im: ImgMap, hash: Hasher, s: Section, e: Event)
    requires SectionOk(im, hash, s) && e in s.events
    ensures e.rec in im[s.sizeKey]
    ensures hash(e.rec.path) == Some(s.digest)
  {
    var g := DigestGroups(im[s.sizeKey], hash)[s.digest];
    GroupTraceValid(g);
    DupsAreTheOthers(g, s.events);
    var i :| 0 <= i < |s.events| && s.events[i] == e;
    assert Subjects(s.events)[i] == e.rec;
    assert e.rec in Select(im[s.sizeKey], DigestKey(hash), s.digest);
  }

  /** A file whose digest could not be computed is never kept and never
      dispatched as a duplicate; every dispatched file came from a bucket
      whose length is not 1. */
  lemma DigestFailureNeverDispatched(im: ImgMap, hash: Hasher, report: seq<Section>, e: Event)
    requires WalkReport(im, hash, report) && e in Trace(report)
    ensures hash(e.rec.path).Some?
    ensures exists k :: k in im && |im[k]| != 1 && e.rec in im[k]
  {
    TraceMember(report, e);
    var i :| 0 <= i < |report| && e in report[i].events;
    SectionMembers(im, hash, report[i], e);
  }

  /** A size bucket of one file gets no section. */
  lemma SingletonBucketSilent(im: ImgMap, hash: Hasher, report: seq<Section>, k: string)
    requires WalkReport(im, hash, report) && k in im && |im[k]| == 1
    ensures forall i :: 0 <= i < |report| ==> report[i].sizeKey != k
  {
  }

  /** On the buckets of `load`, the only file of a one-file bucket is never
      hashed: size is a strict pre-filter. */
  lemma SingletonNeverHashed(root: string, entries: seq<Img>, hashed: seq<Img>, k: string)
    requires HashedExactly(Load.LoadBuckets(root, entries), hashed)
    requires k in Load.LoadBuckets(root, entries) && |Load.LoadBuckets(root, entries)[k]| == 1
    ensures Load.LoadBuckets(root, entries)[k][0] !in hashed
  {
    var im := Load.LoadBuckets(root, entries);
    var x := im[k][0];
    forall k' | k' in im && x in im[k'] ensures k' == k {
      Load.LoadBucketUnique(root, entries, x, x, k, k');
    }
  }

  /** On the buckets of `load`, the files of one section all have the same
      size and the same digest. */
  lemma SectionUniform(root: string, entries: seq<Img>, hash: Hasher, report: seq<Section>,
                       i: int, e1: Event, e2: Event)
    requires WalkReport(Load.LoadBuckets(root, entries), hash, report)
    requires 0 <= i < |report| && e1 in report[i].events && e2 in report[i].events
    ensures e1.rec.info.size == e2.rec.info.size
    ensures hash(e1.rec.path) == hash(e2.rec.path)
  {
    var im := Load.LoadBuckets(root, entries);
    SectionMembers(im, hash, report[i], e1);
    SectionMembers(im, hash, report[i], e2);
    Load.LoadBucketUnique(root, entries, e1.rec, e2.rec, report[i].sizeKey, report[i].sizeKey);
  }

  /** The sections are fixed by the buckets and the digests: with one
      digest function for the whole run (debug mode, or whenever no
      disposition changes a later digest), two runs that visit the maps in
      different orders print the same sections, possibly reordered. */
  lemma ReportStable(im: ImgMap, hash: Hasher, r1: seq<Section>, r2: seq<Section>)
    requires WalkReport(im, hash, r1) && WalkReport(im, hash, r2)
    ensures forall s :: s in r1 <==> s in r2
  {
    forall s | s in r1 ensures s in r2 {
      SectionIn(im, hash, r1, r2, s);
    }
    forall s | s in r2 ensures s in r1 {
      SectionIn(im, hash, r2, r1, s);
    }
  }

  lemma SectionIn(im: ImgMap, hash: Hasher, r1: seq<Section>, r2: seq<Section>, s: Section)
    requires WalkReport(im, hash, r1) && WalkReport(im, hash, r2) && s in r1
    ensures s in r2
  {
    var i :| 0 <= i < |r1| && r1[i] == s;
    assert SectionOk(im, hash, s);
    assert IsDupGroup(im, hash, s.sizeKey, s.digest);
    var j :| 0 <= j < |r2| && r2[j].sizeKey == s.sizeKey && r2[j].digest == s.digest;
    assert SectionOk(im, hash, r2[j]);
    assert r2[j] == s;
  }
}

/** End to end: a directory holding two files of equal size, with the same
    content or with different content. */
module Scenarios {
  import opened Wrappers
  import opened Files
  import opened ImgMaps
  import opened Selection
  import opened Walk
  import opened Load

  /** A root directory entry followed by two files of the same size. */
  predicate TwoFileTree(root: string, top: Img, a: Img, b: Img) {
    && top.path == root && top.info.isDir
    && a.path != root && b.path != root && a.path != "" && b.path != "" && a != b
    && a.info.name == "a.txt" && b.info.name == "b.txt"
    && !a.info.isDir && !b.info.isDir
    && a.info.size == b.info.size
  }

  /** Filing three records of which the first has no key and the other two
      share key `k`. */
  lemma SelectThree(top: Img, a: Img, b: Img, key: Img -> Option<string>, k: string)
    requires key(top) == None && key(a) == Some(k) && key(b) == Some(k)
    ensures forall k' :: Select([top, a, b], key, k') == if k' == k then [a, b] else []
  {
    forall k' ensures Select([top, a, b], key, k') == if k' == k then [a, b] else [] {
      assert [b][1..] == [];
      var s1 := Select([b], key, k');
      assert s1 == (if k' == k then [b] else []);
      assert [a, b][1..] == [b];
      var s2 := Select([a, b], key, k');
      assert s2 == (if k' == k then [a] else []) + s1;
      assert [top, a, b][1..] == [a, b];
      assert Select([top, a, b], key, k') == s2;
    }
  }

  lemma TwoFileKeys(root: string, top: Img, a: Img, b: Img)
    requires TwoFileTree(root, top, a, b)
    ensures forall k' :: Select([top, a, b], KeyAt(root), k') ==
              if k' == SizeKey(a.info.size) then [a, b] else []
  {
    KeyAtRecorded(root, top);
    KeyAtRecorded(root, a);
    KeyAtRecorded(root, b);
    SelectThree(top, a, b, KeyAt(root), SizeKey(a.info.size));
  }

  /** `load` on the two-file tree: a single bucket holding both files. */
  lemma TwoFileBuckets(root: string, top: Img, a: Img, b: Img)
    requires TwoFileTree(root, top, a, b)
    ensures SizeKey(a.info.size) in LoadBuckets(root, [top, a, b])
    ensures LoadBuckets(root, [top, a, b])[SizeKey(a.info.size)] == [a, b]
    ensures forall k' :: k' in LoadBuckets(root, [top, a, b]) ==> k' == SizeKey(a.info.size)
  {
    TwoFileKeys(root, top, a, b);
    LoadIsGroupBy(root, [top, a, b]);
  }

  /** Regrouping a two-file bucket by digest. */
  lemma PairDigests(a: Img, b: Img, hash: Hasher)
    ensures forall d :: Select([a, b], DigestKey(hash), d) ==
              (if hash(a.path) == Some(d) then [a] else []) + (if hash(b.path) == Some(d) then [b] else [])
  {
    assert [a, b][1..] == [b] && [b][1..] == [];
  }

  /** Two sections of a report never name the same group. */
  lemma FirstTwoDistinct(report: seq<Section>)
    requires DistinctGroups(report)
    ensures |report| >= 2 ==> report[0].sizeKey != report[1].sizeKey || report[0].digest != report[1].digest
  {
  }

  /** In a report over a single bucket `[a, b]` of one digest `d`, the
      group `(k, d)` is reported. */
  lemma PairReported(im: ImgMap, hash: Hasher, k: string, a: Img, b: Img, d: string, report: seq<Section>)
    requires k in im && im[k] == [a, b]
    requires hash(a.path) == Some(d) && hash(b.path) == Some(d)
    requires WalkReport(im, hash, report)
    ensures Reported(report, k, d)
  {
    PairDigests(a, b, hash);
    assert Select([a, b], DigestKey(hash), d) == [a, b];
    assert IsDupGroup(im, hash, k, d);
  }

  /** ... and every section is that group. */
  lemma PairOnly(im: ImgMap, hash: Hasher, k: string, a: Img, b: Img, d: string, report: seq<Section>)
    requires k in im && im[k] == [a, b] && forall k' :: k' in im ==> k' == k
    requires hash(a.path) == Some(d) && hash(b.path) == Some(d)
    requires forall i :: 0 <= i < |report| ==> SectionOk(im, hash, report[i])
    ensures forall i :: 0 <= i < |report| ==> report[i].sizeKey == k && report[i].digest == d
  {
    PairDigests(a, b, hash);
    forall i | 0 <= i < |report| ensures report[i].sizeKey == k && report[i].digest == d {
      var s := report[i];
      assert s.sizeKey in im;
      assert s.digest in DigestGroups(im[k], hash);
      assert Select([a, b], DigestKey(hash), s.digest) != [];
    }
  }

  /** The report of `walk` over a single bucket `[a, b]` of two files with
      digest `d`. */
  lemma PairReport(im: ImgMap, hash: Hasher, k: string, a: Img, b: Img, d: string, report: seq<Section>)
    requires k in im && im[k] == [a, b] && forall k' :: k' in im ==> k' == k
    requires hash(a.path) == Some(d) && hash(b.path) == Some(d)
    requires WalkReport(im, hash, report)
    ensures report == [Section(k, d, GroupTrace([a, b]))]
  {
    PairReported(im, hash, k, a, b, d, report);
    PairOnly(im, hash, k, a, b, d, report);
    SingleSection(report, k, d);
    PairEvents(im, hash, k, a, b, d, report[0]);
    assert report == [report[0]];
  }

  /** A report with group `(k, d)`, only that group, and no group twice
      has exactly one section. */
  lemma SingleSection(report: seq<Section>, k: string, d: string)
    requires Reported(report, k, d) && DistinctGroups(report)
    requires forall i :: 0 <= i < |report| ==> report[i].sizeKey == k && report[i].digest == d
    ensures |report| == 1
  {
    FirstTwoDistinct(report);
  }

  /** A correct section for the digest group of the pair holds the loop's trace. */
  lemma PairEvents(im: ImgMap, hash: Hasher, k: string, a: Img, b: Img, d: string, s: Section)
    requires k in im && im[k] == [a, b]
    requires hash(a.path) == Some(d) && hash(b.path) == Some(d)
    requires SectionOk(im, hash, s) && s.sizeKey == k && s.digest == d
    ensures s.events == GroupTrace([a, b])
  {
    PairGroup(hash, a, b, d);
  }

  /** Both files of a pair with digest `d` form the digest group `d`. */
  lemma PairGroup(hash: Hasher, a: Img, b: Img, d: string)
    requires hash(a.path) == Some(d) && hash(b.path) == Some(d)
    ensures d in DigestGroups([a, b], hash) && DigestGroups([a, b], hash)[d] == [a, b]
  {
    PairDigests(a, b, hash);
    assert Select([a, b], DigestKey(hash), d) == [a, b];
  }

  /** Same content: `b`, at least a second newer, is reported as the
      duplicate and `a` is kept. */
  lemma IdenticalFilesScenario(root: string, top: Img, a: Img, b: Img, hash: Hasher, d: string, report: seq<Section>)
    requires TwoFileTree(root, top, a, b)
    requires hash(a.path) == Some(d) && hash(b.path) == Some(d)
    requires UnixSeconds(a) < UnixSeconds(b)
    requires WalkReport(LoadBuckets(root, [top, a, b]), hash, report)
    ensures report == [Section(SizeKey(a.info.size), d, [Dup(b), Keep(a)])]
  {
    TwoFileBuckets(root, top, a, b);
    PairReport(LoadBuckets(root, [top, a, b]), hash, SizeKey(a.info.size), a, b, d, report);
    PairTrace(a, b);
  }

  /** Different content: no section is printed for the bucket. */
  lemma DifferentFilesScenario(root: string, top: Img, a: Img, b: Img, hash: Hasher, report: seq<Section>)
    requires TwoFileTree(root, top, a, b)
    requires hash(a.path) != hash(b.path)
    requires WalkReport(LoadBuckets(root, [top, a, b]), hash, report)
    ensures report == []
  {
    TwoFileBuckets(root, top, a, b);
    NoPairNoReport(LoadBuckets(root, [top, a, b]), hash, SizeKey(a.info.size), a, b, report);
  }

  lemma NoPairNoReport(im: ImgMap, hash: Hasher, k: string, a: Img, b: Img, report: seq<Section>)
    requires k in im && im[k] == [a, b] && forall k' :: k' in im ==> k' == k
    requires hash(a.path) != hash(b.path)
    requires WalkReport(im, hash, report)
    ensures report == []
  {
    PairDigests(a, b, hash);
    assert |report| > 0 ==> SectionOk(im, hash, report[0]);
    assert |report| > 0 ==> |Select([a, b], DigestKey(hash), report[0].digest)| < 2;
  }
}
