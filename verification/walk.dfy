/** `walk`: for every size bucket with more than one file, hash each file,
    regroup the bucket by digest, and run the keep-oldest dispatch on every
    digest group of two or more files. Go visits map keys in an unspecified
    order; the model picks each next key with `:|`, so what it proves holds
    for every visiting order. */
module Walk {
  import opened Wrappers
  import opened Files
  import opened ImgMaps
  import opened Selection
  import Load

  /** `md5File`, abstracted: a deterministic digest of the file at a path,
      or `None` when opening or reading it fails. One such function serves
      the whole run, so the filesystem changes made by dispositions are not
      seen by later digests. */
  type Hasher = string -> Option<string>

  function DigestKey(hash: Hasher): Img -> Option<string> {
    (x: Img) => hash(x.path)
  }

  /** `md5s` of one size bucket: the files whose digest succeeded, filed by
      digest with `add`'s append. */
  function DigestGroups(imgs: seq<Img>, hash: Hasher): ImgMap {
    GroupBy(imgs, DigestKey(hash))
  }

  /** Every group holds files of `imgs` whose digest is its key, and every
      file whose digest succeeded is in the group of its digest; a file whose
      digest failed is in no group. */
  lemma DigestGroupsSound(imgs: seq<Img>, hash: Hasher)
    ensures forall d :: d in DigestGroups(imgs, hash) ==> DigestGroups(imgs, hash)[d] != []
    ensures forall d, x :: d in DigestGroups(imgs, hash) ==>
              (x in DigestGroups(imgs, hash)[d] <==> x in imgs && hash(x.path) == Some(d))
    ensures forall x :: x in imgs && hash(x.path).Some? ==> hash(x.path).value in DigestGroups(imgs, hash)
  {
  }

  /** What `walk` reports for one digest group: the line `md5 <digest>`,
      the disposition events, then a blank line. `sizeKey` names the size
      bucket the group came from; it is not printed. */
  datatype Section = Section(sizeKey: string, digest: string, events: seq<Event>)

  /** A group that `walk` dispatches: it comes from a size bucket whose
      length is not 1 and holds at least two files of digest `d`. */
  predicate IsDupGroup(im: ImgMap, hash: Hasher, k: string, d: string) {
    && k in im && |im[k]| != 1
    && d in DigestGroups(im[k], hash) && |DigestGroups(im[k], hash)[d]| >= 2
  }

  /** A correct dispatch of group `g`: the keep-oldest loop's trace. */
  predicate Dispatched(g: seq<Img>, t: seq<Event>) {
    |g| > 0 && t == GroupTrace(g)
  }

  /** A section dispatches a group of two or more files that `md5s` files
      under the section's digest. */
  predicate SectionOf(md5s: ImgMap, s: Section) {
    s.digest in md5s && |md5s[s.digest]| >= 2 && Dispatched(md5s[s.digest], s.events)
  }

  predicate SectionOk(im: ImgMap, hash: Hasher, s: Section) {
    s.sizeKey in im && |im[s.sizeKey]| != 1 && SectionOf(DigestGroups(im[s.sizeKey], hash), s)
  }

  predicate Reported(report: seq<Section>, k: string, d: string) {
    exists i :: 0 <= i < |report| && report[i].sizeKey == k && report[i].digest == d
  }

  predicate DistinctGroups(report: seq<Section>) {
    forall i, j :: 0 <= i < j < |report| ==>
      report[i].sizeKey != report[j].sizeKey || report[i].digest != report[j].digest
  }

  /** The whole output of `walk`: every section is a correct dispatch of a
      duplicate group, no group is dispatched twice, and every duplicate
      group is dispatched. */
  ghost predicate WalkReport(im: ImgMap, hash: Hasher, report: seq<Section>) {
    && (forall i :: 0 <= i < |report| ==> SectionOk(im, hash, report[i]))
    && DistinctGroups(report)
    && (forall k, d :: IsDupGroup(im, hash, k, d) ==> Reported(report, k, d))
  }

  /** The files handed to `md5File`: exactly those in a bucket whose length
      is not 1. */
  ghost predicate HashedExactly(im: ImgMap, hashed: seq<Img>) {
    forall x :: x in hashed <==> exists k :: k in im && |im[k]| != 1 && x in im[k]
  }

  lemma WalkProgressDone(im: ImgMap, hash: Hasher, report: seq<Section>)
    requires WalkProgress(im, hash, im.Keys, report)
    ensures WalkReport(im, hash, report)
  {
  }

  predicate PathsSet(im: ImgMap) {
    forall k :: k in im ==> AllPathsSet(im[k])
  }

  /** The digest loop's state after visiting the digests in `seen`: each
      section dispatches a distinct visited digest group of two or more, and
      every such visited group has its section. */
  predicate BucketProgress(k: string, md5s: ImgMap, seen: set<string>, sections: seq<Section>) {
    && (forall i :: 0 <= i < |sections| ==>
          sections[i].sizeKey == k && SectionOf(md5s, sections[i]) && sections[i].digest in seen)
    && (forall i, j :: 0 <= i < j < |sections| ==> sections[i].digest != sections[j].digest)
    && (forall d :: d in seen && d in md5s && |md5s[d]| >= 2 ==>
          exists i :: 0 <= i < |sections| && sections[i].digest == d)
  }

  lemma BucketSkip(k: string, md5s: ImgMap, seen: set<string>, sections: seq<Section>, d: string)
    requires BucketProgress(k, md5s, seen, sections)
    requires d in md5s && |md5s[d]| < 2
    ensures BucketProgress(k, md5s, seen + {d}, sections)
  {
  }

  lemma BucketDispatch(k: string, md5s: ImgMap, seen: set<string>, sections: seq<Section>, d: string, events: seq<Event>)
    requires BucketProgress(k, md5s, seen, sections) && d !in seen
    requires d in md5s && |md5s[d]| >= 2 && Dispatched(md5s[d], events)
    ensures BucketProgress(k, md5s, seen + {d}, sections + [Section(k, d, events)])
  {
    var s := Section(k, d, events);
    SnocSound(k, md5s, seen, sections, s);
    SnocDistinct(sections, s, seen);
    SnocCovers(md5s, seen, sections, s);
  }

  lemma SnocCovers(md5s: ImgMap, seen: set<string>, sections: seq<Section>, s: Section)
    requires forall d :: d in seen && d in md5s && |md5s[d]| >= 2 ==>
               exists i :: 0 <= i < |sections| && sections[i].digest == d
    ensures forall d :: d in seen + {s.digest} && d in md5s && |md5s[d]| >= 2 ==>
              exists i :: 0 <= i < |sections + [s]| && (sections + [s])[i].digest == d
  {
    var r := sections + [s];
    forall d | d in seen + {s.digest} && d in md5s && |md5s[d]| >= 2
      ensures exists i :: 0 <= i < |r| && r[i].digest == d
    {
      if d == s.digest {
        assert r[|sections|].digest == d;
      } else {
        var i :| 0 <= i < |sections| && sections[i].digest == d;
        assert r[i] == sections[i];
      }
    }
  }

  lemma SnocSound(k: string, md5s: ImgMap, seen: set<string>, sections: seq<Section>, s: Section)
    requires forall i :: 0 <= i < |sections| ==>
               sections[i].sizeKey == k && SectionOf(md5s, sections[i]) && sections[i].digest in seen
    requires s.sizeKey == k && SectionOf(md5s, s)
    ensures forall i :: 0 <= i < |sections + [s]| ==>
              (sections + [s])[i].sizeKey == k && SectionOf(md5s, (sections + [s])[i]) &&
              (sections + [s])[i].digest in seen + {s.digest}
  {
    forall i | 0 <= i < |sections + [s]|
      ensures (sections + [s])[i].sizeKey == k && SectionOf(md5s, (sections + [s])[i]) &&
              (sections + [s])[i].digest in seen + {s.digest}
    {
      if i < |sections| {
        assert (sections + [s])[i] == sections[i];
      }
    }
  }

  lemma SnocDistinct(sections: seq<Section>, s: Section, seen: set<string>)
    requires forall i :: 0 <= i < |sections| ==> sections[i].digest in seen
    requires forall i, j :: 0 <= i < j < |sections| ==> sections[i].digest != sections[j].digest
    requires s.digest !in seen
    ensures forall i, j :: 0 <= i < j < |sections + [s]| ==> (sections + [s])[i].digest != (sections + [s])[j].digest
  {
  }

  /** The digest loop of one size bucket (`for k, v := range md5s`), given
      the bucket's `md5s`. */
  method ResolveBucket(k: string, md5s: ImgMap) returns (sections: seq<Section>)
    requires forall d :: d in md5s ==> AllPathsSet(md5s[d])
    ensures BucketProgress(k, md5s, md5s.Keys, sections)
  {
    var pending := md5s.Keys;
    ghost var seen: set<string> := {};
    sections := [];
    while pending != {}
      invariant pending <= md5s.Keys && seen == md5s.Keys - pending
      invariant BucketProgress(k, md5s, seen, sections)
      decreases pending
    {
      var d :| d in pending;
      var v := md5s[d];
      if |v| >= 2 {
        var events := KeepOldest(v);
        BucketDispatch(k, md5s, seen, sections, d, events);
        sections := sections + [Section(k, d, events)];
      } else {
        BucketSkip(k, md5s, seen, sections, d);
      }
      pending := pending - {d};
      seen := seen + {d};
    }
  }

  /** `walk(im)`: returns the order in which it visited the size keys, the
      files it hashed, in order, and the report. */
  method Walk(im: ImgMap, hash: Hasher) returns (visited: seq<string>, hashed: seq<Img>, report: seq<Section>)
    requires PathsSet(im)
    ensures VisitOrder(im, visited)
    ensures hashed == HashedAlong(im, visited)
    ensures HashedExactly(im, hashed)
    ensures WalkReport(im, hash, report)
  {
    var remaining := im.Keys;
    ghost var done: set<string> := {};
    visited := [];
    hashed := [];
    report := [];
    while remaining != {}
      invariant remaining <= im.Keys && done == im.Keys - remaining
      invariant Enumerates(visited, done)
      invariant hashed == HashedAlong(im, visited)
      invariant WalkProgress(im, hash, done, report)
      invariant HashedUpTo(im, done, hashed)
      decreases remaining
    {
      var k :| k in remaining;
      var imgs := im[k];
      if |imgs| != 1 {
        var md5s := DigestGroups(imgs, hash);
        DigestGroupsPaths(imgs, hash);
        var sections := ResolveBucket(k, md5s);
        AppendBucket(im, hash, report, done, k, sections);
        HashedStep(im, done, hashed, k);
        report := report + sections;
        hashed := hashed + imgs;
      } else {
        SkipBucket(im, hash, report, done, k);
        HashedSkip(im, done, hashed, k);
      }
      HashedAlongSnoc(im, visited, k);
      EnumeratesSnoc(visited, done, k);
      visited := visited + [k];
      remaining := remaining - {k};
      done := done + {k};
    }
    WalkProgressDone(im, hash, report);
    HashedDone(im, done, hashed);
  }

  /** A visiting order of the size keys: each key of `im` exactly once. */
  predicate VisitOrder(im: ImgMap, ks: seq<string>) {
    Enumerates(ks, im.Keys)
  }

  /** `ks` lists each element of `keys` exactly once. */
  predicate Enumerates(ks: seq<string>, keys: set<string>) {
    && (forall i :: 0 <= i < |ks| ==> ks[i] in keys)
    && (forall k :: k in keys ==> exists i :: 0 <= i < |ks| && ks[i] == k)
    && (forall i, j :: 0 <= i < j < |ks| ==> ks[i] != ks[j])
  }

  lemma EnumeratesSnoc(ks: seq<string>, keys: set<string>, k: string)
    requires Enumerates(ks, keys) && k !in keys
    ensures Enumerates(ks + [k], keys + {k})
  {
    var ks' := ks + [k];
    forall x | x in keys + {k} ensures exists i :: 0 <= i < |ks'| && ks'[i] == x {
      if x == k {
        assert ks'[|ks|] == k;
      } else {
        var i :| 0 <= i < |ks| && ks[i] == x;
        assert ks'[i] == x;
      }
    }
  }

  /** The files hashed when the size keys are visited in the order `ks`:
      the buckets whose length is not 1, concatenated in that order. */
  function HashedAlong(im: ImgMap, ks: seq<string>): seq<Img>
    requires forall i :: 0 <= i < |ks| ==> ks[i] in im
  {
    if ks == [] then []
    else
      var k := ks[|ks| - 1];
      HashedAlong(im, ks[..|ks| - 1]) + (if |im[k]| != 1 then im[k] else [])
  }

  lemma HashedAlongSnoc(im: ImgMap, ks: seq<string>, k: string)
    requires k in im && forall i :: 0 <= i < |ks| ==> ks[i] in im
    ensures HashedAlong(im, ks + [k]) == HashedAlong(im, ks) + (if |im[k]| != 1 then im[k] else [])
  {
    assert (ks + [k])[..|ks|] == ks;
  }

  lemma HashedDone(im: ImgMap, done: set<string>, hashed: seq<Img>)
    requires done == im.Keys && HashedUpTo(im, done, hashed)
    ensures HashedExactly(im, hashed)
  {
  }

  /** Every file of a digest group comes from the bucket, so its path is set. */
  lemma DigestGroupsPaths(imgs: seq<Img>, hash: Hasher)
    requires AllPathsSet(imgs)
    ensures forall d :: d in DigestGroups(imgs, hash) ==> AllPathsSet(DigestGroups(imgs, hash)[d])
  {
  }

  /** The files hashed after visiting the size buckets in `done`. */
  ghost predicate HashedUpTo(im: ImgMap, done: set<string>, hashed: seq<Img>) {
    forall x :: x in hashed <==> exists k :: k in done && k in im && |im[k]| != 1 && x in im[k]
  }

  lemma HashedStep(im: ImgMap, done: set<string>, hashed: seq<Img>, k: string)
    requires k in im && |im[k]| != 1 && HashedUpTo(im, done, hashed)
    ensures HashedUpTo(im, done + {k}, hashed + im[k])
  {
  }

  lemma HashedSkip(im: ImgMap, done: set<string>, hashed: seq<Img>, k: string)
    requires k in im && |im[k]| == 1 && HashedUpTo(im, done, hashed)
    ensures HashedUpTo(im, done + {k}, hashed)
  {
  }

  /** A bucket of exactly one file holds no duplicate group. */
  lemma SkipBucket(im: ImgMap, hash: Hasher, report: seq<Section>, done: set<string>, k: string)
    requires k in im && |im[k]| == 1
    requires WalkProgress(im, hash, done, report)
    ensures WalkProgress(im, hash, done + {k}, report)
  {
  }

  /** The loop state of `Walk` after visiting the size buckets in `done`. */
  ghost predicate WalkProgress(im: ImgMap, hash: Hasher, done: set<string>, report: seq<Section>) {
    && (forall i :: 0 <= i < |report| ==> SectionOk(im, hash, report[i]) && report[i].sizeKey in done)
    && DistinctGroups(report)
    && (forall k, d :: k in done && IsDupGroup(im, hash, k, d) ==> Reported(report, k, d))
  }

  /** Appending the sections of a fresh bucket `k` keeps the loop state of
      `Walk` true for `done + {k}`. */
  lemma AppendBucket(im: ImgMap, hash: Hasher, report: seq<Section>, done: set<string>, k: string, sections: seq<Section>)
    requires k in im && |im[k]| != 1 && k !in done
    requires WalkProgress(im, hash, done, report)
    requires BucketProgress(k, DigestGroups(im[k], hash), DigestGroups(im[k], hash).Keys, sections)
    ensures WalkProgress(im, hash, done + {k}, report + sections)
  {
    AppendSound(im, hash, report, done, k, sections);
    AppendDistinct(im, hash, report, done, k, sections);
    AppendCovers(im, hash, report, done, k, sections);
  }

  lemma AppendSound(im: ImgMap, hash: Hasher, report: seq<Section>, done: set<string>, k: string, sections: seq<Section>)
    requires k in im && |im[k]| != 1
    requires forall i :: 0 <= i < |report| ==> SectionOk(im, hash, report[i]) && report[i].sizeKey in done
    requires forall i :: 0 <= i < |sections| ==> sections[i].sizeKey == k && SectionOf(DigestGroups(im[k], hash), sections[i])
    ensures forall i :: 0 <= i < |report + sections| ==>
              SectionOk(im, hash, (report + sections)[i]) && (report + sections)[i].sizeKey in done + {k}
  {
    var r := report + sections;
    forall i | 0 <= i < |r| ensures SectionOk(im, hash, r[i]) && r[i].sizeKey in done + {k} {
      if i >= |report| {
        assert r[i] == sections[i - |report|];
      }
    }
  }

  lemma AppendDistinct(im: ImgMap, hash: Hasher, report: seq<Section>, done: set<string>, k: string, sections: seq<Section>)
    requires k !in done
    requires forall i :: 0 <= i < |report| ==> report[i].sizeKey in done
    requires DistinctGroups(report)
    requires forall i :: 0 <= i < |sections| ==> sections[i].sizeKey == k
    requires forall i, j :: 0 <= i < j < |sections| ==> sections[i].digest != sections[j].digest
    ensures DistinctGroups(report + sections)
  {
    var r := report + sections;
    forall i, j | 0 <= i < j < |r| ensures r[i].sizeKey != r[j].sizeKey || r[i].digest != r[j].digest {
      if j < |report| {
        assert r[i] == report[i] && r[j] == report[j];
      } else if i >= |report| {
        assert r[i] == sections[i - |report|] && r[j] == sections[j - |report|];
      } else {
        assert r[i] == report[i] && r[j] == sections[j - |report|];
      }
    }
  }

  lemma AppendCovers(im: ImgMap, hash: Hasher, report: seq<Section>, done: set<string>, k: string, sections: seq<Section>)
    requires k in im && |im[k]| != 1
    requires forall k', d :: k' in done && IsDupGroup(im, hash, k', d) ==> Reported(report, k', d)
    requires forall d :: d in DigestGroups(im[k], hash).Keys && d in DigestGroups(im[k], hash) && |DigestGroups(im[k], hash)[d]| >= 2 ==>
               exists i :: 0 <= i < |sections| && sections[i].digest == d
    requires forall i :: 0 <= i < |sections| ==> sections[i].sizeKey == k
    ensures forall k', d :: k' in done + {k} && IsDupGroup(im, hash, k', d) ==> Reported(report + sections, k', d)
  {
    var r := report + sections;
    forall k', d | k' in done + {k} && IsDupGroup(im, hash, k', d) ensures Reported(r, k', d) {
      if k' == k {
        var i :| 0 <= i < |sections| && sections[i].digest == d;
        assert r[|report| + i] == sections[i];
      } else {
        var i :| 0 <= i < |report| && report[i].sizeKey == k' && report[i].digest == d;
        assert r[i] == report[i];
      }
    }
  }
}
