/** The keep-oldest loop at the heart of `walk`: within one group of
    identical files, keep the one with the earliest modification second and
    hand every other one to the duplicate disposition. */
module Selection {
  import opened Files

  /** One disposition call: `dealWithDupFile(rec)` or `dealWithKeepFile(rec)`. */
  datatype Event = Dup(rec: Img) | Keep(rec: Img)

  /** The zero `img` Go starts `keepFile` with; its empty path marks "no
      file chosen yet". */
  const NoFile: Img := Img("", FileInfo("", false, 0, 0))

  /** The records an event trace disposes of, in dispatch order. */
  function Subjects(t: seq<Event>): (s: seq<Img>)
    ensures |s| == |t|
    ensures forall i :: 0 <= i < |t| ==> s[i] == t[i].rec
    decreases |t|
  {
    if t == [] then [] else Subjects(t[..|t| - 1]) + [t[|t| - 1].rec]
  }

  /** `k` is the first index of `g` holding the earliest modification second. */
  predicate IsFirstOldest(g: seq<Img>, k: int) {
    && 0 <= k < |g|
    && (forall j :: 0 <= j < |g| ==> UnixSeconds(g[k]) <= UnixSeconds(g[j]))
    && (forall j :: 0 <= j < k ==> UnixSeconds(g[j]) > UnixSeconds(g[k]))
  }

  /** Reference definition of the kept index, computed from the front. */
  function FirstOldest(g: seq<Img>): (k: nat)
    requires |g| > 0
    ensures IsFirstOldest(g, k)
    decreases |g|
  {
    if |g| == 1 then 0
    else
      var j := 1 + FirstOldest(g[1..]);
      if UnixSeconds(g[0]) <= UnixSeconds(g[j]) then 0 else j
  }

  /** At most one index is the first oldest. */
  lemma FirstOldestUnique(g: seq<Img>, a: int, b: int)
    requires IsFirstOldest(g, a) && IsFirstOldest(g, b)
    ensures a == b
  {
    assert UnixSeconds(g[a]) == UnixSeconds(g[b]);
  }

  /** The record the loop keeps. */
  function Oldest(g: seq<Img>): Img
    requires |g| > 0
  {
    g[FirstOldest(g)]
  }

  /** What a group's dispatch must look like: one event per member, every
      member disposed of exactly once, all `Dup` events first, then a single
      `Keep` of the first oldest member. */
  predicate ValidGroupTrace(g: seq<Img>, t: seq<Event>) {
    && |g| > 0
    && |t| == |g|
    && (forall i :: 0 <= i < |t| - 1 ==> t[i].Dup?)
    && t[|t| - 1] == Keep(Oldest(g))
    && multiset(Subjects(t)) == multiset(g)
  }

  predicate AllPathsSet(g: seq<Img>) {
    forall x :: x in g ==> x.path != ""
  }

  /** The state of the keep-oldest loop after a prefix of the group: the
      index of the file kept so far and the `Dup` events emitted. */
  datatype Scan = Scan(kept: nat, dups: seq<Event>)

  /** What the loop keeps true of its state over `g`: it keeps the first
      oldest file, has emitted one `Dup` per other file, and every file is
      either kept or dispatched, exactly once. */
  predicate ScanInvariant(g: seq<Img>, s: Scan) {
    && IsFirstOldest(g, s.kept)
    && |s.dups| == |g| - 1
    && (forall i :: 0 <= i < |s.dups| ==> s.dups[i].Dup?)
    && multiset(Subjects(s.dups)) + multiset{g[s.kept]} == multiset(g)
  }

  lemma SubjectsSnoc(t: seq<Event>, e: Event)
    ensures Subjects(t + [e]) == Subjects(t) + [e.rec]
  {
    assert (t + [e])[..|t|] == t;
  }

  /** The kept index after one more file, when that file is strictly older. */
  lemma OldestReplace(g: seq<Img>, k: int)
    requires |g| > 1 && IsFirstOldest(g[..|g| - 1], k)
    requires UnixSeconds(g[k]) > UnixSeconds(g[|g| - 1])
    ensures IsFirstOldest(g, |g| - 1)
  {
    var n, p := |g| - 1, g[..|g| - 1];
    assert p[k] == g[k];
    forall j | 0 <= j < n ensures UnixSeconds(g[j]) > UnixSeconds(g[n]) {
      assert p[j] == g[j];
    }
  }

  /** The kept index after one more file, when that file is not older. */
  lemma OldestRetain(g: seq<Img>, k: int)
    requires |g| > 1 && IsFirstOldest(g[..|g| - 1], k)
    requires UnixSeconds(g[k]) <= UnixSeconds(g[|g| - 1])
    ensures IsFirstOldest(g, k)
  {
    var n, p := |g| - 1, g[..|g| - 1];
    assert p[k] == g[k];
    forall j | 0 <= j < n ensures UnixSeconds(g[k]) <= UnixSeconds(g[j]) {
      assert p[j] == g[j];
    }
    forall j | 0 <= j < k ensures UnixSeconds(g[j]) > UnixSeconds(g[k]) {
      assert p[j] == g[j];
    }
  }

  /** One more file, with one of it and the kept file dispatched and the
      other kept: every file is still accounted for exactly once. */
  lemma CountStep(g: seq<Img>, dups: seq<Event>, k: int, moved: Img, kept: Img)
    requires |g| > 1 && 0 <= k < |g| - 1
    requires multiset(Subjects(dups)) + multiset{g[..|g| - 1][k]} == multiset(g[..|g| - 1])
    requires (moved, kept) == (g[k], g[|g| - 1]) || (moved, kept) == (g[|g| - 1], g[k])
    ensures multiset(Subjects(dups + [Dup(moved)])) + multiset{kept} == multiset(g)
  {
    var n, p := |g| - 1, g[..|g| - 1];
    var m := multiset(Subjects(dups));
    assert p[k] == g[k];
    SubjectsSnoc(dups, Dup(moved));
    assert g == p + [g[n]];
    calc {
      multiset(Subjects(dups + [Dup(moved)])) + multiset{kept};
      m + multiset{moved} + multiset{kept};
      m + multiset{g[k]} + multiset{g[n]};
      multiset(p) + multiset{g[n]};
      multiset(g);
    }
  }

  lemma AllDupSnoc(dups: seq<Event>, x: Img)
    requires forall i :: 0 <= i < |dups| ==> dups[i].Dup?
    ensures forall i :: 0 <= i < |dups + [Dup(x)]| ==> (dups + [Dup(x)])[i].Dup?
  {
  }

  /** The step where the last file is strictly older than the kept one:
      the kept one is dispatched and the last file is kept instead. */
  lemma ScanReplace(g: seq<Img>, s: Scan)
    requires |g| > 1 && ScanInvariant(g[..|g| - 1], s)
    requires UnixSeconds(g[s.kept]) > UnixSeconds(g[|g| - 1])
    ensures ScanInvariant(g, Scan(|g| - 1, s.dups + [Dup(g[s.kept])]))
  {
    assert g[..|g| - 1][s.kept] == g[s.kept];
    OldestReplace(g, s.kept);
    AllDupSnoc(s.dups, g[s.kept]);
    CountStep(g, s.dups, s.kept, g[s.kept], g[|g| - 1]);
  }

  /** The step where the kept file stays kept and the last file is
      dispatched; equal seconds land here. */
  lemma ScanRetain(g: seq<Img>, s: Scan)
    requires |g| > 1 && ScanInvariant(g[..|g| - 1], s)
    requires UnixSeconds(g[s.kept]) <= UnixSeconds(g[|g| - 1])
    ensures ScanInvariant(g, Scan(s.kept, s.dups + [Dup(g[|g| - 1])]))
  {
    assert g[..|g| - 1][s.kept] == g[s.kept];
    OldestRetain(g, s.kept);
    AllDupSnoc(s.dups, g[|g| - 1]);
    CountStep(g, s.dups, s.kept, g[|g| - 1], g[s.kept]);
  }

  /** The loop's state after all of `g`, one file at a time from the front,
      comparing whole seconds with a strict `>`. */
  function ScanGroup(g: seq<Img>): (s: Scan)
    requires |g| > 0
    ensures IsFirstOldest(g, s.kept)
    decreases |g|
  {
    if |g| == 1 then Scan(0, [])
    else
      var s := ScanGroup(g[..|g| - 1]);
      assert g[..|g| - 1][s.kept] == g[s.kept];
      if UnixSeconds(g[s.kept]) > UnixSeconds(g[|g| - 1]) then
        OldestReplace(g, s.kept);
        Scan(|g| - 1, s.dups + [Dup(g[s.kept])])
      else
        OldestRetain(g, s.kept);
        Scan(s.kept, s.dups + [Dup(g[|g| - 1])])
  }

  /** The loop keeps its invariant: after the whole group, the first oldest
      file is kept and every other file was dispatched as a duplicate. */
  lemma {:induction false} ScanSound(g: seq<Img>)
    requires |g| > 0
    ensures ScanInvariant(g, ScanGroup(g))
    decreases |g|
  {
    if |g| > 1 {
      var s := ScanGroup(g[..|g| - 1]);
      ScanSound(g[..|g| - 1]);
      if UnixSeconds(g[s.kept]) > UnixSeconds(g[|g| - 1]) {
        ScanReplace(g, s);
      } else {
        ScanRetain(g, s);
      }
    }
  }

  /** The events the loop emits for a group: its `Dup` events, then the
      `Keep` of the file left over. */
  function GroupTrace(g: seq<Img>): (t: seq<Event>)
    requires |g| > 0
    ensures |t| == |g|
    ensures forall i :: 0 <= i < |t| - 1 ==> t[i].Dup?
    ensures t[|t| - 1] == Keep(Oldest(g))
  {
    var s := ScanGroup(g);
    ScanSound(g);
    FirstOldestUnique(g, s.kept, FirstOldest(g));
    s.dups + [Keep(g[s.kept])]
  }

  /** The loop's dispatch is a valid one. */
  lemma GroupTraceValid(g: seq<Img>)
    requires |g| > 0
    ensures ValidGroupTrace(g, GroupTrace(g))
  {
    var s := ScanGroup(g);
    ScanSound(g);
    FirstOldestUnique(g, s.kept, FirstOldest(g));
    SubjectsSnoc(s.dups, Keep(g[s.kept]));
  }

  /** One more file extends the scan by one step of the loop. */
  lemma ScanNext(g: seq<Img>, i: nat)
    requires 0 < i < |g|
    ensures ScanGroup(g[..i + 1]) ==
      var s := ScanGroup(g[..i]);
      if UnixSeconds(g[s.kept]) > UnixSeconds(g[i]) then Scan(i, s.dups + [Dup(g[s.kept])])
      else Scan(s.kept, s.dups + [Dup(g[i])])
  {
    var s := ScanGroup(g[..i]);
    assert g[..i + 1][..i] == g[..i];
    assert g[..i][s.kept] == g[s.kept];
  }

  /** The loop of `walk` over one md5 group. Go relies on every walked path
      being non-empty, since an empty path is its "nothing kept yet" mark. */
  method KeepOldest(g: seq<Img>) returns (t: seq<Event>)
    requires |g| > 0
    requires AllPathsSet(g)
    ensures t == GroupTrace(g)
    ensures ValidGroupTrace(g, t)
  {
    var keep := NoFile;
    t := [];
    for i := 0 to |g|
      invariant i == 0 ==> keep == NoFile && t == []
      invariant i > 0 ==> keep == g[ScanGroup(g[..i]).kept] && t == ScanGroup(g[..i]).dups
    {
      var f := g[i];
      if i == 0 {
        assert |g[..1]| == 1;
      } else {
        ScanNext(g, i);
        assert keep in g;
      }
      if keep.path == "" {
        keep := f;
      } else if UnixSeconds(keep) > UnixSeconds(f) {
        t := t + [Dup(keep)];
        keep := f;
      } else {
        t := t + [Dup(f)];
      }
    }
    assert g[..|g|] == g;
    t := t + [Keep(keep)];
    GroupTraceValid(g);
  }

  /** Every member of a dispatched group is the subject of exactly one event,
      and the members other than the kept one are exactly the `Dup` subjects. */
  lemma {:induction false} DupsAreTheOthers(g: seq<Img>, t: seq<Event>)
    requires ValidGroupTrace(g, t)
    ensures multiset(Subjects(t[..|t| - 1])) == multiset(g) - multiset{Oldest(g)}
    ensures forall x :: x in g <==> x in Subjects(t)
  {
    var init := t[..|t| - 1];
    assert t == init + [t[|t| - 1]];
    SubjectsSnoc(init, t[|t| - 1]);
    assert multiset(Subjects(t)) == multiset(Subjects(init)) + multiset{Oldest(g)};
    forall x ensures x in g <==> x in Subjects(t) {
      assert x in g <==> x in multiset(g);
      assert x in Subjects(t) <==> x in multiset(Subjects(t));
    }
  }

  /** A dispatch of two files: the other file is the duplicate, the oldest
      is kept. */
  lemma PairDispatch(x: Img, y: Img, t: seq<Event>)
    requires ValidGroupTrace([x, y], t)
    ensures t == [Dup(if Oldest([x, y]) == x then y else x), Keep(Oldest([x, y]))]
  {
    assert Subjects(t) == [t[0].rec, t[1].rec];
    assert multiset{t[0].rec, Oldest([x, y])} == multiset{x, y};
    assert t[0].rec in multiset{x, y};
  }

  /** Two files of one content, `a` older than `b` by at least a second:
      whatever the group order, `b` is reported as the duplicate and `a` is
      kept. */
  lemma {:induction false} TwoFileScenario(a: Img, b: Img, t: seq<Event>)
    requires UnixSeconds(a) < UnixSeconds(b)
    requires ValidGroupTrace([a, b], t) || ValidGroupTrace([b, a], t)
    ensures t == [Dup(b), Keep(a)]
  {
    if ValidGroupTrace([a, b], t) {
      assert !IsFirstOldest([a, b], 1);
      PairDispatch(a, b, t);
    } else {
      assert !IsFirstOldest([b, a], 0);
      PairDispatch(b, a, t);
    }
  }

  /** Files in the same second: the one met first is kept even if the other
      is older by a fraction of a second. */
  lemma {:induction false} SameSecondScenario(a: Img, b: Img, t: seq<Event>)
    requires UnixSeconds(a) == UnixSeconds(b) && b.info.modTime < a.info.modTime && a != b
    requires ValidGroupTrace([a, b], t)
    ensures t == [Dup(b), Keep(a)]
  {
    assert !IsFirstOldest([a, b], 1);
    PairDispatch(a, b, t);
  }

  /** The loop on a two-file group, in the group's order. */
  lemma PairTrace(a: Img, b: Img)
    ensures GroupTrace([a, b]) ==
      if UnixSeconds(a) > UnixSeconds(b) then [Dup(a), Keep(b)] else [Dup(b), Keep(a)]
  {
    assert [a, b][..1] == [a];
    assert ScanGroup([a]) == Scan(0, []);
  }
}
