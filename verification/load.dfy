/** `load`: the directory walk, given as the sequence of entries
    `filepath.Walk` visited (root first), filed into size buckets. */
module Load {
  import opened Wrappers
  import opened Files
  import Decimal
  import opened ImgMaps

  /** `fmt.Sprintf("%d", info.Size())`. */
  function SizeKey(size: int): string {
    Decimal.FormatInt(size)
  }

  /** The walk callback's decision for one entry: the root itself, "." and
      ".." are ignored, directories are descended into but not recorded,
      and every other entry is recorded under its size. */
  function LoadKey(root: string, e: Img): (r: Option<string>)
    ensures r.Some? <==> Recorded(root, e)
    ensures r.Some? ==> r.value == SizeKey(e.info.size)
  {
    if root == e.path || e.info.name == "." || e.info.name == ".." then None
    else if !e.info.isDir then Some(SizeKey(e.info.size))
    else None
  }

  /** Whether the walk records `e`, stated without reference to `LoadKey`. */
  predicate Recorded(root: string, e: Img) {
    e.path != root && e.info.name != "." && e.info.name != ".." && !e.info.isDir
  }

  /** The key function of the walk callback rooted at `root`. */
  function KeyAt(root: string): Img -> Option<string> {
    e => LoadKey(root, e)
  }

  lemma KeyAtRecorded(root: string, x: Img)
    ensures KeyAt(root)(x).Some? <==> Recorded(root, x)
    ensures KeyAt(root)(x).Some? ==> KeyAt(root)(x).value == SizeKey(x.info.size)
  {
  }

  /** The size buckets built from the walked entries. A walk that stopped
      on an error is modelled by passing the entries it visited before it. */
  function LoadBuckets(root: string, entries: seq<Img>): (im: ImgMap)
    ensures forall k, x :: k in im && x in im[k] ==>
              x in entries && Recorded(root, x) && SizeKey(x.info.size) == k
    ensures forall x :: x in entries && Recorded(root, x) ==>
              SizeKey(x.info.size) in im && x in im[SizeKey(x.info.size)]
    ensures forall k :: k in im ==> |im[k]| > 0
  {
    var im := GroupBy(entries, KeyAt(root));
    assert forall k, x :: k in im && x in im[k] ==>
              x in entries && Recorded(root, x) && SizeKey(x.info.size) == k by {
      forall k, x | k in im && x in im[k]
        ensures x in entries && Recorded(root, x) && SizeKey(x.info.size) == k
      {
        assert x in Select(entries, KeyAt(root), k);
        KeyAtRecorded(root, x);
      }
    }
    assert forall x :: x in entries && Recorded(root, x) ==>
              SizeKey(x.info.size) in im && x in im[SizeKey(x.info.size)] by {
      forall x | x in entries && Recorded(root, x)
        ensures SizeKey(x.info.size) in im && x in im[SizeKey(x.info.size)]
      {
        KeyAtRecorded(root, x);
        assert x in Select(entries, KeyAt(root), SizeKey(x.info.size));
      }
    }
    im
  }

  lemma LoadIsGroupBy(root: string, entries: seq<Img>)
    ensures LoadBuckets(root, entries) == GroupBy(entries, KeyAt(root))
  {
  }

  /** Each bucket lists, in walk order, exactly the recorded entries with
      that size. */
  lemma LoadBucketOrder(root: string, entries: seq<Img>, k: string)
    requires k in LoadBuckets(root, entries)
    ensures LoadBuckets(root, entries)[k] == Select(entries, KeyAt(root), k)
  {
  }

  /** A recorded file is in exactly one bucket, and every file of a bucket
      has the same size. */
  lemma LoadBucketUnique(root: string, entries: seq<Img>, x: Img, y: Img, k1: string, k2: string)
    requires k1 in LoadBuckets(root, entries) && x in LoadBuckets(root, entries)[k1]
    requires k2 in LoadBuckets(root, entries) && y in LoadBuckets(root, entries)[k2]
    ensures x == y ==> k1 == k2
    ensures k1 == k2 ==> x.info.size == y.info.size
  {
    Decimal.FormatIntInjective(x.info.size, y.info.size);
  }

  /** A walk cut short by an error yields buckets that are prefixes of the
      buckets of the complete walk: nothing is misfiled, only missing. */
  lemma LoadTruncated(root: string, visited: seq<Img>, rest: seq<Img>)
    ensures forall k :: k in LoadBuckets(root, visited) ==>
              k in LoadBuckets(root, visited + rest) &&
              LoadBuckets(root, visited)[k] <= LoadBuckets(root, visited + rest)[k]
  {
    GroupByPrefix(visited, rest, KeyAt(root));
  }
}
