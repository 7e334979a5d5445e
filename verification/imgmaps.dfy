/** `imgMap.add` and the "file every record under its key" fold that both
    the size bucketing of `load` and the digest regrouping of `walk` use. */
module ImgMaps {
  import opened Wrappers
  import opened Files

  /** The bucket under `key`, or the empty slice Go reads for a missing key. */
  function BucketOf(m: ImgMap, key: string): seq<Img> {
    if key in m then m[key] else []
  }

  /** `im.add(key, images...)`: the key is created if missing (even when no
      images are given) and the images are appended after its existing ones. */
  function Add(m: ImgMap, key: string, images: seq<Img>): (r: ImgMap)
    ensures r.Keys == m.Keys + {key}
    ensures |r[key]| == |BucketOf(m, key)| + |images|
    ensures r[key][..|BucketOf(m, key)|] == BucketOf(m, key)
    ensures r[key][|BucketOf(m, key)|..] == images
    ensures forall k :: k in m && k != key ==> r[k] == m[k]
  {
    m[key := BucketOf(m, key) + images]
  }

  /** Adding two batches under one key is the same as adding them together. */
  lemma AddTwice(m: ImgMap, key: string, a: seq<Img>, b: seq<Img>)
    ensures Add(Add(m, key, a), key, b) == Add(m, key, a + b)
  {
    assert BucketOf(Add(m, key, a), key) + b == BucketOf(m, key) + (a + b);
  }

  /** Additions under different keys do not interfere. */
  lemma AddCommutes(m: ImgMap, k1: string, a: seq<Img>, k2: string, b: seq<Img>)
    requires k1 != k2
    ensures Add(Add(m, k1, a), k2, b) == Add(Add(m, k2, b), k1, a)
  {
  }

  /** Reference definition of a bucket: the records of `xs` whose key is
      `Some(k)`, in the order of `xs`. */
  function Select(xs: seq<Img>, key: Img -> Option<string>, k: string): (r: seq<Img>)
    ensures |r| <= |xs|
    ensures forall x :: x in r <==> x in xs && key(x) == Some(k)
    decreases |xs|
  {
    if xs == [] then []
    else (if key(xs[0]) == Some(k) then [xs[0]] else []) + Select(xs[1..], key, k)
  }

  lemma {:induction false} SelectAppend(xs: seq<Img>, x: Img, key: Img -> Option<string>, k: string)
    ensures Select(xs + [x], key, k) == Select(xs, key, k) + (if key(x) == Some(k) then [x] else [])
    decreases |xs|
  {
    if xs != [] {
      assert (xs + [x])[1..] == xs[1..] + [x];
      SelectAppend(xs[1..], x, key, k);
    }
  }

  lemma SelectSnoc(xs: seq<Img>, key: Img -> Option<string>)
    requires xs != []
    ensures forall k :: Select(xs, key, k) ==
              Select(xs[..|xs| - 1], key, k) + (if key(xs[|xs| - 1]) == Some(k) then [xs[|xs| - 1]] else [])
  {
    assert xs == xs[..|xs| - 1] + [xs[|xs| - 1]];
    forall k ensures Select(xs, key, k) ==
      Select(xs[..|xs| - 1], key, k) + (if key(xs[|xs| - 1]) == Some(k) then [xs[|xs| - 1]] else [])
    {
      SelectAppend(xs[..|xs| - 1], xs[|xs| - 1], key, k);
    }
  }

  /** Files every record of `xs` in order with `Add`, skipping records whose
      key is `None`. There is a bucket exactly for the keys some record has,
      and each holds exactly the records with that key, in their original
      order. */
  function GroupBy(xs: seq<Img>, key: Img -> Option<string>): (r: ImgMap)
    ensures forall k :: k in r <==> Select(xs, key, k) != []
    ensures forall k :: k in r ==> r[k] == Select(xs, key, k)
    decreases |xs|
  {
    if xs == [] then map[]
    else
      var prefix := GroupBy(xs[..|xs| - 1], key);
      SelectSnoc(xs, key);
      match key(xs[|xs| - 1])
      case None => prefix
      case Some(k) => Add(prefix, k, [xs[|xs| - 1]])
  }

  /** A record filed under `k` has key `Some(k)`: every record is in exactly
      one bucket, and every record with a key is filed. */
  lemma GroupByPartition(xs: seq<Img>, key: Img -> Option<string>, x: Img)
    ensures x in xs && key(x).Some? ==> key(x).value in GroupBy(xs, key) && x in GroupBy(xs, key)[key(x).value]
    ensures forall k :: k in GroupBy(xs, key) && x in GroupBy(xs, key)[k] ==> x in xs && key(x) == Some(k)
  {
  }

  /** Grouping a prefix of the input (a walk that stopped early) yields a
      prefix of every bucket of the full grouping. */
  lemma {:induction false} GroupByPrefix(xs: seq<Img>, ys: seq<Img>, key: Img -> Option<string>)
    ensures forall k :: k in GroupBy(xs, key) ==>
              k in GroupBy(xs + ys, key) && GroupBy(xs, key)[k] <= GroupBy(xs + ys, key)[k]
  {
    forall k | k in GroupBy(xs, key)
      ensures k in GroupBy(xs + ys, key) && GroupBy(xs, key)[k] <= GroupBy(xs + ys, key)[k]
    {
      SelectPrefix(xs, ys, key, k);
    }
  }

  lemma {:induction false} SelectPrefix(xs: seq<Img>, ys: seq<Img>, key: Img -> Option<string>, k: string)
    ensures Select(xs, key, k) <= Select(xs + ys, key, k)
    decreases |xs|
  {
    if xs != [] {
      assert (xs + ys)[1..] == xs[1..] + ys;
      SelectPrefix(xs[1..], ys, key, k);
    }
  }
}
