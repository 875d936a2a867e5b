/**
 * The two orderings the search page and the home feed share: by parsed
 * view count (`views` / `popular`) and recent-first (`date` / `recent`).
 * Each is a comparator handed to `Array.prototype.sort`, which is a stable
 * sort; a stable sort under a consistent comparator has exactly one
 * result, `StableSort.SortDesc` (see `StableSort.SortDescUnique`).
 */
module Ranking {
  import opened Wrappers
  import opened JsString
  import opened Seqs
  import opened Catalog
  import opened StableSort

  // ---------------------------------------------------------------------
  // The view count: parseInt(v.views?.replace('K', '000') || '0')

  /** The text handed to `parseInt`: the label with its first `K` replaced
      by `000`, or `"0"` when the label is absent or empty. */
  function ViewsText(v: Video): string
  {
    match v.views
    case None => "0"
    case Some(text) => OrElse(Some(ReplaceFirst(text, 'K', "000")), "0")
  }

  /** The parsed view count; `None` is NaN. */
  function ViewCount(v: Video): Option<int>
  {
    ParseInt(ViewsText(v))
  }

  /** Every record's count parses, the condition under which the `views`
      comparator is consistent. */
  ghost predicate CountsParse(vs: seq<Video>)
  {
    forall v :: v in vs ==> ViewCount(v).Some?
  }

  /** The sort key of the `views` comparator. It is only ever used on lists
      whose counts parse; the `0` for NaN only makes the function total. */
  function ViewsKey(v: Video): int
  {
    match ViewCount(v)
    case Some(n) => n
    case None => 0
  }

  lemma {:induction false} DigitsValueSnoc(z: string, c: char, radix: nat)
    requires DigitValue(c) < radix
    ensures DigitsValue(z + [c], radix) == DigitsValue(z, radix) * radix + DigitValue(c)
  {
    assert (z + [c])[..|z|] == z;
  }

  lemma ThousandsText(v: Video, d: string)
    requires IsDecimal(d)
    requires v.views == Some(d + "K")
    ensures ViewsText(v) == d + "000"
  {
    ReplaceFirstAt(d, 'K', "", "000");
    assert d + "K" == d + ['K'] + "";
  }

  lemma {:induction false} ThousandsValue(d: string)
    ensures DigitsValue(d + "000", 10) == DigitsValue(d, 10) * 1000
  {
    assert d + "000" == (d + "0") + "0" + "0";
    DigitsValueSnoc(d, '0', 10);
    DigitsValueSnoc(d + "0", '0', 10);
    DigitsValueSnoc(d + "0" + "0", '0', 10);
  }

  /** A label `d + "K"` with `d` a run of decimal digits counts `d` thousands. */
  lemma ViewCountOfThousands(v: Video, d: string)
    requires d != [] && IsDecimal(d)
    requires v.views == Some(d + "K")
    ensures ViewCount(v) == Some(DigitsValue(d, 10) * 1000)
  {
    ThousandsText(v, d);
    var e := d + "000";
    assert IsDecimal(e);
    ParseDecimalPrefix(e, "");
    assert e + "" == e;
    ThousandsValue(d);
  }

  /** A label made only of decimal digits counts its own value. */
  lemma ViewCountOfDigits(v: Video, d: string)
    requires d != [] && IsDecimal(d)
    requires v.views == Some(d)
    ensures ViewCount(v) == Some(DigitsValue(d, 10))
  {
    assert 'K' !in d;
    ReplaceFirstAt(d, 'K', "", "000");
    ParseDecimalPrefix(d, "");
    assert d + "" == d;
  }

  /** An absent or empty label counts as `"0"`, that is 0. */
  lemma ViewCountOfMissing(v: Video)
    requires v.views.None? || v.views == Some("")
    ensures ViewCount(v) == Some(0)
  {
    assert ViewsText(v) == "0";
    ParseDecimalPrefix("0", "");
    assert "0" + "" == "0";
  }

  /** A label of one or more decimal digits followed by `K`. */
  predicate ThousandsLabel(t: string)
  {
    |t| >= 2 && t[|t| - 1] == 'K' && IsDecimal(t[..|t| - 1])
  }

  /** A video whose label is digits followed by `K` has a count. */
  lemma ThousandsLabelParses(v: Video)
    requires v.views.Some? && ThousandsLabel(v.views.value)
    ensures ViewCount(v).Some?
  {
    var text := v.views.value;
    var d := text[..|text| - 1];
    assert text == d + "K";
    ViewCountOfThousands(v, d);
  }

  /** Every fixture label is digits followed by `K`, so every fixture count
      parses. */
  lemma FixtureCountsParse()
    ensures CountsParse(MockVideos)
  {
    var labels := ["125K", "89K", "67K", "203K", "156K", "45K", "78K", "92K", "34K", "118K", "67K", "245K"];
    assert forall i :: 0 <= i < |MockVideos| ==> MockVideos[i].views == Some(labels[i]);
    assert forall i :: 0 <= i < |labels| ==> ThousandsLabel(labels[i]);
    forall v | v in MockVideos
      ensures ViewCount(v).Some?
    {
      var i :| 0 <= i < |MockVideos| && MockVideos[i] == v;
      ThousandsLabelParses(v);
    }
  }

  /** The `views` ordering: the parsed counts are non-increasing, records
      with equal counts keep their relative order, nothing is lost or added. */
  function ByViews(vs: seq<Video>): (r: seq<Video>)
    requires CountsParse(vs)
    ensures multiset(r) == multiset(vs)
    ensures CountsParse(r)
    ensures forall i, j :: 0 <= i < j < |r| ==> ViewCount(r[i]).value >= ViewCount(r[j]).value
    ensures forall n :: KeyClass(r, ViewsKey, n) == KeyClass(vs, ViewsKey, n)
  {
    SortDescPermutation(vs, ViewsKey);
    SortDescSorted(vs, ViewsKey);
    SortDescStable(vs, ViewsKey);
    var r := SortDesc(vs, ViewsKey);
    CountsParseOfPermutation(vs, r);
    CountsOrdered(r);
    r
  }

  lemma CountsParseOfPermutation(vs: seq<Video>, r: seq<Video>)
    requires CountsParse(vs) && multiset(r) == multiset(vs)
    ensures CountsParse(r)
  {
    forall v | v in r
      ensures ViewCount(v).Some?
    {
      assert v in multiset(r);
    }
  }

  lemma CountsOrdered(r: seq<Video>)
    requires CountsParse(r) && SortedDesc(r, ViewsKey)
    ensures forall i, j :: 0 <= i < j < |r| ==> ViewCount(r[i]).value >= ViewCount(r[j]).value
  {
    forall i, j | 0 <= i < j < |r|
      ensures ViewCount(r[i]).value >= ViewCount(r[j]).value
    {
      assert r[i] in r && r[j] in r;
      assert ViewsKey(r[i]) >= ViewsKey(r[j]);
    }
  }

  // ---------------------------------------------------------------------
  // Recency: uploadedAt?.includes('dia') || uploadedAt?.includes('hora')

  /** A label counts as recent when it mentions days or hours; a video with
      no label is not recent. */
  predicate Recent(v: Video)
  {
    v.uploadedAt.Some? && (Includes(v.uploadedAt.value, "dia") || Includes(v.uploadedAt.value, "hora"))
  }

  /** The sort key of the `date` comparator `(bRecent ? 1 : 0) - (aRecent ? 1 : 0)`. */
  function RecencyKey(v: Video): int
  {
    if Recent(v) then 1 else 0
  }

  /** The recent records of `vs`, in their order. */
  function Recents(vs: seq<Video>): (r: seq<Video>)
    ensures IsSubseq(r, vs)
    ensures forall v :: v in r <==> v in vs && Recent(v)
    ensures r == KeyClass(vs, RecencyKey, 1)
  {
    if vs == [] then []
    else
      var rest := Recents(vs[1..]);
      assert vs == [vs[0]] + vs[1..];
      if Recent(vs[0]) then
        assert ([vs[0]] + rest)[1..] == rest;
        [vs[0]] + rest
      else
        rest
  }

  /** The records of `vs` that are not recent, in their order. */
  function NotRecent(vs: seq<Video>): (r: seq<Video>)
    ensures IsSubseq(r, vs)
    ensures forall v :: v in r <==> v in vs && !Recent(v)
    ensures r == KeyClass(vs, RecencyKey, 0)
  {
    if vs == [] then []
    else
      var rest := NotRecent(vs[1..]);
      assert vs == [vs[0]] + vs[1..];
      if !Recent(vs[0]) then
        assert ([vs[0]] + rest)[1..] == rest;
        [vs[0]] + rest
      else
        rest
  }

  /** The `date` ordering: a stable partition, the recent records first. */
  function ByDate(vs: seq<Video>): (r: seq<Video>)
    ensures r == Recents(vs) + NotRecent(vs)
    ensures multiset(r) == multiset(vs)
  {
    SortDescPermutation(vs, RecencyKey);
    DatePartitionIsSorted(vs);
    SortDesc(vs, RecencyKey)
  }

  /** Recent-then-older is sorted by the recency key and keeps each key's
      records in their order, so it is the stable sort of `vs`. */
  lemma DatePartitionIsSorted(vs: seq<Video>)
    ensures SortDesc(vs, RecencyKey) == Recents(vs) + NotRecent(vs)
  {
    PartitionSorted(vs);
    PartitionStable(vs);
    SortDescUnique(vs, Recents(vs) + NotRecent(vs), RecencyKey);
  }

  lemma PartitionSorted(vs: seq<Video>)
    ensures SortedDesc(Recents(vs) + NotRecent(vs), RecencyKey)
  {
    RecentsKeys(vs);
    OnesThenZeros(Recents(vs), NotRecent(vs));
  }

  /** Records keyed 1 followed by records keyed 0 are in descending order. */
  lemma OnesThenZeros(a: seq<Video>, b: seq<Video>)
    requires forall i :: 0 <= i < |a| ==> RecencyKey(a[i]) == 1
    requires forall i :: 0 <= i < |b| ==> RecencyKey(b[i]) == 0
    ensures SortedDesc(a + b, RecencyKey)
  {
    var r := a + b;
    forall i, j | 0 <= i < j < |r|
      ensures RecencyKey(r[i]) >= RecencyKey(r[j])
    {
      if i < |a| {
        assert r[i] == a[i];
      } else {
        assert r[i] == b[i - |a|] && r[j] == b[j - |a|];
      }
    }
  }

  lemma PartitionStable(vs: seq<Video>)
    ensures StableWrt(Recents(vs) + NotRecent(vs), vs, RecencyKey)
  {
    forall n
      ensures KeyClass(Recents(vs) + NotRecent(vs), RecencyKey, n) == KeyClass(vs, RecencyKey, n)
    {
      PartitionClass(vs, n);
    }
  }

  lemma PartitionClass(vs: seq<Video>, n: int)
    ensures KeyClass(Recents(vs) + NotRecent(vs), RecencyKey, n) == KeyClass(vs, RecencyKey, n)
  {
    var a, b := Recents(vs), NotRecent(vs);
    KeyClassAppend(a, b, RecencyKey, n);
    RecentsKeys(vs);
    if n == 1 {
      KeyClassAbsent(b, RecencyKey, n);
      KeyClassAll(a, RecencyKey, n);
    } else if n == 0 {
      KeyClassAbsent(a, RecencyKey, n);
      KeyClassAll(b, RecencyKey, n);
    } else {
      KeyClassAbsent(a, RecencyKey, n);
      KeyClassAbsent(b, RecencyKey, n);
      KeyClassAbsent(vs, RecencyKey, n);
    }
  }

  lemma RecentsKeys(vs: seq<Video>)
    ensures forall i :: 0 <= i < |Recents(vs)| ==> RecencyKey(Recents(vs)[i]) == 1
    ensures forall i :: 0 <= i < |NotRecent(vs)| ==> RecencyKey(NotRecent(vs)[i]) == 0
    ensures forall i :: 0 <= i < |vs| ==> RecencyKey(vs[i]) == 0 || RecencyKey(vs[i]) == 1
  {
    var a, b := Recents(vs), NotRecent(vs);
    assert forall i :: 0 <= i < |a| ==> a[i] in a;
    assert forall i :: 0 <= i < |b| ==> b[i] in b;
  }
}
