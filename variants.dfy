/** Choosing the rendition to download from an HLS master playlist
    (`pick_best_variant`). Loading a playlist and resolving a relative URI
    are the `m3u8` library's and `urljoin`'s business; the model takes them
    as functions. Durations are integer microseconds. */
module Variants {
  import opened Wrappers

  /** One `#EXT-X-STREAM-INF` entry: its declared bandwidth, if any, and its
      URI. The playlist parser reads the bandwidth with `int(float(...))`,
      so nothing keeps it from being negative. */
  datatype Rendition = Rendition(bandwidth: Option<int>, uri: string)

  /** What `m3u8.load` yields: a master playlist lists renditions, a media
      playlist lists segment durations. */
  datatype Playlist = Playlist(isVariant: bool, renditions: seq<Rendition>, segments: seq<nat>)

  /** The URL to hand to the transcoder and the total duration of its segments. */
  datatype Selection = Selection(playUrl: string, durationUs: nat)

  datatype ManifestError =
    | LoadFailed(url: string)      // m3u8.load raised
    | NoRenditions(url: string)    // max() of an empty sequence raised

  /** The selection key, `p.stream_info.bandwidth or 0`: a missing bandwidth
      ranks as 0, a declared one as itself. */
  function Key(r: Rendition): (k: int)
    ensures r.bandwidth.None? ==> k == 0
    ensures r.bandwidth.Some? ==> k == r.bandwidth.value
  {
    match r.bandwidth
    case None => 0
    case Some(b) => b
  }

  /** `k` is the rendition Python's `max(..., key=Key)` returns: its key is
      the largest, and every rendition before it has a strictly smaller one. */
  ghost predicate IsFirstBest(rs: seq<Rendition>, k: nat) {
    && k < |rs|
    && (forall j :: 0 <= j < |rs| ==> Key(rs[j]) <= Key(rs[k]))
    && (forall j :: 0 <= j < k ==> Key(rs[j]) < Key(rs[k]))
  }

  /** `max` scans left to right and replaces its candidate only by a strictly
      larger key. */
  function BestIndex(rs: seq<Rendition>): (k: nat)
    requires |rs| > 0
    ensures IsFirstBest(rs, k)
    decreases |rs|
  {
    if |rs| == 1 then 0
    else
      var k := BestIndex(rs[..|rs| - 1]);
      if Key(rs[|rs| - 1]) > Key(rs[k]) then |rs| - 1 else k
  }

  /** Only one index satisfies `IsFirstBest`. */
  lemma FirstBestIsUnique(rs: seq<Rendition>, k1: nat, k2: nat)
    requires IsFirstBest(rs, k1) && IsFirstBest(rs, k2)
    ensures k1 == k2
  {
    var key1, key2 := Key(rs[k1]), Key(rs[k2]);
    assert key1 == key2;
    assert k1 < k2 ==> key1 < key2;
    assert k2 < k1 ==> key2 < key1;
  }

  /** Because of `or 0`, a rendition without a bandwidth is preferred to an
      earlier one that declares a negative bandwidth. */
  lemma MissingBandwidthOutranksNegative(b: int, uri1: string, uri2: string)
    requires b < 0
    ensures BestIndex([Rendition(Some(b), uri1), Rendition(None, uri2)]) == 1
  {
    var rs := [Rendition(Some(b), uri1), Rendition(None, uri2)];
    assert Key(rs[0]) < Key(rs[1]);
    FirstBestIsUnique(rs, BestIndex(rs), 1);
  }

  /** `sum(...)`, added from the left. */
  function Sum(ds: seq<nat>): nat
    decreases |ds|
  {
    if ds == [] then 0 else Sum(ds[..|ds| - 1]) + ds[|ds| - 1]
  }

  lemma {:induction false} SumAppend(a: seq<nat>, b: seq<nat>)
    ensures Sum(a + b) == Sum(a) + Sum(b)
    decreases |b|
  {
    if b == [] {
      assert a + b == a;
    } else {
      assert (a + b)[..|a + b| - 1] == a + b[..|b| - 1];
      SumAppend(a, b[..|b| - 1]);
    }
  }

  /** Every segment lasts at most the total. */
  lemma {:induction false} SumBoundsEach(ds: seq<nat>, i: nat)
    requires i < |ds|
    ensures ds[i] <= Sum(ds)
    decreases |ds|
  {
    if i < |ds| - 1 {
      SumBoundsEach(ds[..|ds| - 1], i);
    }
  }

  /** The total is zero exactly when every segment has zero duration. */
  lemma {:induction false} SumZero(ds: seq<nat>)
    ensures Sum(ds) == 0 <==> forall i :: 0 <= i < |ds| ==> ds[i] == 0
    decreases |ds|
  {
    if ds != [] {
      SumZero(ds[..|ds| - 1]);
      assert forall i :: 0 <= i < |ds| - 1 ==> ds[..|ds| - 1][i] == ds[i];
    }
  }

  /** `pick_best_variant(master_url)`. */
  function PickBestVariant(masterUrl: string, load: string -> Option<Playlist>,
                           urljoin: (string, string) -> string): (r: Result<Selection, ManifestError>)
    // The master playlist itself could not be loaded.
    ensures load(masterUrl).None? ==> r == Err(LoadFailed(masterUrl))
    // A media playlist is played as it is, for the sum of its own segments.
    ensures load(masterUrl).Some? && !load(masterUrl).value.isVariant ==>
              r == Ok(Selection(masterUrl, Sum(load(masterUrl).value.segments)))
    // A master playlist without renditions makes max() raise.
    ensures (load(masterUrl).Some? && load(masterUrl).value.isVariant &&
             load(masterUrl).value.renditions == []) ==> r == Err(NoRenditions(masterUrl))
    // Otherwise the first rendition of largest bandwidth is resolved against
    // the master URL and loaded in turn.
    ensures (load(masterUrl).Some? && load(masterUrl).value.isVariant &&
             load(masterUrl).value.renditions != []) ==>
              var rs := load(masterUrl).value.renditions;
              exists k: nat :: IsFirstBest(rs, k) &&
                var uri := urljoin(masterUrl, rs[k].uri);
                r == (if load(uri).None? then Err(LoadFailed(uri))
                      else Ok(Selection(uri, Sum(load(uri).value.segments))))
  {
    match load(masterUrl)
    case None => Err(LoadFailed(masterUrl))
    case Some(playlist) =>
      if playlist.isVariant then
        if playlist.renditions == [] then Err(NoRenditions(masterUrl))
        else
          var best := playlist.renditions[BestIndex(playlist.renditions)];
          var uri := urljoin(masterUrl, best.uri);
          match load(uri)
          case None => Err(LoadFailed(uri))
          case Some(media) => Ok(Selection(uri, Sum(media.segments)))
      else
        Ok(Selection(masterUrl, Sum(playlist.segments)))
  }

  /** Whatever the playlist, a successful selection's duration is the sum of
      the segments of the playlist that its URL loads. */
  lemma SelectionDurationIsSegmentSum(masterUrl: string, load: string -> Option<Playlist>,
                                      urljoin: (string, string) -> string)
    requires PickBestVariant(masterUrl, load, urljoin).Ok?
    ensures var sel := PickBestVariant(masterUrl, load, urljoin).value;
            load(sel.playUrl).Some? && sel.durationUs == Sum(load(sel.playUrl).value.segments)
  {
  }

  /** Durations of 4.0 s, 4.0 s and 2.5 s add up to 10.5 s. */
  lemma SumExample()
    ensures Sum([4_000_000, 4_000_000, 2_500_000]) == 10_500_000
  {
    var ds: seq<nat> := [4_000_000, 4_000_000, 2_500_000];
    assert ds[..2] == [4_000_000, 4_000_000];
    assert ds[..2][..1] == [4_000_000];
    assert [4_000_000][..0] == [];
  }
}
