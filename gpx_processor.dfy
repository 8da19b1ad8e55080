/** The heatmap aggregation of the GPX processor: every pair of consecutive
    snapped points of a track segment is an undirected edge, and a map
    counts how often each edge occurs across all files, tracks and segments.

    The GPX parser is an oracle `read` (bytes to parsed document, or `None`
    on a parse failure), and snapping a waypoint to the 1e-5 grid and
    formatting it as the text `lat,lng` is an oracle `keyOf`. */
module GpxProcessor {
  import opened Js

  type Bytes = seq<bv8>

  /** The formatted text `lat,lng` of one snapped point. */
  type PointKey = string

  /** An undirected edge, stored with the lexicographically smaller key first. */
  type EdgeKey = (PointKey, PointKey)

  /** A GPX waypoint: longitude `x`, latitude `y`. */
  datatype Waypoint = Waypoint(x: real, y: real)
  datatype TrackSegment = TrackSegment(points: seq<Waypoint>)
  datatype Track = Track(segments: seq<TrackSegment>)
  datatype Gpx = Gpx(tracks: seq<Track>)

  /** One element of the output: an edge and how often it was travelled. */
  datatype Segment = Segment(start: PointKey, end: PointKey, count: nat)

  // ---------------------------------------------------------------------
  // Ordering of keys: Rust's `<` on `String` (lexicographic by character)

  predicate LexLess(a: string, b: string)
    decreases |a|
  {
    if a == [] then b != []
    else b != [] && (a[0] < b[0] || (a[0] == b[0] && LexLess(a[1..], b[1..])))
  }

  predicate LexLessEq(a: string, b: string) {
    a == b || LexLess(a, b)
  }

  lemma {:induction false} LexLessAsymmetric(a: string, b: string)
    ensures LexLess(a, b) ==> !LexLess(b, a)
    decreases |a|
  {
    if a != [] && b != [] && a[0] == b[0] {
      LexLessAsymmetric(a[1..], b[1..]);
    }
  }

  lemma {:induction false} LexLessTotal(a: string, b: string)
    ensures a == b || LexLess(a, b) || LexLess(b, a)
    decreases |a|
  {
    if a != [] && b != [] && a[0] == b[0] {
      LexLessTotal(a[1..], b[1..]);
      if a[1..] == b[1..] {
        assert a == [a[0]] + a[1..] && b == [b[0]] + b[1..];
      }
    }
  }

  // ---------------------------------------------------------------------
  // Edge keys

  /** The key of the window `a -> b`: the smaller of the two texts first. */
  function EdgeKeyOf(a: PointKey, b: PointKey): (k: EdgeKey)
    ensures LexLessEq(k.0, k.1)
    ensures k == (a, b) || k == (b, a)
  {
    LexLessTotal(a, b);
    if LexLess(a, b) then (a, b) else (b, a)
  }

  /** The windows `a -> b` and `b -> a` increment the same key. */
  lemma EdgeKeySymmetric(a: PointKey, b: PointKey)
    ensures EdgeKeyOf(a, b) == EdgeKeyOf(b, a)
  {
    LexLessAsymmetric(a, b);
    LexLessTotal(a, b);
  }

  /** A pair is a stored key exactly when it is in canonical order. */
  lemma EdgeKeyCanonical(a: PointKey, b: PointKey)
    ensures EdgeKeyOf(a, b) == (a, b) <==> LexLessEq(a, b)
  {
    LexLessAsymmetric(a, b);
  }

  // ---------------------------------------------------------------------
  // The sequence of edges the loops visit, in order

  /** The snapped keys of a segment's points, in order. */
  function Snap(points: seq<Waypoint>, keyOf: Waypoint -> PointKey): (keys: seq<PointKey>)
    ensures |keys| == |points|
    ensures forall i {:trigger keys[i]} :: 0 <= i < |points| ==> keys[i] == keyOf(points[i])
  {
    if points == [] then [] else [keyOf(points[0])] + Snap(points[1..], keyOf)
  }

  /** The number of 2-point windows of a sequence of length n: max(n - 1, 0). */
  function WindowCount(n: nat): nat {
    if n < 2 then 0 else n - 1
  }

  /** The edge keys of `keys.windows(2)`, in order. */
  function Windows(keys: seq<PointKey>): (r: seq<EdgeKey>)
    ensures |r| == WindowCount(|keys|)
    ensures forall w {:trigger r[w]} :: 0 <= w < |r| ==> r[w] == EdgeKeyOf(keys[w], keys[w + 1])
  {
    if |keys| < 2 then []
    else Windows(keys[..|keys| - 1]) + [EdgeKeyOf(keys[|keys| - 2], keys[|keys| - 1])]
  }

  function SegmentEdges(segment: TrackSegment, keyOf: Waypoint -> PointKey): seq<EdgeKey> {
    Windows(Snap(segment.points, keyOf))
  }

  /** Windows over each segment in turn; no window spans two segments. */
  function SegmentsEdges(segments: seq<TrackSegment>, keyOf: Waypoint -> PointKey): seq<EdgeKey> {
    if segments == [] then []
    else SegmentsEdges(segments[..|segments| - 1], keyOf) + SegmentEdges(segments[|segments| - 1], keyOf)
  }

  function TracksEdges(tracks: seq<Track>, keyOf: Waypoint -> PointKey): seq<EdgeKey> {
    if tracks == [] then []
    else TracksEdges(tracks[..|tracks| - 1], keyOf) + SegmentsEdges(tracks[|tracks| - 1].segments, keyOf)
  }

  /** The edges of one file: none when it does not parse. */
  function FileEdges(file: Bytes, read: Bytes -> Option<Gpx>, keyOf: Waypoint -> PointKey): seq<EdgeKey> {
    match read(file)
    case Some(gpx) => TracksEdges(gpx.tracks, keyOf)
    case None => []
  }

  function FilesEdges(files: seq<Bytes>, read: Bytes -> Option<Gpx>, keyOf: Waypoint -> PointKey): seq<EdgeKey> {
    if files == [] then []
    else FilesEdges(files[..|files| - 1], read, keyOf) + FileEdges(files[|files| - 1], read, keyOf)
  }

  lemma SegmentsEdgesStep(segments: seq<TrackSegment>, s: nat, keyOf: Waypoint -> PointKey)
    requires s < |segments|
    ensures SegmentsEdges(segments[..s + 1], keyOf) == SegmentsEdges(segments[..s], keyOf) + SegmentEdges(segments[s], keyOf)
  {
    assert segments[..s + 1][..s] == segments[..s];
  }

  lemma TracksEdgesStep(tracks: seq<Track>, t: nat, keyOf: Waypoint -> PointKey)
    requires t < |tracks|
    ensures TracksEdges(tracks[..t + 1], keyOf) == TracksEdges(tracks[..t], keyOf) + SegmentsEdges(tracks[t].segments, keyOf)
  {
    assert tracks[..t + 1][..t] == tracks[..t];
  }

  lemma FilesEdgesStep(files: seq<Bytes>, f: nat, read: Bytes -> Option<Gpx>, keyOf: Waypoint -> PointKey)
    requires f < |files|
    ensures FilesEdges(files[..f + 1], read, keyOf) == FilesEdges(files[..f], read, keyOf) + FileEdges(files[f], read, keyOf)
  {
    assert files[..f + 1][..f] == files[..f];
  }

  // ---------------------------------------------------------------------
  // Reference count of windows: the sum of max(len - 1, 0) over all segments

  function SegmentsWindowCount(segments: seq<TrackSegment>): nat {
    if segments == [] then 0
    else SegmentsWindowCount(segments[..|segments| - 1]) + WindowCount(|segments[|segments| - 1].points|)
  }

  function TracksWindowCount(tracks: seq<Track>): nat {
    if tracks == [] then 0
    else TracksWindowCount(tracks[..|tracks| - 1]) + SegmentsWindowCount(tracks[|tracks| - 1].segments)
  }

  function FilesWindowCount(files: seq<Bytes>, read: Bytes -> Option<Gpx>): nat {
    if files == [] then 0
    else
      FilesWindowCount(files[..|files| - 1], read) +
      match read(files[|files| - 1])
      case Some(gpx) => TracksWindowCount(gpx.tracks)
      case None => 0
  }

  lemma {:induction false} SegmentsEdgesLength(segments: seq<TrackSegment>, keyOf: Waypoint -> PointKey)
    ensures |SegmentsEdges(segments, keyOf)| == SegmentsWindowCount(segments)
    decreases |segments|
  {
    if segments != [] {
      SegmentsEdgesLength(segments[..|segments| - 1], keyOf);
    }
  }

  lemma {:induction false} TracksEdgesLength(tracks: seq<Track>, keyOf: Waypoint -> PointKey)
    ensures |TracksEdges(tracks, keyOf)| == TracksWindowCount(tracks)
    decreases |tracks|
  {
    if tracks != [] {
      TracksEdgesLength(tracks[..|tracks| - 1], keyOf);
      SegmentsEdgesLength(tracks[|tracks| - 1].segments, keyOf);
    }
  }

  /** One edge per 2-point window of every segment of every parsed file. */
  lemma {:induction false} FilesEdgesLength(files: seq<Bytes>, read: Bytes -> Option<Gpx>, keyOf: Waypoint -> PointKey)
    ensures |FilesEdges(files, read, keyOf)| == FilesWindowCount(files, read)
    decreases |files|
  {
    if files != [] {
      FilesEdgesLength(files[..|files| - 1], read, keyOf);
      match read(files[|files| - 1])
      case Some(gpx) => TracksEdgesLength(gpx.tracks, keyOf);
      case None =>
    }
  }

  // ---------------------------------------------------------------------
  // Where edges come from

  /** `e` is the key of some window of two consecutive points of `segment`. */
  ghost predicate IsWindowOf(e: EdgeKey, segment: TrackSegment, keyOf: Waypoint -> PointKey) {
    exists w :: 0 <= w < |segment.points| - 1 &&
      e == EdgeKeyOf(keyOf(segment.points[w]), keyOf(segment.points[w + 1]))
  }

  /** Every edge joins two consecutive points of one single segment. */
  lemma {:induction false} SegmentsEdgesWithin(segments: seq<TrackSegment>, keyOf: Waypoint -> PointKey, e: EdgeKey)
    requires e in SegmentsEdges(segments, keyOf)
    ensures exists s :: s in segments && IsWindowOf(e, s, keyOf)
    decreases |segments|
  {
    var init, last := segments[..|segments| - 1], segments[|segments| - 1];
    if e in SegmentsEdges(init, keyOf) {
      SegmentsEdgesWithin(init, keyOf, e);
      var s :| s in init && IsWindowOf(e, s, keyOf);
      assert s in segments;
    } else {
      var keys := Snap(last.points, keyOf);
      var w :| 0 <= w < |Windows(keys)| && Windows(keys)[w] == e;
      assert e == EdgeKeyOf(keyOf(last.points[w]), keyOf(last.points[w + 1]));
      assert IsWindowOf(e, last, keyOf);
    }
  }

  /** `e` is a window of one segment of one of the tracks. */
  ghost predicate IsWindowInTracks(e: EdgeKey, tracks: seq<Track>, keyOf: Waypoint -> PointKey) {
    exists t, s :: t in tracks && s in t.segments && IsWindowOf(e, s, keyOf)
  }

  /** Every edge of a file joins two consecutive points of one segment of one
      track; no window spans two segments or two tracks. */
  lemma {:induction false} TracksEdgesWithin(tracks: seq<Track>, keyOf: Waypoint -> PointKey, e: EdgeKey)
    requires e in TracksEdges(tracks, keyOf)
    ensures IsWindowInTracks(e, tracks, keyOf)
    decreases |tracks|
  {
    var init, last := tracks[..|tracks| - 1], tracks[|tracks| - 1];
    if e in TracksEdges(init, keyOf) {
      TracksEdgesWithin(init, keyOf, e);
      var t, s :| t in init && s in t.segments && IsWindowOf(e, s, keyOf);
      assert t in tracks;
    } else {
      SegmentsEdgesWithin(last.segments, keyOf, e);
      var s :| s in last.segments && IsWindowOf(e, s, keyOf);
      assert last in tracks;
    }
  }

  /** Every edge counted comes from one segment of one track of one file that
      parses; no window spans two files. */
  lemma {:induction false} FilesEdgesWithin(files: seq<Bytes>, read: Bytes -> Option<Gpx>, keyOf: Waypoint -> PointKey, e: EdgeKey)
    requires e in FilesEdges(files, read, keyOf)
    ensures exists f :: f in files && read(f).Some? && IsWindowInTracks(e, read(f).value.tracks, keyOf)
    decreases |files|
  {
    var init, last := files[..|files| - 1], files[|files| - 1];
    if e in FilesEdges(init, read, keyOf) {
      FilesEdgesWithin(init, read, keyOf, e);
      var f :| f in init && read(f).Some? && IsWindowInTracks(e, read(f).value.tracks, keyOf);
      assert f in files;
    } else {
      match read(last)
      case Some(gpx) =>
        TracksEdgesWithin(gpx.tracks, keyOf, e);
        assert last in files;
      case None =>
        assert false;
    }
  }

  lemma {:induction false} SegmentsEdgesContain(segments: seq<TrackSegment>, s: nat, keyOf: Waypoint -> PointKey, e: EdgeKey)
    requires s < |segments|
    requires e in SegmentEdges(segments[s], keyOf)
    ensures e in SegmentsEdges(segments, keyOf)
    decreases |segments|
  {
    var init := segments[..|segments| - 1];
    if s < |init| {
      assert init[s] == segments[s];
      SegmentsEdgesContain(init, s, keyOf, e);
    }
  }

  lemma {:induction false} TracksEdgesContain(tracks: seq<Track>, t: nat, keyOf: Waypoint -> PointKey, e: EdgeKey)
    requires t < |tracks|
    requires e in SegmentsEdges(tracks[t].segments, keyOf)
    ensures e in TracksEdges(tracks, keyOf)
    decreases |tracks|
  {
    var init := tracks[..|tracks| - 1];
    if t < |init| {
      assert init[t] == tracks[t];
      TracksEdgesContain(init, t, keyOf, e);
    }
  }

  lemma {:induction false} FilesEdgesContain(files: seq<Bytes>, f: nat, read: Bytes -> Option<Gpx>, keyOf: Waypoint -> PointKey, e: EdgeKey)
    requires f < |files|
    requires e in FileEdges(files[f], read, keyOf)
    ensures e in FilesEdges(files, read, keyOf)
    decreases |files|
  {
    var init := files[..|files| - 1];
    if f < |init| {
      assert init[f] == files[f];
      FilesEdgesContain(init, f, read, keyOf, e);
    }
  }

  /** Conversely, every window of every segment of every track of every file
      that parses is counted, at least once. */
  lemma WindowCounted(files: seq<Bytes>, read: Bytes -> Option<Gpx>, keyOf: Waypoint -> PointKey, f: nat, t: nat, s: nat, w: nat)
    requires f < |files| && read(files[f]).Some?
    requires t < |read(files[f]).value.tracks|
    requires s < |read(files[f]).value.tracks[t].segments|
    requires w + 1 < |read(files[f]).value.tracks[t].segments[s].points|
    ensures var points := read(files[f]).value.tracks[t].segments[s].points;
      var e := EdgeKeyOf(keyOf(points[w]), keyOf(points[w + 1]));
      e in Tally(FilesEdges(files, read, keyOf)) && Tally(FilesEdges(files, read, keyOf))[e] >= 1
  {
    var gpx := read(files[f]).value;
    var segments := gpx.tracks[t].segments;
    var points := segments[s].points;
    var keys := Snap(points, keyOf);
    var e := EdgeKeyOf(keyOf(points[w]), keyOf(points[w + 1]));
    assert Windows(keys)[w] == e;
    SegmentsEdgesContain(segments, s, keyOf, e);
    TracksEdgesContain(gpx.tracks, t, keyOf, e);
    FilesEdgesContain(files, f, read, keyOf, e);
    TallyCounts(FilesEdges(files, read, keyOf));
  }

  /** The two windows of two 2-point segments are the only edges: the last
      point of the first segment is not joined to the first of the second. */
  lemma TwoSegmentsTwoEdges(p: Waypoint, q: Waypoint, r: Waypoint, s: Waypoint, keyOf: Waypoint -> PointKey)
    ensures SegmentsEdges([TrackSegment([p, q]), TrackSegment([r, s])], keyOf) ==
      [EdgeKeyOf(keyOf(p), keyOf(q)), EdgeKeyOf(keyOf(r), keyOf(s))]
  {
    var segs := [TrackSegment([p, q]), TrackSegment([r, s])];
    PairEdges(p, q, keyOf);
    PairEdges(r, s, keyOf);
    SegmentsEdgesStep(segs, 0, keyOf);
    SegmentsEdgesStep(segs, 1, keyOf);
    assert segs[..0] == [] && segs[..2] == segs;
  }

  lemma PairEdges(a: Waypoint, b: Waypoint, keyOf: Waypoint -> PointKey)
    ensures SegmentEdges(TrackSegment([a, b]), keyOf) == [EdgeKeyOf(keyOf(a), keyOf(b))]
  {
    var keys := Snap([a, b], keyOf);
    assert keys[0] == keyOf(a) && keys[1] == keyOf(b);
    var w := Windows(keys);
    assert |w| == 1 && w[0] == EdgeKeyOf(keyOf(a), keyOf(b));
  }

  /** Edges are gathered file by file, so a file's position only moves its edges. */
  lemma {:induction false} FilesEdgesAppend(a: seq<Bytes>, b: seq<Bytes>, read: Bytes -> Option<Gpx>, keyOf: Waypoint -> PointKey)
    ensures FilesEdges(a + b, read, keyOf) == FilesEdges(a, read, keyOf) + FilesEdges(b, read, keyOf)
    decreases |b|
  {
    if b != [] {
      var b' := b[..|b| - 1];
      assert (a + b)[..|a + b| - 1] == a + b';
      FilesEdgesAppend(a, b', read, keyOf);
    } else {
      assert a + b == a;
    }
  }

  /** A file that fails to parse, wherever it stands, contributes nothing. */
  lemma UnparsableFileSkipped(before: seq<Bytes>, file: Bytes, after: seq<Bytes>, read: Bytes -> Option<Gpx>, keyOf: Waypoint -> PointKey)
    requires read(file) == None
    ensures FilesEdges(before + [file] + after, read, keyOf) == FilesEdges(before + after, read, keyOf)
  {
    var single := [file];
    assert FilesEdges(single, read, keyOf) == [] by {
      assert single[..0] == [];
    }
    var pre, post := FilesEdges(before, read, keyOf), FilesEdges(after, read, keyOf);
    FilesEdgesAppend(before, single, read, keyOf);
    assert FilesEdges(before + single, read, keyOf) == pre + [] == pre;
    FilesEdgesAppend(before + single, after, read, keyOf);
    FilesEdgesAppend(before, after, read, keyOf);
  }

  // ---------------------------------------------------------------------
  // Counting

  /** `*counts.entry(e).or_insert(0) += 1`. */
  function Bump(counts: map<EdgeKey, nat>, e: EdgeKey): (r: map<EdgeKey, nat>)
    ensures e in r && r[e] == (if e in counts then counts[e] else 0) + 1
  {
    counts[e := (if e in counts then counts[e] else 0) + 1]
  }

  /** One window raises exactly its own key's count by one and leaves every
      other count as it was. */
  lemma BumpOneKey(counts: map<EdgeKey, nat>, e: EdgeKey)
    ensures Bump(counts, e).Keys == counts.Keys + {e}
    ensures Bump(counts, e)[e] == (if e in counts then counts[e] else 0) + 1
    ensures forall k :: k in counts && k != e ==> Bump(counts, e)[k] == counts[k]
  {
  }

  /** The counts map after visiting the edges in order, starting from `counts`. */
  function AddAll(counts: map<EdgeKey, nat>, edges: seq<EdgeKey>): map<EdgeKey, nat> {
    if edges == [] then counts
    else Bump(AddAll(counts, edges[..|edges| - 1]), edges[|edges| - 1])
  }

  /** The counts map after visiting the edges in order, starting empty. */
  function Tally(edges: seq<EdgeKey>): map<EdgeKey, nat> {
    AddAll(map[], edges)
  }

  /** Visiting `a` and then `b` is visiting `a + b`. */
  lemma {:induction false} AddAllAppend(counts: map<EdgeKey, nat>, a: seq<EdgeKey>, b: seq<EdgeKey>)
    ensures AddAll(counts, a + b) == AddAll(AddAll(counts, a), b)
    decreases |b|
  {
    if b == [] {
      assert a + b == a;
    } else {
      var b' := b[..|b| - 1];
      assert (a + b)[..|a + b| - 1] == a + b';
      AddAllAppend(counts, a, b');
    }
  }

  /** An edge is counted exactly when it was visited; its count is the number
      of windows that produced it, and so is at least one. */
  lemma {:induction false} TallyCounts(edges: seq<EdgeKey>)
    ensures forall e :: e in Tally(edges) <==> e in edges
    ensures forall e :: e in Tally(edges) ==> Tally(edges)[e] == multiset(edges)[e] >= 1
    decreases |edges|
  {
    if edges != [] {
      var init, last := edges[..|edges| - 1], edges[|edges| - 1];
      assert edges == init + [last];
      TallyCounts(init);
    }
  }

  /** Two edge sequences with the same multiset of keys give the same counts. */
  lemma TallyDependsOnMultiset(a: seq<EdgeKey>, b: seq<EdgeKey>)
    requires multiset(a) == multiset(b)
    ensures Tally(a) == Tally(b)
  {
    TallyCounts(a);
    TallyCounts(b);
    forall e ensures e in a <==> e in b {
      assert e in a <==> e in multiset(a);
      assert e in b <==> e in multiset(b);
    }
  }

  /** The sum of the values of a map. */
  ghost function Total(counts: map<EdgeKey, nat>): nat
    decreases |counts|
  {
    if counts == map[] then 0
    else
      var e :| e in counts;
      counts[e] + Total(counts - {e})
  }

  lemma {:induction false} TotalRemove(counts: map<EdgeKey, nat>, e: EdgeKey)
    requires e in counts
    ensures Total(counts) == counts[e] + Total(counts - {e})
    decreases |counts|
  {
    var d :| d in counts && Total(counts) == counts[d] + Total(counts - {d});
    if d != e {
      assert counts - {d} - {e} == counts - {e} - {d};
      TotalRemove(counts - {d}, e);
      TotalRemove(counts - {e}, d);
    }
  }

  lemma TotalBump(counts: map<EdgeKey, nat>, e: EdgeKey)
    ensures Total(Bump(counts, e)) == Total(counts) + 1
  {
    var r := Bump(counts, e);
    BumpOneKey(counts, e);
    TotalRemove(r, e);
    assert r - {e} == counts - {e};
    if e in counts {
      TotalRemove(counts, e);
    } else {
      assert counts - {e} == counts;
    }
  }

  /** The counts add up to the number of windows visited. */
  lemma {:induction false} TallyTotal(edges: seq<EdgeKey>)
    ensures Total(Tally(edges)) == |edges|
    decreases |edges|
  {
    if edges != [] {
      TallyTotal(edges[..|edges| - 1]);
      TotalBump(Tally(edges[..|edges| - 1]), edges[|edges| - 1]);
    }
  }

  /** A segment recorded in the opposite direction contributes exactly the
      same edge counts. */
  lemma SegmentReversed(points: seq<Waypoint>, keyOf: Waypoint -> PointKey)
    ensures Tally(SegmentEdges(TrackSegment(Reversed(points)), keyOf)) == Tally(SegmentEdges(TrackSegment(points), keyOf))
  {
    SnapReversed(points, keyOf);
    WindowsReversed(Snap(points, keyOf));
  }

  /** Snapping commutes with reversal: the keys of the reversed points are
      the reversed keys. */
  lemma SnapReversed(points: seq<Waypoint>, keyOf: Waypoint -> PointKey)
    ensures Snap(Reversed(points), keyOf) == Reversed(Snap(points, keyOf))
  {
    var keys, back := Snap(points, keyOf), Snap(Reversed(points), keyOf);
    forall i | 0 <= i < |points|
      ensures back[i] == Reversed(keys)[i]
    {
      var j := |points| - 1 - i;
      ReversedIndex(points, i);
      ReversedIndex(keys, i);
      assert back[i] == keyOf(points[j]);
      assert keys[j] == keyOf(points[j]);
    }
  }

  /** Reversed point keys give the same counts. */
  lemma {:induction false} WindowsReversed(keys: seq<PointKey>)
    ensures Tally(Windows(Reversed(keys))) == Tally(Windows(keys))
  {
    WindowsReversedMultiset(keys);
    TallyDependsOnMultiset(Windows(Reversed(keys)), Windows(keys));
  }

  /** The points of a segment in the opposite order. */
  function Reversed<T>(s: seq<T>): (r: seq<T>)
    ensures |r| == |s|
  {
    if s == [] then [] else [s[|s| - 1]] + Reversed(s[..|s| - 1])
  }

  lemma {:induction false} ReversedIndex<T>(s: seq<T>, i: nat)
    requires i < |s|
    ensures |Reversed(s)| == |s| && Reversed(s)[i] == s[|s| - 1 - i]
    decreases |s|
  {
    if i > 0 {
      ReversedIndex(s[..|s| - 1], i - 1);
    }
  }

  lemma WindowsReversedMultiset(keys: seq<PointKey>)
    ensures multiset(Windows(Reversed(keys))) == multiset(Windows(keys))
  {
    var fwd, bwd := Windows(keys), Windows(Reversed(keys));
    forall w | 0 <= w < |bwd|
      ensures bwd[w] == Reversed(fwd)[w]
    {
      WindowReversedAt(keys, w);
    }
    assert bwd == Reversed(fwd);
    ReversedMultiset(fwd);
  }

  /** The w-th window of the reversed points is the mirror window, read backwards. */
  lemma WindowReversedAt(keys: seq<PointKey>, w: nat)
    requires w < |Windows(Reversed(keys))|
    ensures Windows(Reversed(keys))[w] == Reversed(Windows(keys))[w]
  {
    var n, rev, fwd := |keys|, Reversed(keys), Windows(keys);
    var a, b := keys[n - 2 - w], keys[n - 1 - w];
    ReversedIndex(keys, w);
    ReversedIndex(keys, w + 1);
    assert Windows(rev)[w] == EdgeKeyOf(b, a);
    ReversedIndex(fwd, w);
    assert Reversed(fwd)[w] == EdgeKeyOf(a, b);
    EdgeKeySymmetric(a, b);
  }

  lemma {:induction false} ReversedMultiset<T>(s: seq<T>)
    ensures multiset(Reversed(s)) == multiset(s)
    decreases |s|
  {
    if s != [] {
      ReversedMultiset(s[..|s| - 1]);
      assert s == s[..|s| - 1] + [s[|s| - 1]];
    }
  }

  // ---------------------------------------------------------------------
  // The output list

  function SegmentKey(s: Segment): EdgeKey {
    (s.start, s.end)
  }

  /** The distinct keys carried by a list of output segments. */
  function SegmentKeys(segments: seq<Segment>): set<EdgeKey> {
    if segments == [] then {}
    else SegmentKeys(segments[..|segments| - 1]) + {SegmentKey(segments[|segments| - 1])}
  }

  /** The sum of the counts carried by a list of output segments. */
  function SumCounts(segments: seq<Segment>): nat {
    if segments == [] then 0
    else SumCounts(segments[..|segments| - 1]) + segments[|segments| - 1].count
  }

  lemma SegmentsSnoc(segments: seq<Segment>, segment: Segment)
    ensures SegmentKeys(segments + [segment]) == SegmentKeys(segments) + {SegmentKey(segment)}
    ensures SumCounts(segments + [segment]) == SumCounts(segments) + segment.count
  {
    assert (segments + [segment])[..|segments|] == segments;
  }

  /** `process_gpx_files`: count every edge of every parsed file, then emit
      one `Segment` per distinct edge, in an unspecified order. */
  method ProcessGpxFiles(files: seq<Bytes>, read: Bytes -> Option<Gpx>, keyOf: Waypoint -> PointKey)
    returns (segments: seq<Segment>)
    ensures forall i :: 0 <= i < |segments| ==>
      var counts := Tally(FilesEdges(files, read, keyOf));
      SegmentKey(segments[i]) in counts && segments[i].count == counts[SegmentKey(segments[i])]
    ensures SegmentKeys(segments) == Tally(FilesEdges(files, read, keyOf)).Keys
    ensures forall i, j :: 0 <= i < j < |segments| ==> SegmentKey(segments[i]) != SegmentKey(segments[j])
    ensures forall i :: 0 <= i < |segments| ==> LexLessEq(segments[i].start, segments[i].end) && segments[i].count >= 1
    ensures SumCounts(segments) == FilesWindowCount(files, read)
  {
    var counts := CountEdges(files, read, keyOf);
    TallyCounts(FilesEdges(files, read, keyOf));
    TallyTotal(FilesEdges(files, read, keyOf));
    FilesEdgesLength(files, read, keyOf);
    segments := CollectSegments(counts);
  }

  /** The loops of `process_gpx_files` over the files, their tracks and their
      segments: each window of each segment of each track of each parsed
      file bumps its edge's count; a file that does not parse is skipped. */
  method CountEdges(files: seq<Bytes>, read: Bytes -> Option<Gpx>, keyOf: Waypoint -> PointKey)
    returns (counts: map<EdgeKey, nat>)
    ensures counts == Tally(FilesEdges(files, read, keyOf))
    ensures forall k :: k in counts ==> LexLessEq(k.0, k.1)
  {
    counts := map[];
    for f := 0 to |files|
      invariant counts == Tally(FilesEdges(files[..f], read, keyOf))
      invariant forall k :: k in counts ==> LexLessEq(k.0, k.1)
    {
      FilesEdgesStep(files, f, read, keyOf);
      match read(files[f]) {
        case None =>
          assert FileEdges(files[f], read, keyOf) == [];
          assert FilesEdges(files[..f + 1], read, keyOf) == FilesEdges(files[..f], read, keyOf);
        case Some(gpx) =>
          counts := CountTracks(counts, gpx.tracks, keyOf);
          AddAllAppend(map[], FilesEdges(files[..f], read, keyOf), FileEdges(files[f], read, keyOf));
      }
    }
    assert files[..|files|] == files;
  }

  /** The loop over `gpx.tracks` of one parsed file. */
  method CountTracks(counts0: map<EdgeKey, nat>, tracks: seq<Track>, keyOf: Waypoint -> PointKey)
    returns (counts: map<EdgeKey, nat>)
    requires forall k :: k in counts0 ==> LexLessEq(k.0, k.1)
    ensures counts == AddAll(counts0, TracksEdges(tracks, keyOf))
    ensures forall k :: k in counts ==> LexLessEq(k.0, k.1)
  {
    counts := counts0;
    for t := 0 to |tracks|
      invariant counts == AddAll(counts0, TracksEdges(tracks[..t], keyOf))
      invariant forall k :: k in counts ==> LexLessEq(k.0, k.1)
    {
      TracksEdgesStep(tracks, t, keyOf);
      AddAllAppend(counts0, TracksEdges(tracks[..t], keyOf), SegmentsEdges(tracks[t].segments, keyOf));
      counts := CountSegments(counts, tracks[t].segments, keyOf);
    }
    assert tracks[..|tracks|] == tracks;
  }

  /** The loop over `track.segments` of one track. */
  method CountSegments(counts0: map<EdgeKey, nat>, segs: seq<TrackSegment>, keyOf: Waypoint -> PointKey)
    returns (counts: map<EdgeKey, nat>)
    requires forall k :: k in counts0 ==> LexLessEq(k.0, k.1)
    ensures counts == AddAll(counts0, SegmentsEdges(segs, keyOf))
    ensures forall k :: k in counts ==> LexLessEq(k.0, k.1)
  {
    counts := counts0;
    for s := 0 to |segs|
      invariant counts == AddAll(counts0, SegmentsEdges(segs[..s], keyOf))
      invariant forall k :: k in counts ==> LexLessEq(k.0, k.1)
    {
      SegmentsEdgesStep(segs, s, keyOf);
      AddAllAppend(counts0, SegmentsEdges(segs[..s], keyOf), SegmentEdges(segs[s], keyOf));
      counts := CountWindows(counts, Snap(segs[s].points, keyOf));
    }
    assert segs[..|segs|] == segs;
  }

  /** The innermost loop of `process_gpx_files`: `for w in points.windows(2)`
      over the snapped `keys` of one segment bumps each window's edge key. */
  method CountWindows(counts0: map<EdgeKey, nat>, keys: seq<PointKey>) returns (counts: map<EdgeKey, nat>)
    requires forall k :: k in counts0 ==> LexLessEq(k.0, k.1)
    ensures counts == AddAll(counts0, Windows(keys))
    ensures forall k :: k in counts ==> LexLessEq(k.0, k.1)
  {
    ghost var edges := Windows(keys);
    counts := counts0;
    var w := 0;
    while w + 1 < |keys|
      invariant w <= |edges|
      invariant counts == AddAll(counts0, edges[..w])
      invariant forall k :: k in counts ==> LexLessEq(k.0, k.1)
    {
      var key := EdgeKeyOf(keys[w], keys[w + 1]);
      assert key == edges[w];
      AddAllStep(counts0, edges, w);
      counts := counts[key := (if key in counts then counts[key] else 0) + 1];
      w := w + 1;
    }
    assert edges[..w] == edges;
  }

  /** Visiting one more edge of a sequence bumps that edge. */
  lemma AddAllStep(counts0: map<EdgeKey, nat>, edges: seq<EdgeKey>, w: nat)
    requires w < |edges|
    ensures AddAll(counts0, edges[..w + 1]) == Bump(AddAll(counts0, edges[..w]), edges[w])
  {
    assert edges[..w + 1][..w] == edges[..w];
  }

  /** `segment_counts.into_iter().map(..).collect()`: one `Segment` per
      entry of the map, carrying its count; the order is the map's. */
  method CollectSegments(counts: map<EdgeKey, nat>) returns (segments: seq<Segment>)
    ensures forall i :: 0 <= i < |segments| ==>
      SegmentKey(segments[i]) in counts && segments[i].count == counts[SegmentKey(segments[i])]
    ensures SegmentKeys(segments) == counts.Keys
    ensures forall i, j :: 0 <= i < j < |segments| ==> SegmentKey(segments[i]) != SegmentKey(segments[j])
    ensures SumCounts(segments) == Total(counts)
  {
    segments := [];
    var rest := counts;
    while rest != map[]
      invariant Emitted(counts, rest, segments)
      decreases |rest|
    {
      var e :| e in rest;
      EmitOne(counts, rest, segments, e);
      segments := segments + [Segment(e.0, e.1, rest[e])];
      rest := rest - {e};
    }
  }

  /** The state of the output loop: `segments` holds one entry per edge
      already taken out of `rest`, with its count, and `rest` holds the
      untouched remainder of `counts`. */
  ghost predicate Emitted(counts: map<EdgeKey, nat>, rest: map<EdgeKey, nat>, segments: seq<Segment>) {
    && rest.Keys <= counts.Keys
    && (forall e :: e in rest ==> rest[e] == counts[e])
    && (forall i :: 0 <= i < |segments| ==>
          SegmentKey(segments[i]) in counts && SegmentKey(segments[i]) !in rest &&
          segments[i].count == counts[SegmentKey(segments[i])])
    && SegmentKeys(segments) + rest.Keys == counts.Keys
    && (forall i, j :: 0 <= i < j < |segments| ==> SegmentKey(segments[i]) != SegmentKey(segments[j]))
    && SumCounts(segments) + Total(rest) == Total(counts)
  }

  /** Taking one edge out of the remainder and emitting it keeps the loop state. */
  lemma EmitOne(counts: map<EdgeKey, nat>, rest: map<EdgeKey, nat>, segments: seq<Segment>, e: EdgeKey)
    requires Emitted(counts, rest, segments) && e in rest
    ensures Emitted(counts, rest - {e}, segments + [Segment(e.0, e.1, rest[e])])
  {
    var segment := Segment(e.0, e.1, rest[e]);
    TotalRemove(rest, e);
    SegmentsSnoc(segments, segment);
  }
}
