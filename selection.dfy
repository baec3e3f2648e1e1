/**
 * `suggest_best_file`: the member of a duplicate group to keep, chosen by a
 * score that weighs resolution far above file size.
 */
module Selection {
  import opened Wrappers
  import opened Metadata
  import opened Grouping

  /** `w * h`, or 0 when the resolution is unknown. */
  function ResolutionScore(m: ImageMetadata): int {
    match m.resolution
    case Some((w, h)) => w * h
    case None => 0
  }

  /** The score of `suggest_best_file`, `0.9 * w * h + 0.1 * (file_size / 1000000)`, computed exactly. */
  function ExactScore(m: ImageMetadata): real {
    0.9 * (ResolutionScore(m) as real) + 0.1 * (m.fileSize as real / 1000000.0)
  }

  /**
   * The score scaled by 10^7: an integer that orders records exactly as the
   * exact score does (the floats of `suggest_best_file` may differ from it by rounding).
   */
  function Score(m: ImageMetadata): (r: int)
    ensures r as real == 10000000.0 * ExactScore(m)
  {
    9000000 * ResolutionScore(m) + m.fileSize
  }

  /** `max_score = -1` on the scale of `Score`. */
  const InitialMax: int := -10000000

  /** Scores compare as the exact scores do. */
  lemma ScoreOrdersAsExact(a: ImageMetadata, b: ImageMetadata)
    ensures Score(a) > Score(b) <==> ExactScore(a) > ExactScore(b)
    ensures Score(a) > InitialMax <==> ExactScore(a) > -1.0
  {
  }

  /** The largest score in `d`, or `InitialMax` when no score exceeds it. */
  function MaxScore(d: seq<ImageMetadata>): (r: int)
    ensures r >= InitialMax
    ensures forall i :: 0 <= i < |d| ==> Score(d[i]) <= r
    ensures r == InitialMax || exists i :: 0 <= i < |d| && Score(d[i]) == r
  {
    if d == [] then InitialMax
    else
      var p := d[..|d| - 1];
      var m := MaxScore(p);
      var s := Score(d[|d| - 1]);
      assert forall i :: 0 <= i < |p| ==> d[i] == p[i];
      if s > m then s else m
  }

  /** The first index of `d` whose score is `v`, or `|d|` when there is none. */
  function FirstWithScore(d: seq<ImageMetadata>, v: int): (r: nat)
    ensures r <= |d|
    ensures r < |d| ==> Score(d[r]) == v
    ensures forall j :: 0 <= j < r ==> Score(d[j]) != v
  {
    if d == [] then 0
    else if Score(d[0]) == v then 0
    else
      var r := 1 + FirstWithScore(d[1..], v);
      assert forall j :: 1 <= j < r ==> d[j] == d[1..][j - 1];
      r
  }

  /** The keeper: the first member with the greatest score, or 0 when no score beats `-1`. */
  function Keeper(d: seq<ImageMetadata>): nat {
    var m := MaxScore(d);
    if m > InitialMax then FirstWithScore(d, m) else 0
  }

  /**
   * What `suggest_best_file` promises: 0 for an empty group; otherwise an
   * index in range; when some score beats `-1`, the first index of a greatest
   * score; when none does, 0.
   */
  lemma KeeperIsFirstBest(d: seq<ImageMetadata>)
    ensures d == [] ==> Keeper(d) == 0
    ensures d != [] ==> Keeper(d) < |d|
    ensures (exists i :: 0 <= i < |d| && Score(d[i]) > InitialMax) ==>
      && (forall j :: 0 <= j < |d| ==> Score(d[j]) <= Score(d[Keeper(d)]))
      && (forall j :: 0 <= j < Keeper(d) ==> Score(d[j]) < Score(d[Keeper(d)]))
    ensures (forall i :: 0 <= i < |d| ==> Score(d[i]) <= InitialMax) ==> Keeper(d) == 0
  {
    var m := MaxScore(d);
    if m > InitialMax {
      var i :| 0 <= i < |d| && Score(d[i]) == m;
      assert FirstWithScore(d, m) <= i;
    }
  }

  /** One more member: it becomes the keeper only by beating the best so far strictly. */
  lemma KeeperSnoc(p: seq<ImageMetadata>, x: ImageMetadata)
    ensures MaxScore(p + [x]) == if Score(x) > MaxScore(p) then Score(x) else MaxScore(p)
    ensures Keeper(p + [x]) == if Score(x) > MaxScore(p) then |p| else Keeper(p)
  {
    var d := p + [x];
    assert d[..|d| - 1] == p;
    if Score(x) > MaxScore(p) {
      NewBestIsLast(p, x);
    } else if MaxScore(p) > InitialMax {
      OldBestStays(p, x);
    }
  }

  lemma NewBestIsLast(p: seq<ImageMetadata>, x: ImageMetadata)
    requires Score(x) > MaxScore(p)
    ensures FirstWithScore(p + [x], Score(x)) == |p|
  {
    var d := p + [x];
    var r := FirstWithScore(d, Score(x));
    assert forall j :: 0 <= j < |p| ==> d[j] == p[j];
    assert d[|p|] == x;
  }

  lemma OldBestStays(p: seq<ImageMetadata>, x: ImageMetadata)
    requires MaxScore(p) > InitialMax
    ensures FirstWithScore(p + [x], MaxScore(p)) == FirstWithScore(p, MaxScore(p))
  {
    var d := p + [x];
    var m := MaxScore(p);
    var r0 := FirstWithScore(p, m);
    var i :| 0 <= i < |p| && Score(p[i]) == m;
    assert r0 <= i;
    var r1 := FirstWithScore(d, m);
    assert d[r0] == p[r0];
    assert r1 <= r0;
    assert r1 < |p| ==> d[r1] == p[r1];
  }

  /** The scan's bookkeeping after one more member, stated on the prefixes of `d`. */
  lemma ScanStep(d: seq<ImageMetadata>, idx: nat)
    requires idx < |d|
    ensures var s := Score(d[idx]);
      && MaxScore(d[..idx + 1]) == (if s > MaxScore(d[..idx]) then s else MaxScore(d[..idx]))
      && Keeper(d[..idx + 1]) == (if s > MaxScore(d[..idx]) then idx else Keeper(d[..idx]))
  {
    assert d[..idx + 1] == d[..idx] + [d[idx]];
    KeeperSnoc(d[..idx], d[idx]);
  }

  /** The scan of `suggest_best_file`, with the score on the integer scale. */
  method SuggestBestFile(duplicates: seq<ImageMetadata>) returns (bestIdx: nat)
    ensures bestIdx == Keeper(duplicates)
    ensures duplicates == [] ==> bestIdx == 0
    ensures duplicates != [] ==> bestIdx < |duplicates|
    ensures (exists i :: 0 <= i < |duplicates| && Score(duplicates[i]) > InitialMax) ==>
      && (forall j :: 0 <= j < |duplicates| ==> Score(duplicates[j]) <= Score(duplicates[bestIdx]))
      && (forall j :: 0 <= j < bestIdx ==> Score(duplicates[j]) < Score(duplicates[bestIdx]))
    ensures (forall i :: 0 <= i < |duplicates| ==> Score(duplicates[i]) <= InitialMax) ==> bestIdx == 0
  {
    bestIdx := 0;
    var maxScore := InitialMax;
    for idx := 0 to |duplicates|
      invariant maxScore == MaxScore(duplicates[..idx])
      invariant bestIdx == Keeper(duplicates[..idx])
    {
      var metadata := duplicates[idx];
      var resolutionScore := 0;
      if metadata.resolution.Some? {
        resolutionScore := metadata.resolution.value.0 * metadata.resolution.value.1;
      }
      assert resolutionScore == ResolutionScore(metadata);
      var score := 9000000 * resolutionScore + metadata.fileSize;
      ScanStep(duplicates, idx);
      if score > maxScore {
        maxScore := score;
        bestIdx := idx;
      }
    }
    assert duplicates[..|duplicates|] == duplicates;
    assert bestIdx == Keeper(duplicates);
    KeeperIsFirstBest(duplicates);
  }

  /** The score depends on the identifier only: its resolution (absent read as `(0, 0)`) and its size. */
  lemma ScoreOfIdentifier(m: ImageMetadata)
    ensures var id := GetIdentifier(m); Score(m) == 9000000 * (id.resolution.0 * id.resolution.1) + id.fileSize
  {
  }

  /**
   * Members sharing one identifier share their resolution and size, hence
   * their score, so the strict `>` scan never moves past the first member.
   */
  lemma SameIdentifierKeepsFirst(g: seq<ImageMetadata>)
    requires forall i :: 0 <= i < |g| ==> GetIdentifier(g[i]) == GetIdentifier(g[0])
    ensures Keeper(g) == 0
  {
    if g != [] {
      forall i | 0 <= i < |g| ensures Score(g[i]) == Score(g[0]) {
        ScoreOfIdentifier(g[i]);
        ScoreOfIdentifier(g[0]);
      }
      var m := MaxScore(g);
      if m > InitialMax {
        assert m == Score(g[0]);
        assert FirstWithScore(g, m) == 0;
      }
    }
  }

  /**
   * Every bucket of the duplicate dictionary is made of records with one
   * identifier, so automatic selection always keeps its first member.
   */
  lemma BucketKeepsFirst(s: seq<ImageMetadata>, k: Identifier)
    ensures Keeper(Bucket(s, k)) == 0
  {
    var b := Bucket(s, k);
    forall i | 0 <= i < |b| ensures GetIdentifier(b[i]) == GetIdentifier(b[0]) {
      assert b[i] in b && b[0] in b;
    }
    SameIdentifierKeepsFirst(b);
  }
}
