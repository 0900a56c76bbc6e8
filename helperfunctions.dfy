/** Fitting the per-image density estimators, sampling them into data frames,
    and the leave-one-out substitution of effective parameters that the joint
    analysis performs for each anchor image. */
module HelperFunctions {
  import opened Wrappers
  import opened Frames

  /** A fitted transformed kernel density estimator. It is fitted on a frame
      and remembers it; its sampling behaviour is abstract (see `Sampler`). */
  datatype Kde = Kde(training: Table) {
    /** Number of dimensions: the number of columns it was fitted on. */
    function Dims(): nat { |training.columns| }
  }

  /** The random source behind `kde.sample`: `draw(kde, call, row, col)` is the
      value in column `col` of row `row` of the table returned by the `call`-th
      call to `sample` on the shared random state. A call of `sample(n)` yields
      exactly `n` rows of `kde.Dims()` values. */
  type Sampler = (Kde, nat, nat, nat) -> real

  /** Number of posteriors `build_kdes` fits, whatever it is given. */
  const FittedImages: nat := 4

  /** Constructing a density estimator and fitting it on `posterior[names]`:
      a KeyError when a named column is missing. */
  function Fit(posterior: Table, names: seq<Name>): (r: Result<Kde, Exception>)
    requires posterior.Valid() && Distinct(names)
    ensures r.Ok? <==> Covers(posterior.columns, names)
    ensures r.Err? ==> r.error == KeyError
    ensures r.Ok? ==> r.value.Dims() == |names| && r.value.training.columns == names
    ensures r.Ok? ==> forall c {:trigger r.value.training.cells[c]} :: c in names ==>
      c in posterior.cells && c in r.value.training.cells && r.value.training.cells[c] == posterior.cells[c]
  {
    var data :- Select(posterior, names);
    Ok(Kde(data))
  }

  /** The posterior carries every full and every effective parameter. */
  predicate Fittable(posterior: Table, full: seq<Name>, eff: seq<Name>)
  {
    Covers(posterior.columns, full) && Covers(posterior.columns, eff)
  }

  /** `build_kdes`: for each of the first four posteriors, in order, fit one
      estimator on the full parameters and one on the effective parameters.
      Fails with KeyError at the first posterior missing a parameter and with
      IndexError when fewer than four posteriors are given; extra posteriors
      are ignored. */
  method BuildKdes(posteriors: seq<Table>, full: seq<Name>, eff: seq<Name>)
    returns (r: Result<(seq<Kde>, seq<Kde>), Exception>)
    requires forall p :: p in posteriors ==> p.Valid()
    requires Distinct(full) && Distinct(eff)
    ensures r.Ok? <==>
      |posteriors| >= FittedImages && forall i :: 0 <= i < FittedImages ==> Fittable(posteriors[i], full, eff)
    ensures r == Err(KeyError) <==>
      exists i :: 0 <= i < FittedImages && i < |posteriors| && !Fittable(posteriors[i], full, eff)
    ensures r == Err(IndexError) <==>
      |posteriors| < FittedImages && forall i :: 0 <= i < |posteriors| ==> Fittable(posteriors[i], full, eff)
    ensures r.Ok? ==> |r.value.0| == FittedImages && |r.value.1| == FittedImages
    ensures r.Ok? ==> forall i :: 0 <= i < FittedImages ==>
      Fit(posteriors[i], full) == Ok(r.value.0[i]) && Fit(posteriors[i], eff) == Ok(r.value.1[i])
  {
    var kdes: seq<Kde> := [];
    var kdesEff: seq<Kde> := [];
    for i := 0 to FittedImages
      invariant i <= |posteriors|
      invariant |kdes| == i && |kdesEff| == i
      invariant forall k :: 0 <= k < i ==> Fittable(posteriors[k], full, eff)
      invariant forall k :: 0 <= k < i ==> Fit(posteriors[k], full) == Ok(kdes[k]) && Fit(posteriors[k], eff) == Ok(kdesEff[k])
    {
      if i >= |posteriors| {
        return Err(IndexError);
      }
      var kde := Fit(posteriors[i], full);
      if kde.Err? {
        return Err(KeyError);
      }
      var kdeEff := Fit(posteriors[i], eff);
      if kdeEff.Err? {
        return Err(KeyError);
      }
      kdes := kdes + [kde.value];
      kdesEff := kdesEff + [kdeEff.value];
    }
    r := Ok((kdes, kdesEff));
  }

  /** Column `c` of the `call`-th draw of `n` rows from `kde`. */
  function Drawn(kde: Kde, n: nat, draw: Sampler, call: nat, c: nat): (col: seq<real>)
    ensures |col| == n && forall row {:trigger col[row]} :: 0 <= row < n ==> col[row] == draw(kde, call, row, c)
  {
    seq(n, row requires 0 <= row < n => draw(kde, call, row, c))
  }

  /** `kde_sample`: the `call`-th draw of `n` rows from `kde`, as a frame whose
      columns are `parameters` in the given order. It raises ValueError when
      `n` is zero, because the inverse quantile transform rejects a sample
      without rows, and when the number of names differs from the
      estimator's dimension, because the frame cannot be built. */
  function KdeSample(kde: Kde, parameters: seq<Name>, n: nat, draw: Sampler, call: nat): (r: Result<Table, Exception>)
    requires Distinct(parameters)
    ensures r.Ok? <==> n > 0 && |parameters| == kde.Dims()
    ensures r.Err? ==> r.error == ValueError
    ensures r.Ok? ==> r.value.Valid() && r.value.columns == parameters && r.value.height == n
    ensures r.Ok? ==> forall c, row {:trigger r.value.cells[parameters[c]][row]} :: 0 <= c < |parameters| && 0 <= row < n ==>
      r.value.cells[parameters[c]][row] == draw(kde, call, row, c)
  {
    if n == 0 || |parameters| != kde.Dims() then
      Err(ValueError)
    else
      Ok(Table(parameters, map p | p in parameters :: Drawn(kde, n, draw, call, IndexOf(parameters, p)), n))
  }

  /** Position in the full image list of the `k`-th "other" image when image
      `i` is the anchor: the images in ascending order with `i` skipped. */
  function OtherIndex(i: nat, k: nat): (j: nat)
    ensures j != i
    ensures j < i <==> k < i
    ensures j == k || j == k + 1
  {
    if k < i then k else k + 1
  }

  /** `s` without its `i`-th element, the rest in their original order. */
  function Others<T>(s: seq<T>, i: nat): (r: seq<T>)
    requires i < |s|
    ensures |r| == |s| - 1
    ensures forall k {:trigger r[k]} :: 0 <= k < |r| ==> r[k] == s[OtherIndex(i, k)]
  {
    s[..i] + s[i + 1..]
  }

  /** The inverse of `OtherIndex`: every image `j` other than the anchor is
      the `k`-th other image for exactly this `k`, and among `n` images there
      are `n - 1` other images. */
  function OtherPosition(n: nat, i: nat, j: nat): (k: nat)
    requires i < n && j < n && j != i
    ensures k < n - 1 && OtherIndex(i, k) == j
    ensures forall l :: OtherIndex(i, l) == j ==> l == k
  {
    if j < i then j else j - 1
  }

  /** The inner loop of `joint_kde_analysis`: walk the images in order, skip
      the anchor, and append each other image's full and effective estimators
      to two lists that stay aligned. */
  method Partition(kdes: seq<Kde>, kdesEff: seq<Kde>, i: nat) returns (others: seq<Kde>, othersEff: seq<Kde>)
    requires i < |kdes| <= |kdesEff|
    ensures others == Others(kdes, i)
    ensures othersEff == Others(kdesEff[..|kdes|], i)
  {
    others, othersEff := [], [];
    for j := 0 to |kdes|
      invariant j <= i ==> others == kdes[..j] && othersEff == kdesEff[..j]
      invariant j > i ==> others == kdes[..i] + kdes[i + 1..j] && othersEff == kdesEff[..i] + kdesEff[i + 1..j]
    {
      if i == j {
        continue;
      }
      others := others + [kdes[j]];
      othersEff := othersEff + [kdesEff[j]];
    }
  }

  /** What `joint_kde_analysis` expects of its arguments: an effective
      estimator for every image, every estimator it samples fitted on the
      parameter list it is sampled with, and the effective parameters among
      the full ones. */
  predicate AnalysisInputs(kdes: seq<Kde>, kdesEff: seq<Kde>, full: seq<Name>, eff: seq<Name>)
  {
    && |kdes| <= |kdesEff|
    && Distinct(full) && Distinct(eff) && Covers(full, eff)
    && (forall k :: 0 <= k < |kdes| ==> kdes[k].Dims() == |full|)
    && (forall k :: 0 <= k < |kdes| ==> kdesEff[k].Dims() == |eff|)
  }

  /** `count` copies of `t`. */
  function Repeat(t: Table, count: nat): (r: seq<Table>)
    ensures |r| == count && forall a {:trigger r[a]} :: 0 <= a < count ==> r[a] == t
  {
    seq(count, _ => t)
  }

  /** `[kde.sample(n, eff) for kde in others]`, the `k`-th drawn at call `call + k`. */
  function EffectiveSamples(others: seq<Kde>, eff: seq<Name>, n: nat, draw: Sampler, call: nat): (r: seq<Table>)
    requires n > 0 && Distinct(eff) && forall k :: 0 <= k < |others| ==> others[k].Dims() == |eff|
    ensures |r| == |others|
    ensures forall k {:trigger r[k]} :: 0 <= k < |r| ==>
      r[k] == KdeSample(others[k], eff, n, draw, call + k).value && r[k].Valid() && r[k].columns == eff && r[k].height == n
  {
    seq(|others|, k requires 0 <= k < |others| => KdeSample(others[k], eff, n, draw, call + k).value)
  }

  /** Position by position, `before[a]` with its `names` columns replaced by
      those of `sources[a]`. */
  function Overwritten(before: seq<Table>, names: seq<Name>, sources: seq<Table>): (r: seq<Table>)
    requires |before| == |sources| && Distinct(names)
    requires forall a :: 0 <= a < |before| ==>
      before[a].Valid() && sources[a].Valid() && sources[a].height == before[a].height &&
      Covers(before[a].columns, names) && Covers(sources[a].columns, names)
    ensures |r| == |before|
    ensures forall a {:trigger r[a]} :: 0 <= a < |r| ==>
      r[a] == Overwrite(before[a], names, Select(sources[a], names).value) &&
      r[a].Valid() && r[a].columns == before[a].columns && r[a].height == before[a].height
  {
    seq(|before|, a requires 0 <= a < |before| => Overwrite(before[a], names, Select(sources[a], names).value))
  }

  /** One pass of the outer loop of `joint_kde_analysis` for anchor `i`: the
      anchor's full-parameter sample is draw `call`, the `k`-th other image's
      effective sample is draw `call + 1 + k`, and composite `k` is the anchor
      sample with its effective columns replaced by that effective sample. */
  function AnchorComposites(kdes: seq<Kde>, kdesEff: seq<Kde>, full: seq<Name>, eff: seq<Name>,
                            n: nat, draw: Sampler, i: nat, call: nat): (r: seq<Table>)
    requires AnalysisInputs(kdes, kdesEff, full, eff) && n > 0 && i < |kdes|
    ensures |r| == |kdes| - 1
    ensures forall k :: 0 <= k < |r| ==> r[k].Valid() && r[k].columns == full && r[k].height == n
  {
    var othersEff := Others(kdesEff[..|kdes|], i);
    Overwritten(Repeat(KdeSample(kdes[i], full, n, draw, call).value, |othersEff|), eff,
                EffectiveSamples(othersEff, eff, n, draw, call + 1))
  }

  /** Composite `k` of anchor `i`, cell by cell: every effective column holds
      the draw of the `k`-th other image's effective estimator, every other
      column the anchor's own draw, unchanged. */
  lemma CompositeCells(kdes: seq<Kde>, kdesEff: seq<Kde>, full: seq<Name>, eff: seq<Name>,
                       n: nat, draw: Sampler, i: nat, call: nat, k: nat)
    requires AnalysisInputs(kdes, kdesEff, full, eff) && n > 0 && i < |kdes| && k < |kdes| - 1
    ensures forall e, row :: 0 <= e < |eff| && 0 <= row < n ==>
      AnchorComposites(kdes, kdesEff, full, eff, n, draw, i, call)[k].cells[eff[e]][row]
        == draw(kdesEff[OtherIndex(i, k)], call + 1 + k, row, e)
    ensures forall c, row :: 0 <= c < |full| && 0 <= row < n && full[c] !in eff ==>
      AnchorComposites(kdes, kdesEff, full, eff, n, draw, i, call)[k].cells[full[c]][row]
        == draw(kdes[i], call, row, c)
  {
    var r := AnchorComposites(kdes, kdesEff, full, eff, n, draw, i, call);
    var samples := KdeSample(kdes[i], full, n, draw, call).value;
    var othersEff := Others(kdesEff[..|kdes|], i);
    var j := OtherIndex(i, k);
    assert othersEff[k] == kdesEff[..|kdes|][j] == kdesEff[j];
    var effSample := EffectiveSamples(othersEff, eff, n, draw, call + 1)[k];
    assert effSample == KdeSample(kdesEff[j], eff, n, draw, call + 1 + k).value;
    var selected := Select(effSample, eff).value;
    assert r[k] == Overwrite(Repeat(samples, |othersEff|)[k], eff, selected);
    forall e, row | 0 <= e < |eff| && 0 <= row < n
      ensures r[k].cells[eff[e]][row] == draw(kdesEff[j], call + 1 + k, row, e)
    {
      assert r[k].cells[eff[e]] == selected.cells[eff[e]] == effSample.cells[eff[e]];
    }
    forall c, row | 0 <= c < |full| && 0 <= row < n && full[c] !in eff
      ensures r[k].cells[full[c]][row] == draw(kdes[i], call, row, c)
    {
      assert r[k].cells[full[c]] == samples.cells[full[c]];
    }
  }

  /** `[samples.copy() for ...]`: `count` new, pairwise distinct frame
      objects, each holding the contents of `t`. */
  method CopyFrames(t: Table, count: nat) returns (frames: seq<Frame>)
    requires t.Valid()
    ensures |frames| == count
    ensures forall a, b :: 0 <= a < count && 0 <= b < count && a != b ==> frames[a] != frames[b]
    ensures forall a :: 0 <= a < count ==> fresh(frames[a]) && frames[a].Valid() && frames[a].View() == t
  {
    frames := [];
    for k := 0 to count
      invariant |frames| == k
      invariant forall a, b :: 0 <= a < k && 0 <= b < k && a != b ==> frames[a] != frames[b]
      invariant forall a :: 0 <= a < k ==> fresh(frames[a]) && frames[a].Valid() && frames[a].View() == t
    {
      var copy := new Frame.Copy(t);
      frames := frames + [copy];
    }
  }

  /** Each frame is valid and holds the table at the same position. */
  ghost predicate Hold(frames: seq<Frame>, tables: seq<Table>)
    reads frames
  {
    |frames| == |tables| && forall k :: 0 <= k < |frames| ==> frames[k].Valid() && frames[k].View() == tables[k]
  }

  /** `for j in range(len(frames)): frames[j][names] = sources[j][names]`:
      each frame has the named columns overwritten from its own source; since
      the frames are distinct objects, no write reaches another frame. */
  method OverwriteEach(frames: seq<Frame>, names: seq<Name>, sources: seq<Table>, ghost before: seq<Table>)
    requires |frames| == |sources| == |before| && Distinct(names)
    requires forall a, b :: 0 <= a < |frames| && 0 <= b < |frames| && a != b ==> frames[a] != frames[b]
    requires Hold(frames, before)
    requires forall a :: 0 <= a < |frames| ==>
      before[a].Valid() && sources[a].Valid() && sources[a].height == before[a].height &&
      Covers(before[a].columns, names) && Covers(sources[a].columns, names)
    modifies set a | 0 <= a < |frames| :: frames[a]
    ensures Hold(frames, Overwritten(before, names, sources))
  {
    ghost var after := Overwritten(before, names, sources);
    for j := 0 to |frames|
      invariant forall a :: 0 <= a < j ==> frames[a].Valid() && frames[a].View() == after[a]
      invariant forall a :: j <= a < |frames| ==> frames[a].View() == before[a]
    {
      label Before:
      frames[j].AssignColumns(names, Select(sources[j], names).value);
      assert frames[j].View() == after[j];
      forall a | 0 <= a < |frames| && a != j
        ensures frames[a].Valid() == old@Before(frames[a].Valid())
        ensures frames[a].View() == old@Before(frames[a].View())
      {
        assert frames[a] != frames[j];
      }
    }
  }

  /** One pass of the outer loop of `joint_kde_analysis` for anchor `i`, with
      the random state at `call`: partition the estimators, draw the anchor's
      full sample and each other image's effective sample, make one copy of
      the anchor sample per other image and overwrite its effective columns.
      Each composite is a separate new frame, so writing into one leaves the
      others (and every frame that existed before) unchanged. */
  method AnchorStep(kdes: seq<Kde>, kdesEff: seq<Kde>, full: seq<Name>, eff: seq<Name>,
                    n: nat, draw: Sampler, i: nat, call: nat) returns (composites: seq<Frame>, next: nat)
    requires AnalysisInputs(kdes, kdesEff, full, eff) && n > 0 && i < |kdes|
    ensures next == call + |kdes|
    ensures |composites| == |kdes| - 1
    ensures forall a, b :: 0 <= a < |composites| && 0 <= b < |composites| && a != b ==> composites[a] != composites[b]
    ensures forall k :: 0 <= k < |composites| ==> fresh(composites[k])
    ensures Hold(composites, AnchorComposites(kdes, kdesEff, full, eff, n, draw, i, call))
  {
    var others, othersEff := Partition(kdes, kdesEff, i);
    var samples := KdeSample(kdes[i], full, n, draw, call).value;
    var othersSamplesEff := EffectiveSamples(othersEff, eff, n, draw, call + 1);
    composites := CopyFrames(samples, |othersEff|);
    OverwriteEach(composites, eff, othersSamplesEff, Repeat(samples, |othersEff|));
    next := call + |kdes|;
  }

  /** The position of the random state when anchor `a` starts: every anchor
      draws `m` samples, one full and `m - 1` effective. */
  function AnchorStart(call: nat, a: nat, m: nat): (start: nat)
    ensures start >= call
  {
    if a == 0 then call else AnchorStart(call, a - 1, m) + m
  }

  lemma {:induction false} AnchorStartValue(call: nat, a: nat, m: nat)
    ensures AnchorStart(call, a, m) == call + a * m
  {
    if a > 0 {
      AnchorStartValue(call, a - 1, m);
      assert a * m == (a - 1) * m + m;
    }
  }

  /** `[f(0), ..., f(count - 1)]`, built one element at a time. */
  ghost function Prefix<T>(f: nat -> T, count: nat): (r: seq<T>)
    ensures |r| == count
  {
    if count == 0 then [] else Prefix(f, count - 1) + [f(count - 1)]
  }

  lemma {:induction false} PrefixAt<T>(f: nat -> T, count: nat, a: nat)
    requires a < count
    ensures Prefix(f, count)[a] == f(a)
  {
    if a < count - 1 {
      PrefixAt(f, count - 1, a);
    }
  }

  /** The composites of anchor `a`, which starts at call
      `AnchorStart(call, a, |kdes|)`. */
  ghost function AnchorOf(kdes: seq<Kde>, kdesEff: seq<Kde>, full: seq<Name>, eff: seq<Name>,
                          n: nat, draw: Sampler, call: nat): nat -> seq<Table>
    requires AnalysisInputs(kdes, kdesEff, full, eff)
  {
    (a: nat) => if a < |kdes| && n > 0 then AnchorComposites(kdes, kdesEff, full, eff, n, draw, a, AnchorStart(call, a, |kdes|)) else []
  }

  /** The composites of the first `count` anchors. */
  ghost function Anchors(kdes: seq<Kde>, kdesEff: seq<Kde>, full: seq<Name>, eff: seq<Name>,
                         n: nat, draw: Sampler, call: nat, count: nat): (r: seq<seq<Table>>)
    requires AnalysisInputs(kdes, kdesEff, full, eff)
    ensures |r| == count
  {
    Prefix(AnchorOf(kdes, kdesEff, full, eff, n, draw, call), count)
  }

  /** Anchor `a` holds its own composites, drawn from its own start call. */
  lemma AnchorsAt(kdes: seq<Kde>, kdesEff: seq<Kde>, full: seq<Name>, eff: seq<Name>,
                  n: nat, draw: Sampler, call: nat, count: nat, a: nat)
    requires AnalysisInputs(kdes, kdesEff, full, eff) && n > 0 && a < count <= |kdes|
    ensures Anchors(kdes, kdesEff, full, eff, n, draw, call, count)[a]
      == AnchorComposites(kdes, kdesEff, full, eff, n, draw, a, AnchorStart(call, a, |kdes|))
  {
    PrefixAt(AnchorOf(kdes, kdesEff, full, eff, n, draw, call), count, a);
  }

  /** Every frame of every anchor. */
  ghost function FramesOf(composites: seq<seq<Frame>>): (r: set<Frame>)
    ensures forall a, k :: 0 <= a < |composites| && 0 <= k < |composites[a]| ==> composites[a][k] in r
  {
    set a, k | 0 <= a < |composites| && 0 <= k < |composites[a]| :: composites[a][k]
  }

  lemma FramesOfAppend(composites: seq<seq<Frame>>, step: seq<Frame>)
    ensures FramesOf(composites + [step]) == FramesOf(composites) + set k | 0 <= k < |step| :: step[k]
  {
    var grown := composites + [step];
    forall f | f in FramesOf(grown)
      ensures f in FramesOf(composites) + set k | 0 <= k < |step| :: step[k]
    {
      var a, k :| 0 <= a < |grown| && 0 <= k < |grown[a]| && grown[a][k] == f;
      if a < |composites| {
        assert composites[a][k] == f;
      }
    }
    forall f | f in FramesOf(composites) + set k | 0 <= k < |step| :: step[k]
      ensures f in FramesOf(grown)
    {
      if f in FramesOf(composites) {
        var a, k :| 0 <= a < |composites| && 0 <= k < |composites[a]| && composites[a][k] == f;
        assert grown[a][k] == f;
      } else {
        var k :| 0 <= k < |step| && step[k] == f;
        assert grown[|composites|][k] == f;
      }
    }
  }

  /** The composites of the first `|composites|` anchors are in place: the
      frames of anchor `a` hold `tables[a]`. */
  ghost predicate HoldAll(composites: seq<seq<Frame>>, tables: seq<seq<Table>>)
    reads FramesOf(composites)
  {
    |composites| == |tables| && forall a :: 0 <= a < |composites| ==> Hold(composites[a], tables[a])
  }

  /** Appending the frames of the next anchor, holding that anchor's tables,
      keeps every anchor in place. */
  lemma HoldAllAppend(composites: seq<seq<Frame>>, step: seq<Frame>, tables: seq<seq<Table>>, last: seq<Table>)
    requires HoldAll(composites, tables) && Hold(step, last)
    ensures HoldAll(composites + [step], tables + [last])
  {
    var grown := composites + [step];
    var more := tables + [last];
    forall a | 0 <= a < |grown|
      ensures Hold(grown[a], more[a])
    {
      if a < |composites| {
        assert grown[a] == composites[a] && more[a] == tables[a];
      }
    }
  }

  /** No frame object appears twice among the composites of all anchors. */
  ghost predicate Separate(composites: seq<seq<Frame>>)
  {
    forall a, k, b, l ::
      (0 <= a < |composites| && 0 <= k < |composites[a]| && 0 <= b < |composites| && 0 <= l < |composites[b]| && (a != b || k != l))
      ==> composites[a][k] != composites[b][l]
  }

  /** Appending a pass of distinct frames, none of them already present,
      keeps every frame separate. */
  lemma SeparateAppend(composites: seq<seq<Frame>>, step: seq<Frame>)
    requires Separate(composites)
    requires forall k, l :: 0 <= k < |step| && 0 <= l < |step| && k != l ==> step[k] != step[l]
    requires forall k :: 0 <= k < |step| ==> step[k] !in FramesOf(composites)
    ensures Separate(composites + [step])
  {
    var grown := composites + [step];
    forall a, k, b, l | 0 <= a < |grown| && 0 <= k < |grown[a]| && 0 <= b < |grown| && 0 <= l < |grown[b]| && (a != b || k != l)
      ensures grown[a][k] != grown[b][l]
    {
      if a < |composites| && b < |composites| {
        assert grown[a] == composites[a] && grown[b] == composites[b];
      } else if a < |composites| {
        assert grown[a][k] in FramesOf(composites) && grown[b] == step;
      } else if b < |composites| {
        assert grown[b][l] in FramesOf(composites) && grown[a] == step;
      } else {
        assert grown[a] == step && grown[b] == step;
      }
    }
  }

  /** The state after as many passes of the outer loop as `composites` holds:
      the random state is at the next anchor's start, every pass's frames hold
      that anchor's composites, and no frame appears twice. */
  ghost predicate Analysed(kdes: seq<Kde>, kdesEff: seq<Kde>, full: seq<Name>, eff: seq<Name>,
                           n: nat, draw: Sampler, call: nat, composites: seq<seq<Frame>>, next: nat)
    requires AnalysisInputs(kdes, kdesEff, full, eff)
    reads FramesOf(composites)
  {
    && next == AnchorStart(call, |composites|, |kdes|)
    && HoldAll(composites, Anchors(kdes, kdesEff, full, eff, n, draw, call, |composites|))
    && Separate(composites)
  }

  /** The next pass of the outer loop: the anchor after those already done
      appends its composites, new frames, leaving the earlier ones in place. */
  method AppendAnchor(kdes: seq<Kde>, kdesEff: seq<Kde>, full: seq<Name>, eff: seq<Name>,
                      n: nat, draw: Sampler, call: nat, composites: seq<seq<Frame>>, next: nat)
    returns (grown: seq<seq<Frame>>, after: nat)
    requires AnalysisInputs(kdes, kdesEff, full, eff) && n > 0 && |composites| < |kdes|
    requires next == AnchorStart(call, |composites|, |kdes|)
    requires HoldAll(composites, Anchors(kdes, kdesEff, full, eff, n, draw, call, |composites|))
    requires Separate(composites)
    ensures after == AnchorStart(call, |composites| + 1, |kdes|)
    ensures |grown| == |composites| + 1 && grown[..|composites|] == composites
    ensures forall k :: 0 <= k < |grown[|composites|]| ==> fresh(grown[|composites|][k])
    ensures fresh(FramesOf(grown) - FramesOf(composites))
    ensures Separate(grown)
    ensures HoldAll(grown, Anchors(kdes, kdesEff, full, eff, n, draw, call, |composites| + 1))
  {
    ghost var tables := Anchors(kdes, kdesEff, full, eff, n, draw, call, |composites|);
    ghost var last := AnchorComposites(kdes, kdesEff, full, eff, n, draw, |composites|, next);
    assert Anchors(kdes, kdesEff, full, eff, n, draw, call, |composites| + 1) == tables + [last];
    var step;
    step, after := AnchorStep(kdes, kdesEff, full, eff, n, draw, |composites|, next);
    HoldAllAppend(composites, step, tables, last);
    FramesOfAppend(composites, step);
    SeparateAppend(composites, step);
    grown := composites + [step];
    assert grown[..|composites|] == composites;
  }

  /** One pass of the outer loop, from the state after the earlier passes to
      the state after this one. */
  method NextPass(kdes: seq<Kde>, kdesEff: seq<Kde>, full: seq<Name>, eff: seq<Name>,
                  n: nat, draw: Sampler, call: nat, composites: seq<seq<Frame>>, next: nat)
    returns (grown: seq<seq<Frame>>, after: nat)
    requires AnalysisInputs(kdes, kdesEff, full, eff) && n > 0 && |composites| < |kdes|
    requires Analysed(kdes, kdesEff, full, eff, n, draw, call, composites, next)
    ensures |grown| == |composites| + 1 && grown[..|composites|] == composites
    ensures fresh(FramesOf(grown) - FramesOf(composites))
    ensures Analysed(kdes, kdesEff, full, eff, n, draw, call, grown, after)
  {
    grown, after := AppendAnchor(kdes, kdesEff, full, eff, n, draw, call, composites, next);
  }

  /** `joint_kde_analysis`: run the anchor step for every image in order, the
      random state advancing by one call per sample drawn. The source discards
      what it builds; the model returns the composites of every anchor. With
      `n` zero, the first anchor's own sample raises and nothing is built. */
  method JointKdeAnalysis(kdes: seq<Kde>, kdesEff: seq<Kde>, full: seq<Name>, eff: seq<Name>,
                          n: nat, draw: Sampler, call: nat)
    returns (composites: seq<seq<Frame>>, next: nat, raised: Option<Exception>)
    requires AnalysisInputs(kdes, kdesEff, full, eff)
    ensures raised.Some? <==> n == 0 && |kdes| > 0
    ensures raised.Some? ==> KdeSample(kdes[0], full, n, draw, call) == Err(raised.value) && composites == []
    ensures raised.None? ==> next == AnchorStart(call, |kdes|, |kdes|)
    ensures raised.None? ==> fresh(FramesOf(composites))
    ensures raised.None? ==> Separate(composites)
    ensures raised.None? ==> HoldAll(composites, Anchors(kdes, kdesEff, full, eff, n, draw, call, |kdes|))
  {
    composites := [];
    next := call;
    raised := None;
    if n == 0 && |kdes| > 0 {
      raised := Some(KdeSample(kdes[0], full, n, draw, call).error);
      return;
    }
    for i := 0 to |kdes|
      invariant |composites| == i
      invariant fresh(FramesOf(composites))
      invariant Analysed(kdes, kdesEff, full, eff, n, draw, call, composites, next)
    {
      ghost var before := composites;
      composites, next := NextPass(kdes, kdesEff, full, eff, n, draw, call, composites, next);
      assert FramesOf(composites) <= FramesOf(before) + (FramesOf(composites) - FramesOf(before));
    }
  }
}
