/** The data-preparation part of `main`: collect the windows of all
    sources, refuse an empty dataset, and build the sample matrix with its
    target vector. */
module Pipeline {
  import opened Windowing
  import opened Assembly
  import opened FeatureMatrix

  /** The records matrix and the target vector of the dataset. */
  datatype Dataset = Dataset(records: array2<real>, targets: seq<nat>)

  /** Every mapped file that exists was decoded and is too short for a
      single window. */
  predicate NoUsableWindows(mapping: seq<Source>, disk: Disk, w: nat)
  {
    forall j :: 0 <= j < |mapping| && mapping[j].0 in disk ==>
      disk[mapping[j].0].Parsed? && |disk[mapping[j].0].records| < w
  }

  /** The samples the dataset is built from, or the error `main`
      stops with first: a read error, or the empty-dataset error when no
      window was extracted at all. */
  function Build(mapping: seq<Source>, disk: Disk, w: nat, extract: Window -> FeatureRow)
    : (r: Result<Samples>)
    requires w >= 2
    ensures r.Ok? ==> 0 < |r.value.features| == |r.value.labels|
    ensures r == Err(EmptyDataset) ==> Collect(mapping, disk, w, extract) == Ok(Samples([], []))
    ensures r.Err? && r != Err(EmptyDataset) ==> r == Collect(mapping, disk, w, extract)
  {
    match Collect(mapping, disk, w, extract)
    case Err(e) => Err(e)
    case Ok(s) => if |s.features| == 0 then Err(EmptyDataset) else Ok(s)
  }

  /** The closed-form total is zero exactly when no decoded source is long
      enough for one window. */
  lemma {:induction false} TotalWindowsZero(mapping: seq<Source>, disk: Disk, w: nat)
    requires w >= 2
    ensures TotalWindows(mapping, disk, w) == 0
        <==> forall j :: 0 <= j < |mapping| && mapping[j].0 in disk && disk[mapping[j].0].Parsed?
               ==> |disk[mapping[j].0].records| < w
    decreases |mapping|
  {
    if mapping != [] {
      var n := |mapping| - 1;
      TotalWindowsZero(mapping[..n], disk, w);
      assert forall j :: 0 <= j < n ==> mapping[..n][j] == mapping[j];
    }
  }

  /** The run stops with the empty-dataset error exactly when every mapped
      file is missing, or exists, decodes and is shorter than one window. */
  lemma EmptyDatasetIff(mapping: seq<Source>, disk: Disk, w: nat, extract: Window -> FeatureRow)
    requires w >= 2
    ensures Build(mapping, disk, w, extract) == Err(EmptyDataset) <==> NoUsableWindows(mapping, disk, w)
  {
    ErrorIsFirstUnreadable(mapping, disk, w, extract);
    CollectCount(mapping, disk, w, extract);
    TotalWindowsZero(mapping, disk, w);
    if NoUsableWindows(mapping, disk, w) {
      assert forall j :: 0 <= j < |mapping| ==> !IsUnreadable(mapping[j], disk);
    } else if Collect(mapping, disk, w, extract).Ok? {
      var j :| 0 <= j < |mapping| && mapping[j].0 in disk
        && !(disk[mapping[j].0].Parsed? && |disk[mapping[j].0].records| < w);
      assert !IsUnreadable(mapping[j], disk);
    }
  }

  /** With every mapped file missing the run stops with the empty-dataset
      error before any matrix is built. */
  lemma AllMissingIsEmpty(mapping: seq<Source>, disk: Disk, w: nat, extract: Window -> FeatureRow)
    requires w >= 2
    requires forall j :: 0 <= j < |mapping| ==> mapping[j].0 !in disk
    ensures Build(mapping, disk, w, extract) == Err(EmptyDataset)
  {
    EmptyDatasetIff(mapping, disk, w, extract);
  }

  /** A successful build has at least one sample, as many labels as rows,
      and every row traced to the source whose label it carries. */
  lemma BuildSamples(mapping: seq<Source>, disk: Disk, w: nat, extract: Window -> FeatureRow)
    requires w >= 2
    ensures var r := Build(mapping, disk, w, extract);
      r.Ok? ==>
        && 0 < |r.value.features| == |r.value.labels| == TotalWindows(mapping, disk, w)
        && forall k :: 0 <= k < |r.value.labels| ==>
             Traceable(mapping, disk, w, extract, r.value.features[k], r.value.labels[k])
  {
    CollectCount(mapping, disk, w, extract);
    CollectAligned(mapping, disk, w, extract);
  }

  /** With only the first two activity files on disk, only the first two
      entries of the mapping remain. */
  lemma FirstTwoPresent(disk: Disk)
    requires disk.Keys == {"sit.csv", "walk-with-hand.csv"}
    ensures Present(ActivityMapping(), disk) == ActivityMapping()[..2]
  {
    var am := ActivityMapping();
    assert am[..1] == [am[0]] && am[..2][..1] == am[..1];
    assert am[..3][..2] == am[..2] && am[..4][..3] == am[..3] && am[..5][..4] == am[..4];
    assert am[..5] == am;
    assert Present(am[..1], disk) == [am[0]];
    assert Present(am[..2], disk) == am[..2];
    assert Present(am[..3], disk) == am[..2];
    assert Present(am[..4], disk) == am[..2];
  }

  /** Two recordings of 100 readings for the first two activities and the
      other three files missing, with windows of 20: nine windows at offsets
      0, 10, ..., 80 from each file, eighteen samples in all, labelled 0 then 1. */
  lemma TwoActivitiesExample(sit: seq<AccelData>, walk: seq<AccelData>, extract: Window -> FeatureRow)
    requires |sit| == 100 && |walk| == 100
    ensures var disk := map["sit.csv" := Parsed(sit), "walk-with-hand.csv" := Parsed(walk)];
      Build(ActivityMapping(), disk, 20, extract)
        == Ok(Samples(Extracted(extract, Windows(sit, 20, 0)) + Extracted(extract, Windows(walk, 20, 0)),
                      Repeat<nat>(0, 9) + Repeat<nat>(1, 9)))
  {
    var disk := map["sit.csv" := Parsed(sit), "walk-with-hand.csv" := Parsed(walk)];
    var am := ActivityMapping();
    FirstTwoPresent(disk);
    MissingSkipped(am, disk, 20, extract);
    assert WindowCount(100, 20) == 9;
    var fs, gs := Extracted(extract, Windows(sit, 20, 0)), Extracted(extract, Windows(walk, 20, 0));
    var zeros, ones := Repeat<nat>(0, 9), Repeat<nat>(1, 9);
    assert am[..0] + [am[0]] == am[..1] && am[..1] + [am[1]] == am[..2];
    CollectSnoc(am[..0], am[0], disk, 20, extract);
    StepParsed(Samples([], []), am[0], disk, 20, extract);
    assert [] + fs == fs && [] + zeros == zeros;
    CollectSnoc(am[..1], am[1], disk, 20, extract);
    StepParsed(Samples(fs, zeros), am[1], disk, 20, extract);
  }

  /** Collects the samples, refuses an empty dataset, and copies the feature
      rows into a fresh `n_samples x 6` matrix beside the label vector. */
  method PrepareDataset(mapping: seq<Source>, disk: Disk, w: nat, extract: Window -> FeatureRow)
    returns (r: Result<Dataset>)
    requires w >= 2
    ensures r.Ok? ==> fresh(r.value.records)
    ensures var b := Build(mapping, disk, w, extract);
      match r
      case Err(e) => b == Err(e)
      case Ok(ds) =>
        && b.Ok?
        && ds.targets == b.value.labels
        && ds.records.Length0 == |b.value.features| && ds.records.Length1 == Columns
        && forall i, j :: 0 <= i < ds.records.Length0 && 0 <= j < ds.records.Length1 ==>
             ds.records[i, j] == b.value.features[i][j]
  {
    var collected := CollectFeatures(mapping, disk, w, extract);
    if collected.Err? {
      return Err(collected.error);
    }
    var samples := collected.value;
    if |samples.features| == 0 {
      return Err(EmptyDataset);
    }
    var m := FillMatrix(samples.features);
    return Ok(Dataset(m, samples.labels));
  }
}
