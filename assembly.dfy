/** The loop of `main` over the activity mapping: every mapped file of the
    data directory that exists is read and sliced into windows; a missing
    file is skipped with a warning, a file that cannot be opened or decoded
    stops the run. The result is the pair of index-aligned vectors
    `features` and `labels`. */
module Assembly {
  import opened Windowing

  /** What reading an existing file of the data directory gives: its
      records, or a failure to open or decode it. */
  datatype FileContents = Parsed(records: seq<AccelData>) | Unreadable

  /** The errors with which the modelled part of `main` stops. */
  datatype Error = ReadError(file: string) | EmptyDataset

  datatype Result<T> = Ok(value: T) | Err(error: Error)

  /** The `features` and `labels` vectors built so far. */
  datatype Samples = Samples(features: seq<FeatureRow>, labels: seq<nat>)

  /** One entry of the activity mapping: a file name and its class label. */
  type Source = (string, nat)

  /** The files of the data directory by name; a name that is not a key
      does not exist. */
  type Disk = map<string, FileContents>

  /** The fixed activity-to-label mapping, in processing order: five
      distinct files, labelled by their position. */
  function ActivityMapping(): (m: seq<Source>)
    ensures |m| == 5
    ensures forall j :: 0 <= j < |m| ==> m[j].1 == j
    ensures forall j, j' :: 0 <= j < j' < |m| ==> m[j].0 != m[j'].0
  {
    [
      ("sit.csv", 0),
      ("walk-with-hand.csv", 1),
      ("walking-in-pocket.csv", 2),
      ("climb-up.csv", 3),
      ("four-legged-walking.csv", 4)
    ]
  }

  predicate IsUnreadable(src: Source, disk: Disk)
  {
    src.0 in disk && disk[src.0].Unreadable?
  }

  /** The feature row `f` with label `l` comes from one window of the
      existing, decoded file of `src`, and `l` is the label of `src`. */
  predicate FromSource(src: Source, disk: Disk, w: nat, extract: Window -> FeatureRow,
                       f: FeatureRow, l: nat)
    requires w >= 2
  {
    && src.0 in disk && disk[src.0].Parsed?
    && l == src.1
    && f in Extracted(extract, Windows(disk[src.0].records, w, 0))
  }

  /** Some entry of `mapping` is the source of row `f` with label `l`. */
  predicate Traceable(mapping: seq<Source>, disk: Disk, w: nat, extract: Window -> FeatureRow,
                      f: FeatureRow, l: nat)
    requires w >= 2
  {
    exists j :: 0 <= j < |mapping| && FromSource(mapping[j], disk, w, extract, f, l)
  }

  predicate NonDecreasing(s: seq<nat>)
  {
    forall k, k' :: 0 <= k < k' < |s| ==> s[k] <= s[k']
  }

  predicate LabelsNonDecreasing(mapping: seq<Source>)
  {
    forall j, j' :: 0 <= j < j' < |mapping| ==> mapping[j].1 <= mapping[j'].1
  }

  /** One iteration of the loop: the source `src` processed after `prev`.
      An earlier error or a missing file leaves the state as it was; an
      unreadable file is an error; otherwise rows and labels are only
      appended, as many of each, every new label being that of `src`. */
  function Step(prev: Result<Samples>, src: Source, disk: Disk, w: nat, extract: Window -> FeatureRow)
    : (r: Result<Samples>)
    requires w >= 2
    ensures prev.Err? || src.0 !in disk ==> r == prev
    ensures r.Err? <==> prev.Err? || IsUnreadable(src, disk)
    ensures r.Err? && prev.Ok? ==> r.error == ReadError(src.0)
    ensures r.Ok? ==>
      && prev.value.features <= r.value.features
      && prev.value.labels <= r.value.labels
      && |r.value.features| - |prev.value.features| == |r.value.labels| - |prev.value.labels|
      && forall k :: |prev.value.labels| <= k < |r.value.labels| ==> r.value.labels[k] == src.1
  {
    var (name, activity) := src;
    if prev.Err? || name !in disk then prev
    else match disk[name]
      case Unreadable => Err(ReadError(name))
      case Parsed(records) =>
        var ws := Windows(records, w, 0);
        Ok(Samples(prev.value.features + Extracted(extract, ws),
                   prev.value.labels + Repeat(activity, |ws|)))
  }

  /** What the loop over `mapping` leaves in `features` and `labels`, or the
      error it stops with. */
  function Collect(mapping: seq<Source>, disk: Disk, w: nat, extract: Window -> FeatureRow)
    : (r: Result<Samples>)
    requires w >= 2
    ensures r.Ok? ==> |r.value.features| == |r.value.labels|
    ensures r.Err? ==> r.error.ReadError?
    decreases |mapping|
  {
    if mapping == [] then Ok(Samples([], []))
    else Step(Collect(mapping[..|mapping| - 1], disk, w, extract), mapping[|mapping| - 1], disk, w, extract)
  }

  /** An iteration on an existing, decoded file appends its extracted rows
      and one label per window, counted in closed form. */
  lemma StepParsed(prev: Samples, src: Source, disk: Disk, w: nat, extract: Window -> FeatureRow)
    requires w >= 2 && src.0 in disk && disk[src.0].Parsed?
    ensures var records := disk[src.0].records;
      Step(Ok(prev), src, disk, w, extract)
        == Ok(Samples(prev.features + Extracted(extract, Windows(records, w, 0)),
                      prev.labels + Repeat(src.1, WindowCount(|records|, w))))
  {
    WindowCountExact(disk[src.0].records, w);
  }

  /** Appending a source to the mapping runs one more iteration. */
  lemma CollectSnoc(prefix: seq<Source>, src: Source, disk: Disk, w: nat, extract: Window -> FeatureRow)
    requires w >= 2
    ensures Collect(prefix + [src], disk, w, extract) == Step(Collect(prefix, disk, w, extract), src, disk, w, extract)
  {
    assert (prefix + [src])[..|prefix|] == prefix;
  }

  /** The number of windows the existing, decoded sources of `mapping` hold,
      each counted in closed form. */
  function TotalWindows(mapping: seq<Source>, disk: Disk, w: nat): nat
    requires w >= 2
    decreases |mapping|
  {
    if mapping == [] then 0
    else
      var name := mapping[|mapping| - 1].0;
      TotalWindows(mapping[..|mapping| - 1], disk, w)
        + if name in disk && disk[name].Parsed? then WindowCount(|disk[name].records|, w) else 0
  }

  /** The label vector as one run per source: for each existing, decoded
      source in mapping order, one run of its label as long as its
      closed-form window count. */
  function LabelRuns(mapping: seq<Source>, disk: Disk, w: nat): seq<nat>
    requires w >= 2
    decreases |mapping|
  {
    if mapping == [] then []
    else
      var (name, activity) := mapping[|mapping| - 1];
      LabelRuns(mapping[..|mapping| - 1], disk, w)
        + if name in disk && disk[name].Parsed? then Repeat(activity, WindowCount(|disk[name].records|, w)) else []
  }

  /** The feature matrix rows as one block per source: for each existing,
      decoded source in mapping order, the rows of its windows in window
      order. */
  function FeatureRuns(mapping: seq<Source>, disk: Disk, w: nat, extract: Window -> FeatureRow)
    : seq<FeatureRow>
    requires w >= 2
    decreases |mapping|
  {
    if mapping == [] then []
    else
      var name := mapping[|mapping| - 1].0;
      FeatureRuns(mapping[..|mapping| - 1], disk, w, extract)
        + if name in disk && disk[name].Parsed? then Extracted(extract, Windows(disk[name].records, w, 0)) else []
  }

  /** The entries of `mapping` whose file exists, in order. */
  function Present(mapping: seq<Source>, disk: Disk): seq<Source>
    decreases |mapping|
  {
    if mapping == [] then []
    else
      Present(mapping[..|mapping| - 1], disk)
        + if mapping[|mapping| - 1].0 in disk then [mapping[|mapping| - 1]] else []
  }

  /** Once the loop has stopped with an error, later entries change nothing. */
  lemma {:induction false} ErrorAborts(mapping: seq<Source>, disk: Disk, w: nat,
                                       extract: Window -> FeatureRow, k: nat)
    requires w >= 2 && k <= |mapping|
    requires Collect(mapping[..k], disk, w, extract).Err?
    ensures Collect(mapping, disk, w, extract) == Collect(mapping[..k], disk, w, extract)
    decreases |mapping| - k
  {
    if k < |mapping| {
      assert mapping[..k + 1][..k] == mapping[..k];
      ErrorAborts(mapping, disk, w, extract, k + 1);
    } else {
      assert mapping[..k] == mapping;
    }
  }

  /** The loop stops with an error exactly when some mapped file exists but
      cannot be read, and the error names the first such file. */
  lemma {:induction false} ErrorIsFirstUnreadable(mapping: seq<Source>, disk: Disk, w: nat,
                                                  extract: Window -> FeatureRow)
    requires w >= 2
    ensures Collect(mapping, disk, w, extract).Err?
        <==> exists j :: 0 <= j < |mapping| && IsUnreadable(mapping[j], disk)
    ensures Collect(mapping, disk, w, extract).Err? ==>
      exists j :: 0 <= j < |mapping| && IsUnreadable(mapping[j], disk)
        && Collect(mapping, disk, w, extract).error == ReadError(mapping[j].0)
        && forall j' :: 0 <= j' < j ==> !IsUnreadable(mapping[j'], disk)
    decreases |mapping|
  {
    if mapping != [] {
      var n := |mapping| - 1;
      var prefix := mapping[..n];
      ErrorIsFirstUnreadable(prefix, disk, w, extract);
      assert forall j :: 0 <= j < n ==> prefix[j] == mapping[j];
      if Collect(prefix, disk, w, extract).Err? {
        var j :| 0 <= j < n && IsUnreadable(prefix[j], disk)
          && Collect(prefix, disk, w, extract).error == ReadError(prefix[j].0)
          && forall j' :: 0 <= j' < j ==> !IsUnreadable(prefix[j'], disk);
        assert IsUnreadable(mapping[j], disk);
      } else if IsUnreadable(mapping[n], disk) {
        assert forall j' :: 0 <= j' < n ==> !IsUnreadable(mapping[j'], disk);
      } else {
        assert forall j :: 0 <= j <= n ==> !IsUnreadable(mapping[j], disk);
      }
    }
  }

  /** The number of feature rows and of labels is the sum of the closed-form
      window counts of the existing sources. */
  lemma {:induction false} CollectCount(mapping: seq<Source>, disk: Disk, w: nat,
                                        extract: Window -> FeatureRow)
    requires w >= 2
    ensures var r := Collect(mapping, disk, w, extract);
      r.Ok? ==> |r.value.features| == |r.value.labels| == TotalWindows(mapping, disk, w)
    decreases |mapping|
  {
    if mapping != [] {
      var n := |mapping| - 1;
      CollectCount(mapping[..n], disk, w, extract);
      var name := mapping[n].0;
      if name in disk && disk[name].Parsed? {
        WindowCountExact(disk[name].records, w);
      }
    }
  }

  /** Feature rows and labels stay index-aligned: the row and the label at
      every index come from the same source, the label is that source's
      label, and the row is the summary of one window of that source alone. */
  lemma {:induction false} CollectAligned(mapping: seq<Source>, disk: Disk, w: nat,
                                          extract: Window -> FeatureRow)
    requires w >= 2
    ensures var r := Collect(mapping, disk, w, extract);
      r.Ok? ==> forall k :: 0 <= k < |r.value.labels| ==>
        Traceable(mapping, disk, w, extract, r.value.features[k], r.value.labels[k])
    decreases |mapping|
  {
    if mapping != [] {
      var n := |mapping| - 1;
      var prefix := mapping[..n];
      CollectAligned(prefix, disk, w, extract);
      var prev := Collect(prefix, disk, w, extract);
      var r := Collect(mapping, disk, w, extract);
      var name := mapping[n].0;
      if prev.Ok? && name in disk && disk[name].Parsed? {
        var ws := Windows(disk[name].records, w, 0);
        var m := |prev.value.labels|;
        forall k | 0 <= k < |r.value.labels|
          ensures Traceable(mapping, disk, w, extract, r.value.features[k], r.value.labels[k])
        {
          if k < m {
            assert r.value.features[k] == prev.value.features[k];
            assert r.value.labels[k] == prev.value.labels[k];
            assert Traceable(prefix, disk, w, extract, prev.value.features[k], prev.value.labels[k]);
            TraceablePrefix(mapping, n, disk, w, extract, prev.value.features[k], prev.value.labels[k]);
          } else {
            assert r.value.features[k] == Extracted(extract, ws)[k - m];
            assert r.value.labels[k] == mapping[n].1;
            assert FromSource(mapping[n], disk, w, extract, r.value.features[k], r.value.labels[k]);
          }
        }
      } else if r.Ok? {
        assert r == prev;
        forall k | 0 <= k < |r.value.labels|
          ensures Traceable(mapping, disk, w, extract, r.value.features[k], r.value.labels[k])
        {
          assert Traceable(prefix, disk, w, extract, prev.value.features[k], prev.value.labels[k]);
          TraceablePrefix(mapping, n, disk, w, extract, prev.value.features[k], prev.value.labels[k]);
        }
      }
    }
  }

  /** A row traced to an entry of a prefix of the mapping is traced to that
      entry of the whole mapping. */
  lemma TraceablePrefix(mapping: seq<Source>, n: nat, disk: Disk, w: nat, extract: Window -> FeatureRow,
                        f: FeatureRow, l: nat)
    requires w >= 2 && n <= |mapping|
    requires Traceable(mapping[..n], disk, w, extract, f, l)
    ensures Traceable(mapping, disk, w, extract, f, l)
  {
    var j :| 0 <= j < n && FromSource(mapping[..n][j], disk, w, extract, f, l);
    assert mapping[..n][j] == mapping[j];
  }

  /** The collected labels are one run per existing, decoded source, in
      mapping order, each as long as that source's window count. */
  lemma {:induction false} CollectLabelRuns(mapping: seq<Source>, disk: Disk, w: nat,
                                            extract: Window -> FeatureRow)
    requires w >= 2
    ensures var r := Collect(mapping, disk, w, extract);
      r.Ok? ==> r.value.labels == LabelRuns(mapping, disk, w)
    decreases |mapping|
  {
    if mapping != [] {
      var n := |mapping| - 1;
      CollectLabelRuns(mapping[..n], disk, w, extract);
      var prev := Collect(mapping[..n], disk, w, extract);
      var name := mapping[n].0;
      if prev.Ok? && name in disk && disk[name].Parsed? {
        StepParsed(prev.value, mapping[n], disk, w, extract);
      }
    }
  }

  /** The collected feature rows are one block per existing, decoded source,
      in mapping order, each holding that source's rows in window order. */
  lemma {:induction false} CollectFeatureRuns(mapping: seq<Source>, disk: Disk, w: nat,
                                              extract: Window -> FeatureRow)
    requires w >= 2
    ensures var r := Collect(mapping, disk, w, extract);
      r.Ok? ==> r.value.features == FeatureRuns(mapping, disk, w, extract)
    decreases |mapping|
  {
    if mapping != [] {
      CollectFeatureRuns(mapping[..|mapping| - 1], disk, w, extract);
    }
  }

  /** The rows a decoded source adds sit right after the rows collected
      before it: row `b + q` is the summary of the records at offsets
      `q * (w/2)` to `q * (w/2) + w` of that source, and label `b + q` is
      the source's label. */
  lemma CollectIndexExact(prefix: seq<Source>, src: Source, disk: Disk, w: nat,
                          extract: Window -> FeatureRow, q: nat)
    requires w >= 2 && src.0 in disk && disk[src.0].Parsed?
    requires Collect(prefix, disk, w, extract).Ok?
    requires q < WindowCount(|disk[src.0].records|, w)
    ensures var d := disk[src.0].records;
      var b := |Collect(prefix, disk, w, extract).value.features|;
      var r := Collect(prefix + [src], disk, w, extract);
      && q * Stride(w) + w <= |d|
      && r.Ok? && b + q < |r.value.features| == |r.value.labels|
      && r.value.features[b + q] == extract(d[q * Stride(w) .. q * Stride(w) + w])
      && r.value.labels[b + q] == src.1
  {
    var d := disk[src.0].records;
    var prev := Collect(prefix, disk, w, extract).value;
    CollectSnoc(prefix, src, disk, w, extract);
    StepParsed(prev, src, disk, w, extract);
    WindowCountExact(d, w);
    WindowAt(d, w, q);
  }

  /** When the mapping lists its labels in non-decreasing order, so are the
      collected labels. */
  lemma {:induction false} CollectSorted(mapping: seq<Source>, disk: Disk, w: nat,
                                         extract: Window -> FeatureRow)
    requires w >= 2 && LabelsNonDecreasing(mapping)
    ensures var r := Collect(mapping, disk, w, extract);
      r.Ok? ==> NonDecreasing(r.value.labels)
    decreases |mapping|
  {
    if mapping != [] {
      var n := |mapping| - 1;
      var prefix := mapping[..n];
      CollectSorted(prefix, disk, w, extract);
      CollectAligned(prefix, disk, w, extract);
      var prev := Collect(prefix, disk, w, extract);
      var name := mapping[n].0;
      if prev.Ok? && name in disk && disk[name].Parsed? {
        var labels := Collect(mapping, disk, w, extract).value.labels;
        var m := |prev.value.labels|;
        forall k | 0 <= k < m
          ensures prev.value.labels[k] <= mapping[n].1
        {
          assert Traceable(prefix, disk, w, extract, prev.value.features[k], prev.value.labels[k]);
          var j :| 0 <= j < n
            && FromSource(prefix[j], disk, w, extract, prev.value.features[k], prev.value.labels[k]);
          assert prefix[j] == mapping[j];
        }
        assert forall k :: m <= k < |labels| ==> labels[k] == mapping[n].1;
      }
    }
  }

  /** The program's own mapping lists labels 0 to 4 in order, so its label
      vector is sorted before shuffling. */
  lemma ActivityLabelsSorted(disk: Disk, w: nat, extract: Window -> FeatureRow)
    requires w >= 2
    ensures var r := Collect(ActivityMapping(), disk, w, extract);
      r.Ok? ==> NonDecreasing(r.value.labels)
  {
    CollectSorted(ActivityMapping(), disk, w, extract);
  }

  /** Missing files contribute nothing: the loop gives the same result as
      the loop over the existing files alone. */
  lemma {:induction false} MissingSkipped(mapping: seq<Source>, disk: Disk, w: nat,
                                          extract: Window -> FeatureRow)
    requires w >= 2
    ensures Collect(mapping, disk, w, extract) == Collect(Present(mapping, disk), disk, w, extract)
    decreases |mapping|
  {
    if mapping != [] {
      var n := |mapping| - 1;
      MissingSkipped(mapping[..n], disk, w, extract);
      if mapping[n].0 in disk {
        var p := Present(mapping[..n], disk);
        assert Present(mapping, disk) == p + [mapping[n]];
        CollectSnoc(p, mapping[n], disk, w, extract);
      } else {
        assert Present(mapping, disk) == Present(mapping[..n], disk);
      }
    }
  }

  /** The loop over the mapping: every existing file is read and sliced in
      turn; a missing one is skipped; an unreadable one stops the loop. */
  method CollectFeatures(mapping: seq<Source>, disk: Disk, w: nat, extract: Window -> FeatureRow)
    returns (r: Result<Samples>)
    requires w >= 2
    ensures r == Collect(mapping, disk, w, extract)
  {
    var features: seq<FeatureRow> := [];
    var labels: seq<nat> := [];
    for k := 0 to |mapping|
      invariant Collect(mapping[..k], disk, w, extract) == Ok(Samples(features, labels))
    {
      var (name, activity) := mapping[k];
      assert mapping[..k + 1] == mapping[..k] + [mapping[k]];
      CollectSnoc(mapping[..k], mapping[k], disk, w, extract);
      if name !in disk {
        continue;
      }
      match disk[name] {
        case Unreadable =>
          ErrorAborts(mapping, disk, w, extract, k + 1);
          return Err(ReadError(name));
        case Parsed(records) =>
          features, labels := SlideWindows(records, w, activity, extract, features, labels);
          WindowCountExact(records, w);
      }
    }
    assert mapping[..|mapping|] == mapping;
    return Ok(Samples(features, labels));
  }
}
