/** The detectability cut applied to a simulated catalogue of lensed events,
    the restriction of the image magnifications and time delays to the kept
    events, and the bookkeeping of keys when the catalogue is saved and
    reloaded, and in the label list built for the text file. */
module LensedInjections {

  /** Columns per event in the simulator's per-image arrays (at most five images). */
  const MaxImages: nat := 5
  /** An image counts as detected when its network SNR is strictly above this. */
  const SnrCut: real := 8.0
  /** An event is kept only when it has at least this many images. */
  const MinImages: int := 4
  /** Images of a kept event whose magnification and time delay are saved. */
  const SavedImages: nat := 4

  /** Per-event arrays returned by the population simulator: the number of
      images, and per image the optimal network SNR, magnification and time
      delay (one row per event, `MaxImages` columns). */
  datatype Catalog = Catalog(nImages: seq<int>, snrs: seq<seq<real>>,
                             magnifications: seq<seq<real>>, timeDelays: seq<seq<real>>)
  {
    function Size(): nat { |nImages| }

    predicate WellFormed()
    {
      && |snrs| == |nImages| && |magnifications| == |nImages| && |timeDelays| == |nImages|
      && (forall k :: 0 <= k < |snrs| ==> |snrs[k]| == MaxImages)
      && (forall k :: 0 <= k < |magnifications| ==> |magnifications[k]| == MaxImages)
      && (forall k :: 0 <= k < |timeDelays| ==> |timeDelays[k]| == MaxImages)
    }
  }

  /** Event `k` has at least four images and each of its first four images
      has an SNR strictly above the cut. */
  predicate Detectable(cat: Catalog, k: nat)
    requires cat.WellFormed() && k < cat.Size()
  {
    && cat.nImages[k] >= MinImages
    && cat.snrs[k][0] > SnrCut && cat.snrs[k][1] > SnrCut
    && cat.snrs[k][2] > SnrCut && cat.snrs[k][3] > SnrCut
  }

  /** `np.where(...)[0]` over the first `m` events: the indices of the
      detectable ones, in increasing order. */
  function SelectedUpTo(cat: Catalog, m: nat): (idx: seq<nat>)
    requires cat.WellFormed() && m <= cat.Size()
    ensures |idx| <= m
    ensures forall p :: 0 <= p < |idx| ==> idx[p] < m
  {
    if m == 0 then []
    else SelectedUpTo(cat, m - 1) + (if Detectable(cat, m - 1) then [m - 1] else [])
  }

  /** The indices of all detectable events. */
  function Selected(cat: Catalog): seq<nat>
    requires cat.WellFormed()
  {
    SelectedUpTo(cat, cat.Size())
  }

  /** An index is selected exactly when it is a valid event index and the
      event is detectable. */
  lemma {:induction false} SelectedUpToMembers(cat: Catalog, m: nat)
    requires cat.WellFormed() && m <= cat.Size()
    ensures forall k: nat :: k in SelectedUpTo(cat, m) <==> k < m && Detectable(cat, k)
  {
    if m > 0 {
      SelectedUpToMembers(cat, m - 1);
    }
  }

  lemma SelectedMembers(cat: Catalog)
    requires cat.WellFormed()
    ensures forall k: nat :: k in Selected(cat) <==> k < cat.Size() && Detectable(cat, k)
  {
    SelectedUpToMembers(cat, cat.Size());
  }

  /** The selected indices are strictly increasing. */
  lemma {:induction false} SelectedUpToIncreasing(cat: Catalog, m: nat)
    requires cat.WellFormed() && m <= cat.Size()
    ensures forall a, b :: 0 <= a < b < |SelectedUpTo(cat, m)| ==> SelectedUpTo(cat, m)[a] < SelectedUpTo(cat, m)[b]
  {
    if m > 0 {
      SelectedUpToIncreasing(cat, m - 1);
      SelectedUpToMembers(cat, m - 1);
      var prev := SelectedUpTo(cat, m - 1);
      assert forall a :: 0 <= a < |prev| ==> prev[a] in prev;
    }
  }

  /** An image SNR exactly at the cut rejects the event: the comparison is strict. */
  lemma SnrAtCutRejects(cat: Catalog, k: nat, image: nat)
    requires cat.WellFormed() && k < cat.Size() && image < SavedImages
    requires cat.snrs[k][image] == SnrCut
    ensures k !in Selected(cat)
  {
    SelectedMembers(cat);
  }

  /** The fifth image's SNR plays no part in the selection: catalogues that
      agree on the image counts and on the first four SNR columns select the
      same events. */
  lemma {:induction false} FifthSnrIgnored(cat: Catalog, other: Catalog, m: nat)
    requires cat.WellFormed() && other.WellFormed() && m <= cat.Size()
    requires other.nImages == cat.nImages
    requires forall k, c :: 0 <= k < cat.Size() && 0 <= c < SavedImages ==> other.snrs[k][c] == cat.snrs[k][c]
    ensures SelectedUpTo(other, m) == SelectedUpTo(cat, m)
  {
    if m > 0 {
      FifthSnrIgnored(cat, other, m - 1);
      assert Detectable(other, m - 1) == Detectable(cat, m - 1);
    }
  }

  /** `rows[idx][:, c]` for `c = 0 .. 3`: one sequence per saved image, each
      with one entry per selected index. */
  function ImageColumns(rows: seq<seq<real>>, idx: seq<nat>): (cols: seq<seq<real>>)
    requires forall k :: 0 <= k < |idx| ==> idx[k] < |rows| && |rows[idx[k]]| == MaxImages
    ensures |cols| == SavedImages
    ensures forall c :: 0 <= c < SavedImages ==> |cols[c]| == |idx|
    ensures forall c, k :: 0 <= c < SavedImages && 0 <= k < |idx| ==> cols[c][k] == rows[idx[k]][c]
  {
    seq(SavedImages, c requires 0 <= c < SavedImages =>
      seq(|idx|, k requires 0 <= k < |idx| => rows[idx[k]][c]))
  }

  /** What the script keeps: the selected indices, `mu0 .. mu3` and `td0 .. td3`. */
  datatype Kept = Kept(idx: seq<nat>, mu: seq<seq<real>>, td: seq<seq<real>>)

  function Keep(cat: Catalog): (r: Kept)
    requires cat.WellFormed()
    ensures r.idx == Selected(cat)
    ensures |r.mu| == SavedImages && |r.td| == SavedImages
  {
    var idx := Selected(cat);
    Kept(idx, ImageColumns(cat.magnifications, idx), ImageColumns(cat.timeDelays, idx))
  }

  /** Every detectable event, and no other, appears among the kept rows, and at
      its position each `mu_c` and `td_c` holds that event's value for image `c`. */
  lemma KeptRowsOfDetectable(cat: Catalog, k: nat)
    requires cat.WellFormed() && k < cat.Size()
    ensures Detectable(cat, k) <==> exists p :: 0 <= p < |Keep(cat).idx| && Keep(cat).idx[p] == k
    ensures forall p :: 0 <= p < |Keep(cat).idx| && Keep(cat).idx[p] == k ==>
      forall c :: 0 <= c < SavedImages ==>
        Keep(cat).mu[c][p] == cat.magnifications[k][c] && Keep(cat).td[c][p] == cat.timeDelays[k][c]
  {
    SelectedMembers(cat);
    var idx := Keep(cat).idx;
    assert Detectable(cat, k) <==> k in idx;
  }

  /** The bookkeeping arrays, in the order they are saved and in the order of
      the label list built for the text file. */
  const Bookkeeping: seq<string> :=
    ["idx", "snr0", "snr1", "snr2", "snr3", "snr4",
     "mu0", "mu1", "mu2", "mu3", "td0", "td1", "td2", "td3"]

  /** The keys dropped when the gravitational-wave parameters are rebuilt from
      the reloaded archive, in the order the reload lists them. */
  const ReloadDropped: seq<string> :=
    ["idx", "mu0", "mu1", "mu2", "mu3", "td0", "td1", "td2", "td3",
     "snr0", "snr1", "snr2", "snr3", "snr4"]

  /** Both lists name the same fourteen distinct keys. */
  lemma BookkeepingIsReloadDropped()
    ensures |Bookkeeping| == |ReloadDropped| == 14
    ensures forall x :: x in Bookkeeping <==> x in ReloadDropped
    ensures forall a, b :: 0 <= a < b < |Bookkeeping| ==> Bookkeeping[a] != Bookkeeping[b]
  {
  }

  /** One named array of an archive. */
  datatype Entry = Entry(key: string, values: seq<real>)

  function Keys(entries: seq<Entry>): (keys: seq<string>)
    ensures |keys| == |entries| && forall k :: 0 <= k < |entries| ==> keys[k] == entries[k].key
  {
    if entries == [] then [] else [entries[0].key] + Keys(entries[1..])
  }

  /** The gravitational-wave parameters of the simulator: a dictionary, so no
      key twice, and none of its keys a bookkeeping name (saving passes both as
      keyword arguments, and a repeated keyword is an error). */
  predicate SavableParameters(gw: seq<Entry>)
  {
    && (forall a, b :: 0 <= a < b < |gw| ==> gw[a].key != gw[b].key)
    && (forall k :: 0 <= k < |gw| ==> gw[k].key !in Bookkeeping)
  }

  /** The archive written by `np.savez`: the bookkeeping arrays under their
      names, then the gravitational-wave parameters, in keyword order. */
  function Archive(book: seq<seq<real>>, gw: seq<Entry>): (archive: seq<Entry>)
    requires |book| == |Bookkeeping|
    ensures Keys(archive) == Bookkeeping + Keys(gw)
    ensures forall k :: 0 <= k < |book| ==> archive[k].values == book[k]
    ensures archive[|book|..] == gw
  {
    KeysAppend(BookkeepingEntries(book), gw);
    BookkeepingEntries(book) + gw
  }

  /** The bookkeeping arrays under their names: `idx` under "idx", and so on. */
  function BookkeepingEntries(book: seq<seq<real>>): (head: seq<Entry>)
    requires |book| == |Bookkeeping|
    ensures Keys(head) == Bookkeeping
    ensures |head| == |book| && forall k :: 0 <= k < |head| ==> head[k].values == book[k]
  {
    seq(|Bookkeeping|, k requires 0 <= k < |Bookkeeping| => Entry(Bookkeeping[k], book[k]))
  }

  /** The keys of two archives written one after the other. */
  lemma {:induction false} KeysAppend(front: seq<Entry>, back: seq<Entry>)
    ensures Keys(front + back) == Keys(front) + Keys(back)
  {
    if |front| > 0 {
      var all := front + back;
      assert all[1..] == front[1..] + back;
      assert all[0] == front[0];
      KeysAppend(front[1..], back);
      assert Keys(all) == [front[0].key] + Keys(front[1..] + back);
    }
  }

  /** The entries whose keys are not in `dropped`, in their original order. */
  function Drop(entries: seq<Entry>, dropped: seq<string>): (kept: seq<Entry>)
    ensures |kept| <= |entries|
    ensures forall e :: e in kept ==> e in entries && e.key !in dropped
  {
    if entries == [] then []
    else if entries[0].key in dropped then Drop(entries[1..], dropped)
    else [entries[0]] + Drop(entries[1..], dropped)
  }

  /** The reloaded gravitational-wave parameters: every entry of the archive
      whose key is not a bookkeeping name, in archive order. */
  function GwParameters(archive: seq<Entry>): seq<Entry>
  {
    Drop(archive, ReloadDropped)
  }

  /** The kept keys are exactly the keys not dropped. */
  lemma {:induction false} DropKeys(entries: seq<Entry>, dropped: seq<string>)
    ensures forall x :: x in Keys(Drop(entries, dropped)) <==> x in Keys(entries) && x !in dropped
  {
    if entries != [] {
      var rest := Drop(entries[1..], dropped);
      DropKeys(entries[1..], dropped);
      if entries[0].key in dropped {
        assert Drop(entries, dropped) == rest;
      } else {
        assert Drop(entries, dropped) == [entries[0]] + rest;
        assert ([entries[0]] + rest)[1..] == rest;
      }
    }
  }

  /** The reloaded keys are exactly the archive's keys minus the fourteen
      bookkeeping names. */
  lemma GwParametersKeys(archive: seq<Entry>)
    ensures forall x :: x in Keys(GwParameters(archive)) <==> x in Keys(archive) && x !in ReloadDropped
  {
    DropKeys(archive, ReloadDropped);
  }

  /** Dropping distributes over concatenation: the relative order of the
      entries is kept. */
  lemma {:induction false} DropAppend(front: seq<Entry>, back: seq<Entry>, dropped: seq<string>)
    ensures Drop(front + back, dropped) == Drop(front, dropped) + Drop(back, dropped)
  {
    if front != [] {
      assert (front + back)[1..] == front[1..] + back;
      DropAppend(front[1..], back, dropped);
    } else {
      assert front + back == back;
    }
  }

  /** Entries whose keys are not dropped all survive, in order. */
  lemma {:induction false} DropKeepsOthers(entries: seq<Entry>, dropped: seq<string>)
    requires forall k :: 0 <= k < |entries| ==> entries[k].key !in dropped
    ensures Drop(entries, dropped) == entries
  {
    if entries != [] {
      DropKeepsOthers(entries[1..], dropped);
      assert [entries[0]] + entries[1..] == entries;
    }
  }

  /** Entries whose keys are dropped are all gone. */
  lemma {:induction false} DropRemovesDropped(entries: seq<Entry>, dropped: seq<string>)
    requires forall k :: 0 <= k < |entries| ==> entries[k].key in dropped
    ensures Drop(entries, dropped) == []
  {
    if entries != [] {
      DropRemovesDropped(entries[1..], dropped);
    }
  }

  /** Saving and reloading gives back the gravitational-wave parameters,
      keys, arrays and order. */
  lemma ReloadRoundTrip(book: seq<seq<real>>, gw: seq<Entry>)
    requires |book| == |Bookkeeping| && SavableParameters(gw)
    ensures GwParameters(Archive(book, gw)) == gw
  {
    BookkeepingIsReloadDropped();
    var head := BookkeepingEntries(book);
    assert Archive(book, gw) == head + gw;
    DropAppend(head, gw, ReloadDropped);
    assert forall k :: 0 <= k < |head| ==> head[k].key in ReloadDropped by {
      forall k | 0 <= k < |head| ensures head[k].key in ReloadDropped {
        assert head[k].key == Keys(head)[k] == Bookkeeping[k];
      }
    }
    DropRemovesDropped(head, ReloadDropped);
    assert forall k :: 0 <= k < |gw| ==> gw[k].key !in ReloadDropped;
    DropKeepsOthers(gw, ReloadDropped);
  }

  /** The label list built for the header of the text file: the bookkeeping
      names, then the gravitational-wave parameter names in dictionary order. */
  function Labels(gw: seq<Entry>): seq<string>
  {
    Bookkeeping + Keys(gw)
  }

  /** The label list built after a save and reload holds the fourteen
      bookkeeping names followed by exactly the simulator's parameter names. */
  lemma HeaderAfterReload(book: seq<seq<real>>, gw: seq<Entry>)
    requires |book| == |Bookkeeping| && SavableParameters(gw)
    ensures |Labels(GwParameters(Archive(book, gw)))| == |Bookkeeping| + |gw|
    ensures Labels(GwParameters(Archive(book, gw)))[..|Bookkeeping|] == Bookkeeping
    ensures forall k :: 0 <= k < |gw| ==> Labels(GwParameters(Archive(book, gw)))[|Bookkeeping| + k] == gw[k].key
  {
    ReloadRoundTrip(book, gw);
    assert GwParameters(Archive(book, gw)) == gw;
    assert Labels(gw) == Bookkeeping + Keys(gw);
  }
}
