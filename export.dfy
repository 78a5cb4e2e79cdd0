/** `processAll`, `tryNext` and `runOne` (app.js): the export of every
    selected file, one after the other. The callbacks that chain the items
    are written here as one loop over the item indices; the platform's
    answers (the encoded blob, the share sheet's result) are inputs. */
module Export {
  import opened Wrappers
  import opened Frame
  import opened Compose
  import opened Naming
  import opened Ratio

  /** What `canvas.toBlob` delivered, and for a blob, whether the share
      sheet took the file. */
  datatype Encoding = NullBlob | Blob(shareAccepted: bool)

  /** One selected file: its name, its image (`file._img`) and what the
      platform does with its canvas. */
  datatype Item = Item(name: string, image: Option<Source>, encoding: Encoding)

  /** How a file left the page. */
  datatype Delivery = SharedToPhotos | Downloaded

  /** A file handed to the share sheet or to a download. */
  datatype Saved = Saved(index: nat, name: string, via: Delivery)

  /** Where the batch ends: a missing ratio, no files, the final count, or
      waiting for ever on file `waitingFor`, whose image never arrives
      (`tryNext` polls for it every 50 ms), with `done` files counted. */
  datatype Status = NeedRatio | NeedImages | Finished(toPhotos: bool, done: nat)
                  | Stalled(waitingFor: nat, done: nat)

  /** Every image that is present has been decoded. */
  predicate Ready(items: seq<Item>)
  {
    forall i :: 0 <= i < |items| && items[i].image.Some? ==> Decoded(items[i].image.value)
  }

  /** `runOne`, reached once the item's image is there, moves `done` on
      unless the encoding gave no blob. */
  predicate Counted(item: Item)
  {
    item.encoding.Blob?
  }

  /** The file `runOne` saves for item `index`, if it saves one: the name
      uses the size of the canvas `drawResult` returns, and a share that
      fails falls back to a download. */
  function SavedFile(item: Item, index: nat, r: real, bgMode: string, useShare: bool): (s: Option<Saved>)
    requires r != 0.0 && (item.image.Some? ==> Decoded(item.image.value))
    ensures s.Some? <==> item.image.Some? && item.encoding.Blob?
    ensures s.Some? ==> s.value.index == index
  {
    match item.image
    case None => None
    case Some(img) =>
      var canvas := DrawResult(img, r, bgMode, None, None).result;
      match item.encoding
      case NullBlob => None
      case Blob(accepted) =>
        Some(Saved(index, OutputName(item.name, canvas.width, canvas.height),
                   if useShare && accepted then SharedToPhotos else Downloaded))
  }

  /** The saved file is named after the frame `canvasSize` gives the image,
      and it goes to Photos exactly when sharing is on and the share sheet
      takes it. */
  lemma SavedFileContents(item: Item, index: nat, r: real, bgMode: string, useShare: bool)
    requires r != 0.0 && item.image.Some? && Decoded(item.image.value) && item.encoding.Blob?
    ensures var s := SavedFile(item, index, r, bgMode, useShare);
      var frame := CanvasSize(SourceWidth(item.image.value), SourceHeight(item.image.value), r);
      && s.Some?
      && s.value.name == OutputName(item.name, frame.width, frame.height)
      && (s.value.via == SharedToPhotos <==> useShare && item.encoding.shareAccepted)
  {
    ExportGetsFrame(item.image.value, r, bgMode);
  }

  /** The value of `done` once the first `|items|` items have run. */
  function Done(items: seq<Item>): nat
  {
    if items == [] then 0
    else Done(items[..|items| - 1]) + if Counted(items[|items| - 1]) then 1 else 0
  }

  /** The files saved, in order, once the first `|items|` items have run. */
  function Saves(items: seq<Item>, r: real, bgMode: string, useShare: bool): seq<Saved>
    requires r != 0.0 && Ready(items)
  {
    if items == [] then []
    else
      var n := |items| - 1;
      Saves(items[..n], r, bgMode, useShare) +
        match SavedFile(items[n], n, r, bgMode, useShare)
        case None => []
        case Some(s) => [s]
  }

  /** The indices `0, 1, ..., n - 1`. */
  function Upto(n: nat): (s: seq<nat>)
    ensures |s| == n && forall j :: 0 <= j < n ==> s[j] == j
  {
    seq(n, j => j)
  }

  /** `processAll()`, with `ratio` the result of `getTargetRatio()` and
      `useShare` that of `canShareFile()`. Returns where the batch ends, the
      indices in the order `runOne` handled them, and the files saved. */
  method ProcessAll(ratio: Option<real>, bgMode: string, useShare: bool, files: array<Item>)
    returns (status: Status, visited: seq<nat>, saved: seq<Saved>)
    requires Ready(files[..])
    ensures !TruthyRatio(ratio) ==> status == NeedRatio && visited == [] && saved == []
    ensures TruthyRatio(ratio) && files.Length == 0 ==> status == NeedImages && visited == [] && saved == []
    // the batch runs up to the first file whose image never arrives
    ensures TruthyRatio(ratio) && files.Length > 0 ==>
      && (status.Finished? || (status.Stalled? && status.waitingFor < files.Length))
      && var m := if status.Stalled? then status.waitingFor else files.Length;
      && AllPresent(files[..m])
      && (status.Stalled? ==> files[m].image.None?)
      && (status.Finished? ==> status.toPhotos == useShare)
      && status.done == Done(files[..m])
      && visited == Upto(m)
      && saved == Saves(files[..m], ratio.value, bgMode, useShare)
  {
    if ratio.None? || ratio.value == 0.0 {
      return NeedRatio, [], [];
    }
    if files.Length == 0 {
      return NeedImages, [], [];
    }
    var r := ratio.value;
    var items := files[..];
    var done := 0;
    var total := files.Length;
    var i := 0;
    visited, saved := [], [];
    while i < total && items[i].image.Some?
      invariant 0 <= i <= total
      invariant AllPresent(items[..i])
      invariant done == Done(items[..i])
      invariant visited == Upto(i)
      invariant saved == Saves(items[..i], r, bgMode, useShare)
    {
      var counted, out := RunOne(items[i], i, r, bgMode, useShare);
      BatchStep(items, i, r, bgMode, useShare, counted, out);
      PresentStep(items, i);
      UptoStep(i);
      if counted {
        done := done + 1;
      }
      saved := saved + match out case None => [] case Some(f) => [f];
      visited := visited + [i];
      i := i + 1;
    }
    if i == total {
      assert items[..total] == items;
      status := Finished(useShare, done);
    } else {
      status := Stalled(i, done);
    }
  }

  /** Every item's image is there. */
  predicate AllPresent(items: seq<Item>)
  {
    forall j :: 0 <= j < |items| ==> items[j].image.Some?
  }

  lemma PresentStep(items: seq<Item>, i: nat)
    requires i < |items| && AllPresent(items[..i]) && items[i].image.Some?
    ensures AllPresent(items[..i + 1])
  {
    assert forall j :: 0 <= j < i ==> items[..i + 1][j] == items[..i][j];
  }

  lemma UptoStep(i: nat)
    ensures Upto(i) + [i] == Upto(i + 1)
  {
  }

  /** Running item `i` moves `done` and the saved files from the first `i`
      items to the first `i + 1`. */
  lemma BatchStep(items: seq<Item>, i: nat, r: real, bgMode: string, useShare: bool,
                  counted: bool, out: Option<Saved>)
    requires r != 0.0 && Ready(items) && i < |items|
    requires counted == Counted(items[i]) && out == SavedFile(items[i], i, r, bgMode, useShare)
    ensures Ready(items[..i]) && Ready(items[..i + 1])
    ensures Done(items[..i + 1]) == Done(items[..i]) + if counted then 1 else 0
    ensures Saves(items[..i + 1], r, bgMode, useShare) ==
      Saves(items[..i], r, bgMode, useShare) + match out case None => [] case Some(f) => [f]
  {
    ReadyPrefix(items, i);
    ReadyPrefix(items, i + 1);
    SavesStep(items[..i + 1], r, bgMode, useShare);
    assert items[..i + 1][..i] == items[..i];
  }

  /** A prefix of a ready batch is ready. */
  lemma ReadyPrefix(items: seq<Item>, n: nat)
    requires Ready(items) && n <= |items|
    ensures Ready(items[..n])
  {
    assert forall j :: 0 <= j < n ==> items[..n][j] == items[j];
  }

  /** `runOne(i, next)` for an item whose image is there: draws the
      frame, names the file and saves it unless the encoding gave no blob.
      Returns whether `done` moves on and the file saved, if any. The body
      takes `runOne`'s steps in order; `SavedFile` is the function that
      specifies them, and the one `Saves` and the lemmas reason about. */
  method RunOne(file: Item, i: nat, r: real, bgMode: string, useShare: bool)
    returns (counted: bool, out: Option<Saved>)
    requires r != 0.0 && file.image.Some? && Decoded(file.image.value)
    ensures counted == Counted(file)
    ensures out == SavedFile(file, i, r, bgMode, useShare)
  {
    // `tryNext` only calls `runOne` once the image is there, so `runOne`'s
    // `!img` branch never runs; `drawResult` always returns a canvas, so
    // neither does its `!canvas` branch
    var img := file.image.value;
    var canvas := DrawResult(img, r, bgMode, None, None).result;
    var name := OutputName(file.name, canvas.width, canvas.height);
    match file.encoding {
      case NullBlob =>
        counted, out := false, None;
      case Blob(accepted) =>
        var via := if useShare && accepted then SharedToPhotos else Downloaded;
        counted, out := true, Some(Saved(i, name, via));
    }
  }

  /** The indices of the items whose encoding gave no blob. */
  function Failed(items: seq<Item>): set<nat>
  {
    set i: nat | i < |items| && !Counted(items[i])
  }

  /** `done` ends at the number of items minus those whose blob was null. */
  lemma {:induction false} DoneCountsAllButFailures(items: seq<Item>)
    ensures Done(items) == |items| - |Failed(items)|
    ensures Done(items) <= |items|
  {
    if items != [] {
      var n := |items| - 1;
      var front := items[..n];
      DoneCountsAllButFailures(front);
      assert forall i :: 0 <= i < n ==> front[i] == items[i];
      if Counted(items[n]) {
        assert Failed(items) == Failed(front);
      } else {
        assert Failed(items) == Failed(front) + {n};
      }
    }
  }

  /** With exactly one null blob, at index `k`, the batch goes on past it and
      ends with `done` one short of the total. */
  lemma OneFailureCountsTheRest(items: seq<Item>, k: nat)
    requires k < |items| && !Counted(items[k])
    requires forall i :: 0 <= i < |items| && i != k ==> Counted(items[i])
    ensures Done(items) == |items| - 1
  {
    DoneCountsAllButFailures(items);
    assert Failed(items) == {k};
  }

  /** Whether the share sheet takes a file or not, the item counts the same;
      a refused share is saved by download instead. */
  lemma ShareFailureStillCounts(item: Item, index: nat, r: real, bgMode: string)
    requires r != 0.0 && item.image.Some? && Decoded(item.image.value) && item.encoding.Blob?
    ensures Counted(item) && Counted(item.(encoding := Blob(!item.encoding.shareAccepted)))
    ensures !item.encoding.shareAccepted ==>
      SavedFile(item, index, r, bgMode, true).value.via == Downloaded
  {
  }

  /** One more item adds its saved file, if any, at the end. */
  lemma SavesStep(items: seq<Item>, r: real, bgMode: string, useShare: bool)
    requires r != 0.0 && Ready(items) && items != []
    ensures var n := |items| - 1;
      && Ready(items[..n])
      && (forall i :: 0 <= i < n ==> items[..n][i] == items[i])
      && Saves(items, r, bgMode, useShare) ==
           Saves(items[..n], r, bgMode, useShare) +
           (match SavedFile(items[n], n, r, bgMode, useShare) case None => [] case Some(f) => [f])
  {
  }

  /** Each saved file is the one `runOne` saves for the item it names. */
  lemma {:induction false} SavesMatchItems(items: seq<Item>, r: real, bgMode: string, useShare: bool)
    requires r != 0.0 && Ready(items)
    ensures var s := Saves(items, r, bgMode, useShare);
      forall k :: 0 <= k < |s| ==>
        s[k].index < |items| && Some(s[k]) == SavedFile(items[s[k].index], s[k].index, r, bgMode, useShare)
  {
    if items != [] {
      var n := |items| - 1;
      SavesStep(items, r, bgMode, useShare);
      SavesMatchItems(items[..n], r, bgMode, useShare);
      var s, s0 := Saves(items, r, bgMode, useShare), Saves(items[..n], r, bgMode, useShare);
      forall k | 0 <= k < |s|
        ensures s[k].index < |items| && Some(s[k]) == SavedFile(items[s[k].index], s[k].index, r, bgMode, useShare)
      {
        if k < |s0| {
          assert s[k] == s0[k];
          assert items[..n][s0[k].index] == items[s0[k].index];
        } else {
          assert Some(s[k]) == SavedFile(items[n], n, r, bgMode, useShare);
        }
      }
    }
  }

  /** The saved files come in ascending item order. */
  lemma {:induction false} SavesAscending(items: seq<Item>, r: real, bgMode: string, useShare: bool)
    requires r != 0.0 && Ready(items)
    ensures var s := Saves(items, r, bgMode, useShare);
      forall k, l :: 0 <= k < l < |s| ==> s[k].index < s[l].index
  {
    if items != [] {
      var n := |items| - 1;
      SavesStep(items, r, bgMode, useShare);
      SavesAscending(items[..n], r, bgMode, useShare);
      SavesMatchItems(items[..n], r, bgMode, useShare);
    }
  }

  /** Every item with an image and a blob has its file saved: this is where
      it stands among the saved files. */
  lemma {:induction false} SavedPosition(items: seq<Item>, r: real, bgMode: string, useShare: bool, i: nat)
    returns (k: nat)
    requires r != 0.0 && Ready(items)
    requires i < |items| && items[i].image.Some? && items[i].encoding.Blob?
    ensures var s := Saves(items, r, bgMode, useShare); k < |s| && s[k].index == i
  {
    var n := |items| - 1;
    SavesStep(items, r, bgMode, useShare);
    var s0 := Saves(items[..n], r, bgMode, useShare);
    var f := SavedFile(items[n], n, r, bgMode, useShare);
    if i == n {
      assert f.Some? && f.value.index == n;
      k := |s0|;
    } else {
      assert items[..n][i] == items[i];
      k := SavedPosition(items[..n], r, bgMode, useShare, i);
      assert Saves(items, r, bgMode, useShare)[k] == s0[k];
    }
  }

  /** Every item counts when no encoding fails. */
  lemma NoFailureCountsAll(items: seq<Item>)
    requires forall i :: 0 <= i < |items| ==> Counted(items[i])
    ensures Done(items) == |items|
  {
    DoneCountsAllButFailures(items);
    assert Failed(items) == {};
  }
}
