/**
 * The extraction loop of `PdfExtractor.extract`: pages in order, the images
 * of each page in order, a page counter and an image counter, error records
 * at three levels, two cancellation polls per image and numbered PNG output.
 *
 * A run is described twice: by `RunDocument`, a fold that follows the loop
 * statement by statement (and that the method `Extract` is proved to
 * compute), and by `Expected`, the effects of a run that is never cancelled,
 * written page by page with one effect per image. `RunOutcome` ties the two.
 */
module PdfExtractor {
  import opened Decimal
  import opened PdfImages

  /** One item yielded by a page's image enumeration. */
  datatype Entry =
    | Missing                                   // a null image: could not be decoded
    | Broken                                    // an image that throws before it is saved
    | Decoded(image: Image, saveFails: bool)     // a decoded image; `saveFails`: the save throws

  /** A page: the images its enumeration yields, then possibly an enumeration failure. */
  datatype Page = Page(entries: seq<Entry>, enumFails: bool)

  /** The two points per image where the cancellation token is polled. */
  datatype Checkpoint = BeforeProcessing | BeforeSaving

  datatype ExtractError =
    | CannotDecode(page: nat)
    | CouldNotProcess(page: nat)
    | CouldNotExtract(page: nat)

  /** What a run does, in order: progress reports, error reports and files written. */
  datatype Effect =
    | Progress(page: nat, pages: nat)
    | Error(error: ExtractError)
    | Write(counter: nat, image: ImageData)   // the file `FileName(counter)` in the output folder

  /** The loop's variables: the two counters, what has happened so far, and whether it returned false. */
  datatype Acc = Acc(pageCounter: nat, imageCounter: nat, trace: seq<Effect>, cancelled: bool)

  function Message(e: ExtractError): string {
    match e
    case CannotDecode(p) => "Cannot decode image on page " + NatToString(p)
    case CouldNotProcess(p) => "Couldn't process image on page " + NatToString(p)
    case CouldNotExtract(p) => "Couldn't extract image on page " + NatToString(p)
  }

  /** `string.Format("{0:000}.png", imageCounter)`. */
  function FileName(counter: nat): string {
    Pad3(counter) + ".png"
  }

  /** The image as it is saved: the polarity check runs on 1-bpp images only. */
  function Processed(d: Image): ImageData
  {
    if d.format == Format1bppIndexed then Corrected(d) else d
  }

  /** One of the two polls for image number `n` reports cancellation. */
  predicate Fired(cancel: set<(nat, Checkpoint)>, n: nat, e: Entry) {
    (n, BeforeProcessing) in cancel || (e.Decoded? && (n, BeforeSaving) in cancel)
  }

  /** The one effect of image number `n` on page `page` when the run is not cancelled there. */
  function EntryEffect(e: Entry, page: nat, n: nat): Effect
  {
    match e
    case Missing => Error(CannotDecode(page))
    case Broken => Error(CouldNotProcess(page))
    case Decoded(d, saveFails) =>
      if saveFails then Error(CouldNotProcess(page)) else Write(n, Processed(d))
  }

  /** One pass of the inner loop body; the `finally` bumps the image counter on every path. */
  function StepEntry(e: Entry, acc: Acc, cancel: set<(nat, Checkpoint)>): Acc
  {
    var n := acc.imageCounter;
    var done := acc.(imageCounter := n + 1);
    if Fired(cancel, n, e) then done.(cancelled := true)
    else done.(trace := acc.trace + [EntryEffect(e, acc.pageCounter, n)])
  }

  function RunEntries(es: seq<Entry>, acc: Acc, cancel: set<(nat, Checkpoint)>): Acc
  {
    if es == [] || acc.cancelled then acc
    else RunEntries(es[1..], StepEntry(es[0], acc, cancel), cancel)
  }

  /** One pass of the outer loop body: count the page, report progress, run its images. */
  function StepPage(p: Page, pageCount: nat, acc: Acc, cancel: set<(nat, Checkpoint)>): Acc
  {
    var pageNo := acc.pageCounter + 1;
    var started := acc.(pageCounter := pageNo, trace := acc.trace + [Progress(pageNo, pageCount)]);
    var after := RunEntries(p.entries, started, cancel);
    if !after.cancelled && p.enumFails then after.(trace := after.trace + [Error(CouldNotExtract(pageNo))])
    else after
  }

  function RunPages(ps: seq<Page>, pageCount: nat, acc: Acc, cancel: set<(nat, Checkpoint)>): Acc
  {
    if ps == [] || acc.cancelled then acc
    else RunPages(ps[1..], pageCount, StepPage(ps[0], pageCount, acc, cancel), cancel)
  }

  /** `extract` from its initial state: `pageCounter = 0`, `imageCounter = 1`. */
  function RunDocument(doc: seq<Page>, cancel: set<(nat, Checkpoint)>): Acc
  {
    RunPages(doc, |doc|, Acc(0, 1, [], false), cancel)
  }

  /** All images of a run of pages, in enumeration order. */
  function Flat(ps: seq<Page>): seq<Entry> {
    if ps == [] then [] else ps[0].entries + Flat(ps[1..])
  }

  /** Reference: the effects of the images `es`, numbered from `n`, one per image. */
  function EntriesEffects(es: seq<Entry>, page: nat, n: nat): (r: seq<Effect>)
    ensures |r| == |es|
  {
    seq(|es|, k requires 0 <= k < |es| => EntryEffect(es[k], page, n + k))
  }

  /** Reference: the effects of one page that is not cancelled. */
  function PageEffects(p: Page, pageNo: nat, pageCount: nat, n: nat): seq<Effect>
  {
    [Progress(pageNo, pageCount)] + EntriesEffects(p.entries, pageNo, n)
      + (if p.enumFails then [Error(CouldNotExtract(pageNo))] else [])
  }

  /** Reference: the effects of pages `ps`, after `before` pages and with the next image numbered `n`. */
  function DocumentEffects(ps: seq<Page>, pageCount: nat, before: nat, n: nat): seq<Effect>
  {
    if ps == [] then [] else
      var first := PageEffects(ps[0], before + 1, pageCount, n);
      first + DocumentEffects(ps[1..], pageCount, before + 1, n + |ps[0].entries|)
  }

  /** Reference: everything a never-cancelled run of the whole document does. */
  function Expected(doc: seq<Page>): seq<Effect>
  {
    DocumentEffects(doc, |doc|, 0, 1)
  }

  /**
   * `extract` on an opened document. The output folder, opening the PDF and
   * the image codec are outside; the poll at checkpoint `c` of image number
   * `n` reports cancellation exactly when `(n, c)` is in `cancel`. Returns the
   * result and the effects.
   */
  method Extract(doc: seq<Page>, cancel: set<(nat, Checkpoint)>) returns (ok: bool, trace: seq<Effect>)
    ensures ok == !RunDocument(doc, cancel).cancelled
    ensures trace == RunDocument(doc, cancel).trace
  {
    var pageCount := |doc|;
    var pageCounter := 0;
    var imageCounter := 1;
    trace := [];
    var i := 0;
    while i < |doc|
      invariant 0 <= i <= |doc|
      invariant RunPages(doc[i..], pageCount, Acc(pageCounter, imageCounter, trace, false), cancel)
             == RunDocument(doc, cancel)
    {
      var page := doc[i];
      assert doc[i..][1..] == doc[i + 1..];
      ghost var before := Acc(pageCounter, imageCounter, trace, false);
      pageCounter := pageCounter + 1;
      trace := trace + [Progress(pageCounter, pageCount)];
      ghost var started := Acc(pageCounter, imageCounter, trace, false);
      var j := 0;
      while j < |page.entries|
        invariant 0 <= j <= |page.entries|
        invariant RunEntries(page.entries[j..], Acc(pageCounter, imageCounter, trace, false), cancel)
               == RunEntries(page.entries, started, cancel)
      {
        var entry := page.entries[j];
        assert page.entries[j..][1..] == page.entries[j + 1..];
        ghost var acc := Acc(pageCounter, imageCounter, trace, false);
        var stop := false;
        if (imageCounter, BeforeProcessing) in cancel {
          stop := true;
        } else {
          match entry
          case Missing =>
            trace := trace + [Error(CannotDecode(pageCounter))];
          case Broken =>
            trace := trace + [Error(CouldNotProcess(pageCounter))];
          case Decoded(d, saveFails) =>
            var img := new Bitmap(d);
            if img.format == Format1bppIndexed {
              img.CheckNegative();
            }
            if (imageCounter, BeforeSaving) in cancel {
              stop := true;
            } else if saveFails {
              trace := trace + [Error(CouldNotProcess(pageCounter))];
            } else {
              trace := trace + [Write(imageCounter, img.Data())];
            }
        }
        imageCounter := imageCounter + 1;
        if stop {
          ghost var stopped := Acc(pageCounter, imageCounter, trace, true);
          assert StepEntry(entry, acc, cancel) == stopped;
          assert RunEntries(page.entries, started, cancel) == stopped;
          assert StepPage(page, pageCount, before, cancel) == stopped;
          assert RunPages(doc[i + 1..], pageCount, stopped, cancel) == stopped;
          return false, trace;
        }
        assert StepEntry(entry, acc, cancel) == Acc(pageCounter, imageCounter, trace, false);
        j := j + 1;
      }
      if page.enumFails {
        trace := trace + [Error(CouldNotExtract(pageCounter))];
      }
      assert StepPage(page, pageCount, before, cancel) == Acc(pageCounter, imageCounter, trace, false);
      i := i + 1;
    }
    return true, trace;
  }
}
